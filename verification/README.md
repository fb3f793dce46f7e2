# Message box: a Dafny model

The system is a pair of Linux system calls, `sys_messageboxput` and
`sys_messageboxget`, sharing one kernel-wide last-in-first-out stack of
variable-length byte messages. Each message is a `msg_t` node (`previous`,
`length`, `message`) allocated with `kmalloc`; the globals `top` and `bottom`
point at the newest node and at the node linked by the first successful put.
Put validates the length, allocates the node and its payload, disables local
interrupts, checks the user address, copies the bytes in and links the node.
Get checks that `top` is non-NULL, disables interrupts, checks the capacity
and the address, copies the top payload out, then unlinks and frees the node.

The model has two layers.

- `MessageBox` (message_box.dfy) is the abstract state machine:
  `State(stack, bottomSet, irqOff)`, where `stack[0]` is the message at `top`,
  `bottomSet` records whether `bottom` is non-NULL, and `irqOff` is the
  interrupt mask. `Put` and `Get` are pure functions that make the source's
  checks in the source's order and return the new state, the status, and (for
  get) the bytes written to the caller's buffer.
- `LinkedBox` (linked_box.dfy) is the C data structure itself: nodes in a heap
  `map<nat, Node>`, `top` and `bottom` as pointers, freed nodes removed from
  the heap. `LinkedRefinement` (linked_refinement.dfy) proves that `LPut` and
  `LGet` keep the heap well formed and agree with `Put` and `Get` through the
  abstraction `Abs`.

`MessageBoxProps` (message_box_props.dfy) proves the properties that span
several calls: round trip, LIFO order, the smoke-test scenarios, the stale
`bottom`, and the message count after any sequence of calls.

Kernel services are oracle parameters, not effects:

- the two `kmalloc` results (abstract: success flags; linked: the node's
  returned address, NULL on failure, otherwise an address holding no live
  node, while the payload's is still a success flag);
- the `access_ok` verdict;
- the number of bytes `copy_from_user` / `copy_to_user` failed to copy;
- the user buffer's contents, `mem`, of which put copies the first `length` bytes.

Two behaviours of the source are modelled as written, not corrected:

- Every error return after `local_irq_save` leaves interrupts disabled. Put's
  `-EFAULT` and `-EMSGSIZE` exits and get's `-EINVAL`, `-EFAULT` and
  `-EMSGSIZE` exits return `irqOff = true`. Only the two success paths
  restore the saved flag.
- `bottom` is set by the first successful put and never cleared. After
  the box empties, `bottom` dangles (`DanglingBottom`). Emptiness is therefore
  `top == NULL`. The next put takes the else-branch with `previous = top = NULL`
  and still builds a one-message stack (`StaleBottom`). The invariant
  "`bottom == NULL` implies `top == NULL`" (`Inv`, part of `Valid`) is what
  makes both branches of the link put the new node directly above the old top.

Three behaviours one might expect are absent from `messagebox.c`, and the
model keeps the code's behaviour in each: get never clears `bottom`; error
exits after `local_irq_save` do not restore interrupts; and an empty box
returns the literal -1 rather than an errno.

Error numbers are the Linux ones: ENOMEM 12, EFAULT 14, EINVAL 22,
EMSGSIZE 90. Get on an empty box returns the literal -1.

## Model

| member | source | states |
|---|---|---|
| MessageBox.Link | messagebox.c:89-95 | the new payload becomes the top and `bottom` is set; when a NULL `bottom` implies an empty stack, both branches give the payload followed by the old stack |
| MessageBox.Put | messagebox.c:24-100 | status is 0, -EINVAL, -ENOMEM, -EFAULT or -EMSGSIZE. The order is: a negative length, then either allocation failing, then access_ok, then a partial copy. Success holds exactly when every step succeeds. A failed put leaves the stack and `bottom` unchanged. The checks before the interrupt save also leave the interrupt flag unchanged; the later failures leave it set. Success pushes exactly `mem[..length]` above the old stack and restores the flag. The invariant is preserved |
| MessageBox.Get | messagebox.c:108-163 | an empty stack gives -1 and no change at all. On a non-empty stack the order is: -EINVAL if capacity < top length, then -EFAULT, then -EMSGSIZE. A failure keeps the stack and leaves interrupts disabled. The capacity and address failures write nothing. A short copy writes at most a proper prefix of the message. The status is non-negative exactly when every check passes; then it returns the top's length, writes exactly the top payload, and leaves the tail of the stack with `bottom` and the flag unchanged. The invariant is preserved |
| MessageBoxProps.PutGetRoundTrip | messagebox.c:82-160 | a put followed by a get with capacity at least the length returns the length and exactly the bytes put. It restores the prior stack and interrupt flag |
| MessageBoxProps.LastInFirstOut | messagebox.c:89-154 | put A, put B, get, get yields B then A and restores the prior stack |
| MessageBoxProps.SmallBufferThenRetry | messagebox.c:126-160 | a capacity below the top length gives -EINVAL whatever the later oracles say and keeps the message; a following get with room delivers it |
| MessageBoxProps.EmptyGetIdempotent | messagebox.c:109-162 | two gets on an empty box both return -1 and leave the state untouched |
| MessageBoxProps.SmokeTestScenarios | testmsgbox.c:8-57 | the smoke test's three scenarios, in its order, give: 0 and then 5 with the string back; -22 for length -3; -22 for a one-byte get. The message is left stored with interrupts disabled |
| MessageBoxProps.StaleBottom | messagebox.c:89-95 | after a put and a get from the initial state the stack is empty but `bottom` is still set; the next put still yields a one-message stack |
| MessageBoxProps.ErrorsLeaveInterruptsDisabled | messagebox.c:24-152 | for every state, length, buffer and oracle answer: a put whose allocations succeed but whose address check or copy fails, and a get on a non-empty box that fails any of its checks, returns an error with interrupts disabled (whatever the flag was before) and the stored messages and `bottom` unchanged |
| MessageBoxProps.RunCount | messagebox.c:89-156 | any sequence of calls from a state satisfying the invariant keeps it. The stack grows by one per successful put and shrinks by one per successful get |
| MessageBoxProps.MessagesLeft | messagebox.c:16-160 | from the initial empty box, successful gets never outnumber successful puts, and the messages left are their difference |
| LinkedBox.Walk | messagebox.c:10-17 | following `previous` from a pointer yields addresses that are all live. The list is empty exactly for NULL and starts at the pointer's own address |
| LinkedBox.Abs | messagebox.c:16-17 | a well-formed pointer state maps to an abstract state satisfying the invariant. Its stack is empty exactly when `top` is NULL |
| LinkedBox.LPut | messagebox.c:24-100 | a failed put leaves heap, `top` and `bottom` untouched, so the allocated node is never linked. The checks before the interrupt save change nothing; the later failures leave interrupts disabled. A successful put adds the new node at an address that held no live node and leaves every other node as it was. The new node holds the copied bytes and length. The put makes it `top`, sets `bottom` to the new node when `bottom` was NULL and otherwise leaves it, and restores the interrupt flag. When a NULL `bottom` implies a NULL `top`, the node's `previous` is the old `top` |
| LinkedBox.LGet | messagebox.c:108-163 | a NULL `top` gives -1 and no change. A failed get on a non-empty box leaves the chain untouched and interrupts disabled; its capacity and address failures write nothing. A successful get writes the top node's payload, frees that node, moves `top` to its `previous`, and leaves `bottom` and the interrupt flag as they were |
| LinkedRefinement.InitRefines | messagebox.c:16-17 | the two NULL globals form a well-formed state whose abstraction is the empty box |
| LinkedRefinement.PushAbs | messagebox.c:89-95 | linking a fresh node above `top` keeps the chain well formed and pushes its payload on the abstract stack |
| LinkedRefinement.PopAbs | messagebox.c:154-156 | unlinking and freeing `top` keeps the chain well formed, with `bottom` possibly dangling, and pops the abstract stack |
| LinkedRefinement.LPutRefines | messagebox.c:24-100 | the pointer-level put keeps the state well formed. It returns the abstract put's status and reaches the abstract put's state |
| LinkedRefinement.LGetRefines | messagebox.c:108-163 | the pointer-level get keeps the state well formed. It returns the abstract get's status and bytes and reaches its state |
| LinkedRefinement.DanglingBottom | messagebox.c:89-156 | after a put and the get that empties the box, `top` is NULL while `bottom` still holds the address of the freed node |

## Left out

- The system call entry and dispatch (`asmlinkage`, syscall numbers): kernel plumbing outside the box.
- The internals of `kmalloc`, `kfree`, `access_ok`, `copy_from_user` and `copy_to_user`. They enter only as oracle values. Freeing is modelled only as the node leaving the heap. On a partial `copy_to_user` the written bytes are taken to be the leading `length - uncopied` bytes, as the kernel copy routines report.
- Real interrupt masking, preemption and concurrency: only the `irqOff` flag is kept. Get's emptiness test runs before interrupts are disabled, which is a race in the source; calls here are atomic, so the race is not modelled.
- MessageBox.Get: the source computes `length - mlength < 0` in C `int`, which can overflow for extreme arguments. The model compares `capacity < mlength` on mathematical integers.
- MessageBox.Put: `mem` stands for the bytes at the user address. It must hold at least `length` bytes when `length` is non-negative. Unreadable memory shows up only through the `access_ok` and uncopied-count oracles.
- LinkedBox.LGet: defined only on `Valid` pointer states. The source tests `top != NULL` (messagebox.c:109), but it does not check that a non-NULL `top` points at a live node whose length field matches its payload (messagebox.c:125-126). `InitRefines`, `LPutRefines` and `LGetRefines` show that every reachable state is `Valid`.
- LinkedBox.LPut: assumes that `kmalloc` returns NULL or an address holding no live node (`FreshOrNull`). The allocator itself is not modelled.
- `testmsgbox.c` as a program: it is a harness using `printf`, raw syscalls and NUL-terminated strings. Its scenarios are stated as `SmokeTestScenarios`.
- Exact errno numbering beyond the Linux constants listed above.
