/**
 The message box as an abstract state machine: a last-in-first-out stack of
 byte messages, the `bottom` pointer reduced to whether it has ever been set,
 and the interrupt mask reduced to one flag.

 Everything the kernel does outside messagebox.c (kmalloc, access_ok,
 copy_from_user, copy_to_user) enters as an oracle value in `PutEnv` or
 `GetEnv`, so the two system calls are pure functions of the state, their
 arguments and those verdicts.
 */
module MessageBox {
  import opened ErrNo

  type Byte = bv8
  type Payload = seq<Byte>

  /** `stack[0]` is the message `top` points at, `stack[|stack|-1]` the oldest.
      `bottomSet` records whether `bottom` is non-NULL; get never clears it.
      `irqOff` is true while local interrupts are disabled. */
  datatype State = State(stack: seq<Payload>, bottomSet: bool, irqOff: bool)

  /** Both globals start out NULL, interrupts enabled. */
  const Init: State := State([], false, false)

  /** The structural invariant of the two globals: a NULL `bottom` implies a NULL `top`. */
  predicate Inv(s: State) {
    !s.bottomSet ==> s.stack == []
  }

  /** The same stored messages and the same `bottom`; only the interrupt flag may differ. */
  predicate SameBox(s: State, t: State) {
    s.stack == t.stack && s.bottomSet == t.bottomSet
  }

  /** What the kernel answers during one put: whether each kmalloc succeeded,
      what access_ok said, and how many bytes copy_from_user failed to copy. */
  datatype PutEnv = PutEnv(nodeAlloc: bool, payloadAlloc: bool, accessOk: bool, uncopied: nat)

  /** What the kernel answers during one get: access_ok's verdict and how many
      bytes copy_to_user failed to copy. */
  datatype GetEnv = GetEnv(accessOk: bool, uncopied: nat)

  datatype PutResult = PutResult(state: State, ret: int)

  /** `written` is the prefix of the caller's buffer that the call overwrote. */
  datatype GetResult = GetResult(state: State, ret: int, written: Payload)

  /** The put oracles under which every step succeeds. */
  const AllGranted: PutEnv := PutEnv(true, true, true, 0)

  /** The get oracles under which every step succeeds. */
  const Delivered: GetEnv := GetEnv(true, 0)

  /** Linking a new node above `top`. With a NULL `bottom` the node becomes
      both ends and keeps its NULL `previous`; otherwise its `previous` is the
      old `top`. Under the invariant the two branches agree. */
  function Link(s: State, payload: Payload): (r: State)
    ensures r.bottomSet && Inv(r)
    ensures |r.stack| > 0 && r.stack[0] == payload
    ensures r.irqOff == s.irqOff
    ensures Inv(s) ==> r.stack == [payload] + s.stack
  {
    if !s.bottomSet then s.(stack := [payload], bottomSet := true)
    else s.(stack := [payload] + s.stack)
  }

  /** sys_messageboxput(buffer, length). `mem` holds the bytes at the user
      address `buffer`: the first `length` of them are what copy_from_user reads. */
  function Put(s: State, length: int, mem: seq<Byte>, env: PutEnv): (r: PutResult)
    requires length >= 0 ==> length <= |mem|
    ensures r.ret in {0, -EINVAL, -ENOMEM, -EFAULT, -EMSGSIZE}
    ensures r.ret == 0 <==>
              length >= 0 && env.nodeAlloc && env.payloadAlloc && env.accessOk && env.uncopied == 0
    // the checks, in the order they are made
    ensures length < 0 ==> r.ret == -EINVAL
    ensures length >= 0 && !(env.nodeAlloc && env.payloadAlloc) ==> r.ret == -ENOMEM
    ensures length >= 0 && env.nodeAlloc && env.payloadAlloc && !env.accessOk ==> r.ret == -EFAULT
    ensures length >= 0 && env.nodeAlloc && env.payloadAlloc && env.accessOk && env.uncopied > 0 ==>
              r.ret == -EMSGSIZE
    // a failed put never links its node
    ensures r.ret != 0 ==> SameBox(r.state, s)
    ensures r.ret == -EINVAL || r.ret == -ENOMEM ==> r.state == s
    ensures r.ret == -EFAULT || r.ret == -EMSGSIZE ==> r.state.irqOff
    // a successful put pushes exactly the copied bytes and restores the interrupt flag
    ensures r.ret == 0 ==>
              && r.state.bottomSet && r.state.irqOff == s.irqOff
              && |r.state.stack| > 0 && r.state.stack[0] == mem[..length]
    ensures r.ret == 0 && Inv(s) ==> r.state.stack == [mem[..length]] + s.stack
    ensures Inv(s) ==> Inv(r.state)
  {
    if length < 0 then PutResult(s, -EINVAL)
    else if !env.nodeAlloc then PutResult(s, -ENOMEM)
    else if !env.payloadAlloc then PutResult(s, -ENOMEM)
    else
      var saved := s.irqOff;
      var masked := s.(irqOff := true);
      if !env.accessOk then PutResult(masked, -EFAULT)
      else if env.uncopied > 0 then PutResult(masked, -EMSGSIZE)
      else PutResult(Link(masked, mem[..length]).(irqOff := saved), 0)
  }

  /** sys_messageboxget(buffer, capacity). The emptiness test is on `top`
      alone; `bottom` plays no part. */
  function Get(s: State, capacity: int, env: GetEnv): (r: GetResult)
    ensures r.ret >= 0 <==>
              s.stack != [] && capacity >= |s.stack[0]| && env.accessOk && env.uncopied == 0
    // an empty box: -1 and nothing changes, not even the interrupt flag
    ensures s.stack == [] ==> r == GetResult(s, EMPTY_STATUS, [])
    // the checks on a non-empty box, in the order they are made
    ensures s.stack != [] && capacity < |s.stack[0]| ==> r.ret == -EINVAL
    ensures s.stack != [] && capacity >= |s.stack[0]| && !env.accessOk ==> r.ret == -EFAULT
    ensures s.stack != [] && capacity >= |s.stack[0]| && env.accessOk && env.uncopied > 0 ==>
              r.ret == -EMSGSIZE
    // a failed get keeps the message, never delivers all of it, and leaves
    // interrupts disabled once it has masked them
    ensures r.ret < 0 ==> SameBox(r.state, s)
    ensures r.ret < 0 && s.stack != [] ==>
              && r.written <= s.stack[0] && (s.stack[0] != [] ==> r.written < s.stack[0])
              && r.state.irqOff
    // the capacity and address checks come before copy_to_user: their
    // failures write nothing to the caller's buffer
    ensures s.stack != [] && (capacity < |s.stack[0]| || !env.accessOk) ==> r.written == []
    // a successful get delivers exactly the top message and pops it
    ensures r.ret >= 0 ==>
              && s.stack != []
              && r.ret == |s.stack[0]| && r.written == s.stack[0]
              && r.state == State(s.stack[1..], s.bottomSet, s.irqOff)
    ensures Inv(s) ==> Inv(r.state)
  {
    if s.stack == [] then GetResult(s, EMPTY_STATUS, [])
    else
      var saved := s.irqOff;
      var masked := s.(irqOff := true);
      var msg := s.stack[0];
      var mlength := |msg|;
      if capacity < mlength then GetResult(masked, -EINVAL, [])
      else if !env.accessOk then GetResult(masked, -EFAULT, [])
      else if env.uncopied > 0 then
        var copied := if env.uncopied >= mlength then 0 else mlength - env.uncopied;
        GetResult(masked, -EMSGSIZE, msg[..copied])
      else GetResult(masked.(stack := masked.stack[1..], irqOff := saved), mlength, msg)
  }
}
