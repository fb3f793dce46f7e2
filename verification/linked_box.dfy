/**
 The message box at the level of the C data structure: `msg_t` nodes in a
 heap addressed by natural numbers, linked through `previous`, with the two
 globals `top` and `bottom` as pointers. A freed node leaves the heap; a node
 that a failed put allocated never enters it.

 `Abs` maps a well-formed pointer state to the abstract `MessageBox.State`,
 and the refinement lemmas show that `LPut` and `LGet` commute with it.
 */
module LinkedBox {
  import opened ErrNo
  import MB = MessageBox

  datatype Option<T> = None | Some(value: T)

  /** A C pointer to a `msg_t`: NULL or an address. */
  datatype Ptr = Null | Addr(a: nat)

  /** struct _msg_t: the next-older node, the length and the payload. */
  datatype Node = Node(previous: Ptr, length: int, message: seq<MB.Byte>)

  datatype LState = LState(heap: map<nat, Node>, top: Ptr, bottom: Ptr, irqOff: bool)

  const LInit: LState := LState(map[], Null, Null, false)

  /** As `MB.PutEnv`, but the node allocation yields the address kmalloc
      returned, NULL on failure. */
  datatype LPutEnv = LPutEnv(node: Ptr, payloadAlloc: bool, accessOk: bool, uncopied: nat)

  datatype LPutResult = LPutResult(state: LState, ret: int)
  datatype LGetResult = LGetResult(state: LState, ret: int, written: seq<MB.Byte>)

  predicate Distinct(xs: seq<nat>) {
    forall i, j :: 0 <= i < j < |xs| ==> xs[i] != xs[j]
  }

  /** The addresses met when following `previous` from `p`, newest first;
      None if a pointer dangles or the chain is longer than `fuel`. */
  function Walk(h: map<nat, Node>, p: Ptr, fuel: nat): (r: Option<seq<nat>>)
    ensures r.Some? ==> |r.value| <= fuel
    ensures r.Some? ==> forall a :: a in r.value ==> a in h
    ensures r.Some? ==> (r.value == [] <==> p == Null)
    ensures r.Some? && p.Addr? ==> r.value[0] == p.a
    decreases fuel
  {
    match p
    case Null => Some([])
    case Addr(a) =>
      if a !in h || fuel == 0 then None
      else
        match Walk(h, h[a].previous, fuel - 1)
        case None => None
        case Some(rest) => Some([a] + rest)
  }

  /** The chain from `top`; a chain without repeats is never longer than the heap. */
  function Chain(ls: LState): Option<seq<nat>> {
    Walk(ls.heap, ls.top, |ls.heap|)
  }

  /** The payloads of the nodes at `sp`, in the same order. */
  function Messages(h: map<nat, Node>, sp: seq<nat>): (ms: seq<MB.Payload>)
    requires forall a :: a in sp ==> a in h
    ensures |ms| == |sp|
    ensures forall i :: 0 <= i < |sp| ==> ms[i] == h[sp[i]].message
    decreases |sp|
  {
    if sp == [] then [] else [h[sp[0]].message] + Messages(h, sp[1..])
  }

  /** Every state the two system calls can reach from `LInit`: one chain from
      `top` through every live node, each node once, a NULL `bottom` only when
      `top` is NULL too, and each node's length field matching its payload. */
  predicate Valid(ls: LState) {
    && (ls.bottom == Null ==> ls.top == Null)
    && Chain(ls).Some?
    && Distinct(Chain(ls).value)
    && (set a | a in Chain(ls).value) == ls.heap.Keys
    && (forall a :: a in ls.heap ==> ls.heap[a].length == |ls.heap[a].message|)
  }

  /** The stored messages, newest first, with `bottom` reduced to NULL or not. */
  function Abs(ls: LState): (s: MB.State)
    requires Valid(ls)
    ensures |s.stack| == |Chain(ls).value|
    ensures s.stack == [] <==> ls.top == Null
    ensures MB.Inv(s)
  {
    MB.State(Messages(ls.heap, Chain(ls).value), ls.bottom != Null, ls.irqOff)
  }

  /** The abstract oracles: kmalloc succeeded iff it returned non-NULL. */
  function AbsEnv(env: LPutEnv): MB.PutEnv {
    MB.PutEnv(env.node != Null, env.payloadAlloc, env.accessOk, env.uncopied)
  }

  /** kmalloc returns NULL or memory that holds no live node. */
  predicate FreshOrNull(ls: LState, p: Ptr) {
    p == Null || p.a !in ls.heap
  }

  /** sys_messageboxput on the pointer structure. */
  function LPut(ls: LState, length: int, mem: seq<MB.Byte>, env: LPutEnv): (r: LPutResult)
    requires length >= 0 ==> length <= |mem|
    requires FreshOrNull(ls, env.node)
    // a failed put never links the node it allocated; the checks before the
    // interrupt save change nothing, the later ones leave interrupts disabled
    ensures r.ret != 0 ==> r.state.heap == ls.heap && r.state.top == ls.top && r.state.bottom == ls.bottom
    ensures r.ret == -EINVAL || r.ret == -ENOMEM ==> r.state == ls
    ensures r.ret == -EFAULT || r.ret == -EMSGSIZE ==> r.state.irqOff
    // a successful put makes the new node `top`, holding the copied bytes;
    // whenever a NULL `bottom` implies a NULL `top`, both branches of the
    // link leave the node's `previous` equal to the old `top`
    ensures r.ret == 0 ==>
              && 0 <= length && env.node.Addr? && r.state.top == env.node
              && env.node.a !in ls.heap && env.node.a in r.state.heap
              && r.state.heap == ls.heap[env.node.a := r.state.heap[env.node.a]]
              && r.state.irqOff == ls.irqOff
              && r.state.heap[env.node.a].message == mem[..length]
              && r.state.heap[env.node.a].length == length
              && r.state.bottom != Null
    ensures r.ret == 0 && (ls.bottom == Null ==> ls.top == Null) ==>
              r.state.heap[env.node.a].previous == ls.top
    // `bottom` is set only when it was NULL, and is otherwise left alone
    ensures r.ret == 0 ==> r.state.bottom == (if ls.bottom == Null then env.node else ls.bottom)
  {
    if length < 0 then LPutResult(ls, -EINVAL)
    else if env.node == Null then LPutResult(ls, -ENOMEM)
    else
      var q := env.node.a;
      var msg := Node(Null, length, []);
      if !env.payloadAlloc then LPutResult(ls, -ENOMEM)
      else
        var saved := ls.irqOff;
        var masked := ls.(irqOff := true);
        if !env.accessOk then LPutResult(masked, -EFAULT)
        else if env.uncopied > 0 then LPutResult(masked, -EMSGSIZE)
        else
          var filled := msg.(message := mem[..length]);
          var linked :=
            if masked.bottom == Null then
              masked.(heap := masked.heap[q := filled], bottom := Addr(q), top := Addr(q))
            else
              masked.(heap := masked.heap[q := filled.(previous := masked.top)], top := Addr(q));
          LPutResult(linked.(irqOff := saved), 0)
  }

  /** sys_messageboxget on the pointer structure. */
  function LGet(ls: LState, capacity: int, env: MB.GetEnv): (r: LGetResult)
    requires Valid(ls)
    // a failed get leaves the chain alone, writes nothing before the copy is
    // attempted, and leaves interrupts disabled once it has masked them
    ensures r.ret < 0 ==> r.state.heap == ls.heap && r.state.top == ls.top && r.state.bottom == ls.bottom
    ensures ls.top == Null ==> r == LGetResult(ls, EMPTY_STATUS, [])
    ensures r.ret < 0 && ls.top != Null ==> r.state.irqOff
    ensures r.ret == -EINVAL || r.ret == -EFAULT ==> r.written == []
    // a successful get frees the old `top`, moves `top` to its `previous`, and
    // leaves `bottom` where it was, possibly dangling
    ensures r.ret >= 0 ==>
              && ls.top.Addr? && ls.top.a in ls.heap
              && r.state.top == ls.heap[ls.top.a].previous
              && r.state.heap == ls.heap - {ls.top.a}
              && r.state.bottom == ls.bottom
              && r.written == ls.heap[ls.top.a].message
              && r.state.irqOff == ls.irqOff
  {
    if ls.top == Null then LGetResult(ls, EMPTY_STATUS, [])
    else
      var saved := ls.irqOff;
      var masked := ls.(irqOff := true);
      var t := ls.top.a;
      var msg := ls.heap[t];
      var mlength := msg.length;
      if capacity < mlength then LGetResult(masked, -EINVAL, [])
      else if !env.accessOk then LGetResult(masked, -EFAULT, [])
      else if env.uncopied > 0 then
        var copied := if env.uncopied >= mlength then 0 else mlength - env.uncopied;
        LGetResult(masked, -EMSGSIZE, msg.message[..copied])
      else
        var popped := masked.(top := msg.previous, heap := masked.heap - {t});
        LGetResult(popped.(irqOff := saved), mlength, msg.message[..mlength])
  }
}
