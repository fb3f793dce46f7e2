/**
 The pointer-level message box refines the abstract one: `Valid` holds
 initially and is kept by both system calls, and `Abs` of the result of
 `LPut`/`LGet` is the result of `MessageBox.Put`/`MessageBox.Get` on `Abs`
 of the argument, with the same status and the same bytes delivered.
 */
module LinkedRefinement {
  import opened ErrNo
  import MB = MessageBox
  import opened LinkedBox

  /** Following `previous` only visits the nodes on the chain, so a heap that
      agrees with `h` on those nodes yields the same chain. */
  lemma {:induction false} WalkFrame(h: map<nat, Node>, h': map<nat, Node>, p: Ptr, fuel: nat)
    requires Walk(h, p, fuel).Some?
    requires forall a :: a in Walk(h, p, fuel).value ==> a in h' && h'[a] == h[a]
    ensures Walk(h', p, fuel) == Walk(h, p, fuel)
    decreases fuel
  {
    match p
    case Null =>
    case Addr(a) =>
      var rest := Walk(h, h[a].previous, fuel - 1);
      assert Walk(h, p, fuel).value == [a] + rest.value;
      forall b | b in rest.value
        ensures b in h' && h'[b] == h[b]
      {
        assert b in Walk(h, p, fuel).value;
      }
      WalkFrame(h, h', h[a].previous, fuel - 1);
  }

  /** The payloads along `sp` only depend on the nodes at `sp`. */
  lemma MessagesFrame(h: map<nat, Node>, h': map<nat, Node>, sp: seq<nat>)
    requires forall a :: a in sp ==> a in h && a in h' && h'[a] == h[a]
    ensures Messages(h', sp) == Messages(h, sp)
  {
  }

  /** Both globals NULL and no node: the empty abstract box. */
  lemma InitRefines()
    ensures Valid(LInit) && Abs(LInit) == MB.Init
  {
    assert Chain(LInit) == Some([]);
  }

  lemma DistinctCons(q: nat, sp: seq<nat>)
    requires Distinct(sp) && q !in sp
    ensures Distinct([q] + sp)
  {
    forall i, j | 0 <= i < j < |[q] + sp|
      ensures ([q] + sp)[i] != ([q] + sp)[j]
    {
      assert ([q] + sp)[j] == sp[j - 1];
    }
  }

  lemma DistinctTail(sp: seq<nat>)
    requires Distinct(sp) && sp != []
    ensures Distinct(sp[1..]) && sp[0] !in sp[1..]
  {
    forall i | 0 <= i < |sp| - 1 ensures sp[1..][i] != sp[0] {
      assert sp[1..][i] == sp[i + 1];
    }
    forall i, j | 0 <= i < j < |sp| - 1 ensures sp[1..][i] != sp[1..][j] {
      assert sp[1..][i] == sp[i + 1] && sp[1..][j] == sp[j + 1];
    }
  }

  lemma MapAddCard(h: map<nat, Node>, q: nat, n: Node)
    requires q !in h
    ensures |h[q := n]| == |h| + 1
  {
    assert h[q := n].Keys == h.Keys + {q};
  }

  lemma MapRemoveCard(h: map<nat, Node>, t: nat)
    requires t in h
    ensures |h - {t}| == |h| - 1
  {
    assert (h - {t}).Keys == h.Keys - {t};
  }

  /** The chain of the pushed state is the new node followed by the old chain. */
  lemma PushChain(ls: LState, ls': LState, q: nat, n: Node)
    requires Chain(ls).Some? && q !in ls.heap && n.previous == ls.top
    requires ls'.heap == ls.heap[q := n] && ls'.top == Addr(q)
    ensures Chain(ls') == Some([q] + Chain(ls).value)
  {
    var h, h' := ls.heap, ls'.heap;
    MapAddCard(h, q, n);
    WalkFrame(h, h', ls.top, |h|);
  }

  /** The chain of the popped state is the tail of the old chain. */
  lemma PopChain(ls: LState, ls': LState)
    requires Chain(ls).Some? && Distinct(Chain(ls).value) && ls.top.Addr?
    requires ls'.heap == ls.heap - {ls.top.a} && ls'.top == ls.heap[ls.top.a].previous
    ensures Chain(ls') == Some(Chain(ls).value[1..])
  {
    var h, h' := ls.heap, ls'.heap;
    var t := ls.top.a;
    var sp := Chain(ls).value;
    var rest := Walk(h, h[t].previous, |h| - 1).value;
    assert sp == [t] + rest;
    assert rest == sp[1..];
    DistinctTail(sp);
    MapRemoveCard(h, t);
    WalkFrame(h, h', h[t].previous, |h| - 1);
  }

  /** The live addresses after a push are the chain's addresses. */
  lemma PushKeys(h: map<nat, Node>, sp: seq<nat>, q: nat, n: Node)
    requires (set a | a in sp) == h.Keys
    ensures (set a | a in [q] + sp) == h[q := n].Keys
  {
    assert (set a | a in [q] + sp) == {q} + (set a | a in sp);
  }

  /** The live addresses after a pop are the addresses on the rest of the chain. */
  lemma PopKeys(h: map<nat, Node>, sp: seq<nat>)
    requires (set a | a in sp) == h.Keys && sp != [] && sp[0] !in sp[1..]
    ensures (set a | a in sp[1..]) == (h - {sp[0]}).Keys
  {
    assert (set a | a in sp) == {sp[0]} + (set a | a in sp[1..]);
  }

  /** Linking a fresh node whose `previous` is the old `top` keeps the state
      well formed. */
  lemma PushValid(ls: LState, ls': LState, q: nat, n: Node)
    requires Valid(ls) && q !in ls.heap
    requires n.previous == ls.top && n.length == |n.message|
    requires ls'.heap == ls.heap[q := n] && ls'.top == Addr(q) && ls'.bottom != Null
    ensures Valid(ls')
    ensures Chain(ls').value == [q] + Chain(ls).value
  {
    var sp := Chain(ls).value;
    PushChain(ls, ls', q, n);
    DistinctCons(q, sp);
    PushKeys(ls.heap, sp, q, n);
  }

  /** ... and puts the node's payload on top of the abstract stack. */
  lemma PushAbs(ls: LState, ls': LState, q: nat, n: Node)
    requires Valid(ls) && q !in ls.heap
    requires n.previous == ls.top && n.length == |n.message|
    requires ls'.heap == ls.heap[q := n] && ls'.top == Addr(q) && ls'.bottom != Null
    ensures Valid(ls')
    ensures Abs(ls') == MB.State([n.message] + Abs(ls).stack, true, ls'.irqOff)
  {
    PushValid(ls, ls', q, n);
    var sp := Chain(ls).value;
    MessagesFrame(ls.heap, ls'.heap, sp);
    assert Messages(ls'.heap, [q] + sp) == [n.message] + Messages(ls'.heap, sp);
  }

  /** Unlinking `top` and freeing it keeps the state well formed, even though
      `bottom` may be left pointing at the freed node. */
  lemma PopValid(ls: LState, ls': LState)
    requires Valid(ls) && ls.top.Addr?
    requires ls'.heap == ls.heap - {ls.top.a}
    requires ls'.top == ls.heap[ls.top.a].previous && ls'.bottom == ls.bottom
    ensures Valid(ls')
    ensures Chain(ls').value == Chain(ls).value[1..]
  {
    var sp := Chain(ls).value;
    PopChain(ls, ls');
    DistinctTail(sp);
    PopKeys(ls.heap, sp);
  }

  /** ... and removes the top of the abstract stack. */
  lemma PopAbs(ls: LState, ls': LState)
    requires Valid(ls) && ls.top.Addr?
    requires ls'.heap == ls.heap - {ls.top.a}
    requires ls'.top == ls.heap[ls.top.a].previous && ls'.bottom == ls.bottom
    ensures Valid(ls')
    ensures Abs(ls') == MB.State(Abs(ls).stack[1..], Abs(ls).bottomSet, ls'.irqOff)
  {
    PopValid(ls, ls');
    var sp := Chain(ls).value;
    DistinctTail(sp);
    MessagesFrame(ls.heap, ls'.heap, sp[1..]);
    assert Messages(ls.heap, sp)[1..] == Messages(ls.heap, sp[1..]);
  }

  /** LPut keeps the state well formed and agrees with the abstract Put. */
  lemma LPutRefines(ls: LState, length: int, mem: seq<MB.Byte>, env: LPutEnv)
    requires Valid(ls)
    requires length >= 0 ==> length <= |mem|
    requires FreshOrNull(ls, env.node)
    ensures var r := LPut(ls, length, mem, env);
            var a := MB.Put(Abs(ls), length, mem, AbsEnv(env));
            Valid(r.state) && r.ret == a.ret && Abs(r.state) == a.state
  {
    var r := LPut(ls, length, mem, env);
    var a := MB.Put(Abs(ls), length, mem, AbsEnv(env));
    if r.ret == 0 {
      var q := env.node.a;
      PushAbs(ls, r.state, q, r.state.heap[q]);
    } else {
      assert Chain(r.state) == Chain(ls);
    }
  }

  /** The abstract top is the payload of the node `top` points at. */
  lemma AbsTop(ls: LState)
    requires Valid(ls) && ls.top.Addr?
    ensures ls.top.a in ls.heap
    ensures Abs(ls).stack != [] && Abs(ls).stack[0] == ls.heap[ls.top.a].message
    ensures ls.heap[ls.top.a].length == |ls.heap[ls.top.a].message|
  {
    assert Chain(ls).value[0] == ls.top.a;
  }

  /** Masking or unmasking interrupts touches neither the chain nor `bottom`. */
  lemma MaskAbs(ls: LState, off: bool)
    requires Valid(ls)
    ensures Valid(ls.(irqOff := off)) && Abs(ls.(irqOff := off)) == Abs(ls).(irqOff := off)
  {
    assert Chain(ls.(irqOff := off)) == Chain(ls);
  }

  /** On an empty box LGet agrees with the abstract Get. */
  lemma LGetEmptyRefines(ls: LState, capacity: int, env: MB.GetEnv)
    requires Valid(ls) && ls.top == Null
    ensures var r := LGet(ls, capacity, env);
            var a := MB.Get(Abs(ls), capacity, env);
            Valid(r.state) && r.ret == a.ret && r.written == a.written && Abs(r.state) == a.state
  {
  }

  /** When a check on a non-empty box fails, both gets keep the chain and
      mask interrupts. */
  lemma LGetFailState(ls: LState, capacity: int, env: MB.GetEnv)
    requires Valid(ls) && ls.top.Addr?
    requires var m := ls.heap[ls.top.a];
             !(capacity >= m.length && env.accessOk && env.uncopied == 0)
    ensures var r := LGet(ls, capacity, env);
            Valid(r.state) && Abs(r.state) == MB.Get(Abs(ls), capacity, env).state
  {
    AbsTop(ls);
    MaskAbs(ls, true);
  }

  /** When the capacity or the address check fails on a non-empty box, both
      gets report the same error and write nothing. */
  lemma LGetRejectOutput(ls: LState, capacity: int, env: MB.GetEnv)
    requires Valid(ls) && ls.top.Addr?
    requires capacity < ls.heap[ls.top.a].length || !env.accessOk
    ensures var r := LGet(ls, capacity, env);
            var a := MB.Get(Abs(ls), capacity, env);
            r.ret == a.ret && r.written == a.written == []
  {
    AbsTop(ls);
    var m := ls.heap[ls.top.a];
    assert |Abs(ls).stack[0]| == m.length;
  }

  /** When the copy out falls short, both gets report -EMSGSIZE and the same
      leading bytes. */
  lemma LGetShortCopyOutput(ls: LState, capacity: int, env: MB.GetEnv)
    requires Valid(ls) && ls.top.Addr?
    requires capacity >= ls.heap[ls.top.a].length && env.accessOk && env.uncopied > 0
    ensures var r := LGet(ls, capacity, env);
            var a := MB.Get(Abs(ls), capacity, env);
            r.ret == a.ret == -EMSGSIZE && r.written == a.written
  {
    AbsTop(ls);
    var m := ls.heap[ls.top.a];
    assert Abs(ls).stack[0] == m.message;
    assert |Abs(ls).stack[0]| == m.length;
  }

  /** When a check on a non-empty box fails, both gets report the same error
      and the same partial bytes. */
  lemma LGetFailOutput(ls: LState, capacity: int, env: MB.GetEnv)
    requires Valid(ls) && ls.top.Addr?
    requires var m := ls.heap[ls.top.a];
             !(capacity >= m.length && env.accessOk && env.uncopied == 0)
    ensures var r := LGet(ls, capacity, env);
            var a := MB.Get(Abs(ls), capacity, env);
            r.ret == a.ret && r.written == a.written
  {
    if capacity < ls.heap[ls.top.a].length || !env.accessOk {
      LGetRejectOutput(ls, capacity, env);
    } else {
      LGetShortCopyOutput(ls, capacity, env);
    }
  }

  /** A successful LGet agrees with the abstract Get. */
  lemma LGetOkRefines(ls: LState, capacity: int, env: MB.GetEnv)
    requires Valid(ls) && LGet(ls, capacity, env).ret >= 0
    ensures var r := LGet(ls, capacity, env);
            var a := MB.Get(Abs(ls), capacity, env);
            Valid(r.state) && r.ret == a.ret && r.written == a.written && Abs(r.state) == a.state
  {
    var r := LGet(ls, capacity, env);
    AbsTop(ls);
    PopAbs(ls, r.state);
  }

  /** LGet keeps the state well formed and agrees with the abstract Get,
      delivering the same bytes. */
  lemma LGetRefines(ls: LState, capacity: int, env: MB.GetEnv)
    requires Valid(ls)
    ensures var r := LGet(ls, capacity, env);
            var a := MB.Get(Abs(ls), capacity, env);
            Valid(r.state) && r.ret == a.ret && r.written == a.written && Abs(r.state) == a.state
  {
    if ls.top == Null {
      LGetEmptyRefines(ls, capacity, env);
    } else if LGet(ls, capacity, env).ret >= 0 {
      LGetOkRefines(ls, capacity, env);
    } else {
      LGetFailState(ls, capacity, env);
      LGetFailOutput(ls, capacity, env);
    }
  }

  /** From the initial state, a put of a node at address `q` and the get that
      takes it back leave `top` NULL but `bottom` pointing at the freed node. */
  lemma DanglingBottom(p: MB.Payload, q: nat)
    ensures var s1 := LPut(LInit, |p|, p, LPutEnv(Addr(q), true, true, 0)).state;
            && Valid(s1)
            && var s2 := LGet(s1, |p|, MB.Delivered).state;
               s2.top == Null && s2.bottom == Addr(q) && q !in s2.heap
  {
    InitRefines();
    LPutRefines(LInit, |p|, p, LPutEnv(Addr(q), true, true, 0));
  }
}
