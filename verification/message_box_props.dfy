/**
 Properties of the message box that relate several calls: put/get round
 trips, last-in-first-out order, the scenarios of the smoke test, the stale
 `bottom` pointer, and the message count after any sequence of calls.
 */
module MessageBoxProps {
  import opened ErrNo
  import opened MessageBox

  /** A put followed by a get that has room for the message hands back exactly
      the bytes put in, and leaves the box and the interrupt flag as they were
      (apart from `bottom`, which the put has set for good). */
  lemma PutGetRoundTrip(s: State, length: int, mem: seq<Byte>, capacity: int)
    requires Inv(s)
    requires 0 <= length <= |mem| && capacity >= length
    ensures var p := Put(s, length, mem, AllGranted);
            var g := Get(p.state, capacity, Delivered);
            && p.ret == 0
            && g.ret == length && g.written == mem[..length]
            && g.state == State(s.stack, true, s.irqOff)
  {
  }

  /** Put A, put B, get, get: B comes out first, then A, and the stored
      messages are back to what they were. */
  lemma LastInFirstOut(s: State, a: Payload, b: Payload, capacity: int)
    requires Inv(s)
    requires capacity >= |a| && capacity >= |b|
    ensures var s1 := Put(s, |a|, a, AllGranted).state;
            var s2 := Put(s1, |b|, b, AllGranted).state;
            var g1 := Get(s2, capacity, Delivered);
            var g2 := Get(g1.state, capacity, Delivered);
            && g1.ret == |b| && g1.written == b
            && g2.ret == |a| && g2.written == a
            && g2.state.stack == s.stack && g2.state.irqOff == s.irqOff
  {
    var s1 := Put(s, |a|, a, AllGranted).state;
    assert a[..|a|] == a;
    assert b[..|b|] == b;
    assert s1.stack == [a] + s.stack;
  }

  /** A get whose capacity is below the top message's length is refused with
      -EINVAL whatever access_ok and the copy would have said, the message
      stays on top, and a later get with enough room still delivers it. */
  lemma SmallBufferThenRetry(s: State, small: int, env: GetEnv, capacity: int)
    requires s.stack != []
    requires small < |s.stack[0]| <= capacity
    ensures var g1 := Get(s, small, env);
            var g2 := Get(g1.state, capacity, Delivered);
            && g1.ret == -EINVAL && g1.state.stack == s.stack && g1.state.irqOff
            && g2.ret == |s.stack[0]| && g2.written == s.stack[0]
            && g2.state.stack == s.stack[1..]
  {
  }

  /** Two gets on an empty box fail identically and change nothing. */
  lemma EmptyGetIdempotent(s: State, c1: int, e1: GetEnv, c2: int, e2: GetEnv)
    requires s.stack == []
    ensures var g1 := Get(s, c1, e1);
            var g2 := Get(g1.state, c2, e2);
            g1.ret == g2.ret == EMPTY_STATUS && g1.state == g2.state == s
  {
  }

  /** "test" with its terminating NUL, as the smoke test passes it. */
  const TestString: Payload := [0x74, 0x65, 0x73, 0x74, 0x00]

  /** The smoke test's three scenarios run in its order from a fresh box,
      every kernel primitive succeeding: the round trip returns 5 and the
      string; the negative length gets -22; the one-byte get gets -22. The
      final state shows the message still stored and interrupts left disabled
      by the refused get. */
  lemma SmokeTestScenarios()
    ensures var p1 := Put(Init, 5, TestString, AllGranted);
            var g1 := Get(p1.state, 5, Delivered);
            var p2 := Put(g1.state, -3, TestString, AllGranted);
            var p3 := Put(p2.state, 5, TestString, AllGranted);
            var g2 := Get(p3.state, 1, Delivered);
            && p1.ret == 0 && g1.ret == 5 && g1.written == TestString
            && p2.ret == -22
            && p3.ret == 0 && g2.ret == -22
            && g2.state == State([TestString], true, true)
  {
    assert TestString[..5] == TestString;
  }

  /** `bottom` is never cleared: after a put and the get that empties the box
      the state differs from the initial one in `bottomSet` alone, and the next
      put takes the else-branch yet still produces a one-message stack. */
  lemma StaleBottom(p: Payload, q: Payload)
    ensures var s1 := Put(Init, |p|, p, AllGranted).state;
            var s2 := Get(s1, |p|, Delivered).state;
            var s3 := Put(s2, |q|, q, AllGranted).state;
            && s2.stack == [] && s2.bottomSet && s2 != Init
            && s3.stack == [q]
  {
    assert p[..|p|] == p;
    assert q[..|q|] == q;
  }

  /** Once a put or a get has masked interrupts, every error return leaves
      them masked, whatever the flag was before the call: put's bad address
      and partial copy, get's small capacity, bad address and partial copy. */
  lemma ErrorsLeaveInterruptsDisabled(s: State, length: int, mem: seq<Byte>, penv: PutEnv,
                                      capacity: int, genv: GetEnv)
    ensures 0 <= length <= |mem| && penv.nodeAlloc && penv.payloadAlloc
            && !(penv.accessOk && penv.uncopied == 0) ==>
              var p := Put(s, length, mem, penv);
              p.ret < 0 && p.state.irqOff && SameBox(p.state, s)
    ensures s.stack != [] && !(capacity >= |s.stack[0]| && genv.accessOk && genv.uncopied == 0) ==>
              var g := Get(s, capacity, genv);
              g.ret < 0 && g.state.irqOff && SameBox(g.state, s)
  {
  }

  /** One system call as a caller issues it, with the kernel's answers. */
  datatype Call =
    | PutCall(length: int, mem: seq<Byte>, penv: PutEnv)
    | GetCall(capacity: int, genv: GetEnv)

  /** The user buffer of a put holds the bytes it claims to hold. */
  predicate WellFormed(c: Call) {
    c.PutCall? && c.length >= 0 ==> c.length <= |c.mem|
  }

  predicate AllWellFormed(calls: seq<Call>) {
    forall i :: 0 <= i < |calls| ==> WellFormed(calls[i])
  }

  /** The state and the status returned after one call. */
  function Step(s: State, c: Call): (State, int)
    requires WellFormed(c)
  {
    match c
    case PutCall(length, mem, penv) => var r := Put(s, length, mem, penv); (r.state, r.ret)
    case GetCall(capacity, genv) => var r := Get(s, capacity, genv); (r.state, r.ret)
  }

  /** Whether a call returned success: 0 for put, a length for get. */
  function Succeeded(c: Call, ret: int): bool {
    if c.PutCall? then ret == 0 else ret >= 0
  }

  /** The calls issued one after the other; the statuses in call order. */
  function Run(s: State, calls: seq<Call>): (r: (State, seq<int>))
    requires AllWellFormed(calls)
    ensures |r.1| == |calls|
    decreases |calls|
  {
    if calls == [] then (s, [])
    else
      var (s1, ret) := Step(s, calls[0]);
      var (sn, rets) := Run(s1, calls[1..]);
      (sn, [ret] + rets)
  }

  /** How many successful puts and successful gets the statuses report. */
  function Tally(calls: seq<Call>, rets: seq<int>): (counts: (nat, nat))
    requires |rets| == |calls|
    ensures counts.0 + counts.1 <= |calls|
    decreases |calls|
  {
    if calls == [] then (0, 0)
    else
      var (puts, gets) := Tally(calls[1..], rets[1..]);
      if !Succeeded(calls[0], rets[0]) then (puts, gets)
      else if calls[0].PutCall? then (puts + 1, gets)
      else (puts, gets + 1)
  }

  /** From any state that keeps the invariant, any sequence of calls keeps it,
      and the number of stored messages grows by one per successful put and
      shrinks by one per successful get: no call pushes or pops partially. */
  lemma {:induction false} RunCount(s: State, calls: seq<Call>)
    requires Inv(s) && AllWellFormed(calls)
    ensures var (t, rets) := Run(s, calls);
            var (puts, gets) := Tally(calls, rets);
            Inv(t) && |t.stack| + gets == |s.stack| + puts
    decreases |calls|
  {
    if calls != [] {
      var (s1, ret) := Step(s, calls[0]);
      assert AllWellFormed(calls[1..]) by {
        forall i | 0 <= i < |calls| - 1 ensures WellFormed(calls[1..][i]) {
          assert calls[1..][i] == calls[i + 1];
        }
      }
      RunCount(s1, calls[1..]);
      var (t, rets) := Run(s, calls);
      assert rets[1..] == Run(s1, calls[1..]).1;
      assert rets[0] == ret;
    }
  }

  /** From the initial state, the number of messages left is the number of
      successful puts minus the number of successful gets. */
  lemma MessagesLeft(calls: seq<Call>)
    requires AllWellFormed(calls)
    ensures var (t, rets) := Run(Init, calls);
            var (puts, gets) := Tally(calls, rets);
            gets <= puts && |t.stack| == puts - gets
  {
    RunCount(Init, calls);
  }
}
