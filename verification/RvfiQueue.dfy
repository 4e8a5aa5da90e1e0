/** The reorder queue of bhv/cv32e40p_rvfi.sv: instructions that finish out of order are parked and
    handed to the trace in program order. */
module RvfiQueue {

  /** A finished instruction: its order number, the mstatus.FS it shows, and everything else. */
  datatype Insn = Insn(order: int, fs: int, rest: int)

  /** Identity of an instruction; the FS it shows is refreshed when it leaves the parking queue. */
  function Key(t: Insn): (int, int) {
    (t.order, t.rest)
  }

  const LIMIT := 50

  // ---------------------------------------------------------------- one pass over the queue

  datatype Passed = Passed(emitted: seq<Insn>, kept: seq<Insn>, next: int)

  /** What one pass over the parked instructions hands out and keeps, from the next order wanted. */
  function Pass(q: seq<Insn>, next: int, fs: int): Passed
    decreases |q|
  {
    if q == [] then Passed([], [], next)
    else if q[0].order == next then
      var p := Pass(q[1..], next + 1, fs);
      p.(emitted := [q[0].(fs := fs)] + p.emitted)
    else
      var p := Pass(q[1..], next, fs);
      p.(kept := [q[0]] + p.kept)
  }

  function Keys(q: seq<Insn>): multiset<(int, int)>
    decreases |q|
  {
    if q == [] then multiset{} else multiset{Key(q[0])} + Keys(q[1..])
  }

  predicate Subsequence(a: seq<Insn>, b: seq<Insn>)
    decreases |b|
  {
    a == [] || (b != [] && ((a[0] == b[0] && Subsequence(a[1..], b[1..])) || Subsequence(a, b[1..])))
  }

  predicate Wanted(q: seq<Insn>, order: int) {
    exists k :: 0 <= k < |q| && q[k].order == order
  }

  /** Consecutive order numbers from `first` on. */
  predicate Consecutive(q: seq<Insn>, first: int) {
    forall k :: 0 <= k < |q| ==> q[k].order == first + k
  }

  lemma {:induction false} KeysAppend(a: seq<Insn>, b: seq<Insn>)
    ensures Keys(a + b) == Keys(a) + Keys(b)
    decreases |a|
  {
    if a == [] {
      assert a + b == b;
    } else {
      assert (a + b)[1..] == a[1..] + b;
      KeysAppend(a[1..], b);
    }
  }

  lemma {:induction false} PassOrders(q: seq<Insn>, next: int, fs: int)
    ensures var p := Pass(q, next, fs);
            && Consecutive(p.emitted, next) && p.next == next + |p.emitted|
            && (Wanted(q, next) ==> p.emitted != [])
            && |p.kept| + |p.emitted| == |q|
    decreases |q|
  {
    if q != [] {
      PassOrders(q[1..], if q[0].order == next then next + 1 else next, fs);
      if q[0].order != next && Wanted(q, next) {
        var k :| 0 <= k < |q| && q[k].order == next;
        assert q[1..][k - 1].order == next;
      }
    }
  }

  lemma KeysCons(x: Insn, rest: seq<Insn>)
    ensures Keys([x] + rest) == multiset{Key(x)} + Keys(rest)
  {
    assert ([x] + rest)[1..] == rest;
  }

  lemma PassEmits(q: seq<Insn>, next: int, fs: int)
    requires q != [] && q[0].order == next
    ensures var p, t := Pass(q, next, fs), Pass(q[1..], next + 1, fs);
            Keys(p.emitted) == multiset{Key(q[0])} + Keys(t.emitted) && p.kept == t.kept
  {
    KeysCons(q[0].(fs := fs), Pass(q[1..], next + 1, fs).emitted);
  }

  lemma PassKeeps(q: seq<Insn>, next: int, fs: int)
    requires q != [] && q[0].order != next
    ensures var p, t := Pass(q, next, fs), Pass(q[1..], next, fs);
            Keys(p.kept) == multiset{Key(q[0])} + Keys(t.kept) && p.emitted == t.emitted
  {
    KeysCons(q[0], Pass(q[1..], next, fs).kept);
  }

  lemma {:induction false} PassKeys(q: seq<Insn>, next: int, fs: int)
    ensures var p := Pass(q, next, fs); Keys(q) == Keys(p.emitted) + Keys(p.kept)
    decreases |q|
  {
    if q == [] {
    } else if q[0].order == next {
      PassKeys(q[1..], next + 1, fs);
      PassEmits(q, next, fs);
    } else {
      PassKeys(q[1..], next, fs);
      PassKeeps(q, next, fs);
    }
  }

  lemma {:induction false} PassKeepsOrder(q: seq<Insn>, next: int, fs: int)
    ensures Subsequence(Pass(q, next, fs).kept, q)
    decreases |q|
  {
    if q != [] {
      var tail := Pass(q[1..], if q[0].order == next then next + 1 else next, fs);
      PassKeepsOrder(q[1..], if q[0].order == next then next + 1 else next, fs);
      if q[0].order == next {
        SubsequenceDrop(tail.kept, q);
      } else {
        assert ([q[0]] + tail.kept)[1..] == tail.kept;
      }
    }
  }

  /** A pass hands out consecutive orders starting with the wanted one, takes the wanted one whenever it
      is parked, keeps the rest in their order, and neither loses nor invents an instruction. */
  lemma PassProperties(q: seq<Insn>, next: int, fs: int)
    ensures var p := Pass(q, next, fs);
            && Consecutive(p.emitted, next) && p.next == next + |p.emitted|
            && (Wanted(q, next) ==> p.emitted != [])
            && Subsequence(p.kept, q)
            && Keys(q) == Keys(p.emitted) + Keys(p.kept)
            && |p.kept| + |p.emitted| == |q|
  {
    PassOrders(q, next, fs);
    PassKeys(q, next, fs);
    PassKeepsOrder(q, next, fs);
  }

  lemma SubsequenceDrop(a: seq<Insn>, b: seq<Insn>)
    requires b != [] && Subsequence(a, b[1..])
    ensures Subsequence(a, b)
  {
  }

  // ------------------------------------------------------------------ repeated passes

  function Passes(q: seq<Insn>, next: int, fs: int, n: nat): Passed
    decreases n
  {
    if n == 0 then Passed([], q, next)
    else
      var p := Pass(q, next, fs);
      var r := Passes(p.kept, p.next, fs, n - 1);
      r.(emitted := p.emitted + r.emitted)
  }

  /** As many passes as there are parked instructions leave nothing that could be handed out. */
  lemma {:induction false} EnoughPassesDrain(q: seq<Insn>, next: int, fs: int, n: nat)
    requires n >= |q|
    ensures var p := Passes(q, next, fs, n); !Wanted(p.kept, p.next)
    decreases n
  {
    if n > 0 {
      var p := Pass(q, next, fs);
      PassProperties(q, next, fs);
      if p.emitted == [] {
        NothingEmitted(q, next, fs);
        StaysDrained(q, next, fs, n);
      } else {
        EnoughPassesDrain(p.kept, p.next, fs, n - 1);
      }
    }
  }

  lemma {:induction false} NothingEmitted(q: seq<Insn>, next: int, fs: int)
    requires Pass(q, next, fs).emitted == []
    ensures Pass(q, next, fs) == Passed([], q, next) && !Wanted(q, next)
    decreases |q|
  {
    if q != [] {
      NothingEmitted(q[1..], next, fs);
      assert forall k :: 1 <= k < |q| ==> q[k] == q[1..][k - 1];
    }
  }

  lemma {:induction false} StaysDrained(q: seq<Insn>, next: int, fs: int, n: nat)
    requires Pass(q, next, fs) == Passed([], q, next)
    ensures Passes(q, next, fs, n) == Passed([], q, next)
    decreases n
  {
    if n > 0 {
      StaysDrained(q, next, fs, n - 1);
    }
  }

  // ------------------------------------------------------------- when one pass is enough

  /** The wanted order when the pass reaches position `i`. */
  function CountAt(q: seq<Insn>, next: int, i: nat): int
    requires i <= |q|
    decreases i
  {
    if i == 0 then next
    else
      var c := CountAt(q, next, i - 1);
      if q[i - 1].order == c then c + 1 else c
  }

  lemma {:induction false} CountShift(q: seq<Insn>, next: int, i: nat)
    requires 1 <= i <= |q|
    ensures CountAt(q, next, i) == CountAt(q[1..], CountAt(q, next, 1), i - 1)
    decreases i
  {
    if i > 1 {
      CountShift(q, next, i - 1);
    }
  }

  lemma {:induction false} CountIsNext(q: seq<Insn>, next: int, fs: int)
    ensures CountAt(q, next, |q|) == Pass(q, next, fs).next
    decreases |q|
  {
    if q != [] {
      CountShift(q, next, |q|);
      CountIsNext(q[1..], CountAt(q, next, 1), fs);
    }
  }

  lemma {:induction false} CountMonotone(q: seq<Insn>, next: int, i: nat, j: nat)
    requires i <= j <= |q|
    ensures CountAt(q, next, i) <= CountAt(q, next, j)
    decreases j - i
  {
    if i < j {
      CountMonotone(q, next, i, j - 1);
    }
  }

  /** Where order `o` was handed out. */
  lemma {:induction false} HandedOutAt(q: seq<Insn>, next: int, j: nat, o: int) returns (i: nat)
    requires j <= |q| && next <= o < CountAt(q, next, j)
    ensures i < j && q[i].order == o && CountAt(q, next, i) == o
    decreases j
  {
    if o < CountAt(q, next, j - 1) {
      i := HandedOutAt(q, next, j - 1, o);
    } else {
      i := j - 1;
    }
  }

  /** Order `o` and all before it back to the wanted one are parked. */
  predicate Deliverable(q: seq<Insn>, next: int, o: int) {
    next <= o && forall j :: next <= j <= o ==> Wanted(q, j)
  }

  /** Somewhere a deliverable instruction is parked behind its successor. */
  predicate SuccessorFirst(q: seq<Insn>, next: int) {
    exists a, b :: 0 <= a < b < |q| && q[a].order == q[b].order + 1 && Deliverable(q, next, q[b].order)
  }

  predicate Distinct(q: seq<Insn>) {
    forall a, b :: 0 <= a < b < |q| ==> q[a].order != q[b].order
  }

  /** One pass hands out everything deliverable exactly when no deliverable instruction is parked
      behind its successor. */
  lemma OnePassDrains(q: seq<Insn>, next: int, fs: int)
    requires Distinct(q)
    ensures !Wanted(q, Pass(q, next, fs).next) <==> !SuccessorFirst(q, next)
  {
    var c := CountAt(q, next, |q|);
    CountIsNext(q, next, fs);
    if Wanted(q, c) {
      var a :| 0 <= a < |q| && q[a].order == c;
      LeftBehind(q, next, a);
    }
    if SuccessorFirst(q, next) {
      var a, b :| 0 <= a < b < |q| && q[a].order == q[b].order + 1 && Deliverable(q, next, q[b].order);
      BlockedBySuccessor(q, next, a, b);
    }
  }

  lemma LeftBehind(q: seq<Insn>, next: int, a: nat)
    requires a < |q| && q[a].order == CountAt(q, next, |q|)
    ensures SuccessorFirst(q, next)
  {
    var c := CountAt(q, next, |q|);
    CountMonotone(q, next, a + 1, |q|);
    CountMonotone(q, next, 0, a);
    var b := HandedOutAt(q, next, |q|, c - 1);
    if b < a {
      CountMonotone(q, next, b + 1, a);
    }
    forall j | next <= j <= c - 1
      ensures Wanted(q, j)
    {
      var i := HandedOutAt(q, next, |q|, j);
    }
    assert 0 <= a < b < |q| && q[a].order == q[b].order + 1 && Deliverable(q, next, q[b].order);
  }

  lemma BlockedBySuccessor(q: seq<Insn>, next: int, a: nat, b: nat)
    requires Distinct(q) && a < b < |q| && q[a].order == q[b].order + 1 && Deliverable(q, next, q[b].order)
    ensures Wanted(q, CountAt(q, next, |q|))
  {
    var c, o := CountAt(q, next, |q|), q[b].order;
    CountMonotone(q, next, 0, |q|);
    if c > o + 1 {
      var i := HandedOutAt(q, next, |q|, o + 1);
      var j := HandedOutAt(q, next, |q|, o);
      assert i == a && j == b;
      CountMonotone(q, next, a, b);
    }
  }

  /** Two parked instructions in the wrong order survive a pass although both could be handed out. */
  lemma OnePassNeedNotDrain(fs: int)
    ensures var q := [Insn(3, 0, 0), Insn(2, 0, 0)];
            var p := Pass(q, 2, fs);
            Deliverable(q, 2, 3) && p.kept == [q[0]] && p.next == 3
  {
    var q := [Insn(3, 0, 0), Insn(2, 0, 0)];
    assert q[1..] == [q[1]] && q[1..][1..] == [];
    assert q[0].order == 3 && q[1].order == 2;
    assert Pass(q[1..], 2, fs) == Passed([q[1].(fs := fs)], [], 3) by {
      assert Pass([], 3, fs) == Passed([], [], 3);
    }
  }

  // -------------------------------------------------------------------------- sending

  predicate AllShow(q: seq<Insn>, fs: int) {
    forall x :: x in q ==> x.fs == fs
  }

  /** What a pass hands out shows the refreshed FS. */
  lemma {:induction false} PassRefreshes(q: seq<Insn>, next: int, fs: int)
    ensures AllShow(Pass(q, next, fs).emitted, fs)
    decreases |q|
  {
    if q != [] {
      PassRefreshes(q[1..], if q[0].order == next then next + 1 else next, fs);
    }
  }

  datatype State = State(log: seq<Insn>, parked: seq<Insn>, next: int, stopped: bool)

  const START := State([], [], 1, false)

  /** empty_fifo: one pass, unless the queue has grown past the limit, which ends the simulation. */
  function Emptied(s: State, fs: int): State {
    if |s.parked| > LIMIT then s.(stopped := true)
    else
      var p := Pass(s.parked, s.next, fs);
      s.(log := s.log + p.emitted, parked := p.kept, next := p.next)
  }

  function Sent(s: State, t: Insn, fs: int): State {
    if s.stopped then s
    else Emptied(if s.next == t.order then s.(log := s.log + [t], next := s.next + 1)
                 else s.(parked := s.parked + [t]), fs)
  }

  lemma EmptiedShowsFs(s: State, fs: int)
    ensures var z := Emptied(s, fs);
            && |s.log| <= |z.log| && z.log[..|s.log|] == s.log
            && AllShow(z.log[|s.log|..], fs)
            && (z.stopped <==> s.stopped || |s.parked| > 50)
  {
    PassRefreshes(s.parked, s.next, fs);
  }

  /** A send adds to the trace: the instruction itself as it was sent, if it is wanted, and then parked ones that
      show the FS of this cycle. It ends the simulation exactly if more than fifty are parked. */
  lemma SendShowsFs(s: State, t: Insn, fs: int)
    requires !s.stopped
    ensures var z, wanted := Sent(s, t, fs), s.next == t.order;
            && |s.log| + (if wanted then 1 else 0) <= |z.log| && z.log[..|s.log|] == s.log
            && (wanted ==> z.log[|s.log|] == t)
            && AllShow(z.log[|s.log| + (if wanted then 1 else 0)..], fs)
            && (z.stopped <==> |s.parked| + (if wanted then 0 else 1) > 50)
  {
    if s.next == t.order {
      var u := s.(log := s.log + [t], next := s.next + 1);
      EmptiedShowsFs(u, fs);
      assert Sent(s, t, fs).log[..|s.log|] == u.log[..|s.log|];
      assert u.log[|s.log|] == t;
    } else {
      EmptiedShowsFs(s.(parked := s.parked + [t]), fs);
    }
  }

  function SentAll(s: State, ts: seq<(Insn, int)>): State
    decreases |ts|
  {
    if ts == [] then s else Sent(SentAll(s, ts[..|ts| - 1]), ts[|ts| - 1].0, ts[|ts| - 1].1)
  }

  function KeysOfSent(ts: seq<(Insn, int)>): multiset<(int, int)>
    decreases |ts|
  {
    if ts == [] then multiset{} else KeysOfSent(ts[..|ts| - 1]) + multiset{Key(ts[|ts| - 1].0)}
  }

  ghost predicate Ordered(s: State) {
    Consecutive(s.log, 1) && s.next == |s.log| + 1
  }

  function Total(s: State): multiset<(int, int)> {
    Keys(s.log) + Keys(s.parked)
  }

  lemma EmptyingKeepsOrder(s: State, fs: int)
    requires Ordered(s)
    ensures Ordered(Emptied(s, fs))
  {
    PassOrders(s.parked, s.next, fs);
  }

  lemma EmptyingKeepsTotal(s: State, fs: int)
    ensures Total(Emptied(s, fs)) == Total(s)
  {
    if |s.parked| <= LIMIT {
      var p := Pass(s.parked, s.next, fs);
      calc {
        Total(Emptied(s, fs));
        Keys(s.log + p.emitted) + Keys(p.kept);
        { KeysAppend(s.log, p.emitted); }
        (Keys(s.log) + Keys(p.emitted)) + Keys(p.kept);
        Keys(s.log) + (Keys(p.emitted) + Keys(p.kept));
        { PassKeys(s.parked, s.next, fs); }
        Total(s);
      }
    }
  }

  lemma KeysOfOne(t: Insn)
    ensures Keys([t]) == multiset{Key(t)}
  {
    assert [t][1..] == [];
  }

  lemma SendKeeps(s: State, t: Insn, fs: int)
    requires Ordered(s) && !s.stopped
    ensures Ordered(Sent(s, t, fs)) && Total(Sent(s, t, fs)) == Total(s) + multiset{Key(t)}
  {
    KeysOfOne(t);
    if s.next == t.order {
      KeysAppend(s.log, [t]);
      EmptyingKeepsOrder(s.(log := s.log + [t], next := s.next + 1), fs);
      EmptyingKeepsTotal(s.(log := s.log + [t], next := s.next + 1), fs);
    } else {
      KeysAppend(s.parked, [t]);
      EmptyingKeepsOrder(s.(parked := s.parked + [t]), fs);
      EmptyingKeepsTotal(s.(parked := s.parked + [t]), fs);
    }
  }

  /** After any sequence of sends, in whatever order and with whatever numbers: the trace holds orders
      1, 2, 3, ... up to the wanted one, and the instructions sent are those traced and those parked. */
  lemma {:induction false} TraceIsInOrder(ts: seq<(Insn, int)>)
    ensures var s := SentAll(START, ts);
            Ordered(s) && (!s.stopped ==> KeysOfSent(ts) == Total(s))
    decreases |ts|
  {
    if ts != [] {
      var n := |ts| - 1;
      TraceIsInOrder(ts[..n]);
      var s := SentAll(START, ts[..n]);
      if !s.stopped {
        SendKeeps(s, ts[n].0, ts[n].1);
      }
    }
  }

  lemma PassIsShorter(s: State, t: Insn, fs: int)
    ensures |Sent(s, t, fs).parked| <= |s.parked| + 1
  {
    PassOrders(if s.next == t.order then s.parked else s.parked + [t],
               if s.next == t.order then s.next + 1 else s.next, fs);
  }

  /** Fifty sends never end the simulation, in whatever order they come. */
  lemma {:induction false} FiftyAreSafe(ts: seq<(Insn, int)>)
    requires |ts| <= 50
    ensures !SentAll(START, ts).stopped && |SentAll(START, ts).parked| <= |ts|
    decreases |ts|
  {
    if ts != [] {
      var rest, last := ts[..|ts| - 1], ts[|ts| - 1];
      FiftyAreSafe(rest);
      SendShowsFs(SentAll(START, rest), last.0, last.1);
      PassIsShorter(SentAll(START, rest), last.0, last.1);
    }
  }

  // -------------------------------------------------------------------- the queues

  class Monitor {
    var log: seq<Insn>
    var parked: seq<Insn>
    var nextSend: int
    var stopped: bool

    function Value(): State
      reads this
    {
      State(log, parked, nextSend, stopped)
    }

    constructor ()
      ensures Value() == START
    {
      log, parked, nextSend, stopped := [], [], 1, false;
    }

    /** Pops every parked instruction once and pushes back those not wanted yet. */
    method EmptyFifo(fs: int)
      requires !stopped
      modifies this
      ensures Value() == Emptied(old(Value()), fs)
    {
      if |parked| > LIMIT {
        stopped := true;
        return;
      }
      ghost var q, n, l := parked, nextSend, log;
      ghost var kept, emitted: seq<Insn> := [], [];
      var size := |parked|;
      assert q[0..] == q;
      for i := 0 to size
        invariant size == |q| && parked == q[i..] + kept && log == l + emitted && !stopped
        invariant var p := Pass(q[i..], nextSend, fs);
                  Pass(q, n, fs) == Passed(emitted + p.emitted, kept + p.kept, p.next)
      {
        var t := parked[0];
        assert t == q[i] && q[i..][1..] == q[i + 1..];
        ghost var p := Pass(q[i + 1..], if t.order == nextSend then nextSend + 1 else nextSend, fs);
        parked := parked[1..];
        if nextSend == t.order {
          assert emitted + ([t.(fs := fs)] + p.emitted) == emitted + [t.(fs := fs)] + p.emitted;
          log := log + [t.(fs := fs)];
          emitted := emitted + [t.(fs := fs)];
          nextSend := nextSend + 1;
        } else {
          assert kept + ([t] + p.kept) == kept + [t] + p.kept;
          parked := parked + [t];
          kept := kept + [t];
        }
      }
      assert q[size..] == [];
      assert emitted + [] == emitted && kept + [] == kept;
    }

    method SendRvfi(t: Insn, fs: int)
      requires !stopped
      modifies this
      ensures Value() == Sent(old(Value()), t, fs)
    {
      if nextSend == t.order {
        log := log + [t];
        nextSend := nextSend + 1;
      } else {
        parked := parked + [t];
      }
      EmptyFifo(fs);
    }
  }
}
