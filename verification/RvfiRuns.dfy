/** Whole runs of the reorder queue: in which arrival orders every send leaves nothing deliverable behind. */
module RvfiRuns {
  import opened RvfiQueue

  type Sends = seq<(Insn, int)>

  // -------------------------------------------------------------------- more about a pass

  lemma {:induction false} NothingWanted(q: seq<Insn>, next: int, fs: int)
    requires !Wanted(q, next)
    ensures Pass(q, next, fs) == Passed([], q, next)
    decreases |q|
  {
    if q != [] {
      assert forall k :: 1 <= k < |q| ==> q[1..][k - 1] == q[k];
      assert forall k :: 0 <= k < |q| - 1 ==> q[1..][k] == q[k + 1];
      NothingWanted(q[1..], next, fs);
      assert [q[0]] + q[1..] == q;
    }
  }

  /** What is kept was parked; what is not kept was emitted, in the range of orders passed. */
  lemma {:induction false} PassSplits(q: seq<Insn>, next: int, fs: int)
    ensures var p := Pass(q, next, fs);
            && next <= p.next
            && (forall x :: x in p.kept ==> x in q)
            && (forall x :: x in q ==> x in p.kept || next <= x.order < p.next)
            && (forall o :: next <= o < p.next ==> Wanted(q, o))
    decreases |q|
  {
    if q != [] {
      var n := if q[0].order == next then next + 1 else next;
      PassSplits(q[1..], n, fs);
      forall o | next <= o < Pass(q, next, fs).next
        ensures Wanted(q, o)
      {
        if o >= n {
          assert Wanted(q[1..], o);
          var k :| 0 <= k < |q[1..]| && q[1..][k].order == o;
          assert q[k + 1].order == o;
        }
      }
    }
  }

  /** With distinct orders, what is kept lies outside the orders passed. */
  lemma {:induction false} KeptIsAhead(q: seq<Insn>, next: int, fs: int)
    requires Distinct(q)
    ensures var p := Pass(q, next, fs); forall x :: x in p.kept ==> !(next <= x.order < p.next)
    decreases |q|
  {
    if q != [] {
      var n := if q[0].order == next then next + 1 else next;
      KeptIsAhead(q[1..], n, fs);
      PassSplits(q[1..], n, fs);
      assert forall x :: x in q[1..] ==> exists k :: 1 <= k < |q| && q[k] == x;
      assert !Wanted(q[1..], q[0].order);
    }
  }

  /** A successor parked in front of its predecessor: a pass that emits the predecessor leaves the successor. */
  lemma PassInverted(q: seq<Insn>, next: int, fs: int, a: nat, b: nat)
    requires Distinct(q) && a < b < |q| && q[a].order == q[b].order + 1 && next <= q[b].order
    ensures var p := Pass(q, next, fs); p.next <= q[b].order || Wanted(p.kept, p.next)
  {
    var c, o := CountAt(q, next, |q|), q[b].order;
    var p := Pass(q, next, fs);
    CountIsNext(q, next, fs);
    if c > o {
      var i := HandedOutAt(q, next, |q|, o);
      assert i == b;
      CountMonotone(q, next, a, b);
      if c > o + 1 {
        var j := HandedOutAt(q, next, |q|, o + 1);
        assert false;
      }
      PassSplits(q, next, fs);
      assert q[a] in p.kept;
    }
  }

  // ---------------------------------------------------------------------- the arrivals

  predicate Arrived(ts: Sends, k: nat, o: int)
    requires k <= |ts|
  {
    exists m :: 0 <= m < k && ts[m].0.order == o
  }

  /** Orders count from 1 and none is sent twice. */
  predicate Proper(ts: Sends) {
    && (forall m :: 0 <= m < |ts| ==> ts[m].0.order >= 1)
    && (forall m, n :: 0 <= m < n < |ts| ==> ts[m].0.order != ts[n].0.order)
  }

  /** An instruction, its predecessor after it, and an earlier one after both; and everything up to the first
      arrives. */
  predicate ReversedEarly(ts: Sends) {
    exists i, j, l :: 0 <= i < j < l < |ts| && Reversed(ts, i, j, l)
  }

  predicate Reversed(ts: Sends, i: nat, j: nat, l: nat)
    requires i < |ts| && j < |ts| && l < |ts|
  {
    && ts[i].0.order == ts[j].0.order + 1 && ts[l].0.order < ts[j].0.order
    && forall o :: 1 <= o <= ts[i].0.order ==> Arrived(ts, |ts|, o)
  }

  predicate Quiet(s: State) {
    !Wanted(s.parked, s.next)
  }

  function After(ts: Sends, k: nat): State
    requires k <= |ts|
  {
    SentAll(START, ts[..k])
  }

  predicate AlwaysDrained(ts: Sends) {
    forall k :: 0 <= k <= |ts| ==> Quiet(After(ts, k))
  }

  lemma AfterNext(ts: Sends, k: nat)
    requires k < |ts|
    ensures After(ts, k + 1) == Sent(After(ts, k), ts[k].0, ts[k].1)
  {
    assert ts[..k + 1][..k] == ts[..k];
  }

  // --------------------------------------------------------------------------- invariant

  /** Order `o` is sent before order `r`. */
  predicate Before(ts: Sends, o: int, r: int) {
    forall m, n :: 0 <= m < |ts| && 0 <= n < |ts| && ts[m].0.order == o && ts[n].0.order == r ==> m < n
  }

  /** Parked orders are from `next` on and have arrived. */
  predicate Ahead(ts: Sends, k: nat, q: seq<Insn>, next: int)
    requires k <= |ts|
  {
    forall a :: 0 <= a < |q| ==> q[a].order >= next && Arrived(ts, k, q[a].order)
  }

  predicate InArrivalOrder(ts: Sends, q: seq<Insn>) {
    forall a, b :: 0 <= a < b < |q| ==> Before(ts, q[a].order, q[b].order)
  }

  /** What has arrived is passed or parked. */
  ghost predicate Covered(ts: Sends, k: nat, q: seq<Insn>, next: int)
    requires k <= |ts|
  {
    forall o :: Arrived(ts, k, o) ==> o < next || Wanted(q, o)
  }

  /** What is passed has arrived. */
  predicate Complete(ts: Sends, k: nat, next: int)
    requires k <= |ts|
  {
    next >= 1 && forall o :: 1 <= o < next ==> Arrived(ts, k, o)
  }

  ghost predicate Holds(ts: Sends, k: nat, q: seq<Insn>, next: int)
    requires k <= |ts|
  {
    Ahead(ts, k, q, next) && InArrivalOrder(ts, q) && Covered(ts, k, q, next) && Complete(ts, k, next)
  }

  lemma ArrivedGrows(ts: Sends, k: nat, o: int)
    requires k < |ts|
    ensures Arrived(ts, k + 1, o) <==> Arrived(ts, k, o) || ts[k].0.order == o
  {
    assert ts[k].0.order == o ==> Arrived(ts, k + 1, o);
  }

  lemma HeldAreDistinct(ts: Sends, k: nat, q: seq<Insn>, next: int)
    requires k <= |ts| && Ahead(ts, k, q, next) && InArrivalOrder(ts, q)
    ensures Distinct(q)
  {
    forall a, b | 0 <= a < b < |q|
      ensures q[a].order != q[b].order
    {
      assert Arrived(ts, k, q[a].order) && Before(ts, q[a].order, q[b].order);
      var m :| 0 <= m < k && ts[m].0.order == q[a].order;
      assert ts[m].0.order == q[b].order ==> m < m;
    }
  }

  /** The kept ones in front of and behind each other were so before. */
  lemma {:induction false} KeptInOrder(q: seq<Insn>, next: int, fs: int, c: nat, d: nat) returns (a: nat, b: nat)
    requires c < d < |Pass(q, next, fs).kept|
    ensures a < b < |q| && q[a] == Pass(q, next, fs).kept[c] && q[b] == Pass(q, next, fs).kept[d]
    decreases |q|
  {
    var n := if q[0].order == next then next + 1 else next;
    var t := Pass(q[1..], n, fs);
    if q[0].order == next {
      a, b := KeptInOrder(q[1..], n, fs, c, d);
      a, b := a + 1, b + 1;
    } else if c > 0 {
      a, b := KeptInOrder(q[1..], n, fs, c - 1, d - 1);
      a, b := a + 1, b + 1;
    } else {
      PassSplits(q[1..], n, fs);
      assert t.kept[d - 1] in q[1..];
      b :| 0 <= b < |q[1..]| && q[1..][b] == t.kept[d - 1];
      a, b := 0, b + 1;
    }
  }

  lemma PassCovers(ts: Sends, k: nat, q: seq<Insn>, next: int, fs: int)
    requires k <= |ts| && Covered(ts, k, q, next)
    ensures var p := Pass(q, next, fs); Covered(ts, k, p.kept, p.next)
  {
    var p := Pass(q, next, fs);
    PassSplits(q, next, fs);
    forall o | Arrived(ts, k, o)
      ensures o < p.next || Wanted(p.kept, o)
    {
      if o >= p.next {
        assert Wanted(q, o);
        var a :| 0 <= a < |q| && q[a].order == o;
        assert q[a] in q && q[a] in p.kept;
      }
    }
  }

  lemma PassCompletes(ts: Sends, k: nat, q: seq<Insn>, next: int, fs: int)
    requires k <= |ts| && Ahead(ts, k, q, next) && Complete(ts, k, next)
    ensures Complete(ts, k, Pass(q, next, fs).next)
  {
    var p := Pass(q, next, fs);
    PassSplits(q, next, fs);
    forall o {:trigger Arrived(ts, k, o)} | 1 <= o < p.next
      ensures Arrived(ts, k, o)
    {
      if o >= next {
        assert Wanted(q, o);
        var a :| 0 <= a < |q| && q[a].order == o;
      }
    }
  }

  lemma PassKeepsAhead(ts: Sends, k: nat, q: seq<Insn>, next: int, fs: int)
    requires k <= |ts| && Ahead(ts, k, q, next) && Distinct(q)
    ensures var p := Pass(q, next, fs); Ahead(ts, k, p.kept, p.next)
  {
    var p := Pass(q, next, fs);
    PassSplits(q, next, fs);
    KeptIsAhead(q, next, fs);
    forall a | 0 <= a < |p.kept|
      ensures p.kept[a].order >= p.next && Arrived(ts, k, p.kept[a].order)
    {
      assert p.kept[a] in p.kept && p.kept[a] in q;
    }
  }

  lemma PassKeepsArrivalOrder(ts: Sends, q: seq<Insn>, next: int, fs: int)
    requires InArrivalOrder(ts, q)
    ensures InArrivalOrder(ts, Pass(q, next, fs).kept)
  {
    var kept := Pass(q, next, fs).kept;
    forall c, d | 0 <= c < d < |kept|
      ensures Before(ts, kept[c].order, kept[d].order)
    {
      var a, b := KeptInOrder(q, next, fs, c, d);
      assert Before(ts, q[a].order, q[b].order);
    }
  }

  /** A pass keeps the invariant. */
  lemma PassHolds(ts: Sends, k: nat, q: seq<Insn>, next: int, fs: int)
    requires k <= |ts| && Holds(ts, k, q, next)
    ensures var p := Pass(q, next, fs); Holds(ts, k, p.kept, p.next)
  {
    HeldAreDistinct(ts, k, q, next);
    PassKeepsAhead(ts, k, q, next, fs);
    PassKeepsArrivalOrder(ts, q, next, fs);
    PassCovers(ts, k, q, next, fs);
    PassCompletes(ts, k, q, next, fs);
  }

  lemma CompleteGrows(ts: Sends, k: nat, next: int)
    requires k < |ts| && Complete(ts, k, next)
    ensures Complete(ts, k + 1, if ts[k].0.order == next then next + 1 else next)
  {
    forall o {:trigger Arrived(ts, k + 1, o)} | 1 <= o < if ts[k].0.order == next then next + 1 else next
      ensures Arrived(ts, k + 1, o)
    {
      ArrivedGrows(ts, k, o);
      assert o < next ==> Arrived(ts, k, o);
    }
  }

  /** A new arrival is not one of the old ones. */
  lemma NewArrival(ts: Sends, k: nat)
    requires Proper(ts) && k < |ts|
    ensures !Arrived(ts, k, ts[k].0.order)
  {
  }

  /** An arrival that is wanted, before its pass. */
  lemma WantedArrives(ts: Sends, k: nat, q: seq<Insn>, next: int)
    requires Proper(ts) && k < |ts| && Holds(ts, k, q, next) && ts[k].0.order == next
    ensures Holds(ts, k + 1, q, next + 1)
  {
    NewArrival(ts, k);
    CompleteGrows(ts, k, next);
    forall a | 0 <= a < |q|
      ensures q[a].order >= next + 1 && Arrived(ts, k + 1, q[a].order)
    {
      ArrivedGrows(ts, k, q[a].order);
    }
    forall o | Arrived(ts, k + 1, o)
      ensures o < next + 1 || Wanted(q, o)
    {
      ArrivedGrows(ts, k, o);
    }
  }

  lemma AppendAhead(ts: Sends, k: nat, q: seq<Insn>, next: int)
    requires k < |ts| && Ahead(ts, k, q, next) && ts[k].0.order >= next
    ensures Ahead(ts, k + 1, q + [ts[k].0], next)
  {
    var r := q + [ts[k].0];
    forall a | 0 <= a < |r|
      ensures r[a].order >= next && Arrived(ts, k + 1, r[a].order)
    {
      ArrivedGrows(ts, k, r[a].order);
    }
  }

  lemma AppendInOrder(ts: Sends, k: nat, q: seq<Insn>, next: int)
    requires Proper(ts) && k < |ts| && Ahead(ts, k, q, next) && InArrivalOrder(ts, q)
    ensures InArrivalOrder(ts, q + [ts[k].0])
  {
    var r := q + [ts[k].0];
    forall a, b | 0 <= a < b < |r|
      ensures Before(ts, r[a].order, r[b].order)
    {
      if b == |q| {
        assert Arrived(ts, k, q[a].order);
        var m :| 0 <= m < k && ts[m].0.order == q[a].order;
      }
    }
  }

  lemma AppendCovers(ts: Sends, k: nat, q: seq<Insn>, next: int)
    requires k < |ts| && Covered(ts, k, q, next)
    ensures Covered(ts, k + 1, q + [ts[k].0], next)
  {
    var r := q + [ts[k].0];
    forall o | Arrived(ts, k + 1, o)
      ensures o < next || Wanted(r, o)
    {
      ArrivedGrows(ts, k, o);
      if ts[k].0.order == o {
        assert r[|q|].order == o;
      } else if o >= next {
        assert Wanted(q, o);
        var a :| 0 <= a < |q| && q[a].order == o;
        assert r[a].order == o;
      }
    }
  }

  /** An arrival that is parked, before its pass. */
  lemma ParkedArrives(ts: Sends, k: nat, q: seq<Insn>, next: int)
    requires Proper(ts) && k < |ts| && Holds(ts, k, q, next) && ts[k].0.order != next
    ensures Holds(ts, k + 1, q + [ts[k].0], next)
  {
    NewArrival(ts, k);
    CompleteGrows(ts, k, next);
    assert ts[k].0.order >= next;
    AppendAhead(ts, k, q, next);
    AppendInOrder(ts, k, q, next);
    AppendCovers(ts, k, q, next);
  }

  /** The queue and wanted order a send passes over. */
  function Offered(s: State, t: Insn): (seq<Insn>, int) {
    if s.next == t.order then (s.parked, s.next + 1) else (s.parked + [t], s.next)
  }

  lemma SentIsPass(s: State, t: Insn, fs: int)
    requires !Sent(s, t, fs).stopped
    ensures !s.stopped
    ensures var (q, n) := Offered(s, t);
            var p := Pass(q, n, fs);
            Sent(s, t, fs).parked == p.kept && Sent(s, t, fs).next == p.next
  {
  }

  lemma OfferedHolds(ts: Sends, k: nat, s: State)
    requires Proper(ts) && k < |ts| && Holds(ts, k, s.parked, s.next)
    ensures var (q, n) := Offered(s, ts[k].0); Holds(ts, k + 1, q, n)
  {
    if s.next == ts[k].0.order {
      WantedArrives(ts, k, s.parked, s.next);
    } else {
      ParkedArrives(ts, k, s.parked, s.next);
    }
  }

  lemma {:induction false} RunHolds(ts: Sends, k: nat)
    requires Proper(ts) && k <= |ts| && !After(ts, k).stopped
    ensures var s := After(ts, k); Holds(ts, k, s.parked, s.next)
    decreases k
  {
    if k > 0 {
      var s, t := After(ts, k - 1), ts[k - 1];
      AfterNext(ts, k - 1);
      SentIsPass(s, t.0, t.1);
      RunHolds(ts, k - 1);
      OfferedHolds(ts, k - 1, s);
      var (q, n) := Offered(s, t.0);
      PassHolds(ts, k, q, n, t.1);
    }
  }

  lemma {:induction false} NotStoppedBefore(ts: Sends, k: nat, n: nat)
    requires k <= n <= |ts| && !After(ts, n).stopped
    ensures !After(ts, k).stopped
    decreases n
  {
    if k < n {
      AfterNext(ts, n - 1);
      SentIsPass(After(ts, n - 1), ts[n - 1].0, ts[n - 1].1);
      NotStoppedBefore(ts, k, n - 1);
    }
  }

  // ---------------------------------------------------------- without an early reversal

  /** A pass that leaves something deliverable, after a wanted arrival. */
  lemma NoisyPass(ts: Sends, k: nat, q: seq<Insn>, next: int, fs: int)
    requires Proper(ts) && k < |ts| && Holds(ts, k, q, next) && ts[k].0.order == next
    requires var p := Pass(q, next + 1, fs); Wanted(p.kept, p.next)
    ensures ReversedEarly(ts)
  {
    var p := Pass(q, next + 1, fs);
    HeldAreDistinct(ts, k, q, next);
    KeptWanted(q, next + 1, fs);
    OnePassDrains(q, next + 1, fs);
    var a, b :| 0 <= a < b < |q| && q[a].order == q[b].order + 1 && Deliverable(q, next + 1, q[b].order);
    ReversalFound(ts, k, q, next, a, b);
  }

  lemma KeptWanted(q: seq<Insn>, next: int, fs: int)
    requires var p := Pass(q, next, fs); Wanted(p.kept, p.next)
    ensures Wanted(q, Pass(q, next, fs).next)
  {
    var p := Pass(q, next, fs);
    PassSplits(q, next, fs);
    var c :| 0 <= c < |p.kept| && p.kept[c].order == p.next;
    assert p.kept[c] in p.kept && p.kept[c] in q;
  }

  /** A send that leaves something deliverable behind a quiet state shows an early reversal. */
  lemma NoisySend(ts: Sends, k: nat)
    requires Proper(ts) && k < |ts| && !After(ts, k + 1).stopped
    requires Quiet(After(ts, k)) && !Quiet(After(ts, k + 1))
    ensures ReversedEarly(ts)
  {
    var s, t := After(ts, k), ts[k];
    AfterNext(ts, k);
    SentIsPass(s, t.0, t.1);
    RunHolds(ts, k);
    if t.0.order != s.next {
      ParkedStaysQuiet(s, t.0, t.1);
    } else {
      NoisyPass(ts, k, s.parked, s.next, t.1);
    }
  }

  lemma ParkedStaysQuiet(s: State, t: Insn, fs: int)
    requires Quiet(s) && t.order != s.next && !Sent(s, t, fs).stopped
    ensures Quiet(Sent(s, t, fs))
  {
    NothingWanted(s.parked + [t], s.next, fs);
  }

  /** Everything up to the order in front of queue position `b` has arrived. */
  lemma ArrivedUpTo(ts: Sends, k: nat, q: seq<Insn>, next: int, a: nat, b: nat, o: int)
    requires k < |ts| && Holds(ts, k, q, next) && ts[k].0.order == next
    requires a < b < |q| && q[a].order == q[b].order + 1 && Deliverable(q, next + 1, q[b].order)
    requires 1 <= o <= q[a].order
    ensures Arrived(ts, |ts|, o)
  {
    if o < next {
      assert Arrived(ts, k, o);
    } else if o == next {
      assert ts[k].0.order == o;
    } else if o <= q[b].order {
      assert Wanted(q, o);
      var c :| 0 <= c < |q| && q[c].order == o;
      assert Arrived(ts, k, q[c].order);
    } else {
      assert Arrived(ts, k, q[a].order);
    }
  }

  lemma ReversalFound(ts: Sends, k: nat, q: seq<Insn>, next: int, a: nat, b: nat)
    requires Proper(ts) && k < |ts| && Holds(ts, k, q, next) && ts[k].0.order == next
    requires a < b < |q| && q[a].order == q[b].order + 1 && Deliverable(q, next + 1, q[b].order)
    ensures ReversedEarly(ts)
  {
    assert Arrived(ts, k, q[a].order) && Arrived(ts, k, q[b].order) && Before(ts, q[a].order, q[b].order);
    var i :| 0 <= i < k && ts[i].0.order == q[a].order;
    var j :| 0 <= j < k && ts[j].0.order == q[b].order;
    forall o {:trigger Arrived(ts, |ts|, o)} | 1 <= o <= ts[i].0.order
      ensures Arrived(ts, |ts|, o)
    {
      ArrivedUpTo(ts, k, q, next, a, b, o);
    }
    assert Reversed(ts, i, j, k);
  }

  lemma {:induction false} QuietUpTo(ts: Sends, k: nat)
    requires Proper(ts) && !After(ts, |ts|).stopped && k <= |ts| && !ReversedEarly(ts)
    ensures Quiet(After(ts, k))
    decreases k
  {
    if k > 0 {
      QuietUpTo(ts, k - 1);
      NotStoppedBefore(ts, k, |ts|);
      if !Quiet(After(ts, k)) {
        NoisySend(ts, k - 1);
        assert false;
      }
    }
  }

  // ------------------------------------------------------------- with an early reversal

  /** The send with which the wanted order passes `o`. */
  lemma {:induction false} Crossing(ts: Sends, o: int, k: nat, n: nat) returns (c: nat)
    requires k <= n <= |ts| && After(ts, k).next <= o < After(ts, n).next
    ensures k <= c < n && After(ts, c).next <= o < After(ts, c + 1).next
    decreases n
  {
    if After(ts, n - 1).next <= o {
      c := n - 1;
    } else {
      c := Crossing(ts, o, k, n - 1);
    }
  }

  /** After its predecessor has arrived behind it, the successor is in front of it as long as both are parked. */
  lemma BothParked(ts: Sends, k: nat, q: seq<Insn>, next: int, i: nat, j: nat) returns (a: nat, b: nat)
    requires k <= |ts| && Covered(ts, k, q, next) && InArrivalOrder(ts, q)
    requires i < j < k && ts[i].0.order == ts[j].0.order + 1 && next <= ts[j].0.order
    ensures a < b < |q| && q[a].order == ts[i].0.order && q[b].order == ts[j].0.order
  {
    assert Arrived(ts, k, ts[i].0.order) && Arrived(ts, k, ts[j].0.order);
    a :| 0 <= a < |q| && q[a].order == ts[i].0.order;
    b :| 0 <= b < |q| && q[b].order == ts[j].0.order;
    assert b < a ==> Before(ts, q[b].order, q[a].order);
  }

  /** When everything up to `o` has arrived, a quiet state wants a later one. */
  lemma AllDelivered(ts: Sends, k: nat, s: State, o: int)
    requires k <= |ts| && Covered(ts, k, s.parked, s.next) && Quiet(s) && s.next >= 1
    requires forall r :: 1 <= r <= o ==> Arrived(ts, k, r)
    ensures s.next > o
  {
    NotArrived(ts, k, s);
  }

  lemma NotArrived(ts: Sends, k: nat, s: State)
    requires k <= |ts| && Covered(ts, k, s.parked, s.next) && Quiet(s)
    ensures !Arrived(ts, k, s.next)
  {
  }

  /** An order that is still to come is not passed. */
  lemma NotYet(ts: Sends, k: nat, next: int, l: nat)
    requires Proper(ts) && k <= l < |ts| && Complete(ts, k, next)
    ensures next <= ts[l].0.order
  {
    assert next > ts[l].0.order ==> Arrived(ts, k, ts[l].0.order);
  }

  /** An early reversal leaves something deliverable behind some send. */
  lemma ReversalIsNoisy(ts: Sends, i: nat, j: nat, l: nat)
    requires Proper(ts) && !After(ts, |ts|).stopped
    requires i < j < l < |ts| && Reversed(ts, i, j, l)
    ensures !AlwaysDrained(ts)
  {
    var o := ts[j].0.order;
    RunHolds(ts, |ts|);
    NotStoppedBefore(ts, j + 1, |ts|);
    RunHolds(ts, j + 1);
    NotYet(ts, j + 1, After(ts, j + 1).next, l);
    if Quiet(After(ts, |ts|)) {
      AllDelivered(ts, |ts|, After(ts, |ts|), o + 1);
      var c := Crossing(ts, o, j + 1, |ts|);
      CrossingIsNoisy(ts, i, j, c);
    }
  }

  lemma CrossingIsNoisy(ts: Sends, i: nat, j: nat, c: nat)
    requires Proper(ts) && !After(ts, |ts|).stopped && i < j < c < |ts| && ts[i].0.order == ts[j].0.order + 1
    requires After(ts, c).next <= ts[j].0.order < After(ts, c + 1).next
    ensures !Quiet(After(ts, c + 1))
  {
    var s, t, o := After(ts, c), ts[c], ts[j].0.order;
    NotStoppedBefore(ts, c, |ts|);
    NotStoppedBefore(ts, c + 1, |ts|);
    AfterNext(ts, c);
    SentIsPass(s, t.0, t.1);
    RunHolds(ts, c);
    OfferedHolds(ts, c, s);
    var (q, n) := Offered(s, t.0);
    HeldAreDistinct(ts, c + 1, q, n);
    var a, b := BothParked(ts, c + 1, q, n, i, j);
    PassInverted(q, n, t.1, a, b);
  }

  // ---------------------------------------------------------------------- the main result

  /** Over a whole sequence of sends nothing deliverable is ever left parked if and only if no instruction
      arrives before its predecessor, and that before a still earlier one, all being delivered in the end. */
  lemma DrainedIffNotReversed(ts: Sends)
    requires Proper(ts) && !After(ts, |ts|).stopped
    ensures AlwaysDrained(ts) <==> !ReversedEarly(ts)
  {
    if ReversedEarly(ts) {
      var i, j, l :| 0 <= i < j < l < |ts| && Reversed(ts, i, j, l);
      ReversalIsNoisy(ts, i, j, l);
    } else {
      forall k | 0 <= k <= |ts|
        ensures Quiet(After(ts, k))
      {
        QuietUpTo(ts, k);
      }
    }
  }
}
