/** The 64-bit performance counters of rtl/cv32e40p_cs_registers.sv, written by halves. */
module PerfCounters {
  import opened Bits

  const HALF := 0x1_0000_0000
  const EVENTS := 16

  /** `counters` is NUM_MHPMCOUNTERS: counters 0 and 2 and those from 3 up to `counters + 2` exist. */
  predicate Implemented(counters: nat, k: nat) {
    k < 32 && k != 1 && k < counters + 3
  }

  predicate Programmable(counters: nat, k: nat) {
    3 <= k < 32 && k < counters + 3
  }

  datatype Write =
    | NoWrite
    | Low(k: nat, value: nat)
    | High(k: nat, value: nat)
    | Inhibit(mask: seq<bool>)
    | Select(k: nat, mask: seq<bool>)

  /** The CSR write of the cycle and the sixteen event lines; line 0 is the constant cycle event,
      line 1 a retired instruction. */
  datatype Input = Input(write: Write, events: seq<bool>)

  ghost predicate ValidInput(i: Input) {
    && |i.events| == EVENTS && i.events[0]
    && match i.write
       case NoWrite => true
       case Low(k, v) => k < 32 && 0 <= v < HALF
       case High(k, v) => k < 32 && 0 <= v < HALF
       case Inhibit(mask) => |mask| == 32
       case Select(k, mask) => k < 32 && |mask| == EVENTS
  }

  datatype State = State(value: seq<nat>, inhibit: seq<bool>, select: seq<seq<bool>>)

  ghost predicate Valid(counters: nat, s: State) {
    && |s.value| == 32 && |s.inhibit| == 32 && |s.select| == 32
    && (forall k :: 0 <= k < 32 ==> |s.select[k]| == EVENTS && 0 <= s.value[k] < HALF * HALF)
    && (forall k :: 0 <= k < 32 && !Implemented(counters, k) ==> s.value[k] == 0)
  }

  /** Counter `k` sees an event: every cycle for mcycle, retirement for minstret, any selected event
      line for the others. */
  predicate Event(s: State, i: Input, k: nat)
    requires k < |s.select|
  {
    if k == 0 then true
    else if k == 2 then 1 < |i.events| && i.events[1]
    else exists e :: 0 <= e < |i.events| && e < |s.select[k]| && i.events[e] && s.select[k][e]
  }

  predicate WritesTo(w: Write, k: nat) {
    (w.Low? && w.k == k) || (w.High? && w.k == k)
  }

  predicate Counts(counters: nat, s: State, i: Input, k: nat)
    requires k < |s.select| && k < |s.inhibit|
  {
    Implemented(counters, k) && !WritesTo(i.write, k) && !s.inhibit[k] && Event(s, i, k)
  }

  function NextValue(counters: nat, s: State, i: Input, k: nat): (v: nat)
    requires k < |s.select| && k < |s.inhibit| && k < |s.value|
  {
    if !Implemented(counters, k) then 0
    else if i.write.Low? && i.write.k == k then s.value[k] - s.value[k] % HALF + i.write.value
    else if i.write.High? && i.write.k == k then i.write.value * HALF + s.value[k] % HALF
    else if Counts(counters, s, i, k) then (s.value[k] + 1) % (HALF * HALF)
    else s.value[k]
  }

  predicate NextInhibit(counters: nat, s: State, i: Input, k: nat)
    requires k < |s.inhibit|
  {
    Implemented(counters, k) &&
    if i.write.Inhibit? && k < |i.write.mask| then i.write.mask[k] else s.inhibit[k]
  }

  function Step(counters: nat, s: State, i: Input): State
    requires |s.value| == 32 && |s.inhibit| == 32 && |s.select| == 32
  {
    State(seq(32, k requires 0 <= k < 32 => NextValue(counters, s, i, k)),
          seq(32, k requires 0 <= k < 32 => NextInhibit(counters, s, i, k)),
          seq(32, k requires 0 <= k < 32 =>
            if i.write.Select? && i.write.k == k && Programmable(counters, k) then i.write.mask else s.select[k]))
  }

  lemma StepValid(counters: nat, s: State, i: Input)
    requires Valid(counters, s) && ValidInput(i)
    ensures Valid(counters, Step(counters, s, i))
  {
    forall k | 0 <= k < 32
      ensures 0 <= NextValue(counters, s, i, k) < HALF * HALF
    {
    }
  }

  function Run(counters: nat, s: State, ins: seq<Input>): (t: State)
    requires |s.value| == 32 && |s.inhibit| == 32 && |s.select| == 32
    ensures |t.value| == 32 && |t.inhibit| == 32 && |t.select| == 32
    decreases |ins|
  {
    if ins == [] then s else Run(counters, Step(counters, s, ins[0]), ins[1..])
  }

  ghost predicate AllValid(ins: seq<Input>) {
    forall j :: 0 <= j < |ins| ==> ValidInput(ins[j])
  }

  lemma CountStep(v: nat, n: nat, at: nat, counts: bool, m: nat)
    requires m > 0 && at == (v + n) % m
    ensures (if counts then (at + 1) % m else at) == (v + (n + if counts then 1 else 0)) % m
  {
    if counts {
      var q := (v + n) / m;
      var p, r := (at + 1) / m, (at + 1) % m;
      assert v + n == q * m + at && at + 1 == p * m + r && (q + p) * m == q * m + p * m;
      ModUnique(v + (n + 1), m, q + p, r);
    }
  }

  lemma {:induction false} RunValid(counters: nat, s: State, ins: seq<Input>)
    requires Valid(counters, s) && AllValid(ins)
    ensures Valid(counters, Run(counters, s, ins))
    decreases |ins|
  {
    if ins != [] {
      assert ValidInput(ins[0]);
      StepValid(counters, s, ins[0]);
      RunValid(counters, Step(counters, s, ins[0]), ins[1..]);
    }
  }

  /** Two half-writes in consecutive cycles, in either order, set all 64 bits. */
  lemma HalvesMakeWhole(counters: nat, s: State, k: nat, v: nat, lowFirst: bool, i: Input, j: Input)
    requires Valid(counters, s) && ValidInput(i) && ValidInput(j)
    requires Implemented(counters, k) && v < HALF * HALF
    requires i.write == if lowFirst then Low(k, v % HALF) else High(k, v / HALF)
    requires j.write == if lowFirst then High(k, v / HALF) else Low(k, v % HALF)
    ensures Step(counters, Step(counters, s, i), j).value[k] == v
  {
  }

  /** Half a counter is written and the other half survives. */
  lemma HalfWrite(counters: nat, s: State, i: Input, k: nat)
    requires Valid(counters, s) && ValidInput(i) && (k == 0 || k == 2 || 3 <= k < counters + 3) && k < 32
    ensures var v, w := s.value[k], Step(counters, s, i).value[k];
            && (i.write.Low? && i.write.k == k ==> w % HALF == i.write.value && w / HALF == v / HALF)
            && (i.write.High? && i.write.k == k ==> w / HALF == i.write.value && w % HALF == v % HALF)
  {
  }

  // ---------------------------------------------------------- counting, from the inputs alone

  /** Counters start at zero and inhibited. */
  function Reset(counters: nat): State {
    State(seq(32, _ => 0), seq(32, k requires 0 <= k < 32 => Implemented(counters, k)),
          seq(32, _ => seq(EVENTS, _ => false)))
  }

  /** The inhibit bit of counter `k` after a run from reset: the last one written, or set. */
  predicate Inhibited(ins: seq<Input>, k: nat)
    decreases |ins|
  {
    if ins == [] then true
    else
      var last := ins[|ins| - 1].write;
      if last.Inhibit? && k < |last.mask| then last.mask[k] else Inhibited(ins[..|ins| - 1], k)
  }

  /** The event line `e` selected for counter `k` after a run from reset: as last written, or not. */
  predicate Selected(ins: seq<Input>, k: nat, e: nat)
    decreases |ins|
  {
    if ins == [] then false
    else
      var last := ins[|ins| - 1].write;
      if last.Select? && last.k == k then e < |last.mask| && last.mask[e] else Selected(ins[..|ins| - 1], k, e)
  }

  /** After the run `before`, a cycle counts in counter `k`: in mcycle every cycle that is not inhibited, in
      minstret those with a retired instruction, in the others those with a line that is selected. */
  predicate Ticks(before: seq<Input>, i: Input, k: nat) {
    !Inhibited(before, k) &&
    if k == 0 then true
    else if k == 2 then |i.events| > 1 && i.events[1]
    else exists e :: 0 <= e < |i.events| && i.events[e] && Selected(before, k, e)
  }

  /** Cycles of `later` that count, after the run `before`. */
  function TicksIn(before: seq<Input>, later: seq<Input>, k: nat): nat
    decreases |later|
  {
    if later == [] then 0
    else (if Ticks(before, later[0], k) then 1 else 0) + TicksIn(before + [later[0]], later[1..], k)
  }

  /** The counters there are: mcycle, minstret and the programmable ones. */
  predicate Exists(counters: nat, k: nat) {
    k < 32 && (k == 0 || k == 2 || 3 <= k < counters + 3)
  }

  /** The last cycle of a run. */
  lemma {:induction false} RunLast(counters: nat, s: State, ins: seq<Input>, i: Input)
    requires |s.value| == 32 && |s.inhibit| == 32 && |s.select| == 32
    ensures Run(counters, s, ins + [i]) == Step(counters, Run(counters, s, ins), i)
    decreases |ins|
  {
    if ins == [] {
      assert ins + [i] == [i];
    } else {
      assert (ins + [i])[1..] == ins[1..] + [i];
      RunLast(counters, Step(counters, s, ins[0]), ins[1..], i);
    }
  }

  /** The inhibit bits and selections in force are the last ones written. */
  lemma {:induction false} LastWritten(counters: nat, ins: seq<Input>, k: nat)
    requires AllValid(ins) && Exists(counters, k)
    ensures var t := Run(counters, Reset(counters), ins);
            && t.inhibit[k] == Inhibited(ins, k)
            && (k >= 3 ==> |t.select[k]| == EVENTS &&
                           forall e :: 0 <= e < EVENTS ==> t.select[k][e] == Selected(ins, k, e))
    decreases |ins|
  {
    if ins != [] {
      var before, last := ins[..|ins| - 1], ins[|ins| - 1];
      assert ins == before + [last];
      assert ValidInput(last);
      LastWritten(counters, before, k);
      RunLast(counters, Reset(counters), before, last);
    }
  }

  predicate LeavesAlone(i: Input, k: nat) {
    !(i.write.Low? && i.write.k == k) && !(i.write.High? && i.write.k == k)
  }

  predicate NotWritten(ins: seq<Input>, k: nat) {
    forall j :: 0 <= j < |ins| ==> LeavesAlone(ins[j], k)
  }

  /** One cycle that does not write the counter. */
  lemma CountCycle(counters: nat, before: seq<Input>, i: Input, k: nat)
    requires AllValid(before) && ValidInput(i) && Exists(counters, k)
    requires LeavesAlone(i, k)
    ensures var s := Run(counters, Reset(counters), before);
            Step(counters, s, i).value[k]
              == if Ticks(before, i, k) then (s.value[k] + 1) % (HALF * HALF) else s.value[k]
  {
    LastWritten(counters, before, k);
  }

  lemma ResetValid(counters: nat)
    ensures Valid(counters, Reset(counters))
  {
  }

  lemma CountFits(counters: nat, ins: seq<Input>, k: nat)
    requires AllValid(ins) && k < 32
    ensures Run(counters, Reset(counters), ins).value[k] < HALF * HALF
  {
    ResetValid(counters);
    RunValid(counters, Reset(counters), ins);
  }

  lemma CountLast(counters: nat, run: seq<Input>, i: Input, k: nat, v: nat, n: nat)
    requires AllValid(run) && ValidInput(i) && Exists(counters, k)
    requires LeavesAlone(i, k)
    requires Run(counters, Reset(counters), run).value[k] == (v + n) % (HALF * HALF)
    ensures Run(counters, Reset(counters), run + [i]).value[k]
         == (v + (n + if Ticks(run, i, k) then 1 else 0)) % (HALF * HALF)
  {
    RunLast(counters, Reset(counters), run, i);
    CountCycle(counters, run, i, k);
    CountStep(v, n, Run(counters, Reset(counters), run).value[k], Ticks(run, i, k), HALF * HALF);
  }

  lemma {:induction false} CountOn(counters: nat, run: seq<Input>, later: seq<Input>, k: nat, v: nat, n: nat)
    requires AllValid(run) && AllValid(later) && Exists(counters, k) && NotWritten(later, k)
    requires Run(counters, Reset(counters), run).value[k] == (v + n) % (HALF * HALF)
    ensures Run(counters, Reset(counters), run + later).value[k]
         == (v + (n + TicksIn(run, later, k))) % (HALF * HALF)
    decreases |later|
  {
    if later == [] {
      assert run + later == run;
    } else {
      var x := later[0];
      assert run + later == (run + [x]) + later[1..];
      CountLast(counters, run, x, k, v, n);
      CountOn(counters, run + [x], later[1..], k, v, n + if Ticks(run, x, k) then 1 else 0);
    }
  }

  /** Over any run from reset, and any later cycles that do not write it, a counter is the value it had plus the
      cycles that count, modulo 2^64. */
  lemma CounterCounts(counters: nat, before: seq<Input>, later: seq<Input>, k: nat)
    requires AllValid(before) && AllValid(later) && Exists(counters, k) && NotWritten(later, k)
    ensures Run(counters, Reset(counters), before + later).value[k]
         == (Run(counters, Reset(counters), before).value[k] + TicksIn(before, later, k)) % (HALF * HALF)
  {
    CountFits(counters, before, k);
    CountOn(counters, before, later, k, Run(counters, Reset(counters), before).value[k], 0);
  }

  /** So from reset an unwritten counter holds the number of cycles that count. */
  lemma CountsFromReset(counters: nat, ins: seq<Input>, k: nat)
    requires AllValid(ins) && Exists(counters, k)
    requires NotWritten(ins, k)
    ensures Run(counters, Reset(counters), ins).value[k] == TicksIn([], ins, k) % (HALF * HALF)
  {
    assert [] + ins == ins;
    CounterCounts(counters, [], ins, k);
  }

  /** The counters there are not read zero, and so do their inhibit bits. */
  lemma {:induction false} OthersAreZero(counters: nat, ins: seq<Input>, k: nat)
    requires AllValid(ins) && k < 32 && !Exists(counters, k)
    ensures var t := Run(counters, Reset(counters), ins); t.value[k] == 0 && !t.inhibit[k]
    ensures var t := Run(counters, Reset(counters), ins);
            |t.select[k]| == EVENTS && forall e :: 0 <= e < EVENTS ==> !t.select[k][e]
    decreases |ins|
  {
    if ins != [] {
      var before, last := ins[..|ins| - 1], ins[|ins| - 1];
      assert ins == before + [last];
      OthersAreZero(counters, before, k);
      RunLast(counters, Reset(counters), before, last);
    }
  }

  // -------------------------------------------------------------------- the registers

  class Registers {
    const counters: nat
    var value: seq<nat>
    var inhibit: seq<bool>
    var select: seq<seq<bool>>

    ghost predicate WellFormed()
      reads this
    {
      Valid(counters, Value())
    }

    function Value(): State
      reads this
    {
      State(value, inhibit, select)
    }

    constructor (counters: nat)
      ensures this.counters == counters && Value() == Reset(counters) && WellFormed()
    {
      this.counters := counters;
      var r := Reset(counters);
      value, inhibit, select := r.value, r.inhibit, r.select;
    }

    /** One rising clock edge: the registers of the generate loop, one after the other. */
    method Clock(i: Input)
      requires WellFormed() && ValidInput(i)
      modifies this
      ensures Value() == Step(counters, old(Value()), i) && WellFormed()
    {
      var s := Value();
      StepValid(counters, s, i);
      var k := 0;
      while k < 32
        invariant 0 <= k <= 32 && |value| == 32 && inhibit == s.inhibit && select == s.select
        invariant forall j :: 0 <= j < k ==> value[j] == NextValue(counters, s, i, j)
        invariant forall j :: k <= j < 32 ==> value[j] == s.value[j]
      {
        if Implemented(counters, k) {
          if i.write.Low? && i.write.k == k {
            value := value[k := value[k] - value[k] % HALF + i.write.value];
          } else if i.write.High? && i.write.k == k {
            value := value[k := i.write.value * HALF + value[k] % HALF];
          } else if !inhibit[k] && Event(s, i, k) {
            value := value[k := (value[k] + 1) % (HALF * HALF)];
          }
        }
        k := k + 1;
      }
      var t := Step(counters, s, i);
      assert value == t.value;
      inhibit, select := t.inhibit, t.select;
    }
  }
}
