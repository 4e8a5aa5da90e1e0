/** The APU dispatcher of rtl/cv32e40p_apu_disp.sv: two slots kept as flags, checked against a
    queue of destination registers. */
module ApuDispatcher {

  type Reg = nat

  /** Inputs of a cycle: the request, the grant and response handshakes, and the instruction in
      decode with its register operands. */
  datatype Input = Input(
    enable: bool, lat: nat, waddr: Reg, gnt: bool, rvalid: bool,
    decoding: bool, readRegs: seq<(bool, Reg)>, writeRegs: seq<(bool, Reg)>)

  datatype State = State(
    inflight: bool, waiting: bool, addrInflight: Reg, addrWaiting: Reg, apuLat: nat)

  const RESET := State(false, false, 0, 0, 0)

  // -------------------------------------------------------- combinational logic

  predicate Active(s: State) {
    s.inflight || s.waiting
  }

  predicate StallFull(s: State) {
    s.inflight && s.waiting
  }

  predicate StallType(s: State, i: Input) {
    i.enable && Active(s) && (i.lat == 1 || (i.lat == 2 && s.apuLat == 3) || i.lat == 3)
  }

  predicate ValidReq(s: State, i: Input) {
    i.enable && !(StallFull(s) || StallType(s, i))
  }

  predicate Stall(s: State, i: Input) {
    StallFull(s) || StallType(s, i) || (ValidReq(s, i) && !i.gnt)
  }

  predicate Accepted(s: State, i: Input) {
    ValidReq(s, i) && i.gnt
  }

  predicate ReturnedReq(s: State, i: Input) {
    ValidReq(s, i) && i.rvalid && !s.inflight && !s.waiting
  }

  predicate ReturnedInflight(s: State, i: Input) {
    s.inflight && i.rvalid && !s.waiting
  }

  predicate ReturnedWaiting(s: State, i: Input) {
    s.waiting && i.rvalid
  }

  /** Some valid operand is register `a`. */
  predicate Names(operands: seq<(bool, Reg)>, a: Reg) {
    exists k :: 0 <= k < |operands| && operands[k] == (true, a)
  }

  /** read_dep_o or write_dep_o for the given operands. */
  predicate Dependency(s: State, i: Input, operands: seq<(bool, Reg)>) {
    i.decoding &&
    ((Names(operands, i.waddr) && ValidReq(s, i) && !ReturnedReq(s, i)) ||
     (Names(operands, s.addrInflight) && s.inflight && !ReturnedInflight(s, i)) ||
     (Names(operands, s.addrWaiting) && s.waiting && !ReturnedWaiting(s, i)))
  }

  /** Destination register of the response in this cycle. */
  function WriteAddress(s: State, i: Input): Reg {
    if ReturnedWaiting(s, i) then s.addrWaiting
    else if ReturnedInflight(s, i) then s.addrInflight
    else if ReturnedReq(s, i) then i.waddr
    else 0
  }

  function Step(s: State, i: Input): State {
    var t := s.(apuLat := if ValidReq(s, i) then i.lat else s.apuLat);
    if Accepted(s, i) && !ReturnedReq(s, i) then
      var refill := (s.inflight && !ReturnedInflight(s, i)) || ReturnedWaiting(s, i);
      t.(inflight := true, addrInflight := i.waddr,
         waiting := refill || s.waiting, addrWaiting := if refill then s.addrInflight else s.addrWaiting)
    else if ReturnedInflight(s, i) then
      t.(inflight := false, waiting := false, addrInflight := 0, addrWaiting := 0)
    else if ReturnedWaiting(s, i) then
      t.(waiting := false, addrWaiting := 0)
    else t
  }

  // ------------------------------------------------------------- queue refinement

  /** Destinations of the operations outstanding, oldest first. */
  function Outstanding(s: State): seq<Reg> {
    (if s.waiting then [s.addrWaiting] else []) + (if s.inflight then [s.addrInflight] else [])
  }

  predicate Consistent(s: State) {
    s.waiting ==> s.inflight
  }

  /** A response comes only for an operation outstanding or granted in this cycle. */
  predicate Answerable(s: State, i: Input) {
    i.rvalid ==> Active(s) || Accepted(s, i)
  }

  /** The queue including an operation granted in this cycle. */
  function WithRequest(s: State, i: Input): seq<Reg> {
    Outstanding(s) + if Accepted(s, i) then [i.waddr] else []
  }

  /** A cycle enqueues the accepted destination and dequeues at the front on a response, whose write
      address is the oldest destination; the queue never holds more than two. */
  lemma RefinesQueue(s: State, i: Input)
    requires Consistent(s) && Answerable(s, i)
    ensures Consistent(Step(s, i))
    ensures i.rvalid ==> |WithRequest(s, i)| > 0 && WriteAddress(s, i) == WithRequest(s, i)[0]
    ensures Outstanding(Step(s, i)) == if i.rvalid then WithRequest(s, i)[1..] else WithRequest(s, i)
    ensures |WithRequest(s, i)| <= 2
  {
    var q := WithRequest(s, i);
    if i.rvalid {
      assert q[1..] == Outstanding(Step(s, i));
    } else {
      assert q == Outstanding(Step(s, i));
    }
  }

  function Run(s: State, ins: seq<Input>): State
    decreases |ins|
  {
    if ins == [] then s else Run(Step(s, ins[0]), ins[1..])
  }

  predicate AllAnswerable(s: State, ins: seq<Input>)
    decreases |ins|
  {
    ins == [] || (Answerable(s, ins[0]) && AllAnswerable(Step(s, ins[0]), ins[1..]))
  }

  /** Destinations accepted over a run, in order. */
  function AcceptedOf(s: State, ins: seq<Input>): seq<Reg>
    decreases |ins|
  {
    if ins == [] then []
    else (if Accepted(s, ins[0]) then [ins[0].waddr] else []) + AcceptedOf(Step(s, ins[0]), ins[1..])
  }

  /** Write addresses of the responses over a run, in order. */
  function ReturnedOf(s: State, ins: seq<Input>): seq<Reg>
    decreases |ins|
  {
    if ins == [] then []
    else (if ins[0].rvalid then [WriteAddress(s, ins[0])] else []) + ReturnedOf(Step(s, ins[0]), ins[1..])
  }

  lemma OneCycleOfOrder(out: seq<Reg>, acc: seq<Reg>, later: seq<Reg>, next: seq<Reg>, ret: seq<Reg>,
                        returned: seq<Reg>, end: seq<Reg>)
    requires out + acc == ret + next && next + later == returned + end
    ensures out + (acc + later) == (ret + returned) + end
  {
    assert out + (acc + later) == (out + acc) + later;
    assert (ret + next) + later == ret + (next + later);
    assert ret + (returned + end) == (ret + returned) + end;
  }

  /** Over any run, what was outstanding and accepted is what was returned and is still outstanding,
      in the same order: responses write the oldest destinations, none lost, none repeated. */
  lemma {:induction false} ResponsesInOrder(s: State, ins: seq<Input>)
    requires Consistent(s) && AllAnswerable(s, ins)
    ensures Outstanding(s) + AcceptedOf(s, ins) == ReturnedOf(s, ins) + Outstanding(Run(s, ins))
    ensures Consistent(Run(s, ins)) && |Outstanding(Run(s, ins))| <= 2
    decreases |ins|
  {
    if ins != [] {
      var i, t, rest := ins[0], Step(s, ins[0]), ins[1..];
      RefinesQueue(s, i);
      ResponsesInOrder(t, rest);
      var acc := if Accepted(s, i) then [i.waddr] else [];
      var ret := if i.rvalid then [WriteAddress(s, i)] else [];
      assert ret + Outstanding(t) == WithRequest(s, i);
      OneCycleOfOrder(Outstanding(s), acc, AcceptedOf(t, rest), Outstanding(t), ret,
                      ReturnedOf(t, rest), Outstanding(Run(t, rest)));
    }
  }

  // ----------------------------------------------------------------- dependencies

  /** Destinations still outstanding after this cycle's response, a request counting even if its
      grant has yet to come. */
  function StillOutstanding(s: State, i: Input): seq<Reg> {
    var q := Outstanding(s) + if ValidReq(s, i) then [i.waddr] else [];
    if i.rvalid && q != [] then q[1..] else q
  }

  /** The dependency outputs are raised exactly when a valid operand is a destination still outstanding. */
  lemma DependencyIsExact(s: State, i: Input, operands: seq<(bool, Reg)>)
    requires Consistent(s)
    ensures Dependency(s, i, operands) <==>
              i.decoding && exists k :: 0 <= k < |operands| && operands[k].0 && operands[k].1 in StillOutstanding(s, i)
  {
    var q := Outstanding(s) + if ValidReq(s, i) then [i.waddr] else [];
    assert s.waiting ==> q[0] == s.addrWaiting;
    var still := StillOutstanding(s, i);
    if Names(operands, i.waddr) && ValidReq(s, i) && !ReturnedReq(s, i) {
      assert still[|still| - 1] == i.waddr;
    }
    if Names(operands, s.addrInflight) && s.inflight && !ReturnedInflight(s, i) {
      assert still[if s.waiting && !i.rvalid then 1 else 0] == s.addrInflight;
    }
    if Names(operands, s.addrWaiting) && s.waiting && !ReturnedWaiting(s, i) {
      assert still[0] == s.addrWaiting;
    }
  }

  /** An instruction that decodes with no stall and no read dependency reads no register an
      outstanding operation has yet to write; the same for its writes. */
  lemma NoHazard(s: State, i: Input, a: Reg)
    requires Consistent(s) && Answerable(s, i) && i.decoding && !Stall(s, i)
    requires a in Outstanding(Step(s, i))
    ensures !Dependency(s, i, i.readRegs) ==> (true, a) !in i.readRegs
    ensures !Dependency(s, i, i.writeRegs) ==> (true, a) !in i.writeRegs
  {
    RefinesQueue(s, i);
    DependencyIsExact(s, i, i.readRegs);
    DependencyIsExact(s, i, i.writeRegs);
    assert StillOutstanding(s, i) == Outstanding(Step(s, i));
  }

  // ------------------------------------------------------- fixed-latency units behind it

  /** An operation in a unit, `age` cycles after it was granted. */
  datatype Op = Op(addr: Reg, lat: nat, age: nat)

  /** Latency 1 completes in the cycle of the grant, 2 in the next, 3 from the second after on,
      when the unit chooses. */
  predicate Due(o: Op, slow: bool) {
    (o.lat == 1 && o.age == 0) || (o.lat == 2 && o.age == 1) || (o.lat == 3 && o.age >= 2 && slow)
  }

  datatype World = World(s: State, ops: seq<Op>)

  /** Operations in the units this cycle, oldest first. */
  function InUnits(w: World, i: Input): seq<Op> {
    w.ops + if Accepted(w.s, i) then [Op(i.waddr, i.lat, 0)] else []
  }

  function Remaining(ops: seq<Op>, slow: bool): seq<Op> {
    if ops == [] then []
    else (if Due(ops[0], slow) then [] else [ops[0].(age := ops[0].age + 1)]) + Remaining(ops[1..], slow)
  }

  predicate SomeDue(ops: seq<Op>, slow: bool) {
    exists k :: 0 <= k < |ops| && Due(ops[k], slow)
  }

  /** At most one operation completes, and it is the oldest. */
  predicate CompletesInOrder(ops: seq<Op>, slow: bool) {
    forall k :: 0 < k < |ops| ==> !Due(ops[k], slow)
  }

  /** The units answer exactly when an operation is due. */
  predicate Timed(w: World, i: Input, slow: bool) {
    (i.enable ==> 1 <= i.lat <= 3) && (i.rvalid <==> SomeDue(InUnits(w, i), slow))
  }

  function WorldStep(w: World, i: Input, slow: bool): World {
    World(Step(w.s, i), Remaining(InUnits(w, i), slow))
  }

  function WorldRun(w: World, ins: seq<(Input, bool)>): World
    decreases |ins|
  {
    if ins == [] then w else WorldRun(WorldStep(w, ins[0].0, ins[0].1), ins[1..])
  }

  predicate AllTimed(w: World, ins: seq<(Input, bool)>)
    decreases |ins|
  {
    ins == [] ||
    (Timed(w, ins[0].0, ins[0].1) && AllTimed(WorldStep(w, ins[0].0, ins[0].1), ins[1..]))
  }

  /** Between cycles at most one operation is out, the slot and the stored latency are its own, and a
      latency-2 one is about to complete. */
  predicate OneOut(w: World) {
    && !w.s.waiting && |w.ops| == (if w.s.inflight then 1 else 0)
    && (w.s.inflight ==>
          var o := w.ops[0];
          && o.addr == w.s.addrInflight && o.lat == w.s.apuLat && o.age >= 1
          && (o.lat == 3 || (o.lat == 2 && o.age == 1)))
  }

  lemma RemainingOfOne(a: Op, slow: bool)
    ensures Remaining([a], slow) == if Due(a, slow) then [] else [a.(age := a.age + 1)]
  {
    assert [a][1..] == [];
  }

  lemma RemainingOfTwo(a: Op, b: Op, slow: bool)
    ensures Remaining([a, b], slow)
         == (if Due(a, slow) then [] else [a.(age := a.age + 1)]) + Remaining([b], slow)
  {
    assert [a, b][1..] == [b];
  }

  /** The type stall leaves no way for operations to overtake or collide. */
  lemma TimedCycle(w: World, i: Input, slow: bool)
    requires OneOut(w) && Timed(w, i, slow)
    ensures CompletesInOrder(InUnits(w, i), slow) && Answerable(w.s, i)
    ensures i.rvalid ==> WriteAddress(w.s, i) == InUnits(w, i)[0].addr
    ensures OneOut(WorldStep(w, i, slow))
  {
    var q := InUnits(w, i);
    if |q| == 1 {
      assert q == [q[0]];
      RemainingOfOne(q[0], slow);
    } else if |q| == 2 {
      assert q == [q[0], q[1]];
      RemainingOfOne(q[1], slow);
      RemainingOfTwo(q[0], q[1], slow);
    }
  }

  /** Over any run: completions in issue order, at most one a cycle, the waiting slot never used. */
  lemma {:induction false} TypeStallKeepsOrder(w: World, ins: seq<(Input, bool)>, i: Input, slow: bool)
    requires OneOut(w) && AllTimed(w, ins) && Timed(WorldRun(w, ins), i, slow)
    ensures var v := WorldRun(w, ins);
            && !v.s.waiting && CompletesInOrder(InUnits(v, i), slow)
            && (i.rvalid ==> WriteAddress(v.s, i) == InUnits(v, i)[0].addr)
    decreases |ins|
  {
    if ins == [] {
      TimedCycle(w, i, slow);
    } else {
      TimedCycle(w, ins[0].0, ins[0].1);
      TypeStallKeepsOrder(WorldStep(w, ins[0].0, ins[0].1), ins[1..], i, slow);
    }
  }

  /** From reset nothing is outstanding, so responses are accepted operations in order; and behind units of
      fixed latency the waiting slot is never used. */
  lemma FromReset(ins: seq<Input>, timed: seq<(Input, bool)>, i: Input, slow: bool)
    requires AllAnswerable(RESET, ins)
    requires AllTimed(World(RESET, []), timed) && Timed(WorldRun(World(RESET, []), timed), i, slow)
    ensures AcceptedOf(RESET, ins) == ReturnedOf(RESET, ins) + Outstanding(Run(RESET, ins))
    ensures !WorldRun(World(RESET, []), timed).s.waiting
  {
    ResponsesInOrder(RESET, ins);
    assert Outstanding(RESET) + AcceptedOf(RESET, ins) == AcceptedOf(RESET, ins);
    TypeStallKeepsOrder(World(RESET, []), timed, i, slow);
  }

  // ----------------------------------------------------------------------------- progress

  /** `o` can complete `d` cycles from now. */
  predicate CanComplete(o: Op, d: nat) {
    if o.lat == 3 then o.age + d >= 2 else o.age + d == o.lat - 1
  }

  /** An operation granted now could complete with or before `o`. */
  ghost predicate CanOvertake(o: Op, lat: nat) {
    exists early: nat, late: nat ::
      early <= late && CanComplete(Op(0, lat, 0), early) && CanComplete(o, late)
  }

  /** The core is stalled exactly while two operations are out, or a request is not accepted. */
  lemma StallIsExact(s: State, i: Input)
    requires Consistent(s)
    ensures Stall(s, i) <==> |Outstanding(s)| == 2 || (i.enable && !Accepted(s, i))
  {
  }

  /** With nothing outstanding every granted request is accepted, of whatever latency. */
  lemma IdleAccepts(s: State, i: Input)
    requires Outstanding(s) == [] && i.enable
    ensures ValidReq(s, i) && (Accepted(s, i) <==> i.gnt) && (Stall(s, i) <==> !i.gnt)
  {
  }

  lemma WhenOvertaking(o: Op, lat: nat)
    requires 1 <= lat <= 3 && o.age >= 1 && (o.lat == 3 || (o.lat == 2 && o.age == 1))
    ensures CanOvertake(o, lat) <==> lat == 1 || o.lat == 3
  {
    if lat == 1 {
      assert CanComplete(Op(0, 1, 0), 0) && CanComplete(o, if o.lat == 2 then 0 else 2);
    } else if o.lat == 3 {
      assert CanComplete(Op(0, lat, 0), lat - 1) && CanComplete(o, lat + 1);
    }
  }

  /** Behind units of fixed latency a request is held back exactly if one is outstanding that it could
      overtake or collide with, or if it is a latency-3 one: that is more than the order needs, since behind a
      latency-2 operation it could not overtake. */
  lemma HeldBackForOrder(w: World, i: Input)
    requires OneOut(w) && i.enable && 1 <= i.lat <= 3
    ensures !ValidReq(w.s, i) <==> w.ops != [] && (CanOvertake(w.ops[0], i.lat) || i.lat == 3)
  {
    if w.ops != [] {
      WhenOvertaking(w.ops[0], i.lat);
    }
  }

  lemma LatencyThreeWaits()
    ensures var s, i := State(true, false, 0, 0, 2), Input(true, 3, 0, true, false, false, [], []);
            OneOut(World(s, [Op(0, 2, 1)])) && !ValidReq(s, i) && !CanOvertake(Op(0, 2, 1), 3)
  {
    WhenOvertaking(Op(0, 2, 1), 3);
  }

  /** Every cycle has a request that is granted. */
  predicate Insists(ins: seq<(Input, bool)>) {
    forall k :: 0 <= k < |ins| ==> ins[k].0.enable && ins[k].0.gnt
  }

  predicate NoneAccepted(w: World, ins: seq<(Input, bool)>)
    decreases |ins|
  {
    ins == [] || (!Accepted(w.s, ins[0].0) && NoneAccepted(WorldStep(w, ins[0].0, ins[0].1), ins[1..]))
  }

  lemma ResponseEmpties(w: World, i: Input, slow: bool)
    requires OneOut(w) && Timed(w, i, slow) && !Accepted(w.s, i) && i.rvalid
    ensures Outstanding(Step(w.s, i)) == []
  {
    TimedCycle(w, i, slow);
    assert InUnits(w, i) == w.ops;
  }

  /** Over any run a request that stays and is granted is accepted at the latest in the cycle after the
      outstanding operation completes, and at once if there is none. */
  lemma {:induction false} RequestIsAccepted(w: World, ins: seq<(Input, bool)>, j: nat)
    requires OneOut(w) && AllTimed(w, ins) && Insists(ins)
    requires j < |ins| && (j == 0 ==> Outstanding(w.s) == []) && (j > 0 ==> ins[j - 1].0.rvalid)
    ensures !NoneAccepted(w, ins)
    decreases |ins|
  {
    if Accepted(w.s, ins[0].0) {
    } else if j == 0 {
      IdleAccepts(w.s, ins[0].0);
    } else {
      var t := WorldStep(w, ins[0].0, ins[0].1);
      TimedCycle(w, ins[0].0, ins[0].1);
      if j == 1 {
        ResponseEmpties(w, ins[0].0, ins[0].1);
      }
      assert forall k :: 0 <= k < |ins| - 1 ==> ins[1..][k] == ins[k + 1];
      RequestIsAccepted(t, ins[1..], j - 1);
    }
  }

  // ------------------------------------------------------------------ the registers

  class Dispatcher {
    var inflight: bool
    var waiting: bool
    var addrInflight: Reg
    var addrWaiting: Reg
    var apuLat: nat

    function Registers(): State
      reads this
    {
      State(inflight, waiting, addrInflight, addrWaiting, apuLat)
    }

    constructor ()
      ensures Registers() == RESET
    {
      inflight, waiting, addrInflight, addrWaiting, apuLat := false, false, 0, 0, 0;
    }

    /** One rising clock edge, seen as a queue operation. */
    method Clock(i: Input) returns (waddr: Reg)
      requires Consistent(Registers()) && Answerable(Registers(), i)
      modifies this
      ensures Registers() == Step(old(Registers()), i) && Consistent(Registers())
      ensures waddr == WriteAddress(old(Registers()), i)
      ensures var q := WithRequest(old(Registers()), i);
              Outstanding(Registers()) == if i.rvalid then q[1..] else q
    {
      var s := Registers();
      RefinesQueue(s, i);
      waddr := WriteAddress(s, i);
      if ValidReq(s, i) {
        apuLat := i.lat;
      }
      if Accepted(s, i) && !ReturnedReq(s, i) {
        if (inflight && !ReturnedInflight(s, i)) || ReturnedWaiting(s, i) {
          waiting, addrWaiting := true, addrInflight;
        }
        inflight, addrInflight := true, i.waddr;
      } else if ReturnedInflight(s, i) {
        inflight, waiting, addrInflight, addrWaiting := false, false, 0, 0;
      } else if ReturnedWaiting(s, i) {
        waiting, addrWaiting := false, 0;
      }
    }
  }
}
