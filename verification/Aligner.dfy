/** The instruction aligner of rtl/cv32e40p_aligner.sv: 16- and 32-bit instructions recovered from
    a stream of 32-bit words, checked against a walk through memory. */
module Aligner {
  import opened Words

  /** Byte addresses, 32 bits wide. */
  type Addr = int

  predicate InSpace(a: Addr) {
    0 <= a < 0x1_0000_0000
  }

  /** Address arithmetic wraps. */
  function Plus(a: Addr, d: int): Addr {
    (a + d) % 0x1_0000_0000
  }

  datatype Option<T> = None | Some(value: T)

  datatype Fsm = Aligned32 | Misaligned32 | Misaligned16 | BranchMisaligned | WaitValidBranch

  datatype Input = Input(
    fetchValid: bool, ifValid: bool, rdata: Word,
    branch: bool, branchAddr: Addr, hwlpUpdatePc: bool, hwlpAddr: Addr)

  datatype State = State(
    fsm: Fsm, instrH: Half, hwlpAddrQ: Addr, pcQ: Addr, readyQ: bool, hwlpUpdatePcQ: bool)

  const RESET := State(Aligned32, ZERO_HALF, 0, 0, false, false)

  datatype Output = Output(
    pcN: Addr, instrValid: bool, instr: Word, ready: bool, update: bool, next: Fsm)

  /** Combinational logic without the branch override. */
  function Sequential(s: State, i: Input): Output {
    var enable := i.fetchValid && i.ifValid;
    match s.fsm
    case Aligned32 =>
      if Wide(i.rdata.low) then
        var pcN := if i.hwlpUpdatePc then i.hwlpAddr
                   else if s.hwlpUpdatePcQ then s.hwlpAddrQ else Plus(s.pcQ, 4);
        Output(pcN, i.fetchValid, i.rdata, true, enable, Aligned32)
      else
        Output(Plus(s.pcQ, 2), i.fetchValid, i.rdata, true, enable, Misaligned32)
    case Misaligned32 =>
      if Wide(s.instrH) then
        Output(Plus(s.pcQ, 4), i.fetchValid, Word(i.rdata.low, s.instrH), true, enable, Misaligned32)
      else
        Output(Plus(s.pcQ, 2), true, Word(i.rdata.high, s.instrH), !i.fetchValid, i.ifValid, Misaligned16)
    case Misaligned16 =>
      var held := !s.readyQ || i.fetchValid;
      if Wide(i.rdata.low) then
        Output(Plus(s.pcQ, 4), held, i.rdata, true, held && i.ifValid, Aligned32)
      else
        Output(Plus(s.pcQ, 2), held, i.rdata, true, held && i.ifValid, Misaligned32)
    case BranchMisaligned =>
      if Wide(i.rdata.high) then
        Output(s.pcQ, false, i.rdata, true, enable, Misaligned32)
      else
        Output(Plus(s.pcQ, 2), i.fetchValid, Word(i.rdata.high, i.rdata.high), true, enable, Aligned32)
    case WaitValidBranch =>
      Output(s.pcQ, i.fetchValid, i.rdata, true, false, WaitValidBranch)
  }

  function Comb(s: State, i: Input): Output {
    var o := Sequential(s, i);
    if i.branch then
      o.(update := true, pcN := i.branchAddr,
         next := if i.branchAddr / 2 % 2 == 1 then BranchMisaligned else Aligned32)
    else o
  }

  function Step(s: State, i: Input): State {
    var o := Comb(s, i);
    if o.update then
      s.(pcQ := o.pcN, fsm := o.next, instrH := i.rdata.high, readyQ := o.ready, hwlpUpdatePcQ := false)
    else if i.hwlpUpdatePc then
      s.(hwlpAddrQ := i.hwlpAddr, hwlpUpdatePcQ := true)
    else s
  }

  // -------------------------------------------------- fetch side (prefetcher)

  /** Half-words of memory by even byte address. */
  type Memory = Addr -> Half

  function WordAt(mem: Memory, a: Addr): Word {
    Word(mem(Plus(a, 2)), mem(a))
  }

  /** The word being presented, and a loop target that will follow it. */
  datatype Fetch = Fetch(addr: Addr, target: Option<Addr>)

  datatype System = System(a: State, f: Fetch)

  predicate Consumed(s: State, i: Input) {
    i.fetchValid && i.ifValid && Comb(s, i).ready
  }

  /** A word is presented until consumed; then comes the next one, or the loop target. */
  function FetchStep(f: Fetch, s: State, i: Input): Fetch {
    if i.branch then Fetch(i.branchAddr - i.branchAddr % 4, None)
    else
      var target := if i.hwlpUpdatePc then Some(i.hwlpAddr) else f.target;
      if !Consumed(s, i) then Fetch(f.addr, target)
      else Fetch(if target.Some? then target.value else Plus(f.addr, 4), None)
  }

  function Next(y: System, i: Input): System {
    System(Step(y.a, i), FetchStep(y.f, y.a, i))
  }

  /** What the surrounding units promise in a cycle: valid words are memory words, the IF stage only
      moves on a valid word and never together with a jump, and a loop redirect comes at most once,
      to a word address, while the aligner is about to deliver an aligned 32-bit instruction. */
  ghost predicate Allowed(mem: Memory, y: System, i: Input) {
    && (i.ifValid ==> i.fetchValid)
    && (i.fetchValid ==> i.rdata == WordAt(mem, y.f.addr))
    && (i.branch ==> !i.fetchValid && InSpace(i.branchAddr) && i.branchAddr % 2 == 0)
    && (i.hwlpUpdatePc && !i.branch ==>
          && y.a.fsm == Aligned32 && Wide(mem(y.a.pcQ))
          && !y.a.hwlpUpdatePcQ && InSpace(i.hwlpAddr) && i.hwlpAddr % 4 == 0)
  }

  ghost predicate AllAllowed(mem: Memory, y: System, ins: seq<Input>)
    decreases |ins|
  {
    ins != [] ==> Allowed(mem, y, ins[0]) && AllAllowed(mem, Next(y, ins[0]), ins[1..])
  }

  // ---------------------------------------------------------------- reference

  /** Where the instruction stream is, and a loop target replacing the next successor. */
  datatype Position = Position(pc: Addr, target: Option<Addr>)

  function Size(mem: Memory, pc: Addr): int {
    if Wide(mem(pc)) then 4 else 2
  }

  function After(mem: Memory, p: Position): Position {
    Position(if p.target.Some? then p.target.value else Plus(p.pc, Size(mem, p.pc)), None)
  }

  /** A delivered word carries the instruction at pc; of a 16-bit one only the low half counts. */
  predicate Carries(mem: Memory, pc: Addr, instr: Word) {
    if Wide(mem(pc)) then instr == WordAt(mem, pc) else instr.low == mem(pc)
  }

  datatype Event = Deliver(pc: Addr, instr: Word) | Jump(addr: Addr) | Loop(addr: Addr)

  /** What is seen at the IF/ID boundary in a cycle. */
  function Events(y: System, i: Input): seq<Event> {
    if i.branch then [Jump(i.branchAddr)]
    else
      (if i.hwlpUpdatePc then [Loop(i.hwlpAddr)] else [])
      + (if Delivers(y.a, i) then [Deliver(y.a.pcQ, Comb(y.a, i).instr)] else [])
  }

  predicate Delivers(s: State, i: Input) {
    i.ifValid && Comb(s, i).instrValid
  }

  function Trace(y: System, ins: seq<Input>): seq<Event>
    decreases |ins|
  {
    if ins == [] then [] else Events(y, ins[0]) + Trace(Next(y, ins[0]), ins[1..])
  }

  /** The trace is the sequential walk through memory from `p`, bent only by its jumps and loops. */
  ghost predicate Follows(mem: Memory, p: Position, trace: seq<Event>)
    decreases |trace|
  {
    trace == [] ||
    match trace[0]
    case Deliver(pc, instr) =>
      pc == p.pc && Carries(mem, pc, instr) && Follows(mem, After(mem, p), trace[1..])
    case Jump(addr) => Follows(mem, Position(addr, None), trace[1..])
    case Loop(addr) => Follows(mem, p.(target := Some(addr)), trace[1..])
  }

  // ---------------------------------------------------------------- invariant

  ghost predicate Aligned(a: Addr) {
    InSpace(a) && a % 4 == 0
  }

  ghost predicate HalfAligned(a: Addr) {
    InSpace(a) && a % 4 == 2
  }

  /** The aligner at `p`: where the presented word lies and what the half-word buffer holds. */
  ghost predicate Represents(mem: Memory, y: System, p: Position) {
    var s, f := y.a, y.f;
    && s.pcQ == p.pc && f.target == p.target
    && (s.hwlpUpdatePcQ <==> p.target.Some?)
    && (p.target.Some? ==>
          s.hwlpAddrQ == p.target.value && Aligned(p.target.value) && s.fsm == Aligned32 && Wide(mem(p.pc)))
    && match s.fsm
       case Aligned32 => Aligned(p.pc) && f.addr == p.pc
       case Misaligned32 => HalfAligned(p.pc) && f.addr == Plus(p.pc, 2) && s.instrH == mem(p.pc)
       case Misaligned16 => Aligned(p.pc) && f.addr == p.pc
       case BranchMisaligned => HalfAligned(p.pc) && f.addr == Plus(p.pc, -2)
       case WaitValidBranch => false
  }

  /** The position after a cycle. */
  function Moved(mem: Memory, p: Position, s: State, i: Input): Position {
    if i.branch then Position(i.branchAddr, None)
    else
      var q := if i.hwlpUpdatePc then p.(target := Some(i.hwlpAddr)) else p;
      if Delivers(s, i) then After(mem, q) else q
  }

  lemma JumpRepresents(mem: Memory, y: System, p: Position, i: Input)
    requires Represents(mem, y, p) && Allowed(mem, y, i) && i.branch
    ensures Represents(mem, Next(y, i), Moved(mem, p, y.a, i))
  {
  }

  lemma AlignedRepresents(mem: Memory, y: System, p: Position, i: Input)
    requires Represents(mem, y, p) && Allowed(mem, y, i) && !i.branch && y.a.fsm == Aligned32
    ensures Delivers(y.a, i) ==> Carries(mem, p.pc, Comb(y.a, i).instr)
    ensures Represents(mem, Next(y, i), Moved(mem, p, y.a, i))
  {
  }

  lemma HalfRepresents(mem: Memory, y: System, p: Position, i: Input)
    requires Represents(mem, y, p) && Allowed(mem, y, i) && !i.branch && y.a.fsm == Misaligned32
    ensures Delivers(y.a, i) ==> Carries(mem, p.pc, Comb(y.a, i).instr)
    ensures Represents(mem, Next(y, i), Moved(mem, p, y.a, i))
  {
  }

  lemma HeldWordRepresents(mem: Memory, y: System, p: Position, i: Input)
    requires Represents(mem, y, p) && Allowed(mem, y, i) && !i.branch && y.a.fsm == Misaligned16
    ensures Delivers(y.a, i) ==> Carries(mem, p.pc, Comb(y.a, i).instr)
    ensures Represents(mem, Next(y, i), Moved(mem, p, y.a, i))
  {
  }

  lemma OddTargetRepresents(mem: Memory, y: System, p: Position, i: Input)
    requires Represents(mem, y, p) && Allowed(mem, y, i) && !i.branch && y.a.fsm == BranchMisaligned
    ensures Delivers(y.a, i) ==> Carries(mem, p.pc, Comb(y.a, i).instr)
    ensures Represents(mem, Next(y, i), Moved(mem, p, y.a, i))
  {
  }

  /** Every cycle keeps the representation, and what it delivers is the instruction at the position. */
  lemma StepFollows(mem: Memory, y: System, p: Position, i: Input)
    requires Represents(mem, y, p) && Allowed(mem, y, i)
    ensures Represents(mem, Next(y, i), Moved(mem, p, y.a, i))
    ensures !i.branch && Delivers(y.a, i) ==> Carries(mem, p.pc, Comb(y.a, i).instr)
  {
    if i.branch {
      JumpRepresents(mem, y, p, i);
    } else {
      match y.a.fsm {
        case Aligned32 => AlignedRepresents(mem, y, p, i);
        case Misaligned32 => HalfRepresents(mem, y, p, i);
        case Misaligned16 => HeldWordRepresents(mem, y, p, i);
        case BranchMisaligned => OddTargetRepresents(mem, y, p, i);
      }
    }
  }

  /** The events of a cycle are those of the walk, and lead to the moved position. */
  lemma EventsFollow(mem: Memory, y: System, p: Position, i: Input, rest: seq<Event>)
    requires Represents(mem, y, p) && Allowed(mem, y, i)
    requires Follows(mem, Moved(mem, p, y.a, i), rest)
    ensures Follows(mem, p, Events(y, i) + rest)
  {
    StepFollows(mem, y, p, i);
    if i.branch {
      assert ([Jump(i.branchAddr)] + rest)[1..] == rest;
    } else {
      var q := if i.hwlpUpdatePc then p.(target := Some(i.hwlpAddr)) else p;
      var delivered := if Delivers(y.a, i) then [Deliver(y.a.pcQ, Comb(y.a, i).instr)] else [];
      assert delivered != [] ==> (delivered + rest)[1..] == rest;
      assert delivered == [] ==> delivered + rest == rest;
      assert Follows(mem, q, delivered + rest);
      if i.hwlpUpdatePc {
        var trace := Events(y, i) + rest;
        assert trace[0] == Loop(i.hwlpAddr) && trace[1..] == delivered + rest;
      } else {
        assert Events(y, i) == delivered;
      }
    }
  }

  // -------------------------------------------------------------- whole runs

  /** For any memory and any pattern of stalls, late words, even branches and loop redirects, what the
      aligner delivers is the sequential walk: no half-word lost, none repeated. */
  lemma {:induction false} AlignerFollowsMemory(mem: Memory, y: System, p: Position, ins: seq<Input>)
    requires Represents(mem, y, p) && AllAllowed(mem, y, ins)
    ensures Follows(mem, p, Trace(y, ins))
    decreases |ins|
  {
    if ins != [] {
      StepFollows(mem, y, p, ins[0]);
      AlignerFollowsMemory(mem, Next(y, ins[0]), Moved(mem, p, y.a, ins[0]), ins[1..]);
      EventsFollow(mem, y, p, ins[0], Trace(Next(y, ins[0]), ins[1..]));
    }
  }

  /** The reset state stands at address 0, a jump stands at its target. */
  lemma Entry(mem: Memory, y: System, p: Position, i: Input)
    ensures Represents(mem, System(RESET, Fetch(0, None)), Position(0, None))
    ensures i.branch && InSpace(i.branchAddr) && i.branchAddr % 2 == 0 ==>
              Represents(mem, Next(y, i), Position(i.branchAddr, None))
  {
  }

  // ---------------------------------------------------- without jumps and loops

  predicate Quiet(ins: seq<Input>) {
    forall k :: 0 <= k < |ins| ==> !ins[k].branch && !ins[k].hwlpUpdatePc
  }

  /** Cycles in which the IF stage moves. */
  function Moves(ins: seq<Input>): nat
    decreases |ins|
  {
    if ins == [] then 0 else (if ins[0].ifValid then 1 else 0) + Moves(ins[1..])
  }

  /** After a jump to the upper half of a word that starts a 32-bit instruction, one move fetches
      the other half. */
  predicate NeedsSecondWord(mem: Memory, s: State) {
    s.fsm == BranchMisaligned && Wide(mem(s.pcQ))
  }

  /** Every move delivers one instruction, but for that one; so nothing is lost to stalls. */
  lemma {:induction false} EveryMoveDelivers(mem: Memory, y: System, p: Position, ins: seq<Input>)
    requires Represents(mem, y, p) && AllAllowed(mem, y, ins) && Quiet(ins)
    ensures |Trace(y, ins)| == Moves(ins) - if NeedsSecondWord(mem, y.a) && Moves(ins) > 0 then 1 else 0
    ensures forall k :: 0 <= k < |Trace(y, ins)| ==> Trace(y, ins)[k].Deliver?
    decreases |ins|
  {
    if ins != [] {
      var i := ins[0];
      StepFollows(mem, y, p, i);
      MoveDelivers(mem, y, p, i);
      EveryMoveDelivers(mem, Next(y, i), Moved(mem, p, y.a, i), ins[1..]);
    }
  }

  lemma MoveDelivers(mem: Memory, y: System, p: Position, i: Input)
    requires Represents(mem, y, p) && Allowed(mem, y, i) && !i.branch && !i.hwlpUpdatePc
    ensures Delivers(y.a, i) <==> i.ifValid && !NeedsSecondWord(mem, y.a)
    ensures NeedsSecondWord(mem, Next(y, i).a) <==> NeedsSecondWord(mem, y.a) && !i.ifValid
  {
    assert y.a.fsm == BranchMisaligned && i.fetchValid ==> i.rdata.high == mem(Plus(Plus(p.pc, -2), 2));
    assert y.a.fsm == BranchMisaligned ==> Plus(Plus(p.pc, -2), 2) == p.pc;
  }

  // --------------------------------------------------------------- the registers

  class Unit {
    var fsm: Fsm
    var instrH: Half
    var hwlpAddrQ: Addr
    var pcQ: Addr
    var readyQ: bool
    var hwlpUpdatePcQ: bool

    function Registers(): State
      reads this
    {
      State(fsm, instrH, hwlpAddrQ, pcQ, readyQ, hwlpUpdatePcQ)
    }

    constructor ()
      ensures Registers() == RESET
    {
      fsm, instrH, hwlpAddrQ, pcQ := Aligned32, ZERO_HALF, 0, 0;
      readyQ, hwlpUpdatePcQ := false, false;
    }

    /** The outputs of a cycle: defaults, the case over the states, then the jump. */
    method Outputs(i: Input) returns (o: Output)
      ensures o == Comb(Registers(), i)
    {
      var pcN, instrValid, instr, ready, update, next := pcQ, i.fetchValid, i.rdata, true, false, fsm;
      match fsm {
        case Aligned32 =>
          update := i.fetchValid && i.ifValid;
          if Wide(i.rdata.low) {
            next, pcN := Aligned32, Plus(pcQ, 4);
            if i.hwlpUpdatePc || hwlpUpdatePcQ {
              pcN := if i.hwlpUpdatePc then i.hwlpAddr else hwlpAddrQ;
            }
          } else {
            next, pcN := Misaligned32, Plus(pcQ, 2);
          }
        case Misaligned32 =>
          if Wide(instrH) {
            next, pcN := Misaligned32, Plus(pcQ, 4);
            instr := Word(i.rdata.low, instrH);
            update := i.fetchValid && i.ifValid;
          } else {
            next, pcN := Misaligned16, Plus(pcQ, 2);
            instr := Word(i.rdata.high, instrH);
            instrValid, ready, update := true, !i.fetchValid, i.ifValid;
          }
        case Misaligned16 =>
          instrValid := !readyQ || i.fetchValid;
          update := (!readyQ || i.fetchValid) && i.ifValid;
          if Wide(i.rdata.low) {
            next, pcN := Aligned32, Plus(pcQ, 4);
          } else {
            next, pcN := Misaligned32, Plus(pcQ, 2);
          }
        case BranchMisaligned =>
          update := i.fetchValid && i.ifValid;
          if Wide(i.rdata.high) {
            next, instrValid := Misaligned32, false;
          } else {
            next, pcN := Aligned32, Plus(pcQ, 2);
            instr := Word(i.rdata.high, i.rdata.high);
          }
        case WaitValidBranch =>
      }
      if i.branch {
        update, pcN := true, i.branchAddr;
        next := if i.branchAddr / 2 % 2 == 1 then BranchMisaligned else Aligned32;
      }
      o := Output(pcN, instrValid, instr, ready, update, next);
    }

    /** One rising clock edge; the output is what the IF/ID registers take in this cycle. */
    method Clock(i: Input) returns (delivered: Option<Event>)
      modifies this
      ensures Registers() == Step(old(Registers()), i)
      ensures delivered == if Delivers(old(Registers()), i)
                           then Some(Deliver(old(pcQ), Comb(old(Registers()), i).instr)) else None
    {
      var o := Outputs(i);
      if i.ifValid && o.instrValid {
        delivered := Some(Deliver(pcQ, o.instr));
      } else {
        delivered := None;
      }
      if o.update {
        pcQ, fsm, instrH, readyQ := o.pcN, o.next, i.rdata.high, o.ready;
        hwlpUpdatePcQ := false;
      } else if i.hwlpUpdatePc {
        hwlpAddrQ, hwlpUpdatePcQ := i.hwlpAddr, true;
      }
    }
  }
}
