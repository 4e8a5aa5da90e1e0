/** Hardware loops: the controller, the loop counters and the IF/ID registers working together.
    Whatever the stalls and interrupts, the instructions executed are those of the architectural walk,
    and for two nested loops that walk is the unrolled loop nest. */
module HwLoop {
  import C = Controller
  import opened Aligner

  // ----------------------------------------------------------------- the architecture

  /** An instruction that writes a loop counter. */
  datatype Write = Write(loop: nat, value: nat)

  /** Loops 0 and 1 run from start to end; `writes` gives the instructions that set a counter. */
  datatype Program = Program(start0: int, end0: int, start1: int, end1: int, writes: int -> Option<Write>)

  predicate InLoop(start: int, end: int, pc: int) {
    start <= pc < end
  }

  /** The documented constraints: loop 0 nested in loop 1 with at least one instruction between the last
      ones, or the loops apart; no counter written inside its own body. The documentation asks for three
      instructions in a body; two are enough here. */
  ghost predicate WellFormed(p: Program) {
    && p.start0 + 8 <= p.end0 && p.start1 + 8 <= p.end1
    && ((p.start1 <= p.start0 && p.end0 + 8 <= p.end1) || p.end0 <= p.start1 || p.end1 <= p.start0)
    && (forall pc :: InLoop(p.start0, p.end0, pc) && p.writes(pc).Some? ==> p.writes(pc).value.loop != 0)
    && (forall pc :: InLoop(p.start1, p.end1, pc) && p.writes(pc).Some? ==> p.writes(pc).value.loop != 1)
  }

  /** The next instruction and the loop counters. */
  datatype Arch = Arch(pc: int, count0: nat, count1: nat)

  function Counted(w: Option<Write>, loop: nat, count: nat, last: bool): nat {
    if w.Some? && w.value.loop == loop then w.value.value
    else if last && count > 0 then count - 1 else count
  }

  /** The last instruction of a body counts down and goes back unless this was the last time. */
  function ArchNext(p: Program, a: Arch): Arch {
    var last0, last1 := a.pc + 4 == p.end0, a.pc + 4 == p.end1;
    Arch(if last0 && a.count0 > 1 then p.start0 else if last1 && a.count1 > 1 then p.start1 else a.pc + 4,
         Counted(p.writes(a.pc), 0, a.count0, last0), Counted(p.writes(a.pc), 1, a.count1, last1))
  }

  function Walk(p: Program, a: Arch, n: nat): (pcs: seq<int>)
    ensures |pcs| == n
    decreases n
  {
    if n == 0 then [] else [a.pc] + Walk(p, ArchNext(p, a), n - 1)
  }

  function Reached(p: Program, a: Arch, n: nat): Arch
    decreases n
  {
    if n == 0 then a else Reached(p, ArchNext(p, a), n - 1)
  }

  // ---------------------------------------------------------------------- the pipeline

  /** The controller, the instruction in ID, what IF fetches next, the counters, and the address an
      interrupt handler will return to. */
  datatype Core = Core(
    ctl: C.State, idValid: bool, idPc: int, fetch: Position, count0: nat, count1: nat, saved: Option<int>)

  /** A cycle of the program, or the cycle in which a handler returns (with whatever jump_done it left). */
  datatype Env = Cycle(idReady: bool, fetchValid: bool, irq: bool) | Return(jumpDone: bool)

  /** The controller's inputs: straight-line instructions, no debugging. */
  function InputOf(p: Program, y: Core, idReady: bool, irq: bool): C.Input {
    C.Input(false, true, y.idValid, idReady, true, false, irq, 0, irq, false, false, false, false, false,
            C.PLAIN, false, false, false, y.idPc,
            C.Loop(p.start0, p.end0, y.count0), C.Loop(p.start1, p.end1, y.count1))
  }

  /** The instruction in ID is executed and leaves. */
  predicate Retires(p: Program, y: Core, e: Env) {
    e.Cycle? && y.saved.None? && C.Taken(true, y.ctl, InputOf(p, y, e.idReady, e.irq))
  }

  /** IF hands an instruction to ID, unless the controller holds it or is redirecting it. */
  predicate Fetches(y: Core, i: C.Input, fetchValid: bool) {
    fetchValid && i.idReady && !C.HaltIf(true, y.ctl, i) && C.RedirectOf(true, y.ctl, i) == C.NoRedirect
  }

  function FetchNext(y: Core, i: C.Input, fetchValid: bool): Position {
    if C.RedirectOf(true, y.ctl, i) != C.NoRedirect then Position(C.HwlpTarget(true, y.ctl, i), None)
    else
      var target := if C.HwlpJump(true, y.ctl, i) then Some(C.HwlpTarget(true, y.ctl, i)) else y.fetch.target;
      if Fetches(y, i, fetchValid) then Position(if target.Some? then target.value else y.fetch.pc + 4, None)
      else Position(y.fetch.pc, target)
  }

  /** The counter registers of rtl/cv32e40p_hwloop_regs.sv. */
  function CountNext(p: Program, y: Core, i: C.Input, loop: nat, l: C.Loop): nat {
    var w := p.writes(y.idPc);
    if C.Taken(true, y.ctl, i) && w.Some? && w.value.loop == loop then w.value.value
    else if C.DecCount(true, y.ctl, i, l) && i.instrValid && (i.idReady || C.HaltId(true, y.ctl, i)) && l.count > 0
    then l.count - 1
    else l.count
  }

  function Next(p: Program, y: Core, e: Env): Core {
    if e.Return? then
      if y.saved.None? then y
      else
        Core(y.ctl.(fsm := C.Decode, hwlpEnd4 := false, jumpDone := e.jumpDone), false, y.idPc,
             Position(y.saved.value, None), y.count0, y.count1, None)
    else if y.saved.Some? then y
    else
      var i := InputOf(p, y, e.idReady, e.irq);
      var ctl := C.Step(true, y.ctl, i);
      if C.Looks(true, y.ctl, i) && C.TakesIrq(y.ctl, i) then
        Core(ctl, false, y.idPc, y.fetch, y.count0, y.count1, Some(y.idPc))
      else
        var fetches := Fetches(y, i, e.fetchValid);
        Core(ctl,
             if fetches then true else y.idValid && !(e.idReady || C.HaltId(true, y.ctl, i)),
             if fetches then y.fetch.pc else y.idPc,
             FetchNext(y, i, e.fetchValid),
             CountNext(p, y, i, 0, i.loop0), CountNext(p, y, i, 1, i.loop1), None)
  }

  /** The addresses of the executed instructions, handlers left out. */
  function Retired(p: Program, y: Core, es: seq<Env>): seq<int>
    decreases |es|
  {
    if es == [] then []
    else (if Retires(p, y, es[0]) then [y.idPc] else []) + Retired(p, Next(p, y, es[0]), es[1..])
  }

  function Run(p: Program, y: Core, es: seq<Env>): Core
    decreases |es|
  {
    if es == [] then y else Run(p, Next(p, y, es[0]), es[1..])
  }

  // ----------------------------------------------------------------------- invariant

  /** Where the program stands: the first instruction not yet executed. */
  function Standing(y: Core): Arch {
    Arch(if y.saved.Some? then y.saved.value else if y.idValid then y.idPc else y.fetch.pc, y.count0, y.count1)
  }

  predicate Repeats(start: int, end: int, count: nat, pc: int) {
    pc + 4 == end && count > 1
  }

  /** `pc` ends a body that runs again. */
  predicate GoesBack(p: Program, y: Core, pc: int) {
    Repeats(p.start0, p.end0, y.count0, pc) || Repeats(p.start1, p.end1, y.count1, pc)
  }

  function Back(p: Program, y: Core, pc: int): int {
    if Repeats(p.start0, p.end0, y.count0, pc) then p.start0 else p.start1
  }

  /** In DECODE the fetch unit runs straight on; in DECODE_HWLOOP it has already been told about the next
      jump back, by the pulse that comes one instruction before the end. */
  predicate Tracks(p: Program, y: Core) {
    var s, f := y.ctl, y.fetch;
    && !s.debugMode && !s.debugReqQ && s.fsm in {C.Decode, C.DecodeHwloop}
    && (f.target.Some? ==>
          s.fsm == C.DecodeHwloop && GoesBack(p, y, f.pc) && f.target.value == Back(p, y, f.pc)
          && (y.idValid ==> y.idPc + 4 == f.pc))
    && (if y.idValid then
          && f.pc == (if s.fsm == C.DecodeHwloop && GoesBack(p, y, y.idPc) then Back(p, y, y.idPc) else y.idPc + 4)
          && (s.fsm == C.Decode ==> !s.jumpDone)
          && (s.fsm == C.DecodeHwloop && s.jumpDone ==> GoesBack(p, y, y.idPc))
          && (s.fsm == C.DecodeHwloop && GoesBack(p, y, y.idPc + 4) ==> (s.hwlpEnd4 <==> f.target.Some?))
        else
          s.fsm == C.DecodeHwloop && GoesBack(p, y, f.pc) ==> f.target.Some?)
  }

  predicate Represents(p: Program, y: Core) {
    if y.saved.Some? then !y.ctl.debugMode && !y.ctl.debugReqQ else Tracks(p, y)
  }

  lemma EmptyStep(p: Program, y: Core, e: Env)
    requires WellFormed(p) && y.saved.None? && Tracks(p, y) && e.Cycle? && !y.idValid
    ensures Tracks(p, Next(p, y, e)) && Next(p, y, e).saved.None?
    ensures !Retires(p, y, e) && Standing(Next(p, y, e)) == Standing(y)
  {
  }

  lemma InterruptStep(p: Program, y: Core, e: Env)
    requires WellFormed(p) && y.saved.None? && Tracks(p, y) && e.Cycle? && y.idValid && e.irq
    ensures Represents(p, Next(p, y, e)) && Next(p, y, e).saved == Some(y.idPc)
    ensures !Retires(p, y, e) && Standing(Next(p, y, e)) == Standing(y)
  {
  }

  lemma DecodeStep(p: Program, y: Core, e: Env)
    requires WellFormed(p) && y.saved.None? && Tracks(p, y) && e.Cycle? && y.idValid && !e.irq
    requires y.ctl.fsm == C.Decode
    ensures Tracks(p, Next(p, y, e)) && Next(p, y, e).saved.None?
    ensures Retires(p, y, e) <==> e.idReady
    ensures Standing(Next(p, y, e)) == if e.idReady then ArchNext(p, Standing(y)) else Standing(y)
  {
  }

  lemma LoopStall(p: Program, y: Core, e: Env)
    requires WellFormed(p) && y.saved.None? && Tracks(p, y) && e.Cycle? && y.idValid && !e.irq
    requires y.ctl.fsm == C.DecodeHwloop && !e.idReady
    ensures Tracks(p, Next(p, y, e)) && Next(p, y, e).saved.None?
    ensures !Retires(p, y, e) && Standing(Next(p, y, e)) == Standing(y)
  {
  }

  lemma LoopEndRetires(p: Program, y: Core, e: Env)
    requires WellFormed(p) && y.saved.None? && Tracks(p, y) && e.Cycle? && y.idValid && !e.irq
    requires y.ctl.fsm == C.DecodeHwloop && e.idReady && GoesBack(p, y, y.idPc)
    ensures Tracks(p, Next(p, y, e)) && Next(p, y, e).saved.None?
    ensures Retires(p, y, e) && Standing(Next(p, y, e)) == ArchNext(p, Standing(y))
  {
  }

  lemma LoopBodyRetires(p: Program, y: Core, e: Env)
    requires WellFormed(p) && y.saved.None? && Tracks(p, y) && e.Cycle? && y.idValid && !e.irq
    requires y.ctl.fsm == C.DecodeHwloop && e.idReady && !GoesBack(p, y, y.idPc)
    ensures Tracks(p, Next(p, y, e)) && Next(p, y, e).saved.None?
    ensures Retires(p, y, e) && Standing(Next(p, y, e)) == ArchNext(p, Standing(y))
  {
  }

  /** Every cycle keeps the invariant; an instruction that leaves takes the architectural step, and nothing
      else moves the program. It leaves as soon as ID is ready and no interrupt is taken. */
  lemma CoreStep(p: Program, y: Core, e: Env)
    requires WellFormed(p) && Represents(p, y)
    ensures Represents(p, Next(p, y, e))
    ensures Standing(Next(p, y, e)) == if Retires(p, y, e) then ArchNext(p, Standing(y)) else Standing(y)
    ensures Retires(p, y, e) ==> y.saved.None? && y.idValid
    ensures Retires(p, y, e) <==> e.Cycle? && y.saved.None? && y.idValid && e.idReady && !e.irq
  {
    if y.saved.None? && e.Cycle? {
      if !y.idValid {
        EmptyStep(p, y, e);
      } else if e.irq {
        InterruptStep(p, y, e);
      } else if y.ctl.fsm == C.Decode {
        DecodeStep(p, y, e);
      } else if e.idReady && GoesBack(p, y, y.idPc) {
        LoopEndRetires(p, y, e);
      } else if e.idReady {
        LoopBodyRetires(p, y, e);
      } else {
        LoopStall(p, y, e);
      }
    }
  }

  /** Started anywhere in DECODE with an empty ID stage. */
  lemma Entry(p: Program, y: Core)
    requires y.ctl.fsm == C.Decode && !y.ctl.debugMode && !y.ctl.debugReqQ
    requires !y.idValid && y.fetch.target.None? && y.saved.None?
    ensures Represents(p, y)
  {
  }

  lemma WalkOn(p: Program, a: Arch, rest: seq<int>)
    requires rest == Walk(p, ArchNext(p, a), |rest|)
    ensures Walk(p, a, |[a.pc] + rest|) == [a.pc] + rest
    ensures Reached(p, a, |[a.pc] + rest|) == Reached(p, ArchNext(p, a), |rest|)
  {
  }

  /** For any stalls, late words and interrupts: the executed instructions are the architectural walk. */
  lemma {:induction false} ExecutesTheWalk(p: Program, y: Core, es: seq<Env>)
    requires WellFormed(p) && Represents(p, y)
    ensures var pcs := Retired(p, y, es);
            && pcs == Walk(p, Standing(y), |pcs|)
            && Represents(p, Run(p, y, es))
            && Standing(Run(p, y, es)) == Reached(p, Standing(y), |pcs|)
    decreases |es|
  {
    if es != [] {
      var z := Next(p, y, es[0]);
      CoreStep(p, y, es[0]);
      ExecutesTheWalk(p, z, es[1..]);
      if Retires(p, y, es[0]) {
        WalkOn(p, Standing(y), Retired(p, z, es[1..]));
      }
    }
  }

  // -------------------------------------------------------------------------- progress

  /** A cycle in which nothing holds the program up: ID is ready, a word is there, no interrupt asks. */
  predicate Moves(y: Core, e: Env) {
    y.saved.None? && e.Cycle? && e.idReady && e.fetchValid && !e.irq
  }

  function MovesIn(p: Program, y: Core, es: seq<Env>): nat
    decreases |es|
  {
    if es == [] then 0 else (if Moves(y, es[0]) then 1 else 0) + MovesIn(p, Next(p, y, es[0]), es[1..])
  }

  /** An interrupt is taken. */
  predicate Leaves(p: Program, y: Core, e: Env) {
    y.saved.None? && Next(p, y, e).saved.Some?
  }

  function InterruptsIn(p: Program, y: Core, es: seq<Env>): nat
    decreases |es|
  {
    if es == [] then 0 else (if Leaves(p, y, es[0]) then 1 else 0) + InterruptsIn(p, Next(p, y, es[0]), es[1..])
  }

  function Full(y: Core): nat {
    if y.saved.None? && y.idValid then 1 else 0
  }

  lemma EmptyFills(p: Program, y: Core, e: Env)
    requires Tracks(p, y) && y.saved.None? && !y.idValid && Moves(y, e)
    ensures Full(Next(p, y, e)) == 1
  {
  }

  lemma FullStays(p: Program, y: Core, e: Env)
    requires Tracks(p, y) && y.saved.None? && y.idValid && e.Cycle? && !e.irq && !e.idReady
    ensures Full(Next(p, y, e)) == 1
  {
  }

  /** A cycle that moves fills the ID stage or executes what is in it, and only an interrupt empties it. */
  lemma ProgressStep(p: Program, y: Core, e: Env)
    requires WellFormed(p) && Represents(p, y)
    ensures Full(y) + (if Moves(y, e) then 1 else 0)
         <= 2 * (if Retires(p, y, e) then 1 else 0) + (if Leaves(p, y, e) then 1 else 0) + Full(Next(p, y, e))
  {
    CoreStep(p, y, e);
    if y.saved.None? && e.Cycle? {
      if !y.idValid && Moves(y, e) {
        EmptyFills(p, y, e);
      } else if y.idValid && e.irq {
        InterruptStep(p, y, e);
      } else if y.idValid && !e.idReady {
        FullStays(p, y, e);
      }
    }
  }

  /** Over any run: every two cycles that move execute an instruction, but for one that each interrupt costs. */
  lemma {:induction false} Progress(p: Program, y: Core, es: seq<Env>)
    requires WellFormed(p) && Represents(p, y)
    ensures Full(y) + MovesIn(p, y, es) <= 2 * |Retired(p, y, es)| + InterruptsIn(p, y, es) + Full(Run(p, y, es))
    decreases |es|
  {
    if es != [] {
      CoreStep(p, y, es[0]);
      ProgressStep(p, y, es[0]);
      Progress(p, Next(p, y, es[0]), es[1..]);
    }
  }

  // ---------------------------------------------------------------------- the loop state

  /** `pc` is in a body that is running: for the last time, and then not at its end, or to run again. */
  predicate Running(start: int, end: int, count: nat, pc: int) {
    start <= pc && pc + 4 <= end && (count > 1 || (count == 1 && pc + 4 < end))
  }

  /** Starts, ends and the program are on one grid of words. */
  predicate OnGrid(p: Program, pc: int) {
    && (p.end0 - p.start0) % 4 == 0 && (p.end1 - p.start1) % 4 == 0 && (p.start0 - p.start1) % 4 == 0
    && (pc - p.start1) % 4 == 0
  }

  lemma GridStep(p: Program, a: Arch)
    requires OnGrid(p, a.pc)
    ensures OnGrid(p, ArchNext(p, a).pc)
  {
  }

  /** DECODE_HWLOOP, where jumps and returns are not decoded, is for running loops only. */
  predicate Looping(p: Program, y: Core) {
    y.saved.None? && y.ctl.fsm == C.DecodeHwloop ==> InRunning(p, Standing(y))
  }

  predicate InRunning(p: Program, a: Arch) {
    Running(p.start0, p.end0, a.count0, a.pc) || Running(p.start1, p.end1, a.count1, a.pc)
  }

  /** A body that runs again contains the instruction. */
  predicate InBody(p: Program, a: Arch) {
    || (p.start0 <= a.pc && a.pc + 4 <= p.end0 && a.count0 > 1)
    || (p.start1 <= a.pc && a.pc + 4 <= p.end1 && a.count1 > 1)
  }

  /** From DECODE the loop state is entered in such a body, but not from the last but one instruction; */
  lemma EntryRuns(p: Program, a: Arch)
    requires WellFormed(p) && OnGrid(p, a.pc) && InBody(p, a) && a.pc + 8 != p.end0 && a.pc + 8 != p.end1
    ensures InRunning(p, a) && InRunning(p, ArchNext(p, a))
  {
  }

  /** and it is kept in a running one, but at the last but one instruction only in a body that runs again. */
  lemma BodyRuns(p: Program, a: Arch)
    requires WellFormed(p) && OnGrid(p, a.pc) && InRunning(p, a)
    requires a.pc + 8 == p.end0 || a.pc + 8 == p.end1 ==> InBody(p, a)
    ensures InRunning(p, ArchNext(p, a))
  {
  }

  lemma EmptyLoops(p: Program, y: Core, e: Env)
    requires Tracks(p, y) && y.saved.None? && Looping(p, y) && e.Cycle? && !y.idValid
    ensures Next(p, y, e).ctl.fsm == y.ctl.fsm && Looping(p, Next(p, y, e))
  {
  }

  lemma DecodeLoops(p: Program, y: Core, e: Env)
    requires WellFormed(p) && Tracks(p, y) && y.saved.None? && e.Cycle? && y.idValid && !e.irq
    requires y.ctl.fsm == C.Decode && OnGrid(p, y.idPc)
    ensures Looping(p, Next(p, y, e))
  {
    DecodeStep(p, y, e);
    if Next(p, y, e).ctl.fsm == C.DecodeHwloop {
      EntersLoops(p, y, e);
      EntryRuns(p, Standing(y));
    }
  }

  lemma EntersLoops(p: Program, y: Core, e: Env)
    requires y.saved.None? && e.Cycle? && y.idValid && !e.irq && !y.ctl.debugMode && !y.ctl.debugReqQ
    requires y.ctl.fsm == C.Decode && Next(p, y, e).ctl.fsm == C.DecodeHwloop
    ensures InBody(p, Standing(y)) && y.idPc + 8 != p.end0 && y.idPc + 8 != p.end1
  {
  }

  lemma StaysInLoops(p: Program, y: Core, e: Env)
    requires y.saved.None? && e.Cycle? && y.idValid && !e.irq && !y.ctl.debugMode && !y.ctl.debugReqQ
    requires y.ctl.fsm == C.DecodeHwloop && Next(p, y, e).ctl.fsm == C.DecodeHwloop
    requires WellFormed(p) && (y.idPc + 8 == p.end0 || y.idPc + 8 == p.end1) && InRunning(p, Standing(y))
    ensures InBody(p, Standing(y))
  {
  }

  lemma StallLoops(p: Program, y: Core, e: Env)
    requires WellFormed(p) && Tracks(p, y) && y.saved.None? && Looping(p, y) && e.Cycle? && y.idValid && !e.irq
    requires y.ctl.fsm == C.DecodeHwloop && !e.idReady
    ensures Looping(p, Next(p, y, e))
  {
    LoopStall(p, y, e);
  }

  lemma BodyLoops(p: Program, y: Core, e: Env)
    requires WellFormed(p) && Tracks(p, y) && y.saved.None? && Looping(p, y) && e.Cycle? && y.idValid && !e.irq
    requires y.ctl.fsm == C.DecodeHwloop && e.idReady && OnGrid(p, y.idPc)
    ensures Looping(p, Next(p, y, e))
  {
    if GoesBack(p, y, y.idPc) {
      LoopEndRetires(p, y, e);
    } else {
      LoopBodyRetires(p, y, e);
    }
    if Next(p, y, e).ctl.fsm == C.DecodeHwloop {
      if y.idPc + 8 == p.end0 || y.idPc + 8 == p.end1 {
        StaysInLoops(p, y, e);
      }
      BodyRuns(p, Standing(y));
    }
  }

  /** Every cycle keeps the loop state to running loops: behind a loop nest the controller decodes everything again. */
  lemma LoopingStep(p: Program, y: Core, e: Env)
    requires WellFormed(p) && Represents(p, y) && Looping(p, y) && OnGrid(p, Standing(y).pc)
    ensures Looping(p, Next(p, y, e)) && OnGrid(p, Standing(Next(p, y, e)).pc)
  {
    CoreStep(p, y, e);
    GridStep(p, Standing(y));
    if y.saved.None? && e.Cycle? {
      if !y.idValid {
        EmptyLoops(p, y, e);
      } else if e.irq {
        InterruptStep(p, y, e);
      } else if y.ctl.fsm == C.Decode {
        DecodeLoops(p, y, e);
      } else if e.idReady {
        BodyLoops(p, y, e);
      } else {
        StallLoops(p, y, e);
      }
    }
  }

  lemma {:induction false} LoopStateIsLeft(p: Program, y: Core, es: seq<Env>)
    requires WellFormed(p) && Represents(p, y) && Looping(p, y) && OnGrid(p, Standing(y).pc)
    ensures Looping(p, Run(p, y, es))
    decreases |es|
  {
    if es != [] {
      CoreStep(p, y, es[0]);
      LoopingStep(p, y, es[0]);
      LoopStateIsLeft(p, Next(p, y, es[0]), es[1..]);
    }
  }

  /** In the loop state every cycle that nothing holds up executes an instruction and brings the next one, at the end of
      a body too; and the state is left only at the last but one instruction of a body, outside all that run again. */
  lemma NoOverhead(p: Program, y: Core, e: Env)
    requires WellFormed(p) && Tracks(p, y) && y.saved.None? && y.idValid && y.ctl.fsm == C.DecodeHwloop && Moves(y, e)
    ensures Retires(p, y, e) && Full(Next(p, y, e)) == 1
    ensures Next(p, y, e).ctl.fsm != C.DecodeHwloop ==>
              !InBody(p, Standing(y)) && (y.idPc + 8 == p.end0 || y.idPc + 8 == p.end1)
  {
    CoreStep(p, y, e);
  }

  /** A run of such cycles. */
  predicate LoopsOn(p: Program, y: Core, es: seq<Env>)
    decreases |es|
  {
    es == [] || (y.ctl.fsm == C.DecodeHwloop && Moves(y, es[0]) && LoopsOn(p, Next(p, y, es[0]), es[1..]))
  }

  /** Loops cost no cycle: without stalls and interrupts the loop state executes one instruction a cycle. */
  lemma {:induction false} ZeroOverhead(p: Program, y: Core, es: seq<Env>)
    requires WellFormed(p) && Represents(p, y) && y.idValid && LoopsOn(p, y, es)
    ensures |Retired(p, y, es)| == |es|
    decreases |es|
  {
    if es != [] {
      CoreStep(p, y, es[0]);
      NoOverhead(p, y, es[0]);
      ZeroOverhead(p, Next(p, y, es[0]), es[1..]);
    }
  }

  /** The cycle after which `n` instructions have been executed. */
  lemma {:induction false} After(p: Program, y: Core, es: seq<Env>, n: nat) returns (k: nat)
    requires n <= |Retired(p, y, es)|
    ensures k <= |es| && |Retired(p, y, es[..k])| == n
    decreases |es|
  {
    if n == 0 {
      k := 0;
    } else {
      var j := After(p, Next(p, y, es[0]), es[1..], if Retires(p, y, es[0]) then n - 1 else n);
      k := j + 1;
      assert es[..k][0] == es[0] && es[..k][1..] == es[1..][..j];
    }
  }

  // ------------------------------------------------------- why the constraints are needed

  const GO := Cycle(true, true, false)
  const LATE := Cycle(true, false, false)

  /** A core with `pc` in ID, `next` to come, and loop jump `target` announced. */
  function At(fsm: C.Fsm, end4: bool, valid: bool, pc: int, next: int, target: Option<int>, count0: nat,
              count1: nat): Core {
    Core(C.RESET.(fsm := fsm, hwlpEnd4 := end4), valid, pc, Position(next, target), count0, count1, None)
  }

  /** One cycle of a run, from its state before to its state after. */
  lemma RetiredFirst(p: Program, y: Core, e: Env, es: seq<Env>, z: Core, r: bool)
    requires Next(p, y, e) == z && Retires(p, y, e) == r
    ensures Retired(p, y, [e] + es) == (if r then [y.idPc] else []) + Retired(p, z, es)
  {
    assert ([e] + es)[1..] == es;
  }

  /** Five cycles without a stall, and seven with one late word. */
  const SMOOTH := [GO] + ([GO] + ([GO] + ([GO] + ([GO] + []))))
  const ONE_LATE := [GO] + ([GO] + ([LATE] + ([GO] + ([GO] + ([GO] + ([GO] + []))))))

  predicate Lone(p: Program, n: nat) {
    p.end0 == p.start0 + 4 && p.end1 < p.start0 && n >= 2
  }

  /** The body of one instruction, from an empty ID stage in DECODE: it is fetched, */
  lemma LoneFetch(p: Program, n: nat)
    requires Lone(p, n) && forall pc :: p.writes(pc).None?
    ensures var y := At(C.Decode, false, false, 0, p.start0, None, n + 1, 0);
            && !Retires(p, y, GO)
            && Next(p, y, GO) == At(C.Decode, false, true, p.start0, p.start0 + 4, None, n + 1, 0)
  {
  }

  /** executed and jumps back from DECODE, */
  lemma LoneJump(p: Program, n: nat)
    requires Lone(p, n) && forall pc :: p.writes(pc).None?
    ensures var y := At(C.Decode, false, true, p.start0, p.start0 + 4, None, n + 1, 0);
            && Retires(p, y, GO)
            && Next(p, y, GO) == At(C.DecodeHwloop, false, false, p.start0, p.start0, None, n, 0)
  {
  }

  /** is fetched again, */
  lemma LoneAgain(p: Program, n: nat)
    requires Lone(p, n) && forall pc :: p.writes(pc).None?
    ensures var y := At(C.DecodeHwloop, false, false, p.start0, p.start0, None, n, 0);
            && !Retires(p, y, GO)
            && Next(p, y, GO) == At(C.DecodeHwloop, false, true, p.start0, p.start0 + 4, None, n, 0)
  {
  }

  /** and executed in DECODE_HWLOOP, where no instruction before the end has announced a jump. */
  lemma LoneLeaves(p: Program, n: nat)
    requires Lone(p, n) && forall pc :: p.writes(pc).None?
    ensures var y := At(C.DecodeHwloop, false, true, p.start0, p.start0 + 4, None, n, 0);
            && Retires(p, y, GO)
            && Next(p, y, GO) == At(C.DecodeHwloop, false, true, p.start0 + 4, p.start0 + 8, None, n - 1, 0)
  {
  }

  lemma LoneWalk(p: Program, n: nat)
    requires Lone(p, n) && forall pc :: p.writes(pc).None?
    ensures Walk(p, Arch(p.start0, n + 1, 0), 3) == [p.start0, p.start0, p.start0]
  {
    var a, b, c := Arch(p.start0, n + 1, 0), Arch(p.start0, n, 0), Arch(p.start0, n - 1, 0);
    assert Walk(p, a, 3) == [a.pc] + ([b.pc] + Walk(p, ArchNext(p, b), 1));
    assert Walk(p, ArchNext(p, b), 1) == [p.start0] + Walk(p, ArchNext(p, ArchNext(p, b)), 0);
  }

  /** Started properly, a body of one instruction is left after two runs although its count asks for three or
      more. */
  lemma OneInstructionBody(p: Program, n: nat)
    requires Lone(p, n) && forall pc :: p.writes(pc).None?
    ensures var y := At(C.Decode, false, false, 0, p.start0, None, n + 1, 0);
            && Represents(p, y)
            && Retired(p, y, SMOOTH) == [p.start0, p.start0, p.start0 + 4]
            && Walk(p, Standing(y), 3) == [p.start0, p.start0, p.start0]
  {
    LoneRun(p, n);
    LoneWalk(p, n);
  }

  lemma LoneRun(p: Program, n: nat)
    requires Lone(p, n) && forall pc :: p.writes(pc).None?
    ensures Retired(p, At(C.Decode, false, false, 0, p.start0, None, n + 1, 0), SMOOTH)
         == [p.start0, p.start0, p.start0 + 4]
  {
    LoneFetch(p, n);
    LoneJump(p, n);
    LoneAgain(p, n);
    LoneLeaves(p, n);
    var y4 := At(C.DecodeHwloop, false, true, p.start0 + 4, p.start0 + 8, None, n - 1, 0);
    var y3 := At(C.DecodeHwloop, false, true, p.start0, p.start0 + 4, None, n, 0);
    var y2 := At(C.DecodeHwloop, false, false, p.start0, p.start0, None, n, 0);
    var y1 := At(C.Decode, false, true, p.start0, p.start0 + 4, None, n + 1, 0);
    var y0 := At(C.Decode, false, false, 0, p.start0, None, n + 1, 0);
    RetiredFirst(p, y4, GO, [], Next(p, y4, GO), Retires(p, y4, GO));
    RetiredFirst(p, y3, GO, [GO] + [], y4, true);
    RetiredFirst(p, y2, GO, [GO] + ([GO] + []), y3, false);
    RetiredFirst(p, y1, GO, [GO] + ([GO] + ([GO] + [])), y2, true);
    RetiredFirst(p, y0, GO, [GO] + ([GO] + ([GO] + ([GO] + []))), y1, false);
  }

  predicate Adjacent(p: Program, m: nat, n: nat) {
    p.start1 < p.start0 && p.start0 + 12 <= p.end0 && p.end1 == p.end0 + 4 && m >= 2 && n >= 2
  }

  /** From an empty ID stage in DECODE, the third instruction before the end of loop 0 is fetched */
  lemma AdjacentFetch(p: Program, m: nat, n: nat)
    requires Adjacent(p, m, n) && forall pc :: p.writes(pc).None?
    ensures var y := At(C.Decode, false, false, 0, p.end0 - 12, None, m, n);
            && !Retires(p, y, GO)
            && Next(p, y, GO) == At(C.Decode, false, true, p.end0 - 12, p.end0 - 8, None, m, n)
  {
  }

  /** and executed; */
  lemma AdjacentFirst(p: Program, m: nat, n: nat)
    requires Adjacent(p, m, n) && forall pc :: p.writes(pc).None?
    ensures var y := At(C.Decode, false, true, p.end0 - 12, p.end0 - 8, None, m, n);
            && Retires(p, y, GO)
            && Next(p, y, GO) == At(C.DecodeHwloop, false, true, p.end0 - 8, p.end0 - 4, None, m, n)
  {
  }

  /** the pulse for loop 0 is given while the word at its end is late; */
  lemma FirstPulse(p: Program, m: nat, n: nat)
    requires Adjacent(p, m, n) && forall pc :: p.writes(pc).None?
    ensures var y := At(C.DecodeHwloop, false, true, p.end0 - 8, p.end0 - 4, None, m, n);
            && Retires(p, y, LATE)
            && Next(p, y, LATE) == At(C.DecodeHwloop, true, false, p.end0 - 8, p.end0 - 4, Some(p.start0), m, n)
  {
  }

  /** the end arrives; */
  lemma EndArrives(p: Program, m: nat, n: nat)
    requires Adjacent(p, m, n) && forall pc :: p.writes(pc).None?
    ensures var y := At(C.DecodeHwloop, true, false, p.end0 - 8, p.end0 - 4, Some(p.start0), m, n);
            && !Retires(p, y, GO)
            && Next(p, y, GO) == At(C.DecodeHwloop, false, true, p.end0 - 4, p.start0, None, m, n)
  {
  }

  /** the pulse for loop 1 is given when the path already leads into loop 0; */
  lemma SecondPulse(p: Program, m: nat, n: nat)
    requires Adjacent(p, m, n) && forall pc :: p.writes(pc).None?
    ensures var y := At(C.DecodeHwloop, false, true, p.end0 - 4, p.start0, None, m, n);
            && Retires(p, y, GO)
            && Next(p, y, GO) == At(C.DecodeHwloop, true, true, p.start0, p.start1, None, m - 1, n)
  {
  }

  /** and the first instruction of loop 0 is followed by the first of loop 1. */
  lemma WrongWay(p: Program, m: nat, n: nat)
    requires Adjacent(p, m, n) && forall pc :: p.writes(pc).None?
    ensures var y := At(C.DecodeHwloop, true, true, p.start0, p.start1, None, m - 1, n);
            && Retires(p, y, GO)
            && Next(p, y, GO) == At(C.DecodeHwloop, false, true, p.start1, p.start1 + 4, None, m - 1, n)
  {
  }

  lemma AdjacentTail(p: Program, m: nat, n: nat)
    requires Adjacent(p, m, n) && forall pc :: p.writes(pc).None?
    ensures Retired(p, At(C.DecodeHwloop, true, false, p.end0 - 8, p.end0 - 4, Some(p.start0), m, n),
                    [GO] + ([GO] + ([GO] + ([GO] + []))))
         == [p.end0 - 4, p.start0, p.start1]
  {
    EndArrives(p, m, n);
    SecondPulse(p, m, n);
    WrongWay(p, m, n);
    var y3 := At(C.DecodeHwloop, true, false, p.end0 - 8, p.end0 - 4, Some(p.start0), m, n);
    var y4 := At(C.DecodeHwloop, false, true, p.end0 - 4, p.start0, None, m, n);
    var y5 := At(C.DecodeHwloop, true, true, p.start0, p.start1, None, m - 1, n);
    var y6 := At(C.DecodeHwloop, false, true, p.start1, p.start1 + 4, None, m - 1, n);
    RetiredFirst(p, y6, GO, [], Next(p, y6, GO), Retires(p, y6, GO));
    RetiredFirst(p, y5, GO, [GO] + [], y6, true);
    RetiredFirst(p, y4, GO, [GO] + ([GO] + []), y5, true);
    RetiredFirst(p, y3, GO, [GO] + ([GO] + ([GO] + [])), y4, false);
  }

  lemma AdjacentRun(p: Program, m: nat, n: nat)
    requires Adjacent(p, m, n) && forall pc :: p.writes(pc).None?
    ensures Retired(p, At(C.Decode, false, false, 0, p.end0 - 12, None, m, n), ONE_LATE)
         == [p.end0 - 12, p.end0 - 8, p.end0 - 4, p.start0, p.start1]
  {
    AdjacentFetch(p, m, n);
    AdjacentFirst(p, m, n);
    FirstPulse(p, m, n);
    AdjacentTail(p, m, n);
    var y0 := At(C.Decode, false, false, 0, p.end0 - 12, None, m, n);
    var y1 := At(C.Decode, false, true, p.end0 - 12, p.end0 - 8, None, m, n);
    var y2 := At(C.DecodeHwloop, false, true, p.end0 - 8, p.end0 - 4, None, m, n);
    var y3 := At(C.DecodeHwloop, true, false, p.end0 - 8, p.end0 - 4, Some(p.start0), m, n);
    RetiredFirst(p, y2, LATE, [GO] + ([GO] + ([GO] + ([GO] + []))), y3, true);
    RetiredFirst(p, y1, GO, [LATE] + ([GO] + ([GO] + ([GO] + ([GO] + [])))), y2, true);
    RetiredFirst(p, y0, GO, [GO] + ([LATE] + ([GO] + ([GO] + ([GO] + ([GO] + []))))), y1, false);
  }

  lemma AdjacentWalk(p: Program, m: nat, n: nat)
    requires Adjacent(p, m, n) && forall pc :: p.writes(pc).None?
    ensures Walk(p, Arch(p.end0 - 12, m, n), 5) == [p.end0 - 12, p.end0 - 8, p.end0 - 4, p.start0, p.start0 + 4]
  {
    var a, b, c := Arch(p.end0 - 12, m, n), Arch(p.end0 - 8, m, n), Arch(p.end0 - 4, m, n);
    var d, e := Arch(p.start0, m - 1, n), Arch(p.start0 + 4, m - 1, n);
    assert Walk(p, a, 5) == [a.pc] + ([b.pc] + Walk(p, c, 3));
    assert Walk(p, c, 3) == [c.pc] + ([d.pc] + Walk(p, e, 1));
    assert Walk(p, e, 1) == [e.pc] + Walk(p, ArchNext(p, e), 0);
  }

  /** Ends that follow each other directly: started properly, with one word coming late, the executed addresses
      leave the walk after the first instruction of loop 0. */
  lemma AdjacentEnds(p: Program, m: nat, n: nat)
    requires Adjacent(p, m, n) && forall pc :: p.writes(pc).None?
    ensures var y := At(C.Decode, false, false, 0, p.end0 - 12, None, m, n);
            var pcs := Retired(p, y, ONE_LATE);
            Represents(p, y) && pcs != Walk(p, Standing(y), |pcs|)
  {
    AdjacentRun(p, m, n);
    AdjacentWalk(p, m, n);
  }

  // ------------------------------------------------------------- the unrolled loop nest

  function Range(lo: int, hi: int): seq<int>
    decreases hi - lo
  {
    if lo >= hi then [] else [lo] + Range(lo + 4, hi)
  }

  function Repeat(s: seq<int>, n: nat): seq<int> {
    if n == 0 then [] else s + Repeat(s, n - 1)
  }

  /** The walk from `a` to `b` goes through `pcs`. */
  predicate Goes(p: Program, a: Arch, pcs: seq<int>, b: Arch) {
    Walk(p, a, |pcs|) == pcs && Reached(p, a, |pcs|) == b
  }

  lemma {:induction false} GoesOn(p: Program, a: Arch, s: seq<int>, b: Arch, t: seq<int>, c: Arch)
    requires Goes(p, a, s, b) && Goes(p, b, t, c)
    ensures Goes(p, a, s + t, c)
    decreases |s|
  {
    if s == [] {
      assert s + t == t;
    } else {
      var n := ArchNext(p, a);
      assert Walk(p, a, |s|)[1..] == Walk(p, n, |s| - 1) == s[1..];
      GoesOn(p, n, s[1..], b, t, c);
      assert s + t == [a.pc] + (s[1..] + t);
    }
  }

  predicate Aligned4(lo: int, hi: int) {
    lo <= hi && (hi - lo) % 4 == 0
  }

  /** Straight-line code without a loop end or a counter write. */
  lemma {:induction false} StraightLine(p: Program, a: Arch, hi: int)
    requires Aligned4(a.pc, hi)
    requires !(a.pc < p.end0 <= hi) && !(a.pc < p.end1 <= hi)
    requires forall pc :: a.pc <= pc < hi ==> p.writes(pc).None?
    ensures Goes(p, a, Range(a.pc, hi), a.(pc := hi))
    decreases hi - a.pc
  {
    if a.pc < hi {
      StraightLine(p, a.(pc := a.pc + 4), hi);
      assert ArchNext(p, a) == a.(pc := a.pc + 4);
    }
  }

  lemma {:induction false} RangeSplit(lo: int, mid: int, hi: int)
    requires Aligned4(lo, mid) && Aligned4(mid, hi)
    ensures Range(lo, hi) == Range(lo, mid) + Range(mid, hi)
    decreases mid - lo
  {
    if lo < mid {
      RangeSplit(lo + 4, mid, hi);
    }
  }

  /** Two nested loops; the instruction at `setup`, in the body of loop 1 before loop 0, sets the count of
      loop 0 and no other instruction writes a count. */
  ghost predicate Nest(p: Program, setup: int, inner: nat) {
    && WellFormed(p)
    && p.start1 <= setup < p.start0 < p.end0 < p.end1
    && Aligned4(p.start1, setup) && Aligned4(setup, p.start0) && Aligned4(p.start0, p.end0) && Aligned4(p.end0, p.end1)
    && forall pc :: p.writes(pc) == if pc == setup then Some(Write(0, inner)) else None
  }

  lemma InnerPass(p: Program, setup: int, inner: nat, a: Arch)
    requires Nest(p, setup, inner) && a.pc == p.start0 && a.count0 >= 1
    ensures Goes(p, a, Range(p.start0, p.end0),
                 Arch(if a.count0 > 1 then p.start0 else p.end0, a.count0 - 1, a.count1))
  {
    var last := a.(pc := p.end0 - 4);
    StraightLine(p, a, p.end0 - 4);
    assert Range(last.pc, p.end0) == [last.pc];
    var b := ArchNext(p, last);
    assert Goes(p, last, [last.pc], b);
    GoesOn(p, a, Range(p.start0, last.pc), last, [last.pc], b);
    RangeSplit(p.start0, last.pc, p.end0);
  }

  lemma {:induction false} InnerLoop(p: Program, setup: int, inner: nat, a: Arch)
    requires Nest(p, setup, inner) && a.pc == p.start0 && a.count0 >= 1
    ensures Goes(p, a, Repeat(Range(p.start0, p.end0), a.count0), Arch(p.end0, 0, a.count1))
    decreases a.count0
  {
    var body := Range(p.start0, p.end0);
    InnerPass(p, setup, inner, a);
    if a.count0 == 1 {
      assert Repeat(body, 1) == body + Repeat(body, 0) == body;
    } else {
      var b := a.(count0 := a.count0 - 1);
      InnerLoop(p, setup, inner, b);
      GoesOn(p, a, body, b, Repeat(body, b.count0), Arch(p.end0, 0, a.count1));
    }
  }

  /** One iteration of loop 1: up to loop 0, `inner` times its body, and the rest. */
  function OuterBody(p: Program, inner: nat): seq<int> {
    Range(p.start1, p.start0) + Repeat(Range(p.start0, p.end0), inner) + Range(p.end0, p.end1)
  }

  /** Up to loop 0: its count is set on the way. */
  lemma OuterHead(p: Program, setup: int, inner: nat, a: Arch)
    requires Nest(p, setup, inner) && a.pc == p.start1
    ensures Goes(p, a, Range(p.start1, p.start0), Arch(p.start0, inner, a.count1))
  {
    var b, c := a.(pc := setup), Arch(setup + 4, inner, a.count1);
    StraightLine(p, a, setup);
    assert ArchNext(p, b) == c && Goes(p, b, [setup], c);
    GoesOn(p, a, Range(p.start1, setup), b, [setup], c);
    StraightLine(p, c, p.start0);
    assert Range(setup, p.start0) == [setup] + Range(setup + 4, p.start0);
    RangeSplit(p.start1, setup, p.start0);
    assert Range(p.start1, p.start0) == Range(p.start1, setup) + [setup] + Range(setup + 4, p.start0);
    GoesOn(p, a, Range(p.start1, setup) + [setup], c, Range(setup + 4, p.start0), Arch(p.start0, inner, a.count1));
  }

  lemma OuterTail(p: Program, setup: int, inner: nat, a: Arch)
    requires Nest(p, setup, inner) && a.pc == p.end0 && a.count0 == 0 && a.count1 >= 1
    ensures Goes(p, a, Range(p.end0, p.end1), Arch(if a.count1 > 1 then p.start1 else p.end1, 0, a.count1 - 1))
  {
    var last := a.(pc := p.end1 - 4);
    StraightLine(p, a, p.end1 - 4);
    assert Range(last.pc, p.end1) == [last.pc];
    var b := ArchNext(p, last);
    assert Goes(p, last, [last.pc], b);
    GoesOn(p, a, Range(p.end0, last.pc), last, [last.pc], b);
    RangeSplit(p.end0, last.pc, p.end1);
  }

  lemma OuterPass(p: Program, setup: int, inner: nat, a: Arch)
    requires Nest(p, setup, inner) && inner >= 1 && a.pc == p.start1 && a.count1 >= 1
    ensures Goes(p, a, OuterBody(p, inner), Arch(if a.count1 > 1 then p.start1 else p.end1, 0, a.count1 - 1))
  {
    var b, c := Arch(p.start0, inner, a.count1), Arch(p.end0, 0, a.count1);
    var d := Arch(if a.count1 > 1 then p.start1 else p.end1, 0, a.count1 - 1);
    var head, body := Range(p.start1, p.start0), Repeat(Range(p.start0, p.end0), inner);
    OuterHead(p, setup, inner, a);
    InnerLoop(p, setup, inner, b);
    GoesOn(p, a, head, b, body, c);
    OuterTail(p, setup, inner, c);
    GoesOn(p, a, head + body, c, Range(p.end0, p.end1), d);
  }

  /** The architectural walk of a loop nest is its unrolling: `count1` times the body of loop 1, each with
      `inner` times the body of loop 0. */
  lemma {:induction false} WalkIsUnrolling(p: Program, setup: int, inner: nat, a: Arch)
    requires Nest(p, setup, inner) && inner >= 1 && a.pc == p.start1 && a.count1 >= 1
    ensures Goes(p, a, Repeat(OuterBody(p, inner), a.count1), Arch(p.end1, 0, 0))
    decreases a.count1
  {
    var body := OuterBody(p, inner);
    OuterPass(p, setup, inner, a);
    if a.count1 == 1 {
      assert Repeat(body, 1) == body + Repeat(body, 0) == body;
    } else {
      var b := Arch(p.start1, 0, a.count1 - 1);
      WalkIsUnrolling(p, setup, inner, b);
      GoesOn(p, a, body, b, Repeat(body, b.count1), Arch(p.end1, 0, 0));
    }
  }

  predicate AllIn(pcs: seq<int>, lo: int, hi: int) {
    forall k :: 0 <= k < |pcs| ==> lo <= pcs[k] < hi
  }

  lemma {:induction false} RangeIn(lo: int, hi: int)
    requires Aligned4(lo, hi)
    ensures AllIn(Range(lo, hi), lo, hi)
    decreases hi - lo
  {
    if lo < hi {
      RangeIn(lo + 4, hi);
    }
  }

  lemma {:induction false} RepeatIn(s: seq<int>, n: nat, lo: int, hi: int)
    requires AllIn(s, lo, hi)
    ensures AllIn(Repeat(s, n), lo, hi)
    decreases n
  {
    if n > 0 {
      RepeatIn(s, n - 1, lo, hi);
    }
  }

  lemma OuterBodyIn(p: Program, setup: int, inner: nat)
    requires Nest(p, setup, inner)
    ensures AllIn(OuterBody(p, inner), p.start1, p.end1)
  {
    RangeIn(p.start1, setup);
    RangeIn(setup, p.start0);
    RangeSplit(p.start1, setup, p.start0);
    RangeIn(p.start0, p.end0);
    RangeIn(p.end0, p.end1);
    RepeatIn(Range(p.start0, p.end0), inner, p.start0, p.end0);
  }

  lemma {:induction false} WalkAt(p: Program, a: Arch, n: nat, m: nat)
    requires m < n
    ensures Walk(p, a, n)[m] == Reached(p, a, m).pc
    decreases m
  {
    if m > 0 {
      WalkAt(p, ArchNext(p, a), n - 1, m - 1);
    }
  }

  /** Until the unrolled nest has been executed, the program stands in the nest or right behind it. */
  lemma NestIsKept(p: Program, setup: int, inner: nat, a: Arch, m: nat)
    requires Nest(p, setup, inner) && inner >= 1 && a.pc == p.start1 && a.count1 >= 1
    requires m <= |Repeat(OuterBody(p, inner), a.count1)|
    ensures p.start1 <= Reached(p, a, m).pc <= p.end1
  {
    var unrolled := Repeat(OuterBody(p, inner), a.count1);
    WalkIsUnrolling(p, setup, inner, a);
    OuterBodyIn(p, setup, inner);
    RepeatIn(OuterBody(p, inner), a.count1, p.start1, p.end1);
    if m < |unrolled| {
      WalkAt(p, a, |unrolled|, m);
    }
  }

  lemma {:induction false} WalkPrefix(p: Program, a: Arch, m: nat, n: nat)
    requires m <= n
    ensures Walk(p, a, n)[..m] == Walk(p, a, m)
    decreases m
  {
    if m > 0 {
      WalkPrefix(p, ArchNext(p, a), m - 1, n - 1);
      assert Walk(p, a, n)[..m] == [a.pc] + Walk(p, ArchNext(p, a), n - 1)[..m - 1];
    }
  }

  /** The executed addresses of a run, compared with the unrolled nest. */
  lemma NestIsWalked(p: Program, setup: int, inner: nat, y: Core, es: seq<Env>)
    requires Nest(p, setup, inner) && inner >= 1
    requires Represents(p, y) && Standing(y).pc == p.start1 && y.count1 >= 1
    ensures var pcs, unrolled := Retired(p, y, es), Repeat(OuterBody(p, inner), y.count1);
            && (pcs <= unrolled || unrolled <= pcs)
            && (|pcs| == |unrolled| ==> Standing(Run(p, y, es)) == Arch(p.end1, 0, 0))
  {
    var pcs, unrolled := Retired(p, y, es), Repeat(OuterBody(p, inner), y.count1);
    ExecutesTheWalk(p, y, es);
    WalkIsUnrolling(p, setup, inner, Standing(y));
    if |pcs| <= |unrolled| {
      WalkPrefix(p, Standing(y), |pcs|, |unrolled|);
    } else {
      WalkPrefix(p, Standing(y), |unrolled|, |pcs|);
    }
  }

  /** Enough cycles that move to get through a nest of `n` instructions. */
  predicate Suffices(p: Program, y: Core, es: seq<Env>, n: nat) {
    2 * n + InterruptsIn(p, y, es) <= MovesIn(p, y, es)
  }

  /** The bodies run exactly the programmed number of times. Entering a loop nest, the executed addresses are
      the unrolled nest, whatever the stalls and interrupts: up to some cycle `k` they are a part of it, and if
      the run goes on after that, or moves often enough, they are all of it, both counts are zero, and
      execution stands behind the nest. */
  lemma BodiesRunExactly(p: Program, setup: int, inner: nat, y: Core, es: seq<Env>) returns (k: nat)
    requires Nest(p, setup, inner) && inner >= 1
    requires Represents(p, y) && Standing(y).pc == p.start1 && y.count1 >= 1
    ensures k <= |es|
    ensures var pcs, unrolled := Retired(p, y, es[..k]), Repeat(OuterBody(p, inner), y.count1);
            && pcs <= unrolled
            && (k < |es| || Suffices(p, y, es, |unrolled|) ==> pcs == unrolled)
            && (pcs == unrolled ==> Standing(Run(p, y, es[..k])) == Arch(p.end1, 0, 0))
    ensures Looping(p, y) ==>
              var z := Run(p, y, es[..k]); Standing(z).pc == p.end1 && z.saved.None? ==> z.ctl.fsm == C.Decode
  {
    var unrolled := Repeat(OuterBody(p, inner), y.count1);
    if Looping(p, y) {
      assert OnGrid(p, p.start1);
      forall j: nat | j <= |es|
        ensures Looping(p, Run(p, y, es[..j])) && Represents(p, Run(p, y, es[..j]))
      {
        LoopStateIsLeft(p, y, es[..j]);
        ExecutesTheWalk(p, y, es[..j]);
      }
    }
    Progress(p, y, es);
    if |Retired(p, y, es)| < |unrolled| {
      k := |es|;
      assert es[..k] == es;
    } else {
      k := After(p, y, es, |unrolled|);
    }
    NestIsWalked(p, setup, inner, y, es[..k]);
  }
}
