/** The controller, the fetch position, the IF/ID registers and the trap registers together: what exceptions,
    returns, interrupts and halt requests save, restore and jump to. */
module TrapEntry {
  import opened Controller
  import A = Aligner
  import T = CsrTraps

  // ------------------------------------------------------------------- the two units

  function CauseCode(c: Cause): nat {
    match c
    case CauseEbreak => 1
    case CauseTrigger => 2
    case CauseHaltReq => 3
    case CauseStep => 4
  }

  /** The IF/ID registers: a valid bit, and an address and instruction that stay when it is cleared. */
  datatype Id = Id(valid: bool, pc: int, insn: Decoded, compressed: bool)

  datatype Core = Core(s: State, t: T.State, id: Id, fetch: A.Position)

  /** Where redirects lead that no register here decides. Addresses are even. */
  datatype Targets = Targets(
    boot: int, jump: int, branch: int, uret: int, exception: int, irq: int, debug: int, debugException: int)

  /** A cycle: the controller's inputs, the instruction at the fetch position if it has arrived, and the targets. */
  datatype Cycle = Cycle(i: Input, fetchValid: bool, next: Decoded, compressed: bool, to: Targets)

  /** The controller sees the instruction in ID. For a legal one the unmasked signals of the return
      instructions agree with the masked ones. */
  predicate Presents(y: Core, i: Input) {
    && i.instrValid == y.id.valid && i.insn == y.id.insn && i.pc == y.id.pc
    && (!i.insn.illegal ==> i.mretDec == i.insn.mret && i.uretDec == i.insn.uret && i.dretDec == i.insn.dret)
  }

  /** The controller's requests as the trap registers see them; no CSR instruction writes meanwhile. */
  function CsrInput(pulp: bool, y: Core, i: Input): T.Input {
    var r := CsrOf(pulp, y.s, i);
    T.Input(T.NoWrite, r.saveCause, if r.save == SaveId then T.FromId else T.FromIf, y.fetch.pc, y.id.pc, 0,
            CauseOf(y.s, i), r.debugSave, CauseCode(r.debugCause), r.restoreMret, false, {}, false)
  }

  /** IF hands over an instruction unless halted or redirected. */
  predicate Fetches(pulp: bool, s: State, x: Cycle) {
    x.fetchValid && x.i.idReady && !HaltIf(pulp, s, x.i) && RedirectOf(pulp, s, x.i) == NoRedirect
  }

  function NextId(pulp: bool, y: Core, x: Cycle): Id {
    if Fetches(pulp, y.s, x) then Id(true, y.fetch.pc, x.next, x.compressed)
    else if x.i.idReady || HaltId(pulp, y.s, x.i) || x.i.branchTaken then y.id.(valid := false)
    else y.id
  }

  /** Where a redirect leads. */
  function Target(pulp: bool, y: Core, x: Cycle, r: Redirect): int
    requires r.Redirect?
  {
    match r.mux
    case PcBoot => x.to.boot
    case PcJump => x.to.jump
    case PcBranch => x.to.branch
    case PcException =>
      (match r.vector case VecException => x.to.exception case VecIrq => x.to.irq
                      case VecDebug => x.to.debug case VecDebugException => x.to.debugException)
    case PcMret => y.t.trap.mepc
    case PcUret => x.to.uret
    case PcDret => y.t.debug.dpc
    case PcFencei => y.id.pc + 4
    case PcHwloop => HwlpTarget(pulp, y.s, x.i)
  }

  function NextFetch(pulp: bool, y: Core, x: Cycle): A.Position {
    var r := RedirectOf(pulp, y.s, x.i);
    if r.Redirect? then A.Position(Target(pulp, y, x, r), A.None)
    else
      var announced := if HwlpJump(pulp, y.s, x.i) then A.Some(HwlpTarget(pulp, y.s, x.i)) else y.fetch.target;
      if !Fetches(pulp, y.s, x) then A.Position(y.fetch.pc, announced)
      else if announced.Some? then A.Position(announced.value, A.None)
      else A.Position(y.fetch.pc + (if x.compressed then 2 else 4), A.None)
  }

  function Next(pulp: bool, c: T.Config, y: Core, x: Cycle): Core {
    if x.i.gated then y.(s := Step(pulp, y.s, x.i))
    else
      Core(Step(pulp, y.s, x.i), T.Step(c, y.t, CsrInput(pulp, y, x.i)), NextId(pulp, y, x), NextFetch(pulp, y, x))
  }

  function Run(pulp: bool, c: T.Config, y: Core, xs: seq<Cycle>): Core
    decreases |xs|
  {
    if xs == [] then y else Run(pulp, c, Next(pulp, c, y, xs[0]), xs[1..])
  }

  function JumpOf(pulp: bool, s: State, i: Input): seq<Redirect> {
    if i.gated || RedirectOf(pulp, s, i) == NoRedirect then [] else [RedirectOf(pulp, s, i)]
  }

  /** The redirects of the fetch unit over a run. */
  function Jumps(pulp: bool, c: T.Config, y: Core, xs: seq<Cycle>): seq<Redirect>
    decreases |xs|
  {
    if xs == [] then []
    else JumpOf(pulp, y.s, xs[0].i) + Jumps(pulp, c, Next(pulp, c, y, xs[0]), xs[1..])
  }

  /** While IF is halted or the clock is gated, address and instruction stay in ID. */
  lemma IdStays(pulp: bool, c: T.Config, y: Core, x: Cycle)
    requires x.i.gated || HaltIf(pulp, y.s, x.i) || RedirectOf(pulp, y.s, x.i) != NoRedirect
    ensures var z := Next(pulp, c, y, x); z.id.pc == y.id.pc && z.id.insn == y.id.insn
  {
  }

  // --------------------------------------------------------------------- pipeline flush

  predicate InFlush(f: Fsm) {
    f in {FlushEx, FlushWb, XretJump}
  }

  predicate Traps(s: State, n: Decoded) {
    s.illegal || n.ebreak || n.ecall
  }

  predicate IsReturn(n: Decoded) {
    n.mret || n.uret || n.dret
  }

  /** Illegal instruction, breakpoint, and environment call from M-mode. */
  function ExceptionCode(illegal: bool, n: Decoded): nat {
    if illegal then 2 else if n.ebreak then 3 else 11
  }

  /** What stays the same during a flush: the targets, the loop registers, stepping; and whether a debug
      request is pending at its end. */
  datatype Around = Around(to: Targets, loop0: Loop, loop1: Loop, step: bool, pending: bool)

  predicate Surrounds(a: Around, y: Core, x: Cycle) {
    && Presents(y, x.i) && x.to == a.to && x.i.loop0 == a.loop0 && x.i.loop1 == a.loop1 && x.i.singleStep == a.step
    && (y.s.fsm == FlushWb && !x.i.gated ==> (x.i.debugReq || y.s.debugReqQ) == a.pending)
  }

  /** Every cycle of the run is one of the flush. */
  predicate Flushes(pulp: bool, c: T.Config, a: Around, y: Core, xs: seq<Cycle>)
    decreases |xs|
  {
    xs == [] || (InFlush(y.s.fsm) && Surrounds(a, y, xs[0]) && Flushes(pulp, c, a, Next(pulp, c, y, xs[0]), xs[1..]))
  }

  /** The instruction ends a loop body that is to run again. */
  predicate Repeats(pulp: bool, l: Loop, pc: int) {
    pulp && l.end == pc + 4 && l.count != 0
  }

  /** A loop that ends at `pc` contains it, and the ends differ. */
  predicate ProperLoops(a: Around, pc: int) {
    && (a.loop0.end == pc + 4 ==> a.loop0.start <= pc)
    && (a.loop1.end == pc + 4 ==> a.loop1.start <= pc && !(a.loop0.start <= pc < a.loop0.end))
  }

  /** Where a flush that neither traps nor returns leaves the fetch unit. */
  function Resumes(pulp: bool, a: Around, y: Core): A.Position {
    var n, pc := y.id.insn, y.id.pc;
    if n.csrStatus then
      if Repeats(pulp, a.loop0, pc) then A.Position(a.loop0.start, A.None)
      else if Repeats(pulp, a.loop1, pc) then A.Position(a.loop1.start, A.None) else y.fetch
    else if n.fencei && !n.wfi then A.Position(pc + 4, A.None)
    else y.fetch
  }

  /** The registers at the end of a flush. */
  datatype Effect = Effect(trap: T.Trap, debug: T.Debug, fetch: A.Position, debugMode: bool, fsm: Fsm)

  /** What the flush in progress has yet to do, as the registers at its end: the reference for traps, returns and
      the other flushing instructions. */
  function EffectOf(pulp: bool, a: Around, y: Core): Effect {
    var s, n, k, d := y.s, y.id.insn, y.t.trap, y.t.debug;
    var stop := if a.step && !s.debugMode then DbgTakenIf else Decode;
    if !InFlush(s.fsm) then Effect(k, d, y.fetch, s.debugMode, s.fsm)
    else if s.fsm != XretJump && Traps(s, n) then
      Effect(if s.debugMode || s.fsm == FlushWb then k else T.Trap(false, k.mie, y.id.pc, ExceptionCode(s.illegal, n)),
             d, A.Position(if s.debugMode then a.to.debugException else a.to.exception, A.None), s.debugMode, stop)
    else if n.mret then
      Effect(if s.debugMode || s.fsm == XretJump then k else T.Trap(k.mpie, true, k.mepc, k.mcause),
             d, A.Position(if s.debugMode then a.to.debugException else k.mepc, A.None), s.debugMode, stop)
    else if n.uret then
      Effect(k, d, A.Position(if s.debugMode then a.to.debugException else a.to.uret, A.None), s.debugMode, stop)
    else if n.dret then Effect(k, d, A.Position(d.dpc, A.None), false, stop)
    else
      Effect(k, d, Resumes(pulp, a, y), s.debugMode,
             if n.csrStatus || !n.wfi then Decode else if a.pending then DbgTakenIf else WaitSleep)
  }

  /** The redirects still to come in the flush. */
  function JumpsLeft(pulp: bool, a: Around, s: State, n: Decoded, pc: int): seq<Redirect> {
    var vector := if s.debugMode then VecDebugException else VecException;
    if !InFlush(s.fsm) then []
    else if s.fsm != XretJump && Traps(s, n) then [Redirect(PcException, vector)]
    else if n.mret then [Redirect(if s.debugMode then PcException else PcMret, VecDebugException)]
    else if n.uret then [Redirect(if s.debugMode then PcException else PcUret, VecDebugException)]
    else if n.dret then [Redirect(PcDret, VecIrq)]
    else if s.fsm == XretJump then []
    else if n.csrStatus then
      if Repeats(pulp, a.loop0, pc) || Repeats(pulp, a.loop1, pc) then [Redirect(PcHwloop, VecIrq)] else []
    else if n.fencei && !n.wfi then [Redirect(PcFencei, VecIrq)]
    else []
  }

  /** A break in debug mode parks the core and never comes to the flush. An illegal instruction is remembered, and
      XRET_JUMP is for legal return instructions. */
  predicate Flushable(a: Around, y: Core) {
    var s, n := y.s, y.id.insn;
    && !(s.debugMode && n.ebreak) && ProperLoops(a, y.id.pc)
    && (if s.fsm == XretJump then IsReturn(n) && !n.illegal else n.illegal ==> s.illegal)
  }

  /** One cycle in each of the three states: what moves, and what does not. */
  lemma FlushExControl(pulp: bool, y: Core, i: Input)
    requires y.s.fsm == FlushEx && Presents(y, i) && !(y.s.debugMode && y.id.insn.ebreak) && !i.gated
    ensures NextFsm(pulp, y.s, i) == (if i.exValid then FlushWb else FlushEx) && !HwlpJump(pulp, y.s, i)
    ensures NextIllegal(pulp, y.s, i) == y.s.illegal && NextDebugMode(y.s, i) == y.s.debugMode
    ensures HaltIf(pulp, y.s, i) && RedirectOf(pulp, y.s, i) == NoRedirect
    ensures var r := CsrInput(pulp, y, i);
            && T.TakesTrap(r) == (i.exValid && Traps(y.s, y.id.insn) && !y.s.debugMode) && !T.Returns(r)
            && (T.TakesTrap(r) ==> T.ExceptionPc(r) == y.id.pc && r.cause == ExceptionCode(y.s.illegal, y.id.insn))
            && !r.debugSave
  {
  }

  lemma FlushWbControl(pulp: bool, a: Around, y: Core, x: Cycle)
    requires y.s.fsm == FlushWb && Surrounds(a, y, x) && Flushable(a, y) && !x.i.gated
    ensures var f, n := NextFsm(pulp, y.s, x.i), y.id.insn;
            && f == (if Traps(y.s, n) then (if a.step && !y.s.debugMode then DbgTakenIf else Decode)
                     else if IsReturn(n) then XretJump
                     else if n.csrStatus || !n.wfi then Decode else if a.pending then DbgTakenIf else WaitSleep)
            && !HwlpJump(pulp, y.s, x.i) && NextDebugMode(y.s, x.i) == y.s.debugMode && HaltIf(pulp, y.s, x.i)
            && !NextIllegal(pulp, y.s, x.i)
    ensures var r := CsrInput(pulp, y, x.i);
            && T.Returns(r) == (!Traps(y.s, y.id.insn) && y.id.insn.mret && !y.s.debugMode) && !T.TakesTrap(r)
            && !r.debugSave
    ensures var n := y.id.insn;
            CsrOf(pulp, y.s, x.i).restoreDret == (!Traps(y.s, n) && !n.mret && !n.uret && n.dret)
  {
  }

  lemma FlushWbRedirect(pulp: bool, a: Around, y: Core, x: Cycle)
    requires y.s.fsm == FlushWb && Surrounds(a, y, x) && Flushable(a, y) && !x.i.gated
    ensures var r, n := RedirectOf(pulp, y.s, x.i), y.id.insn;
            && (if r.Redirect? then [r] else [])
               == (if IsReturn(n) && !Traps(y.s, n) then [] else JumpsLeft(pulp, a, y.s, n, y.id.pc))
            && (r.Redirect? ==> A.Position(Target(pulp, y, x, r), A.None) == EffectOf(pulp, a, y).fetch)
            && (!r.Redirect? && !IsReturn(n) ==> y.fetch == EffectOf(pulp, a, y).fetch)
  {
  }

  lemma XretControl(pulp: bool, a: Around, y: Core, x: Cycle)
    requires y.s.fsm == XretJump && Surrounds(a, y, x) && Flushable(a, y) && !x.i.gated
    ensures NextFsm(pulp, y.s, x.i) == (if a.step && !y.s.debugMode then DbgTakenIf else Decode)
    ensures NextDebugMode(y.s, x.i) == EffectOf(pulp, a, y).debugMode
    ensures var q := CsrInput(pulp, y, x.i); !T.Returns(q) && !T.TakesTrap(q) && !q.debugSave
    ensures var r := RedirectOf(pulp, y.s, x.i);
            && r.Redirect? && [r] == JumpsLeft(pulp, a, y.s, y.id.insn, y.id.pc)
            && A.Position(Target(pulp, y, x, r), A.None) == EffectOf(pulp, a, y).fetch
  {
  }

  /** The trap and debug registers. */
  lemma TrapStep(c: T.Config, t: T.State, r: T.Input)
    requires r.write == T.NoWrite && !r.debugSave
    ensures var u := T.Step(c, t, r);
            && u.trap == (if T.TakesTrap(r) then T.Trap(false, t.trap.mie, T.ExceptionPc(r), r.cause)
                          else if T.Returns(r) then T.Trap(t.trap.mpie, true, t.trap.mepc, t.trap.mcause) else t.trap)
            && u.debug == t.debug
  {
  }

  lemma FlushExCycle(pulp: bool, c: T.Config, a: Around, y: Core, x: Cycle)
    requires y.s.fsm == FlushEx && Surrounds(a, y, x) && Flushable(a, y) && !x.i.gated
    ensures EffectOf(pulp, a, Next(pulp, c, y, x)) == EffectOf(pulp, a, y)
    ensures JumpOf(pulp, y.s, x.i) == []
  {
    FlushExControl(pulp, y, x.i);
    TrapStep(c, y.t, CsrInput(pulp, y, x.i));
    IdStays(pulp, c, y, x);
  }

  lemma FlushWbCycle(pulp: bool, c: T.Config, a: Around, y: Core, x: Cycle)
    requires y.s.fsm == FlushWb && Surrounds(a, y, x) && Flushable(a, y) && !x.i.gated
    ensures EffectOf(pulp, a, Next(pulp, c, y, x)) == EffectOf(pulp, a, y)
  {
    FlushWbControl(pulp, a, y, x);
    FlushWbRedirect(pulp, a, y, x);
    TrapStep(c, y.t, CsrInput(pulp, y, x.i));
    IdStays(pulp, c, y, x);
  }

  lemma XretCycle(pulp: bool, c: T.Config, a: Around, y: Core, x: Cycle)
    requires y.s.fsm == XretJump && Surrounds(a, y, x) && Flushable(a, y) && !x.i.gated
    ensures EffectOf(pulp, a, Next(pulp, c, y, x)) == EffectOf(pulp, a, y)
  {
    XretControl(pulp, a, y, x);
    TrapStep(c, y.t, CsrInput(pulp, y, x.i));
  }

  /** Every cycle of a flush. */
  lemma FlushCycle(pulp: bool, c: T.Config, a: Around, y: Core, x: Cycle)
    requires InFlush(y.s.fsm) && Surrounds(a, y, x) && Flushable(a, y)
    ensures EffectOf(pulp, a, Next(pulp, c, y, x)) == EffectOf(pulp, a, y)
  {
    if !x.i.gated {
      if y.s.fsm == FlushEx {
        FlushExCycle(pulp, c, a, y, x);
      } else if y.s.fsm == FlushWb {
        FlushWbCycle(pulp, c, a, y, x);
      } else {
        XretCycle(pulp, c, a, y, x);
      }
    }
  }

  lemma FlushExJumps(pulp: bool, a: Around, y: Core, x: Cycle)
    requires y.s.fsm == FlushEx && Surrounds(a, y, x) && Flushable(a, y) && !x.i.gated
    ensures JumpOf(pulp, y.s, x.i) == []
    ensures JumpsLeft(pulp, a, Step(pulp, y.s, x.i), y.id.insn, y.id.pc) == JumpsLeft(pulp, a, y.s, y.id.insn, y.id.pc)
  {
    FlushExControl(pulp, y, x.i);
  }

  lemma FlushWbJumps(pulp: bool, a: Around, y: Core, x: Cycle)
    requires y.s.fsm == FlushWb && Surrounds(a, y, x) && Flushable(a, y) && !x.i.gated
    ensures JumpOf(pulp, y.s, x.i) + JumpsLeft(pulp, a, Step(pulp, y.s, x.i), y.id.insn, y.id.pc)
         == JumpsLeft(pulp, a, y.s, y.id.insn, y.id.pc)
  {
    FlushWbControl(pulp, a, y, x);
    FlushWbRedirect(pulp, a, y, x);
  }

  lemma XretJumps(pulp: bool, a: Around, y: Core, x: Cycle)
    requires y.s.fsm == XretJump && Surrounds(a, y, x) && Flushable(a, y) && !x.i.gated
    ensures JumpOf(pulp, y.s, x.i) == JumpsLeft(pulp, a, y.s, y.id.insn, y.id.pc)
    ensures JumpsLeft(pulp, a, Step(pulp, y.s, x.i), y.id.insn, y.id.pc) == []
  {
    XretControl(pulp, a, y, x);
  }

  lemma FlushJumps(pulp: bool, a: Around, y: Core, x: Cycle)
    requires InFlush(y.s.fsm) && Surrounds(a, y, x) && Flushable(a, y)
    ensures JumpOf(pulp, y.s, x.i) + JumpsLeft(pulp, a, Step(pulp, y.s, x.i), y.id.insn, y.id.pc)
         == JumpsLeft(pulp, a, y.s, y.id.insn, y.id.pc)
  {
    if !x.i.gated {
      if y.s.fsm == FlushEx {
        FlushExJumps(pulp, a, y, x);
      } else if y.s.fsm == FlushWb {
        FlushWbJumps(pulp, a, y, x);
      } else {
        XretJumps(pulp, a, y, x);
      }
    }
  }

  /** The instruction stays, and so do the conditions on it. */
  lemma FlushHolds(pulp: bool, c: T.Config, a: Around, y: Core, x: Cycle)
    requires InFlush(y.s.fsm) && Surrounds(a, y, x) && Flushable(a, y)
    ensures var z := Next(pulp, c, y, x);
            && z.id.pc == y.id.pc && z.id.insn == y.id.insn
            && (InFlush(z.s.fsm) ==> Flushable(a, z))
  {
    if !x.i.gated {
      if y.s.fsm == FlushEx {
        FlushExControl(pulp, y, x.i);
      } else if y.s.fsm == FlushWb {
        FlushWbControl(pulp, a, y, x);
      } else {
        XretControl(pulp, a, y, x);
      }
    }
    IdStays(pulp, c, y, x);
  }

  lemma JumpsAdd(first: seq<Redirect>, later: seq<Redirect>, left: seq<Redirect>, next: seq<Redirect>,
                 all: seq<Redirect>)
    requires later + left == next && first + next == all
    ensures (first + later) + left == all
  {
    assert (first + later) + left == first + (later + left);
  }

  /** Through any waiting for the pipeline and any clock gating, a flush leaves the registers its instruction stands
      for, */
  lemma {:induction false} FlushRun(pulp: bool, c: T.Config, a: Around, y: Core, xs: seq<Cycle>)
    requires InFlush(y.s.fsm) && Flushable(a, y) && Flushes(pulp, c, a, y, xs)
    ensures EffectOf(pulp, a, Run(pulp, c, y, xs)) == EffectOf(pulp, a, y)
    decreases |xs|
  {
    if xs != [] {
      var z := Next(pulp, c, y, xs[0]);
      FlushCycle(pulp, c, a, y, xs[0]);
      FlushHolds(pulp, c, a, y, xs[0]);
      if InFlush(z.s.fsm) {
        FlushRun(pulp, c, a, z, xs[1..]);
      }
    }
  }

  /** The redirects the flush of the instruction in ID still owes. */
  function Owed(pulp: bool, a: Around, y: Core): seq<Redirect> {
    JumpsLeft(pulp, a, y.s, y.id.insn, y.id.pc)
  }

  lemma FlushOwes(pulp: bool, c: T.Config, a: Around, y: Core, x: Cycle)
    requires InFlush(y.s.fsm) && Surrounds(a, y, x) && Flushable(a, y)
    ensures JumpOf(pulp, y.s, x.i) + Owed(pulp, a, Next(pulp, c, y, x)) == Owed(pulp, a, y)
  {
    FlushJumps(pulp, a, y, x);
    FlushHolds(pulp, c, a, y, x);
  }

  lemma OwesNothing(pulp: bool, a: Around, z: Core)
    requires !InFlush(z.s.fsm)
    ensures Owed(pulp, a, z) == []
  {
  }

  /** and redirects the fetch unit as it should, once. */
  lemma {:induction false} FlushJumpsOnce(pulp: bool, c: T.Config, a: Around, y: Core, xs: seq<Cycle>)
    requires InFlush(y.s.fsm) && Flushable(a, y) && Flushes(pulp, c, a, y, xs)
    ensures Jumps(pulp, c, y, xs) + Owed(pulp, a, Run(pulp, c, y, xs)) == Owed(pulp, a, y)
    decreases |xs|
  {
    if xs != [] {
      var z, rest := Next(pulp, c, y, xs[0]), xs[1..];
      FlushOwes(pulp, c, a, y, xs[0]);
      FlushHolds(pulp, c, a, y, xs[0]);
      if InFlush(z.s.fsm) {
        FlushJumpsOnce(pulp, c, a, z, rest);
        JumpsAdd(JumpOf(pulp, y.s, xs[0].i), Jumps(pulp, c, z, rest), Owed(pulp, a, Run(pulp, c, z, rest)),
                 Owed(pulp, a, z), Owed(pulp, a, y));
      } else {
        OwesNothing(pulp, a, z);
        assert rest == [];
      }
    }
  }

  // ---------------------------------------------------------- from the instruction on

  /** What the decoder makes of an instruction. */
  datatype Op =
    | OpIllegal | OpPlain | OpJump | OpBranch | OpEbreak | OpEcall | OpMret | OpUret | OpDret | OpFencei | OpWfi
    | OpStatus

  predicate Is(n: Decoded, op: Op) {
    match op
    case OpIllegal => n.illegal
    case OpPlain => n == PLAIN
    case OpJump => n == PLAIN.(jump := true)
    case OpBranch => n == PLAIN.(branch := true)
    case OpEbreak => n == PLAIN.(ebreak := true)
    case OpEcall => n == PLAIN.(ecall := true)
    case OpMret => n == PLAIN.(mret := true)
    case OpUret => n == PLAIN.(uret := true)
    case OpDret => n == PLAIN.(dret := true)
    case OpFencei => n == PLAIN.(fencei := true)
    case OpWfi => n == PLAIN.(wfi := true)
    case OpStatus => n == PLAIN.(csrStatus := true)
  }

  /** Instructions that flush the pipeline: all that trap or return, and without stepping fence.i, wfi outside
      debug mode and accesses to status registers. Loop bodies have none but exceptions and status accesses. */
  predicate NeedsFlush(op: Op, s: State, i: Input) {
    var stepping := i.singleStep && !s.debugMode;
    match op
    case OpIllegal => true
    case OpEcall => true
    case OpEbreak => !s.debugMode && !i.ebreakForced
    case OpMret => s.fsm == Decode
    case OpUret => s.fsm == Decode
    case OpDret => s.fsm == Decode && !stepping
    case OpFencei => s.fsm == Decode && !stepping
    case OpWfi => s.fsm == Decode && !stepping && !s.debugMode
    case OpStatus => !stepping
    case _ => false
  }

  /** The registers afterwards, as the Privileged Architecture and the Debug Specification have them. */
  function Meant(pulp: bool, a: Around, y: Core, op: Op): Effect {
    var s, k, d, pc := y.s, y.t.trap, y.t.debug, y.id.pc;
    var handler := A.Position(if s.debugMode then a.to.debugException else a.to.exception, A.None);
    var next := if a.step && !s.debugMode then DbgTakenIf else Decode;
    var code := match op case OpIllegal => 2 case OpEbreak => 3 case _ => 11;
    match op
    case OpMret =>
      if s.debugMode then Effect(k, d, handler, true, next)
      else Effect(T.Trap(k.mpie, true, k.mepc, k.mcause), d, A.Position(k.mepc, A.None), false, next)
    case OpUret =>
      if s.debugMode then Effect(k, d, handler, true, next)
      else Effect(k, d, A.Position(a.to.uret, A.None), false, next)
    case OpDret => Effect(k, d, A.Position(d.dpc, A.None), false, next)
    case OpFencei => Effect(k, d, A.Position(pc + 4, A.None), s.debugMode, Decode)
    case OpWfi => Effect(k, d, y.fetch, s.debugMode, if a.pending then DbgTakenIf else WaitSleep)
    case OpStatus =>
      var back := if Repeats(pulp, a.loop0, pc) then A.Position(a.loop0.start, A.None)
                  else if Repeats(pulp, a.loop1, pc) then A.Position(a.loop1.start, A.None) else y.fetch;
      Effect(k, d, back, s.debugMode, Decode)
    case _ =>
      Effect(if s.debugMode then k else T.Trap(false, k.mie, pc, code), d, handler, s.debugMode, next)
  }

  /** The redirects on the way. */
  function MeantJumps(pulp: bool, a: Around, y: Core, op: Op): seq<Redirect> {
    var debug := y.s.debugMode;
    match op
    case OpMret => [Redirect(if debug then PcException else PcMret, VecDebugException)]
    case OpUret => [Redirect(if debug then PcException else PcUret, VecDebugException)]
    case OpDret => [Redirect(PcDret, VecIrq)]
    case OpFencei => [Redirect(PcFencei, VecIrq)]
    case OpWfi => []
    case OpStatus =>
      if Repeats(pulp, a.loop0, y.id.pc) || Repeats(pulp, a.loop1, y.id.pc) then [Redirect(PcHwloop, VecIrq)] else []
    case _ => [Redirect(PcException, if debug then VecDebugException else VecException)]
  }

  /** Before the instruction leaves: nothing disturbs it, and either the clock is gated or ID is not ready. */
  predicate Waits(pulp: bool, c: T.Config, y: Core, op: Op, ws: seq<Cycle>)
    decreases |ws|
  {
    ws == [] ||
    (var x := ws[0];
     && Presents(y, x.i) && InDecode(pulp, y.s, x.i) && Undisturbed(y.s, x.i) && NeedsFlush(op, y.s, x.i)
     && !Leaves(pulp, y.s, x.i) && !x.i.branchTaken && Waits(pulp, c, Next(pulp, c, y, x), op, ws[1..]))
  }

  /** Nothing has moved but the flags that wait for nothing. */
  predicate Same(y: Core, z: Core) {
    && z.s.fsm == y.s.fsm && z.s.debugMode == y.s.debugMode && z.id == y.id && z.t == y.t && z.fetch == y.fetch
    && (y.s.fsm == DecodeHwloop ==> z.s.illegal == y.s.illegal)
  }

  lemma WaitControl(pulp: bool, s: State, i: Input, op: Op)
    requires InDecode(pulp, s, i) && Undisturbed(s, i) && !i.branchTaken && !i.idReady && !i.gated
    requires Is(i.insn, op) && NeedsFlush(op, s, i) && !(s.fsm == DecodeHwloop && i.insn.illegal)
    ensures NextFsm(pulp, s, i) == s.fsm && NextDebugMode(s, i) == s.debugMode && !HaltId(pulp, s, i)
    ensures RedirectOf(pulp, s, i) == NoRedirect && CsrOf(pulp, s, i) == NO_REQUEST && !HwlpJump(pulp, s, i)
    ensures s.fsm == DecodeHwloop ==> NextIllegal(pulp, s, i) == s.illegal
  {
  }

  lemma NoRequestKeeps(c: T.Config, t: T.State, r: T.Input)
    requires r.write == T.NoWrite && !r.saveCause && !r.restoreMret && !r.fflagsWe && !r.fregsWe
    ensures T.Step(c, t, r) == t
  {
  }

  lemma WaitCycle(pulp: bool, c: T.Config, y: Core, x: Cycle, op: Op)
    requires Presents(y, x.i) && InDecode(pulp, y.s, x.i) && Undisturbed(y.s, x.i) && !x.i.branchTaken
    requires Is(y.id.insn, op) && NeedsFlush(op, y.s, x.i) && !Leaves(pulp, y.s, x.i)
    ensures Same(y, Next(pulp, c, y, x)) && JumpOf(pulp, y.s, x.i) == []
  {
    if !x.i.gated {
      WaitControl(pulp, y.s, x.i, op);
      NoRequestKeeps(c, y.t, CsrInput(pulp, y, x.i));
    }
  }

  lemma {:induction false} WaitRun(pulp: bool, c: T.Config, y: Core, op: Op, ws: seq<Cycle>)
    requires Is(y.id.insn, op) && Waits(pulp, c, y, op, ws)
    ensures Same(y, Run(pulp, c, y, ws)) && Jumps(pulp, c, y, ws) == []
    decreases |ws|
  {
    if ws != [] {
      WaitCycle(pulp, c, y, ws[0], op);
      WaitRun(pulp, c, Next(pulp, c, y, ws[0]), op, ws[1..]);
    }
  }

  /** It leaves. */
  lemma LeaveControl(pulp: bool, s: State, i: Input, op: Op)
    requires Leaves(pulp, s, i) && Is(i.insn, op) && NeedsFlush(op, s, i) && (s.fsm == DecodeHwloop ==> !s.illegal)
    ensures NextFsm(pulp, s, i) == FlushEx && NextDebugMode(s, i) == s.debugMode && HaltIf(pulp, s, i)
    ensures NextIllegal(pulp, s, i) == i.insn.illegal && (i.idReady || HaltId(pulp, s, i))
    ensures RedirectOf(pulp, s, i) == NoRedirect && CsrOf(pulp, s, i) == NO_REQUEST && !HwlpJump(pulp, s, i)
  {
  }

  lemma LeaveCycle(pulp: bool, c: T.Config, y: Core, x: Cycle, op: Op)
    requires Presents(y, x.i) && Leaves(pulp, y.s, x.i) && Is(y.id.insn, op) && NeedsFlush(op, y.s, x.i)
    requires y.s.fsm == DecodeHwloop ==> !y.s.illegal
    ensures var z := Next(pulp, c, y, x);
            && z.s.fsm == FlushEx && z.s.debugMode == y.s.debugMode && z.s.illegal == y.id.insn.illegal
            && z.id == y.id.(valid := false) && z.t == y.t && z.fetch == y.fetch && JumpOf(pulp, y.s, x.i) == []
  {
    LeaveControl(pulp, y.s, x.i, op);
    NoRequestKeeps(c, y.t, CsrInput(pulp, y, x.i));
  }

  /** The flush that lies ahead is the one that is meant. */
  lemma FlushIsMeant(pulp: bool, a: Around, y: Core, z: Core, op: Op, i: Input)
    requires Is(y.id.insn, op) && NeedsFlush(op, y.s, i) && i.singleStep == a.step && ProperLoops(a, y.id.pc)
    requires z.s.fsm == FlushEx && z.s.debugMode == y.s.debugMode && z.s.illegal == y.id.insn.illegal
    requires z.id == y.id.(valid := false) && z.t == y.t && z.fetch == y.fetch
    requires !(y.s.debugMode && y.id.insn.ebreak)
    ensures Flushable(a, z) && EffectOf(pulp, a, z) == Meant(pulp, a, y, op)
  {
  }

  lemma JumpsAreMeant(pulp: bool, a: Around, y: Core, z: Core, op: Op, i: Input)
    requires Is(y.id.insn, op) && NeedsFlush(op, y.s, i)
    requires z.s.fsm == FlushEx && z.s.debugMode == y.s.debugMode && z.s.illegal == y.id.insn.illegal
    requires z.id.insn == y.id.insn && z.id.pc == y.id.pc
    ensures JumpsLeft(pulp, a, z.s, z.id.insn, z.id.pc) == MeantJumps(pulp, a, y, op)
  {
  }

  /** The instruction `op` stands in ID, waits for `ws`, leaves at `x`, and its flush is over after `xs`. */
  predicate Flushed(pulp: bool, c: T.Config, a: Around, y: Core, op: Op, ws: seq<Cycle>, x: Cycle, xs: seq<Cycle>) {
    var v := Run(pulp, c, y, ws);
    var z := Next(pulp, c, v, x);
    && Is(y.id.insn, op) && Waits(pulp, c, y, op, ws) && (y.s.fsm == DecodeHwloop ==> !y.s.illegal)
    && Presents(v, x.i) && Leaves(pulp, v.s, x.i) && NeedsFlush(op, v.s, x.i) && x.i.singleStep == a.step
    && ProperLoops(a, y.id.pc) && !(y.s.debugMode && y.id.insn.ebreak)
    && Flushes(pulp, c, a, z, xs) && !InFlush(Run(pulp, c, z, xs).s.fsm)
  }

  /** Exceptions, returns, fence.i, wfi and status accesses, through any waiting, any delay in EX and any clock
      gating: at the end of the flush the registers are what the instruction means, nothing more and nothing less,
      and the fetch unit was redirected as it means. */
  lemma InstructionIsExecuted(pulp: bool, c: T.Config, a: Around, y: Core, op: Op, ws: seq<Cycle>, x: Cycle,
                              xs: seq<Cycle>)
    requires Flushed(pulp, c, a, y, op, ws, x, xs)
    ensures var v := Run(pulp, c, y, ws);
            var e := Run(pulp, c, Next(pulp, c, v, x), xs);
            && Effect(e.t.trap, e.t.debug, e.fetch, e.s.debugMode, e.s.fsm) == Meant(pulp, a, y, op)
            && Jumps(pulp, c, y, ws) + (JumpOf(pulp, v.s, x.i) + Jumps(pulp, c, Next(pulp, c, v, x), xs))
               == MeantJumps(pulp, a, y, op)
  {
    var v := Run(pulp, c, y, ws);
    var z := Next(pulp, c, v, x);
    WaitRun(pulp, c, y, op, ws);
    LeaveCycle(pulp, c, v, x, op);
    FlushIsMeant(pulp, a, v, z, op, x.i);
    JumpsAreMeant(pulp, a, v, z, op, x.i);
    FlushRun(pulp, c, a, z, xs);
    FlushJumpsOnce(pulp, c, a, z, xs);
    MeantIsSame(pulp, a, y, v, op);
    FlushOver(pulp, a, Run(pulp, c, z, xs), Jumps(pulp, c, z, xs));
  }

  lemma MeantIsSame(pulp: bool, a: Around, y: Core, v: Core, op: Op)
    requires Same(y, v)
    ensures Meant(pulp, a, v, op) == Meant(pulp, a, y, op) && MeantJumps(pulp, a, v, op) == MeantJumps(pulp, a, y, op)
  {
  }

  /** Once the flush is over nothing is left to come. */
  lemma FlushOver(pulp: bool, a: Around, z: Core, jumps: seq<Redirect>)
    requires !InFlush(z.s.fsm)
    ensures EffectOf(pulp, a, z) == Effect(z.t.trap, z.t.debug, z.fetch, z.s.debugMode, z.s.fsm)
    ensures jumps + Owed(pulp, a, z) == jumps
  {
  }

  /** An exception outside debug mode: its pc, cause and the old enable bit are saved, interrupts are off, and the
      fetch unit goes to the handler, once. */
  lemma ExceptionIsTakenOnce(pulp: bool, c: T.Config, a: Around, y: Core, op: Op, ws: seq<Cycle>, x: Cycle,
                             xs: seq<Cycle>)
    requires Flushed(pulp, c, a, y, op, ws, x, xs) && op in {OpIllegal, OpEbreak, OpEcall} && !y.s.debugMode
    ensures var v := Run(pulp, c, y, ws);
            var e := Run(pulp, c, Next(pulp, c, v, x), xs);
            && e.t.trap == T.Trap(false, y.t.trap.mie, y.id.pc,
                                  match op case OpIllegal => 2 case OpEbreak => 3 case _ => 11)
            && e.fetch == A.Position(a.to.exception, A.None)
            && Jumps(pulp, c, y, ws) + (JumpOf(pulp, v.s, x.i) + Jumps(pulp, c, Next(pulp, c, v, x), xs))
               == [Redirect(PcException, VecException)]
  {
    InstructionIsExecuted(pulp, c, a, y, op, ws, x, xs);
  }

  /** In debug mode it leaves the trap registers alone and goes to the debug exception vector. */
  lemma DebugModeKeepsTrapState(pulp: bool, c: T.Config, a: Around, y: Core, op: Op, ws: seq<Cycle>, x: Cycle,
                                xs: seq<Cycle>)
    requires Flushed(pulp, c, a, y, op, ws, x, xs) && op in {OpIllegal, OpEcall, OpMret, OpUret} && y.s.debugMode
    ensures var e := Run(pulp, c, Next(pulp, c, Run(pulp, c, y, ws), x), xs);
            e.t.trap == y.t.trap && e.t.debug == y.t.debug && e.s.debugMode
            && e.fetch == A.Position(a.to.debugException, A.None)
  {
    InstructionIsExecuted(pulp, c, a, y, op, ws, x, xs);
  }

  /** An mret outside debug mode, stepped or not: the enable bit is restored and the fetch unit goes to mepc, once. */
  lemma ReturnIsTakenOnce(pulp: bool, c: T.Config, a: Around, y: Core, ws: seq<Cycle>, x: Cycle, xs: seq<Cycle>)
    requires Flushed(pulp, c, a, y, OpMret, ws, x, xs) && !y.s.debugMode
    ensures var v := Run(pulp, c, y, ws);
            var e := Run(pulp, c, Next(pulp, c, v, x), xs);
            && e.t.trap == T.Trap(y.t.trap.mpie, true, y.t.trap.mepc, y.t.trap.mcause)
            && e.fetch == A.Position(y.t.trap.mepc, A.None)
            && Jumps(pulp, c, y, ws) + (JumpOf(pulp, v.s, x.i) + Jumps(pulp, c, Next(pulp, c, v, x), xs))
               == [Redirect(PcMret, VecDebugException)]
  {
    InstructionIsExecuted(pulp, c, a, y, OpMret, ws, x, xs);
  }

  /** A dret leaves debug mode and goes to dpc. */
  lemma DretLeavesDebugMode(pulp: bool, c: T.Config, a: Around, y: Core, ws: seq<Cycle>, x: Cycle, xs: seq<Cycle>)
    requires Flushed(pulp, c, a, y, OpDret, ws, x, xs) && y.s.debugMode
    ensures var e := Run(pulp, c, Next(pulp, c, Run(pulp, c, y, ws), x), xs);
            && !e.s.debugMode && e.s.fsm == Decode && e.fetch == A.Position(y.t.debug.dpc, A.None)
            && e.t.trap == y.t.trap && e.t.debug == y.t.debug
  {
    InstructionIsExecuted(pulp, c, a, y, OpDret, ws, x, xs);
  }

  // ------------------------------------------------------------------------- interrupts

  /** An interrupt is served before an instruction in ID, and before the first fetch; debugging goes first. */
  predicate Interrupts(pulp: bool, s: State, i: Input) {
    && !i.gated && i.irqReq && !s.debugMode && !(i.debugReq || s.debugReqQ)
    && (s.fsm == FirstFetch || (InDecode(pulp, s, i) && !i.trigger))
  }

  /** The address an interrupt comes back to: the instruction in ID, or the one to be fetched first. */
  function Interrupted(y: Core): int {
    if y.s.fsm == FirstFetch then y.fetch.pc else y.id.pc
  }

  lemma InterruptControl(pulp: bool, y: Core, i: Input)
    requires Interrupts(pulp, y.s, i)
    ensures NextFsm(pulp, y.s, i) == Decode && !NextDebugMode(y.s, i) && !IsDecoding(pulp, y.s, i)
    ensures RedirectOf(pulp, y.s, i) == Redirect(PcException, VecIrq) && HaltId(pulp, y.s, i) && HaltIf(pulp, y.s, i)
    ensures var r := CsrInput(pulp, y, i);
            T.TakesTrap(r) && T.ExceptionPc(r) == Interrupted(y) && r.cause == 32 + i.irqId && !r.debugSave
  {
  }

  /** An interrupt cancels the instruction in ID and saves its address to come back to. */
  lemma InterruptCycle(pulp: bool, c: T.Config, y: Core, x: Cycle)
    requires Interrupts(pulp, y.s, x.i)
    ensures var z := Next(pulp, c, y, x);
            && z.t.trap == T.Trap(false, y.t.trap.mie, Interrupted(y), 32 + x.i.irqId) && z.t.debug == y.t.debug
            && z.s.fsm == Decode && !z.s.debugMode && z.fetch == A.Position(x.to.irq, A.None) && !z.id.valid
            && JumpOf(pulp, y.s, x.i) == [Redirect(PcException, VecIrq)] && !Taken(pulp, y.s, x.i)
  {
    InterruptControl(pulp, y, x.i);
    TrapStep(c, y.t, CsrInput(pulp, y, x.i));
  }

  /** A cycle of a handler: the interrupt controller asks only while interrupts are enabled, and no
      exception or return changes the trap registers. */
  predicate Handles(y: Core, i: Input) {
    var s, n := y.s, i.insn;
    && (i.irqReq ==> y.t.trap.mie)
    && (s.fsm == FlushEx ==> if s.debugMode then s.illegal || !n.ebreak else !Traps(s, n))
    && (s.fsm == FlushWb ==> s.debugMode || !n.mret)
  }

  predicate AllHandle(pulp: bool, c: T.Config, y: Core, xs: seq<Cycle>)
    decreases |xs|
  {
    xs == [] || (Handles(y, xs[0].i) && AllHandle(pulp, c, Next(pulp, c, y, xs[0]), xs[1..]))
  }

  /** Every redirect of the run to the interrupt vector. */
  function InterruptsIn(pulp: bool, c: T.Config, y: Core, xs: seq<Cycle>): nat
    decreases |xs|
  {
    if xs == [] then 0
    else
      (if JumpOf(pulp, y.s, xs[0].i) == [Redirect(PcException, VecIrq)] then 1 else 0) +
      InterruptsIn(pulp, c, Next(pulp, c, y, xs[0]), xs[1..])
  }

  lemma HandlerRequests(pulp: bool, y: Core, i: Input)
    requires !y.t.trap.mie && Handles(y, i)
    ensures var r := CsrOf(pulp, y.s, i); (r.saveCause ==> r.debugSave) && !r.restoreMret
    ensures JumpOf(pulp, y.s, i) != [Redirect(PcException, VecIrq)]
  {
  }

  lemma HandlerTraps(c: T.Config, t: T.State, r: T.Input)
    requires (r.saveCause ==> r.debugSave) && !r.restoreMret && r.write == T.NoWrite
    ensures T.Step(c, t, r).trap == t.trap
  {
  }

  lemma HandlerCycle(pulp: bool, c: T.Config, y: Core, x: Cycle)
    requires !y.t.trap.mie && Handles(y, x.i)
    ensures Next(pulp, c, y, x).t.trap == y.t.trap && JumpOf(pulp, y.s, x.i) != [Redirect(PcException, VecIrq)]
  {
    HandlerRequests(pulp, y, x.i);
    HandlerTraps(c, y.t, CsrInput(pulp, y, x.i));
  }

  lemma {:induction false} HandlerRun(pulp: bool, c: T.Config, y: Core, xs: seq<Cycle>)
    requires !y.t.trap.mie && AllHandle(pulp, c, y, xs)
    ensures Run(pulp, c, y, xs).t.trap == y.t.trap && InterruptsIn(pulp, c, y, xs) == 0
    decreases |xs|
  {
    if xs != [] {
      HandlerCycle(pulp, c, y, xs[0]);
      HandlerRun(pulp, c, Next(pulp, c, y, xs[0]), xs[1..]);
    }
  }

  /** An interrupt at any cycle is taken once: the interrupted address, its cause and the enable bit stay saved,
      and the interrupt vector is not used again, as long as the handler runs, whatever the stalls, sleeps and
      debug entries. */
  lemma InterruptIsTakenOnce(pulp: bool, c: T.Config, y: Core, x: Cycle, xs: seq<Cycle>)
    requires Interrupts(pulp, y.s, x.i) && AllHandle(pulp, c, Next(pulp, c, y, x), xs)
    ensures var z := Next(pulp, c, y, x);
            && Run(pulp, c, z, xs).t.trap == T.Trap(false, y.t.trap.mie, Interrupted(y), 32 + x.i.irqId)
            && z.fetch == A.Position(x.to.irq, A.None) && !z.id.valid && InterruptsIn(pulp, c, z, xs) == 0
            && !Taken(pulp, y.s, x.i)
  {
    InterruptCycle(pulp, c, y, x);
    HandlerRun(pulp, c, Next(pulp, c, y, x), xs);
  }

  /** And its mret resumes the interrupted instruction: the fetch unit is at its address again, with the
      enable bit from before. */
  lemma InterruptResumes(pulp: bool, c: T.Config, a: Around, y: Core, x: Cycle, xs: seq<Cycle>, ws: seq<Cycle>,
                         m: Cycle, ms: seq<Cycle>)
    requires Interrupts(pulp, y.s, x.i) && AllHandle(pulp, c, Next(pulp, c, y, x), xs)
    requires var h := Run(pulp, c, Next(pulp, c, y, x), xs);
             Flushed(pulp, c, a, h, OpMret, ws, m, ms) && !h.s.debugMode
    ensures var v := Run(pulp, c, Run(pulp, c, Next(pulp, c, y, x), xs), ws);
            var z := Run(pulp, c, Next(pulp, c, v, m), ms);
            && z.fetch == A.Position(Interrupted(y), A.None)
            && z.t.trap == T.Trap(y.t.trap.mie, true, Interrupted(y), 32 + x.i.irqId)
  {
    InterruptIsTakenOnce(pulp, c, y, x, xs);
    ReturnIsTakenOnce(pulp, c, a, Run(pulp, c, Next(pulp, c, y, x), xs), ws, m, ms);
  }

  // ------------------------------------------------------------------ halts at an instruction

  /** The controller stops at the instruction in ID: a debug request or a trigger, or an ebreak that enters debug
      mode because dcsr says so or because debug mode is on already. */
  predicate StopsAt(pulp: bool, y: Core, i: Input) {
    && InDecode(pulp, y.s, i) && !i.gated
    && (Halting(y.s, i) ||
        (Undisturbed(y.s, i) && Is(y.id.insn, OpEbreak) && (y.s.debugMode || i.ebreakForced)))
  }

  /** Cycles left until debug mode is entered. */
  function CyclesLeft(s: State): nat {
    match s.fsm
    case DbgFlush => 2
    case DbgTakenId => 1
    case _ => 0
  }

  /** Cycles in which the clock runs. */
  function Moves(xs: seq<Cycle>): nat {
    if xs == [] then 0 else (if xs[0].i.gated then 0 else 1) + Moves(xs[1..])
  }

  /** Every cycle of the run is one of the way into debug mode, with dcsr.ebreakm and the vectors as they are. */
  predicate StaysOnWay(pulp: bool, c: T.Config, y: Core, forced: bool, to: Targets, xs: seq<Cycle>)
    decreases |xs|
  {
    xs == [] ||
    (CyclesLeft(y.s) > 0 && Presents(y, xs[0].i) && xs[0].i.ebreakForced == forced && xs[0].to == to
     && StaysOnWay(pulp, c, Next(pulp, c, y, xs[0]), forced, to, xs[1..]))
  }

  predicate NoneTaken(pulp: bool, c: T.Config, y: Core, xs: seq<Cycle>)
    decreases |xs|
  {
    xs == [] || (!Taken(pulp, y.s, xs[0].i) && NoneTaken(pulp, c, Next(pulp, c, y, xs[0]), xs[1..]))
  }

  /** On the way since `y0`, with its instruction still in the IF/ID registers and nothing saved yet. */
  predicate Carries(y0: Core, forced: bool, y: Core) {
    && CyclesLeft(y.s) > 0 && y.s.debugMode == y0.s.debugMode && y.id.pc == y0.id.pc && y.id.insn == y0.id.insn
    && y.t.trap == y0.t.trap && y.t.debug == y0.t.debug
    && (y.s.debugReqEntry || y.s.debugMode || (forced && y.id.insn.ebreak))
    && (y.s.fsm == DbgTakenId ==> !y.id.valid)
  }

  /** dcsr.cause: 2 for a trigger match, 1 for an ebreak, 3 for a request. */
  function CauseFor(last: Input, ebreak: bool): nat {
    if last.trigger then 2 else if last.ebreakForced && ebreak then 1 else 3
  }

  /** Debug mode at the debug vector. Entered from outside, dpc and the cause are saved; entered again from
      debug mode, nothing is. */
  predicate Stopped(y0: Core, z: Core, last: Input, to: Targets) {
    && z.s.debugMode && z.s.fsm == Decode && !z.id.valid && z.fetch == A.Position(to.debug, A.None)
    && z.t.trap == y0.t.trap
    && z.t.debug == (if y0.s.debugMode then y0.t.debug
                     else y0.t.debug.(dpc := y0.id.pc, cause := CauseFor(last, y0.id.insn.ebreak)))
  }

  lemma StopControl(pulp: bool, y: Core, i: Input)
    requires StopsAt(pulp, y, i) && i.insn == y.id.insn
    ensures NextFsm(pulp, y.s, i) == DbgFlush && NextDebugMode(y.s, i) == y.s.debugMode && HaltIf(pulp, y.s, i)
    ensures CsrOf(pulp, y.s, i) == NO_REQUEST && RedirectOf(pulp, y.s, i) == NoRedirect
    ensures Halting(y.s, i) ==> NextReqEntry(pulp, y.s, i) && HaltId(pulp, y.s, i)
  {
    StopRedirect(pulp, y, i);
  }

  lemma StopRedirect(pulp: bool, y: Core, i: Input)
    requires StopsAt(pulp, y, i) && i.insn == y.id.insn
    ensures CsrOf(pulp, y.s, i) == NO_REQUEST && RedirectOf(pulp, y.s, i) == NoRedirect
  {
  }

  lemma StopCycle(pulp: bool, c: T.Config, y: Core, x: Cycle)
    requires StopsAt(pulp, y, x.i) && Presents(y, x.i)
    ensures var z := Next(pulp, c, y, x);
            && Carries(y, x.i.ebreakForced, z) && CyclesLeft(z.s) == 2 && JumpOf(pulp, y.s, x.i) == []
            && (Halting(y.s, x.i) ==> !Taken(pulp, y.s, x.i))
  {
    StopControl(pulp, y, x.i);
    NoRequestKeeps(c, y.t, CsrInput(pulp, y, x.i));
    IdStays(pulp, c, y, x);
  }

  lemma FlushControl(pulp: bool, y0: Core, y: Core, i: Input)
    requires Carries(y0, i.ebreakForced, y) && Presents(y, i) && y.s.fsm == DbgFlush && !i.gated
    ensures NextFsm(pulp, y.s, i) == DbgTakenId && NextDebugMode(y.s, i) == y.s.debugMode && HaltIf(pulp, y.s, i)
    ensures CsrOf(pulp, y.s, i) == NO_REQUEST && RedirectOf(pulp, y.s, i) == NoRedirect && HaltId(pulp, y.s, i)
    ensures NextReqEntry(pulp, y.s, i) == y.s.debugReqEntry
  {
  }

  lemma HaltWaits(pulp: bool, c: T.Config, y0: Core, y: Core, x: Cycle)
    requires Carries(y0, x.i.ebreakForced, y) && Presents(y, x.i) && (x.i.gated || y.s.fsm == DbgFlush)
    ensures var z := Next(pulp, c, y, x);
            && Carries(y0, x.i.ebreakForced, z) && CyclesLeft(z.s) + Moves([x]) == CyclesLeft(y.s)
            && JumpOf(pulp, y.s, x.i) == [] && !Taken(pulp, y.s, x.i)
  {
    if !x.i.gated {
      FlushControl(pulp, y0, y, x.i);
      NoRequestKeeps(c, y.t, CsrInput(pulp, y, x.i));
    }
    IdStays(pulp, c, y, x);
  }

  lemma SaveControl(pulp: bool, y0: Core, y: Core, i: Input)
    requires Carries(y0, i.ebreakForced, y) && Presents(y, i) && y.s.fsm == DbgTakenId && !i.gated
    ensures NextFsm(pulp, y.s, i) == Decode && NextDebugMode(y.s, i)
    ensures RedirectOf(pulp, y.s, i) == Redirect(PcException, VecDebug)
    ensures var r := CsrInput(pulp, y, i);
            if y.s.debugMode then !r.saveCause && !r.restoreMret
            else
              && r.saveCause && r.debugSave && T.ExceptionPc(r) == y.id.pc
              && r.debugCause == CauseFor(i, y.id.insn.ebreak)
  {
  }

  lemma HaltSaves(pulp: bool, c: T.Config, y0: Core, y: Core, x: Cycle)
    requires Carries(y0, x.i.ebreakForced, y) && Presents(y, x.i) && y.s.fsm == DbgTakenId && !x.i.gated
    ensures var z := Next(pulp, c, y, x);
            && Stopped(y0, z, x.i, x.to) && CyclesLeft(z.s) + Moves([x]) == CyclesLeft(y.s)
            && JumpOf(pulp, y.s, x.i) == [Redirect(PcException, VecDebug)] && !Taken(pulp, y.s, x.i)
  {
    SaveControl(pulp, y0, y, x.i);
    if y.s.debugMode {
      NoRequestKeeps(c, y.t, CsrInput(pulp, y, x.i));
    } else {
      T.DebugEntryLeavesTrapState(c, y.t, CsrInput(pulp, y, x.i));
    }
  }

  /** Where a run on the way has come to. */
  predicate Halts(y0: Core, forced: bool, z: Core, last: Input, to: Targets) {
    if CyclesLeft(z.s) == 0 then Stopped(y0, z, last, to) else Carries(y0, forced, z)
  }

  lemma HaltCycle(pulp: bool, c: T.Config, y0: Core, y: Core, x: Cycle)
    requires Carries(y0, x.i.ebreakForced, y) && Presents(y, x.i)
    ensures var z := Next(pulp, c, y, x);
            && Halts(y0, x.i.ebreakForced, z, x.i, x.to) && CyclesLeft(z.s) + Moves([x]) == CyclesLeft(y.s)
            && !Taken(pulp, y.s, x.i)
            && JumpOf(pulp, y.s, x.i) == (if CyclesLeft(z.s) == 0 then [Redirect(PcException, VecDebug)] else [])
  {
    if x.i.gated || y.s.fsm == DbgFlush {
      HaltWaits(pulp, c, y0, y, x);
    } else {
      HaltSaves(pulp, c, y0, y, x);
    }
  }

  lemma {:induction false} HaltTakesNone(pulp: bool, c: T.Config, y0: Core, y: Core, forced: bool, to: Targets,
                                         xs: seq<Cycle>)
    requires Carries(y0, forced, y) && StaysOnWay(pulp, c, y, forced, to, xs)
    ensures NoneTaken(pulp, c, y, xs)
    decreases |xs|
  {
    if xs != [] {
      HaltCycle(pulp, c, y0, y, xs[0]);
      if xs[1..] != [] {
        HaltTakesNone(pulp, c, y0, Next(pulp, c, y, xs[0]), forced, to, xs[1..]);
      }
    }
  }

  lemma {:induction false} HaltMoves(pulp: bool, c: T.Config, y0: Core, y: Core, forced: bool, to: Targets,
                                     xs: seq<Cycle>)
    requires Carries(y0, forced, y) && StaysOnWay(pulp, c, y, forced, to, xs)
    ensures Moves(xs) + CyclesLeft(Run(pulp, c, y, xs).s) == CyclesLeft(y.s)
    decreases |xs|
  {
    if xs != [] {
      HaltCycle(pulp, c, y0, y, xs[0]);
      if xs[1..] != [] {
        HaltMoves(pulp, c, y0, Next(pulp, c, y, xs[0]), forced, to, xs[1..]);
      }
    }
  }

  /** The last cycle of a run. */
  lemma {:induction false} LastCycle(pulp: bool, c: T.Config, y: Core, forced: bool, to: Targets, xs: seq<Cycle>,
                                     x: Cycle)
    requires StaysOnWay(pulp, c, y, forced, to, xs + [x])
    ensures var z := Run(pulp, c, y, xs);
            && Run(pulp, c, y, xs + [x]) == Next(pulp, c, z, x)
            && StaysOnWay(pulp, c, y, forced, to, xs) && CyclesLeft(z.s) > 0
            && Presents(z, x.i) && x.i.ebreakForced == forced && x.to == to
    decreases |xs|
  {
    if xs == [] {
      assert xs + [x] == [x];
    } else {
      assert (xs + [x])[0] == xs[0] && (xs + [x])[1..] == xs[1..] + [x];
      LastCycle(pulp, c, Next(pulp, c, y, xs[0]), forced, to, xs[1..], x);
    }
  }

  lemma {:induction false} HaltRun(pulp: bool, c: T.Config, y0: Core, y: Core, forced: bool, to: Targets,
                                   xs: seq<Cycle>)
    requires Carries(y0, forced, y) && StaysOnWay(pulp, c, y, forced, to, xs)
    requires CyclesLeft(Run(pulp, c, y, xs).s) > 0
    ensures Carries(y0, forced, Run(pulp, c, y, xs))
    decreases |xs|
  {
    if xs != [] {
      var z := Next(pulp, c, y, xs[0]);
      HaltCycle(pulp, c, y0, y, xs[0]);
      assert CyclesLeft(z.s) > 0 by {
        assert xs[1..] == [] || CyclesLeft(z.s) > 0;
      }
      HaltRun(pulp, c, y0, z, forced, to, xs[1..]);
    }
  }

  lemma HaltEnds(pulp: bool, c: T.Config, y0: Core, y: Core, forced: bool, to: Targets, xs: seq<Cycle>, x: Cycle)
    requires Carries(y0, forced, y) && StaysOnWay(pulp, c, y, forced, to, xs + [x])
    ensures Halts(y0, forced, Run(pulp, c, y, xs + [x]), x.i, to)
  {
    LastCycle(pulp, c, y, forced, to, xs, x);
    HaltRun(pulp, c, y0, y, forced, to, xs);
    HaltCycle(pulp, c, y0, Run(pulp, c, y, xs), x);
  }

  /** A debug request, a trigger match, or an ebreak that enters debug mode, while an instruction is in ID: through
      any clock gating, the debug vector is reached with the third cycle that moves, and not before. No instruction
      is taken on the way, and with a request or trigger this one is not either. From outside debug mode dpc is its
      address and the cause is 2, 1 or 3 as it is a trigger match, an ebreak, or neither; from inside, dpc and cause
      stay. The trap registers are untouched. */
  lemma HaltStops(pulp: bool, c: T.Config, y: Core, x: Cycle, xs: seq<Cycle>, last: Cycle)
    requires StopsAt(pulp, y, x.i) && Presents(y, x.i)
    requires StaysOnWay(pulp, c, Next(pulp, c, y, x), x.i.ebreakForced, last.to, xs + [last])
    ensures var z := Run(pulp, c, Next(pulp, c, y, x), xs + [last]);
            && (Halting(y.s, x.i) ==> !Taken(pulp, y.s, x.i))
            && NoneTaken(pulp, c, Next(pulp, c, y, x), xs + [last])
            && Moves(xs + [last]) + CyclesLeft(z.s) == 2
            && Halts(y, x.i.ebreakForced, z, last.i, last.to)
  {
    var z, f := Next(pulp, c, y, x), x.i.ebreakForced;
    StopCycle(pulp, c, y, x);
    HaltTakesNone(pulp, c, y, z, f, last.to, xs + [last]);
    HaltMoves(pulp, c, y, z, f, last.to, xs + [last]);
    HaltEnds(pulp, c, y, z, f, last.to, xs, last);
  }
}
