/** Trap, debug and floating-point status in rtl/cv32e40p_cs_registers.sv with PULP_SECURE = 0. */
module CsrTraps {

  datatype Config = Config(fpu: bool, zfinx: bool) {
    /** The floating-point status field of mstatus exists. */
    predicate HasFs() {
      fpu && !zfinx
    }
  }

  datatype Fs = Off | Initial | Clean | Dirty

  /** The CSR instruction's write of this cycle, set and clear already applied. */
  datatype Write =
    | NoWrite
    | Mstatus(mie: bool, mpie: bool, fs: Fs)
    | Mepc(value: int)
    | Mcause(cause: nat)
    | Dpc(value: int)
    | Dcsr(ebreakm: bool, stepie: bool, step: bool)
    | Fflags(flags: set<nat>)
    | Frm(frm: nat)
    | Fcsr(flags: set<nat>, frm: nat)

  datatype Source = FromIf | FromId | FromEx

  datatype Input = Input(
    write: Write,
    saveCause: bool, source: Source, pcIf: int, pcId: int, pcEx: int, cause: nat,
    debugSave: bool, debugCause: nat, restoreMret: bool,
    fflagsWe: bool, fflags: set<nat>, fregsWe: bool)

  /** mstatus.mie, mstatus.mpie, mepc and mcause. */
  datatype Trap = Trap(mie: bool, mpie: bool, mepc: int, mcause: nat)

  /** dpc and the writable fields of dcsr. */
  datatype Debug = Debug(dpc: int, cause: nat, ebreakm: bool, stepie: bool, step: bool)

  datatype Fp = Fp(fflags: set<nat>, frm: nat, fs: Fs)

  datatype State = State(trap: Trap, debug: Debug, fp: Fp)

  const RESET := State(Trap(false, false, 0, 0), Debug(0, 0, false, false, false), Fp({}, 0, Off))

  function Even(v: int): int {
    v - v % 2
  }

  function ExceptionPc(i: Input): int {
    match i.source
    case FromIf => i.pcIf
    case FromId => i.pcId
    case FromEx => i.pcEx
  }

  predicate TakesTrap(i: Input) {
    i.saveCause && !i.debugSave
  }

  predicate Returns(i: Input) {
    i.restoreMret && !i.saveCause
  }

  function WrittenTrap(t: Trap, w: Write): Trap {
    match w
    case Mstatus(mie, mpie, _) => t.(mie := mie, mpie := mpie)
    case Mepc(v) => t.(mepc := Even(v))
    case Mcause(v) => t.(mcause := v)
    case _ => t
  }

  /** The exception controller overrides the CSR write. */
  function NextTrap(t: Trap, i: Input): Trap {
    var w := WrittenTrap(t, i.write);
    if i.saveCause then (if i.debugSave then w else Trap(false, t.mie, ExceptionPc(i), i.cause))
    else if i.restoreMret then w.(mie := t.mpie, mpie := true)
    else w
  }

  function NextDebug(d: Debug, i: Input): Debug {
    var w := match i.write
             case Dpc(v) => d.(dpc := Even(v))
             case Dcsr(e, t, p) => d.(ebreakm := e, stepie := t, step := p)
             case _ => d;
    if i.saveCause && i.debugSave then w.(dpc := ExceptionPc(i), cause := i.debugCause) else w
  }

  /** The write touches the floating-point control and status registers. */
  predicate WritesFcsr(w: Write) {
    w.Fflags? || w.Frm? || w.Fcsr?
  }

  /** Accrued flags win over a write of the same cycle, and any change marks the status dirty. */
  function NextFp(c: Config, p: Fp, i: Input): Fp {
    if !c.fpu then p
    else
      var flags := if i.fflagsWe then i.fflags + p.fflags
                   else if i.write.Fflags? || i.write.Fcsr? then i.write.flags else p.fflags;
      var cleared := i.write.Mstatus? && i.write.fs != Dirty;
      var dirty := (i.fregsWe && !cleared) || i.fflagsWe || WritesFcsr(i.write);
      Fp(flags, if i.write.Frm? || i.write.Fcsr? then i.write.frm else p.frm,
         if !c.HasFs() then p.fs else if dirty then Dirty
         else if i.write.Mstatus? then i.write.fs else p.fs)
  }

  function Step(c: Config, s: State, i: Input): State {
    State(NextTrap(s.trap, i), NextDebug(s.debug, i), NextFp(c, s.fp, i))
  }

  function Run(c: Config, s: State, ins: seq<Input>): State
    decreases |ins|
  {
    if ins == [] then s else Run(c, Step(c, s, ins[0]), ins[1..])
  }

  // -------------------------------------------------------------------- trap and return

  /** A cycle of the handler: no further trap, no mret, no write to mstatus or mepc. Debug may be
      entered and left, and all else may happen. */
  predicate InHandler(i: Input) {
    !TakesTrap(i) && !Returns(i) && !i.write.Mstatus? && !i.write.Mepc?
  }

  predicate AllInHandler(ins: seq<Input>) {
    forall k :: 0 <= k < |ins| ==> InHandler(ins[k])
  }

  /** The part of the state the trap and return logic works on. */
  datatype Stack = Stack(mie: bool, mpie: bool, mepc: int)

  function StackOf(s: State): Stack {
    Stack(s.trap.mie, s.trap.mpie, s.trap.mepc)
  }

  lemma HandlerCycle(c: Config, s: State, i: Input)
    requires InHandler(i)
    ensures StackOf(Step(c, s, i)) == StackOf(s)
  {
  }

  /** Section 3.1.6.1 of the RISC-V Privileged Architecture, one trap: the enable bit moves to mpie and
      is cleared, whatever CSR write falls into the same cycle. */
  lemma TrapCycle(c: Config, s: State, i: Input)
    requires TakesTrap(i)
    ensures Step(c, s, i).trap == Trap(false, s.trap.mie, ExceptionPc(i), i.cause)
    ensures i.write == NoWrite ==> Step(c, s, i).debug == s.debug
    ensures StackOf(Step(c, s, i)) == Stack(false, s.trap.mie, ExceptionPc(i))
  {
  }

  /** One mret: mpie moves back and is set. */
  lemma ReturnCycle(c: Config, s: State, i: Input)
    requires Returns(i) && !i.write.Mepc?
    ensures StackOf(Step(c, s, i)) == Stack(s.trap.mpie, true, s.trap.mepc)
  {
  }

  lemma {:induction false} HandlerKeeps(c: Config, s: State, ins: seq<Input>)
    requires AllInHandler(ins)
    ensures StackOf(Run(c, s, ins)) == StackOf(s)
    decreases |ins|
  {
    if ins != [] {
      assert InHandler(ins[0]);
      HandlerCycle(c, s, ins[0]);
      HandlerKeeps(c, Step(c, s, ins[0]), ins[1..]);
    }
  }

  // ----------------------------------------------------------------------- nested traps

  /** A handler that may be interrupted: around the part that runs with interrupts enabled it keeps
      mstatus and mepc aside and puts both back. */
  datatype Handler =
    | Plain(cycles: seq<Input>)
    | Interrupted(first: Handler, trap: Input, inner: Handler, mret: Input, second: Handler)
    | Reentrant(open: Input, inside: Handler, putStatus: Input, putMepc: Input)

  /** A CSR write to mstatus with these enable bits, and no trap or return with it. */
  predicate PutsStatus(i: Input, mie: bool, mpie: bool) {
    i.write.Mstatus? && i.write.mie == mie && i.write.mpie == mpie && !i.saveCause && !i.restoreMret
  }

  predicate PutsMepc(i: Input, v: int) {
    i.write == Mepc(v) && !i.saveCause && !i.restoreMret
  }

  function After(c: Config, s: State, h: Handler): State
    decreases h
  {
    match h
    case Plain(cycles) => Run(c, s, cycles)
    case Interrupted(first, trap, inner, mret, second) =>
      After(c, Step(c, After(c, Step(c, After(c, s, first), trap), inner), mret), second)
    case Reentrant(open, inside, putStatus, putMepc) =>
      Step(c, Step(c, After(c, Step(c, s, open), inside), putStatus), putMepc)
  }

  /** The shape holds in the state the handler starts from: interrupts come only while enabled. */
  predicate WellFormed(c: Config, s: State, h: Handler)
    decreases h
  {
    match h
    case Plain(cycles) => AllInHandler(cycles)
    case Interrupted(first, trap, inner, mret, second) =>
      var a := After(c, s, first);
      var b := Step(c, a, trap);
      && WellFormed(c, s, first) && a.trap.mie
      && TakesTrap(trap) && WellFormed(c, b, inner)
      && Returns(mret) && !mret.write.Mepc?
      && WellFormed(c, Step(c, After(c, b, inner), mret), second)
    case Reentrant(open, inside, putStatus, putMepc) =>
      && PutsStatus(open, true, s.trap.mpie) && WellFormed(c, Step(c, s, open), inside)
      && PutsStatus(putStatus, s.trap.mie, s.trap.mpie) && PutsMepc(putMepc, s.trap.mepc) && s.trap.mepc % 2 == 0
  }

  lemma PutStatusCycle(c: Config, s: State, i: Input, mie: bool, mpie: bool)
    requires PutsStatus(i, mie, mpie)
    ensures StackOf(Step(c, s, i)) == Stack(mie, mpie, s.trap.mepc)
  {
  }

  lemma PutMepcCycle(c: Config, s: State, i: Input, v: int)
    requires PutsMepc(i, v) && v % 2 == 0
    ensures StackOf(Step(c, s, i)) == Stack(s.trap.mie, s.trap.mpie, v)
  {
  }

  /** However deeply traps nest, a handler leaves the enable bit as it found it, and one entered with
      interrupts disabled also leaves mpie and mepc. */
  lemma {:induction false} HandlersCompose(c: Config, s: State, h: Handler)
    requires WellFormed(c, s, h)
    ensures After(c, s, h).trap.mie == s.trap.mie
    ensures !s.trap.mie ==> StackOf(After(c, s, h)) == StackOf(s)
    decreases h
  {
    match h {
      case Plain(cycles) =>
        HandlerKeeps(c, s, cycles);
      case Interrupted(first, trap, inner, mret, second) =>
        HandlersCompose(c, s, first);
        var a := After(c, s, first);
        TrapCycle(c, a, trap);
        HandlersCompose(c, Step(c, a, trap), inner);
        var b := After(c, Step(c, a, trap), inner);
        ReturnCycle(c, b, mret);
        HandlersCompose(c, Step(c, b, mret), second);
      case Reentrant(open, inside, putStatus, putMepc) =>
        PutStatusCycle(c, s, open, true, s.trap.mpie);
        HandlersCompose(c, Step(c, s, open), inside);
        var a := After(c, Step(c, s, open), inside);
        PutStatusCycle(c, a, putStatus, s.trap.mie, s.trap.mpie);
        PutMepcCycle(c, Step(c, a, putStatus), putMepc, s.trap.mepc);
    }
  }

  /** Over whole runs: interrupts are disabled when the handler ends, and its mret restores the enable
      bit from before the trap with mepc still the trapped pc, through any number of cycles, debug
      entries and properly nested traps. */
  lemma TrapAndReturn(c: Config, before: State, trap: Input, h: Handler, mret: Input)
    requires TakesTrap(trap) && WellFormed(c, Step(c, before, trap), h)
    requires Returns(mret) && !mret.write.Mepc?
    ensures var end := After(c, Step(c, before, trap), h);
            && !end.trap.mie && end.trap.mepc == ExceptionPc(trap)
            && StackOf(Step(c, end, mret)) == Stack(before.trap.mie, true, ExceptionPc(trap))
  {
    TrapCycle(c, before, trap);
    HandlersCompose(c, Step(c, before, trap), h);
    ReturnCycle(c, After(c, Step(c, before, trap), h), mret);
  }

  /** A debug entry saves its own pc and cause and leaves the trap state alone. */
  lemma DebugEntryLeavesTrapState(c: Config, s: State, i: Input)
    requires i.saveCause && i.debugSave && i.write == NoWrite
    ensures var t := Step(c, s, i);
            t.debug.dpc == ExceptionPc(i) && t.debug.cause == i.debugCause
            && StackOf(t) == StackOf(s) && t.trap.mcause == s.trap.mcause
  {
  }

  // ---------------------------------------------------------------- floating-point status

  /** Flags accrued over a run. */
  function Raised(ins: seq<Input>): set<nat>
    decreases |ins|
  {
    if ins == [] then {} else (if ins[0].fflagsWe then ins[0].fflags else {}) + Raised(ins[1..])
  }

  /** The cycle changes floating-point state and no mstatus write of the same cycle hides it. */
  predicate Touches(i: Input) {
    i.fflagsWe || WritesFcsr(i.write) || (i.fregsWe && !(i.write.Mstatus? && i.write.fs != Dirty))
  }

  /** Flags are sticky: without a CSR write to them they are the union of all raised. */
  lemma {:induction false} FlagsAccumulate(c: Config, s: State, ins: seq<Input>)
    requires c.fpu && forall k :: 0 <= k < |ins| ==> !ins[k].write.Fflags? && !ins[k].write.Fcsr?
    ensures Run(c, s, ins).fp.fflags == s.fp.fflags + Raised(ins)
    decreases |ins|
  {
    if ins != [] {
      FlagsAccumulate(c, Step(c, s, ins[0]), ins[1..]);
    }
  }

  /** Once floating-point state changed, the status reads dirty until an mstatus write. */
  lemma {:induction false} DirtyUntilWritten(c: Config, s: State, ins: seq<Input>, k: nat)
    requires c.HasFs() && k < |ins| && Touches(ins[k])
    requires forall j :: k < j < |ins| ==> !ins[j].write.Mstatus?
    ensures Run(c, s, ins).fp.fs == Dirty
    decreases |ins|
  {
    if k > 0 {
      DirtyUntilWritten(c, Step(c, s, ins[0]), ins[1..], k - 1);
    } else {
      StaysDirty(c, Step(c, s, ins[0]), ins[1..]);
    }
  }

  lemma {:induction false} StaysDirty(c: Config, s: State, ins: seq<Input>)
    requires c.HasFs() && s.fp.fs == Dirty && forall j :: 0 <= j < |ins| ==> !ins[j].write.Mstatus?
    ensures Run(c, s, ins).fp.fs == Dirty
    decreases |ins|
  {
    if ins != [] {
      StaysDirty(c, Step(c, s, ins[0]), ins[1..]);
    }
  }

  // ------------------------------------------------------------------------- last writes

  lemma {:induction false} RunSplit(c: Config, s: State, ins: seq<Input>, k: nat)
    requires k < |ins|
    ensures Run(c, s, ins) == Run(c, Step(c, Run(c, s, ins[..k]), ins[k]), ins[k + 1..])
    decreases k
  {
    if k > 0 {
      RunSplit(c, Step(c, s, ins[0]), ins[1..], k - 1);
      assert ins[..k][1..] == ins[1..][..k - 1] && ins[k + 1..] == ins[1..][k..];
    }
  }

  /** Without a write to it, dcsr keeps what is writable in it, and frm and FS keep their values. */
  lemma {:induction false} Unwritten(c: Config, s: State, ins: seq<Input>)
    ensures var t := Run(c, s, ins);
            && ((forall j :: 0 <= j < |ins| ==> !ins[j].write.Dcsr?) ==>
                  && t.debug.ebreakm == s.debug.ebreakm && t.debug.stepie == s.debug.stepie
                  && t.debug.step == s.debug.step)
            && ((forall j :: 0 <= j < |ins| ==> !ins[j].write.Frm? && !ins[j].write.Fcsr?) ==> t.fp.frm == s.fp.frm)
            && ((forall j :: 0 <= j < |ins| ==>
                   !ins[j].write.Mstatus? && !ins[j].write.Fflags? && !ins[j].write.Frm? && !ins[j].write.Fcsr?
                   && !ins[j].fflagsWe && !ins[j].fregsWe) ==> t.fp.fs == s.fp.fs)
    decreases |ins|
  {
    if ins != [] {
      Unwritten(c, Step(c, s, ins[0]), ins[1..]);
      assert forall j :: 1 <= j < |ins| ==> ins[1..][j - 1] == ins[j];
      assert forall j :: 0 <= j < |ins| - 1 ==> ins[1..][j] == ins[j + 1];
    }
  }

  /** A CSR write lands where it should, with bit 0 of an address dropped, unless a trap, return or debug entry of
      the same cycle overrides it. */
  lemma WriteLands(c: Config, s: State, i: Input)
    requires !i.saveCause && !i.restoreMret
    ensures var t, d, u, e := s.trap, s.debug, Step(c, s, i).trap, Step(c, s, i).debug;
            match i.write
            case Mstatus(mie, mpie, _) => u == t.(mie := mie, mpie := mpie) && e == d
            case Mepc(v) => u == t.(mepc := u.mepc) && v - 1 <= u.mepc <= v && u.mepc % 2 == 0 && e == d
            case Mcause(v) => u == t.(mcause := v) && e == d
            case Dpc(v) => e == d.(dpc := e.dpc) && v - 1 <= e.dpc <= v && e.dpc % 2 == 0 && u == t
            case Dcsr(ebreakm, stepie, step) => e == d.(ebreakm := ebreakm, stepie := stepie, step := step) && u == t
            case _ => u == t && e == d
  {
  }

  /** The debugger's settings are those of the last write to dcsr; no debug entry changes them. */
  lemma DcsrIsLastWrite(c: Config, s: State, ins: seq<Input>, k: nat)
    requires k < |ins| && ins[k].write.Dcsr? && forall j :: k < j < |ins| ==> !ins[j].write.Dcsr?
    ensures var d := Run(c, s, ins).debug;
            && d.ebreakm == ins[k].write.ebreakm && d.stepie == ins[k].write.stepie && d.step == ins[k].write.step
  {
    RunSplit(c, s, ins, k);
    Unwritten(c, Step(c, Run(c, s, ins[..k]), ins[k]), ins[k + 1..]);
  }

  /** What the configuration does not have does not change. */
  lemma {:induction false} AbsentStays(c: Config, s: State, ins: seq<Input>)
    ensures !c.fpu ==> Run(c, s, ins).fp == s.fp
    ensures !c.fpu || c.zfinx ==> Run(c, s, ins).fp.fs == s.fp.fs
    decreases |ins|
  {
    if ins != [] {
      AbsentStays(c, Step(c, s, ins[0]), ins[1..]);
    }
  }

  /** The rounding mode is that of the last write to frm or fcsr. */
  lemma FrmIsLastWrite(c: Config, s: State, ins: seq<Input>, k: nat)
    requires c.fpu && k < |ins| && (ins[k].write.Frm? || ins[k].write.Fcsr?)
    requires forall j :: k < j < |ins| ==> !ins[j].write.Frm? && !ins[j].write.Fcsr?
    ensures Run(c, s, ins).fp.frm == ins[k].write.frm
  {
    RunSplit(c, s, ins, k);
    Unwritten(c, Step(c, Run(c, s, ins[..k]), ins[k]), ins[k + 1..]);
  }

  /** The flags are those of the last write to them and all raised later; flags raised in the very cycle of the
      write are added to the old ones, and the write is lost. */
  lemma FlagsFromWrite(c: Config, s: State, ins: seq<Input>, k: nat)
    requires c.fpu && k < |ins| && (ins[k].write.Fflags? || ins[k].write.Fcsr?)
    requires forall j :: k < j < |ins| ==> !ins[j].write.Fflags? && !ins[j].write.Fcsr?
    ensures Run(c, s, ins).fp.fflags
         == (if ins[k].fflagsWe then ins[k].fflags + Run(c, s, ins[..k]).fp.fflags else ins[k].write.flags)
            + Raised(ins[k + 1..])
  {
    RunSplit(c, s, ins, k);
    FlagsAccumulate(c, Step(c, Run(c, s, ins[..k]), ins[k]), ins[k + 1..]);
  }

  /** FS is what the last mstatus write made it, if nothing touched floating-point state in that cycle or later. */
  lemma FsIsLastWrite(c: Config, s: State, ins: seq<Input>, k: nat)
    requires c.HasFs() && k < |ins| && ins[k].write.Mstatus? && !ins[k].fflagsWe
    requires ins[k].fregsWe ==> ins[k].write.fs != Dirty
    requires forall j :: k < j < |ins| ==>
               !ins[j].write.Mstatus? && !ins[j].write.Fflags? && !ins[j].write.Frm? && !ins[j].write.Fcsr?
               && !ins[j].fflagsWe && !ins[j].fregsWe
    ensures Run(c, s, ins).fp.fs == ins[k].write.fs
  {
    RunSplit(c, s, ins, k);
    Unwritten(c, Step(c, Run(c, s, ins[..k]), ins[k]), ins[k + 1..]);
  }

  // -------------------------------------------------------------------- the registers

  class Registers {
    const config: Config
    var trap: Trap
    var debug: Debug
    var fp: Fp

    function Value(): State
      reads this
    {
      State(trap, debug, fp)
    }

    constructor (config: Config)
      ensures this.config == config && Value() == RESET
    {
      this.config := config;
      trap, debug, fp := RESET.trap, RESET.debug, RESET.fp;
    }

    /** One rising clock edge: the CSR write, then accrual and the exception controller over it. */
    method Clock(i: Input)
      modifies this
      ensures Value() == Step(config, old(Value()), i)
    {
      var was := trap;
      match i.write {
        case Mstatus(mie, mpie, fs) => trap := trap.(mie := mie, mpie := mpie);
        case Mepc(v) => trap := trap.(mepc := Even(v));
        case Mcause(v) => trap := trap.(mcause := v);
        case Dpc(v) => debug := debug.(dpc := Even(v));
        case Dcsr(e, t, p) => debug := debug.(ebreakm := e, stepie := t, step := p);
        case _ =>
      }
      fp := NextFp(config, fp, i);
      if i.saveCause {
        if i.debugSave {
          debug := debug.(dpc := ExceptionPc(i), cause := i.debugCause);
        } else {
          trap := Trap(false, was.mie, ExceptionPc(i), i.cause);
        }
      } else if i.restoreMret {
        trap := trap.(mie := was.mpie, mpie := true);
      }
    }
  }
}
