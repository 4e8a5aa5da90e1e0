/** The controller of rtl/cv32e40p_controller.sv with COREV_CLUSTER = 0 and no memory protection:
    state, combinational outputs, and the registers. `pulp` is COREV_PULP. */
module Controller {

  datatype Fsm =
    | Reset | BootSet | WaitSleep | Sleep | FirstFetch | Decode | DecodeHwloop | FlushEx | FlushWb
    | XretJump | DbgTakenId | DbgTakenIf | DbgFlush | DbgWaitBranch

  datatype DebugFsm = HaveReset | Running | Halted

  datatype State = State(
    fsm: Fsm, jumpDone: bool, debugMode: bool, illegal: bool, debugReqEntry: bool,
    debugForceWakeup: bool, debugReqQ: bool, debugFsm: DebugFsm, hwlpEnd4: bool)

  const RESET := State(Reset, false, false, false, false, false, false, HaveReset, false)

  /** Signals from the decoder about the instruction in ID. */
  datatype Decoded = Decoded(
    illegal: bool, jump: bool, branch: bool, ebreak: bool, ecall: bool, wfi: bool, fencei: bool,
    mret: bool, uret: bool, dret: bool, csrStatus: bool)

  const PLAIN := Decoded(false, false, false, false, false, false, false, false, false, false, false)

  /** One hardware loop: [start, end) runs `count` more times. */
  datatype Loop = Loop(start: int, end: int, count: nat)

  datatype Input = Input(
    gated: bool, fetchEnable: bool, instrValid: bool, idReady: bool, exValid: bool, branchTaken: bool,
    irqReq: bool, irqId: nat, irqWakeup: bool, debugReq: bool, trigger: bool, singleStep: bool, ebreakForced: bool,
    jrStall: bool, insn: Decoded, mretDec: bool, uretDec: bool, dretDec: bool,
    pc: int, loop0: Loop, loop1: Loop)

  datatype PcMux = PcBoot | PcJump | PcBranch | PcException | PcMret | PcUret | PcDret | PcFencei | PcHwloop

  datatype Vector = VecException | VecIrq | VecDebug | VecDebugException

  datatype Cause = CauseEbreak | CauseTrigger | CauseHaltReq | CauseStep

  /** pc_set_o with its selectors. */
  datatype Redirect = NoRedirect | Redirect(mux: PcMux, vector: Vector)

  /** Requests to the CSR unit. */
  datatype Save = NoSave | SaveIf | SaveId

  datatype CsrRequest = CsrRequest(
    save: Save, saveCause: bool, debugSave: bool, debugCause: Cause, restoreMret: bool, restoreDret: bool)

  // ---------------------------------------------------------------- loop comparators

  predicate AtEnd(pulp: bool, l: Loop, pc: int) {
    pulp && l.end == pc + 4
  }

  predicate BeforeEnd(pulp: bool, l: Loop, pc: int) {
    pulp && l.end == pc + 8
  }

  predicate Inside(l: Loop, pc: int) {
    l.start <= pc && l.end >= pc + 4
  }

  predicate InBody(pulp: bool, i: Input) {
    pulp && ((Inside(i.loop0, i.pc) && i.loop0.count > 1) || (Inside(i.loop1, i.pc) && i.loop1.count > 1))
  }

  predicate Pending(s: State, i: Input) {
    i.debugReq || s.debugReqQ
  }

  predicate WfiActive(s: State, i: Input) {
    i.insn.wfi && !(s.debugMode || Pending(s, i) || i.singleStep || i.trigger)
  }

  // ------------------------------------------------------------- the instruction in ID

  predicate ServesDebug(s: State, i: Input) {
    (Pending(s, i) || i.trigger) && !s.debugMode
  }

  predicate TakesIrq(s: State, i: Input) {
    !ServesDebug(s, i) && i.irqReq && !s.debugMode
  }

  predicate Stepping(s: State, i: Input) {
    i.singleStep && !s.debugMode
  }

  /** What the decoding block makes of the instruction, in priority order. */
  datatype Kind = Illegal | Jump | Break | Flush | Status | Plain

  function KindOf(s: State, i: Input): Kind {
    var n := i.insn;
    if n.illegal then Illegal
    else if s.fsm == Decode && n.jump then Jump
    else if n.ebreak then Break
    else if n.ecall then Flush
    else if s.fsm == Decode && (WfiActive(s, i) || n.fencei || n.mret || n.uret || n.dret) then Flush
    else if n.csrStatus then Status
    else Plain
  }

  /** The controller looks at a valid instruction: a taken branch in EX has precedence in DECODE, and
      DECODE_HWLOOP only works with the extension. */
  predicate Looks(pulp: bool, s: State, i: Input) {
    i.instrValid && ((s.fsm == Decode && !i.branchTaken) || (s.fsm == DecodeHwloop && pulp))
  }

  /** It goes on to execute the instruction rather than serve debug or an interrupt. */
  predicate Executes(pulp: bool, s: State, i: Input) {
    Looks(pulp, s, i) && !ServesDebug(s, i) && !TakesIrq(s, i)
  }

  // ------------------------------------------------------------------------- next state

  /** A plain instruction in DECODE enters the loop state inside a body, but not from the last but one. */
  function LoopEntry(pulp: bool, i: Input): Fsm {
    if !InBody(pulp, i) || BeforeEnd(pulp, i.loop0, i.pc) || BeforeEnd(pulp, i.loop1, i.pc)
    then Decode else DecodeHwloop
  }

  /** A plain instruction in DECODE_HWLOOP leaves the loop state one before an end it will not repeat. */
  function LoopExit(i: Input): Fsm {
    var leave := if InBody(true, i) then DecodeHwloop else Decode;
    if BeforeEnd(true, i.loop0, i.pc) then (if i.loop0.count > 1 then DecodeHwloop else leave)
    else if BeforeEnd(true, i.loop1, i.pc) then (if i.loop1.count > 1 then DecodeHwloop else leave)
    else DecodeHwloop
  }

  function AfterInsn(pulp: bool, s: State, i: Input): Fsm {
    var flush := if i.idReady then FlushEx else s.fsm;
    match KindOf(s, i)
    case Illegal => if s.fsm == Decode then flush else FlushEx
    case Jump => Decode
    case Break => if s.debugMode || i.ebreakForced then DbgFlush else flush
    case Flush => flush
    case Status => flush
    case Plain => if s.fsm == Decode then LoopEntry(pulp, i) else LoopExit(i)
  }

  /** Where single stepping sends a finished instruction. */
  function StepTarget(i: Input): Fsm {
    var n := i.insn;
    if n.illegal || n.ecall || (!i.ebreakForced && n.ebreak) || n.mret || n.uret then FlushEx
    else if n.branch then DbgWaitBranch
    else DbgFlush
  }

  function Decoding(pulp: bool, s: State, i: Input): Fsm {
    if !Looks(pulp, s, i) then s.fsm
    else if ServesDebug(s, i) then DbgFlush
    else if TakesIrq(s, i) then Decode
    else if Stepping(s, i) && i.idReady then StepTarget(i)
    else AfterInsn(pulp, s, i)
  }

  function AfterFlush(s: State, i: Input): Fsm {
    var n := i.insn;
    if s.illegal || n.ebreak || n.ecall then (if Stepping(s, i) then DbgTakenIf else Decode)
    else if n.mret || n.uret || n.dret then XretJump
    else if !n.csrStatus && n.wfi then (if Pending(s, i) then DbgTakenIf else WaitSleep)
    else Decode
  }

  function NextFsm(pulp: bool, s: State, i: Input): Fsm {
    match s.fsm
    case Reset => if i.fetchEnable then BootSet else Reset
    case BootSet => if Pending(s, i) then DbgTakenIf else FirstFetch
    case WaitSleep => Sleep
    case Sleep =>
      if !(i.irqWakeup || Pending(s, i) || s.debugMode) then Sleep
      else if Pending(s, i) then DbgTakenIf else FirstFetch
    case FirstFetch => Decode
    case Decode => Decoding(pulp, s, i)
    case DecodeHwloop => Decoding(pulp, s, i)
    case FlushEx => if i.exValid then FlushWb else FlushEx
    case FlushWb => AfterFlush(s, i)
    case XretJump => if Stepping(s, i) then DbgTakenIf else Decode
    case DbgWaitBranch => DbgFlush
    case DbgTakenId => Decode
    case DbgTakenIf => Decode
    case DbgFlush =>
      if s.debugMode || i.trigger || (i.ebreakForced && i.insn.ebreak) || s.debugReqEntry
      then DbgTakenId else DbgTakenIf
  }

  // ----------------------------------------------------------------------- stall outputs

  predicate IsDecoding(pulp: bool, s: State, i: Input) {
    Looks(pulp, s, i) && (if ServesDebug(s, i) then !pulp else !TakesIrq(s, i))
  }

  predicate HaltIf(pulp: bool, s: State, i: Input) {
    if s.fsm == Decode || s.fsm == DecodeHwloop then
      Looks(pulp, s, i) &&
      (!Executes(pulp, s, i) || Stepping(s, i) || (KindOf(s, i) != Jump && KindOf(s, i) != Plain))
    else if s.fsm == FirstFetch then i.irqReq && !(Pending(s, i) || s.debugMode)
    else s.fsm in {WaitSleep, Sleep, FlushEx, FlushWb, DbgWaitBranch, DbgFlush}
  }

  predicate HaltId(pulp: bool, s: State, i: Input) {
    if s.fsm == Decode then Looks(pulp, s, i) && !Executes(pulp, s, i)
    else if s.fsm == DecodeHwloop then Looks(pulp, s, i) && (!Executes(pulp, s, i) || KindOf(s, i) == Illegal)
    else if s.fsm == FirstFetch then i.irqReq && !(Pending(s, i) || s.debugMode)
    else s.fsm in {WaitSleep, Sleep, FlushEx, FlushWb, DbgFlush}
  }

  // ------------------------------------------------------------------------ loop outputs

  /** A plain instruction at an end that repeats, met in DECODE. */
  predicate JumpsBack(pulp: bool, s: State, i: Input, l: Loop) {
    && s.fsm == Decode && Executes(pulp, s, i) && KindOf(s, i) == Plain
    && InBody(pulp, i) && AtEnd(pulp, l, i.pc) && l.count > 1
  }

  predicate DecCount(pulp: bool, s: State, i: Input, l: Loop) {
    && Executes(pulp, s, i) && AtEnd(pulp, l, i.pc)
    && (match KindOf(s, i)
        case Status => i.idReady
        case Plain =>
          if s.fsm == Decode then l.count == 1 || (JumpsBack(pulp, s, i, l) && !s.jumpDone) else l.count != 0
        case _ => false)
  }

  /** One before an end that repeats, in DECODE_HWLOOP. */
  predicate Announces(pulp: bool, s: State, i: Input, l: Loop) {
    && s.fsm == DecodeHwloop && Executes(pulp, s, i) && KindOf(s, i) == Plain
    && BeforeEnd(pulp, l, i.pc) && l.count > 1
  }

  predicate HwlpEnd4(pulp: bool, s: State, i: Input) {
    Announces(pulp, s, i, i.loop0) || Announces(pulp, s, i, i.loop1)
  }

  /** hwlp_jump_o, a pulse of one cycle. */
  predicate HwlpJump(pulp: bool, s: State, i: Input) {
    HwlpEnd4(pulp, s, i) && !s.hwlpEnd4
  }

  function HwlpTarget(pulp: bool, s: State, i: Input): int {
    if Announces(pulp, s, i, i.loop0) then i.loop0.start
    else if Announces(pulp, s, i, i.loop1) then i.loop1.start
    else if Inside(i.loop1, i.pc) && !Inside(i.loop0, i.pc) then i.loop1.start
    else i.loop0.start
  }

  // -------------------------------------------------------------------- redirect outputs

  predicate JumpGoes(pulp: bool, s: State, i: Input) {
    Executes(pulp, s, i) && KindOf(s, i) == Jump && !i.jrStall && !s.jumpDone
  }

  predicate LoopJumpGoes(pulp: bool, s: State, i: Input) {
    (JumpsBack(pulp, s, i, i.loop0) || JumpsBack(pulp, s, i, i.loop1)) && !s.jumpDone
  }

  function AfterFlushRedirect(pulp: bool, s: State, i: Input): Redirect {
    var n := i.insn;
    var vector := if s.debugMode then VecDebugException else VecException;
    if s.illegal then Redirect(PcException, vector)
    else if n.ebreak then Redirect(PcException, VecException)
    else if n.ecall then Redirect(PcException, vector)
    else if n.mret || n.uret || n.dret then NoRedirect
    else if n.csrStatus then
      if (AtEnd(pulp, i.loop0, i.pc) && i.loop0.count != 0) || (AtEnd(pulp, i.loop1, i.pc) && i.loop1.count != 0)
      then Redirect(PcHwloop, VecIrq) else NoRedirect
    else if n.wfi then NoRedirect
    else if n.fencei then Redirect(PcFencei, VecIrq)
    else NoRedirect
  }

  function RedirectOf(pulp: bool, s: State, i: Input): Redirect {
    match s.fsm
    case BootSet => Redirect(PcBoot, VecIrq)
    case FirstFetch =>
      if i.irqReq && !(Pending(s, i) || s.debugMode) then Redirect(PcException, VecIrq) else NoRedirect
    case FlushWb => AfterFlushRedirect(pulp, s, i)
    case XretJump =>
      if i.mretDec || i.uretDec then
        Redirect(if s.debugMode then PcException else if i.mretDec then PcMret else PcUret, VecDebugException)
      else if i.dretDec then Redirect(PcDret, VecIrq) else NoRedirect
    case DbgWaitBranch => if i.branchTaken then Redirect(PcBranch, VecIrq) else NoRedirect
    case DbgTakenId => Redirect(PcException, VecDebug)
    case DbgTakenIf => Redirect(PcException, VecDebug)
    case _ =>
      if s.fsm == Decode && i.branchTaken then Redirect(PcBranch, VecIrq)
      else if Looks(pulp, s, i) && TakesIrq(s, i) then Redirect(PcException, VecIrq)
      else if JumpGoes(pulp, s, i) then Redirect(PcJump, VecIrq)
      else if LoopJumpGoes(pulp, s, i) then Redirect(PcHwloop, VecIrq)
      else NoRedirect
  }

  // ------------------------------------------------------------------------- CSR outputs

  const NO_REQUEST := CsrRequest(NoSave, false, false, CauseEbreak, false, false)

  function CsrOf(pulp: bool, s: State, i: Input): CsrRequest {
    var n := i.insn;
    match s.fsm
    case FirstFetch =>
      if i.irqReq && !(Pending(s, i) || s.debugMode) then NO_REQUEST.(save := SaveIf, saveCause := true)
      else NO_REQUEST
    case FlushEx =>
      if !i.exValid || !(s.illegal || n.ebreak || n.ecall) then NO_REQUEST
      else NO_REQUEST.(save := SaveId, saveCause := !s.debugMode || (!s.illegal && n.ebreak))
    case FlushWb =>
      if s.illegal || n.ebreak || n.ecall then NO_REQUEST
      else if n.mret then NO_REQUEST.(restoreMret := !s.debugMode)
      else if !n.uret && n.dret then NO_REQUEST.(restoreDret := true)
      else NO_REQUEST
    case DbgTakenId =>
      if s.debugMode then NO_REQUEST
      else CsrRequest(SaveId, true, true,
                      if i.trigger then CauseTrigger
                      else if i.ebreakForced && n.ebreak then CauseEbreak
                      else if s.debugReqEntry then CauseHaltReq else CauseEbreak, false, false)
    case DbgTakenIf =>
      CsrRequest(SaveIf, true, true,
                 if s.debugForceWakeup then CauseHaltReq else if i.singleStep then CauseStep else CauseEbreak,
                 false, false)
    case _ =>
      if Looks(pulp, s, i) && TakesIrq(s, i) then NO_REQUEST.(save := SaveId, saveCause := true) else NO_REQUEST
  }

  /** csr_cause_o: the interrupt bit above the five bits of the code. */
  function CauseOf(s: State, i: Input): nat {
    if s.fsm == FlushEx then
      if s.illegal then 2 else if i.insn.ebreak then 3 else if i.insn.ecall then 11 else 0
    else 32 + i.irqId
  }

  // --------------------------------------------------------------------------- registers

  predicate NextJumpDone(pulp: bool, s: State, i: Input) {
    (s.jumpDone || JumpGoes(pulp, s, i) || LoopJumpGoes(pulp, s, i)) && !i.idReady
  }

  predicate NextDebugMode(s: State, i: Input) {
    if s.fsm == DbgTakenId || s.fsm == DbgTakenIf then true
    else if s.fsm == XretJump && !i.mretDec && !i.uretDec && i.dretDec then false
    else s.debugMode
  }

  predicate NextIllegal(pulp: bool, s: State, i: Input) {
    if Executes(pulp, s, i) && i.insn.illegal then true
    else if s.fsm == Decode && Looks(pulp, s, i) then false
    else s.illegal && s.fsm != FlushWb
  }

  predicate NextReqEntry(pulp: bool, s: State, i: Input) {
    (Looks(pulp, s, i) && ServesDebug(s, i)) || (s.debugReqEntry && s.fsm != DbgTakenId)
  }

  predicate NextForceWakeup(s: State, i: Input) {
    || (Pending(s, i) && (s.fsm == BootSet || s.fsm == Sleep))
    || (Pending(s, i) && s.fsm == FlushWb && AfterFlush(s, i) == DbgTakenIf
        && !(s.illegal || i.insn.ebreak || i.insn.ecall))
    || (s.debugForceWakeup && s.fsm != DbgTakenIf)
  }

  function NextDebugFsm(pulp: bool, s: State, i: Input): DebugFsm {
    if NextDebugMode(s, i) then Halted
    else if s.debugFsm == HaveReset && NextFsm(pulp, s, i) != FirstFetch then HaveReset
    else Running
  }

  /** The sticky debug request runs on the ungated clock. */
  predicate NextDebugReq(s: State, i: Input) {
    i.debugReq || (s.debugReqQ && !s.debugMode)
  }

  function Step(pulp: bool, s: State, i: Input): State {
    if i.gated then s.(debugReqQ := NextDebugReq(s, i))
    else
      State(NextFsm(pulp, s, i), NextJumpDone(pulp, s, i), NextDebugMode(s, i), NextIllegal(pulp, s, i),
            NextReqEntry(pulp, s, i), NextForceWakeup(s, i), NextDebugReq(s, i), NextDebugFsm(pulp, s, i),
            HwlpEnd4(pulp, s, i))
  }

  /** The instruction in ID goes on to execute. */
  predicate Taken(pulp: bool, s: State, i: Input) {
    !i.gated && IsDecoding(pulp, s, i) && !HaltId(pulp, s, i) && i.idReady
  }

  // --------------------------------------------------------- a cycle as it looks from outside

  /** An instruction is in ID to be looked at: no taken branch is in EX. */
  predicate InDecode(pulp: bool, s: State, i: Input) {
    i.instrValid && ((s.fsm == Decode && !i.branchTaken) || (s.fsm == DecodeHwloop && pulp))
  }

  /** A debug request or a trigger match outside debug mode. */
  predicate Halting(s: State, i: Input) {
    (i.debugReq || s.debugReqQ || i.trigger) && !s.debugMode
  }

  /** Nothing but the instruction has to be served. */
  predicate Undisturbed(s: State, i: Input) {
    s.debugMode || !(i.debugReq || s.debugReqQ || i.trigger || i.irqReq)
  }

  /** The cycle in which the instruction leaves ID; an illegal one in DECODE_HWLOOP does not wait for EX. */
  predicate Leaves(pulp: bool, s: State, i: Input) {
    && !i.gated && InDecode(pulp, s, i) && Undisturbed(s, i)
    && (i.idReady || (s.fsm == DecodeHwloop && i.insn.illegal))
  }
}
