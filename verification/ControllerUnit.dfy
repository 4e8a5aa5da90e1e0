/** The controller written as the source writes it: one block over the states that sets the outputs step by
    step, and the registers. Every output is proved to be the function that specifies it. */
module ControllerUnit {
  import opened Controller

  /** The combinational outputs of a cycle, next-state values included. */
  datatype Wires = Wires(
    next: Fsm, jumpDone: bool, debugMode: bool, illegal: bool, debugReqEntry: bool, forceWakeup: bool, end4: bool,
    haltIf: bool, haltId: bool, isDecoding: bool, dec0: bool, dec1: bool, target: int,
    redirect: Redirect, csr: CsrRequest)

  /** Each output as its function says: the next-state values, */
  predicate NextSpecified(pulp: bool, s: State, i: Input, w: Wires) {
    && w.next == NextFsm(pulp, s, i)
    && w.jumpDone == (s.jumpDone || JumpGoes(pulp, s, i) || LoopJumpGoes(pulp, s, i))
    && w.debugMode == NextDebugMode(s, i) && w.illegal == NextIllegal(pulp, s, i)
    && w.debugReqEntry == NextReqEntry(pulp, s, i) && w.forceWakeup == NextForceWakeup(s, i)
    && w.end4 == HwlpEnd4(pulp, s, i)
  }

  /** and what goes to the other units. */
  predicate OutputsSpecified(pulp: bool, s: State, i: Input, w: Wires) {
    && w.haltIf == HaltIf(pulp, s, i) && w.haltId == HaltId(pulp, s, i)
    && w.isDecoding == IsDecoding(pulp, s, i) && w.dec0 == DecCount(pulp, s, i, i.loop0)
    && w.dec1 == DecCount(pulp, s, i, i.loop1) && w.target == HwlpTarget(pulp, s, i)
    && w.redirect == RedirectOf(pulp, s, i) && w.csr == CsrOf(pulp, s, i)
  }

  predicate Specified(pulp: bool, s: State, i: Input, w: Wires) {
    NextSpecified(pulp, s, i, w) && OutputsSpecified(pulp, s, i, w)
  }

  /** hwlp_targ_addr_o before the case over the states. */
  function DefaultTarget(i: Input): int {
    if Inside(i.loop1, i.pc) && !Inside(i.loop0, i.pc) then i.loop1.start else i.loop0.start
  }

  /** What the block sets before the case over the states. */
  function Defaults(s: State, i: Input): Wires {
    Wires(s.fsm, s.jumpDone, s.debugMode, s.illegal, s.debugReqEntry, s.debugForceWakeup, false,
          false, false, false, false, false, DefaultTarget(i), NoRedirect, NO_REQUEST)
  }

  predicate Idle(pulp: bool, s: State, i: Input) {
    s.fsm in {Decode, DecodeHwloop} && !Looks(pulp, s, i) && !(s.fsm == Decode && i.branchTaken)
  }

  lemma IdleNext(pulp: bool, s: State, i: Input)
    requires Idle(pulp, s, i)
    ensures NextSpecified(pulp, s, i, Defaults(s, i))
  {
  }

  lemma IdleOutputs(pulp: bool, s: State, i: Input)
    requires Idle(pulp, s, i)
    ensures OutputsSpecified(pulp, s, i, Defaults(s, i))
  {
  }

  lemma BranchNext(pulp: bool, s: State, i: Input)
    requires s.fsm == Decode && i.branchTaken
    ensures NextSpecified(pulp, s, i, Defaults(s, i).(redirect := Redirect(PcBranch, VecIrq)))
  {
  }

  lemma BranchOutputs(pulp: bool, s: State, i: Input)
    requires s.fsm == Decode && i.branchTaken
    ensures OutputsSpecified(pulp, s, i, Defaults(s, i).(redirect := Redirect(PcBranch, VecIrq)))
  {
  }

  /** Executing an instruction, given what the decoding block computes. */
  lemma ExecutedNext(pulp: bool, s: State, i: Input, w: Wires)
    requires Executes(pulp, s, i)
    requires w.next == (if Stepping(s, i) && i.idReady then StepTarget(i) else AfterInsn(pulp, s, i))
    requires w.jumpDone == (s.jumpDone || JumpGoes(pulp, s, i) || LoopJumpGoes(pulp, s, i))
    requires w.debugMode == s.debugMode && w.debugReqEntry == s.debugReqEntry && w.forceWakeup == s.debugForceWakeup
    requires w.illegal == (i.insn.illegal || (s.fsm == DecodeHwloop && s.illegal)) && w.end4 == HwlpEnd4(pulp, s, i)
    ensures NextSpecified(pulp, s, i, w)
  {
  }

  lemma ExecutedOutputs(pulp: bool, s: State, i: Input, w: Wires)
    requires Executes(pulp, s, i)
    requires w.haltIf == (Stepping(s, i) || (KindOf(s, i) != Jump && KindOf(s, i) != Plain))
    requires w.haltId == (s.fsm == DecodeHwloop && i.insn.illegal) && w.isDecoding
    requires w.dec0 == DecCount(pulp, s, i, i.loop0) && w.dec1 == DecCount(pulp, s, i, i.loop1)
    requires w.target == HwlpTarget(pulp, s, i) && w.csr == NO_REQUEST
    requires w.redirect == if JumpGoes(pulp, s, i) then Redirect(PcJump, VecIrq)
                           else if LoopJumpGoes(pulp, s, i) then Redirect(PcHwloop, VecIrq) else NoRedirect
    ensures OutputsSpecified(pulp, s, i, w)
  {
  }

  /** There are no loop jumps and pulses outside their states. */
  lemma DecodeHasNoPulse(pulp: bool, s: State, i: Input)
    requires s.fsm == Decode
    ensures !HwlpEnd4(pulp, s, i) && HwlpTarget(pulp, s, i) == DefaultTarget(i)
  {
  }

  lemma HwloopHasNoJump(pulp: bool, s: State, i: Input)
    requires s.fsm == DecodeHwloop
    ensures !JumpGoes(pulp, s, i) && !LoopJumpGoes(pulp, s, i)
  {
  }

  /** The outputs that differ between the states outside decoding. */
  datatype Away = Away(
    next: Fsm, debugMode: bool, forceWakeup: bool, haltIf: bool, haltId: bool, redirect: Redirect, csr: CsrRequest)

  predicate IsAway(f: Fsm) {
    f != Decode && f != DecodeHwloop
  }

  predicate AwaySpecified(pulp: bool, s: State, i: Input, a: Away) {
    && a.next == NextFsm(pulp, s, i) && a.debugMode == NextDebugMode(s, i)
    && a.forceWakeup == NextForceWakeup(s, i) && a.haltIf == HaltIf(pulp, s, i) && a.haltId == HaltId(pulp, s, i)
    && a.redirect == RedirectOf(pulp, s, i) && a.csr == CsrOf(pulp, s, i)
  }

  /** With the others as the block sets them by default, or as FLUSH_WB and DBG_TAKEN_ID clear them. */
  function AwayWires(s: State, i: Input, a: Away): Wires {
    Wires(a.next, s.jumpDone, a.debugMode, s.illegal && s.fsm != FlushWb, s.debugReqEntry && s.fsm != DbgTakenId,
          a.forceWakeup, false, a.haltIf, a.haltId, false, false, false, DefaultTarget(i), a.redirect, a.csr)
  }

  lemma AwayNext(pulp: bool, s: State, i: Input, a: Away)
    requires IsAway(s.fsm) && AwaySpecified(pulp, s, i, a)
    ensures NextSpecified(pulp, s, i, AwayWires(s, i, a))
  {
  }

  lemma AwayOutputs(pulp: bool, s: State, i: Input, a: Away)
    requires IsAway(s.fsm) && AwaySpecified(pulp, s, i, a)
    ensures OutputsSpecified(pulp, s, i, AwayWires(s, i, a))
  {
  }

  /** What the registers take from the wires. */
  function Latched(s: State, i: Input, w: Wires): State {
    State(w.next, w.jumpDone && !i.idReady, w.debugMode, w.illegal, w.debugReqEntry, w.forceWakeup, NextDebugReq(s, i),
          if w.debugMode then Halted
          else if s.debugFsm == HaveReset && w.next != FirstFetch then HaveReset else Running,
          w.end4)
  }

  lemma StepIsLatched(pulp: bool, s: State, i: Input, w: Wires)
    requires NextSpecified(pulp, s, i, w) && !i.gated
    ensures Step(pulp, s, i) == Latched(s, i, w)
  {
  }

  class Unit {
    const pulp: bool
    var fsm: Fsm
    var jumpDone: bool
    var debugMode: bool
    var illegal: bool
    var debugReqEntry: bool
    var debugForceWakeup: bool
    var debugReqQ: bool
    var debugFsm: DebugFsm
    var hwlpEnd4: bool

    function Registers(): State
      reads this
    {
      State(fsm, jumpDone, debugMode, illegal, debugReqEntry, debugForceWakeup, debugReqQ, debugFsm, hwlpEnd4)
    }

    constructor (pulp: bool)
      ensures this.pulp == pulp && Registers() == RESET
    {
      this.pulp := pulp;
      fsm, jumpDone, debugMode, illegal, debugReqEntry := Reset, false, false, false, false;
      debugForceWakeup, debugReqQ, debugFsm, hwlpEnd4 := false, false, HaveReset, false;
    }

    /** Where a stepped instruction goes. */
    method StepNext(i: Input) returns (next: Fsm)
      ensures next == StepTarget(i)
    {
      if i.insn.illegal || i.insn.ecall {
        next := FlushEx;
      } else if !i.ebreakForced && i.insn.ebreak {
        next := FlushEx;
      } else if i.insn.mret || i.insn.uret {
        next := FlushEx;
      } else if i.insn.branch {
        next := DbgWaitBranch;
      } else {
        next := DbgFlush;
      }
    }

    /** The default case of the decoding block in DECODE: a plain instruction, perhaps in a loop body. */
    method PlainInDecode(i: Input) returns (next: Fsm, jump: bool, dec0: bool, dec1: bool, redirect: Redirect)
      requires fsm == Decode && Executes(pulp, Registers(), i) && KindOf(Registers(), i) == Plain
      ensures next == LoopEntry(pulp, i) && jump == (jumpDone || LoopJumpGoes(pulp, Registers(), i))
      ensures dec0 == DecCount(pulp, Registers(), i, i.loop0) && dec1 == DecCount(pulp, Registers(), i, i.loop1)
      ensures redirect == if LoopJumpGoes(pulp, Registers(), i) then Redirect(PcHwloop, VecIrq) else NoRedirect
    {
      next, jump, dec0, dec1, redirect := Decode, jumpDone, false, false, NoRedirect;
      if InBody(pulp, i) {
        next := if BeforeEnd(pulp, i.loop0, i.pc) || BeforeEnd(pulp, i.loop1, i.pc) then Decode else DecodeHwloop;
        if AtEnd(pulp, i.loop0, i.pc) && i.loop0.count > 1 && !jumpDone {
          redirect, jump, dec0 := Redirect(PcHwloop, VecIrq), true, true;
        }
        if AtEnd(pulp, i.loop1, i.pc) && i.loop1.count > 1 && !jumpDone {
          redirect, jump, dec1 := Redirect(PcHwloop, VecIrq), true, true;
        }
      }
      if AtEnd(pulp, i.loop0, i.pc) && i.loop0.count == 1 {
        dec0 := true;
      }
      if AtEnd(pulp, i.loop1, i.pc) && i.loop1.count == 1 {
        dec1 := true;
      }
    }

    /** The decoding block in DECODE. */
    method InsnInDecode(i: Input)
      returns (next: Fsm, halt: bool, ill: bool, jump: bool, dec0: bool, dec1: bool, redirect: Redirect)
      requires fsm == Decode && Executes(pulp, Registers(), i)
      ensures next == AfterInsn(pulp, Registers(), i) && ill == i.insn.illegal
      ensures halt <==> KindOf(Registers(), i) != Jump && KindOf(Registers(), i) != Plain
      ensures jump == (jumpDone || JumpGoes(pulp, Registers(), i) || LoopJumpGoes(pulp, Registers(), i))
      ensures dec0 == DecCount(pulp, Registers(), i, i.loop0) && dec1 == DecCount(pulp, Registers(), i, i.loop1)
      ensures redirect == if JumpGoes(pulp, Registers(), i) then Redirect(PcJump, VecIrq)
                          else if LoopJumpGoes(pulp, Registers(), i) then Redirect(PcHwloop, VecIrq) else NoRedirect
    {
      var n := i.insn;
      var flush := if i.idReady then FlushEx else Decode;
      next, halt, ill, jump, dec0, dec1, redirect := Decode, false, false, jumpDone, false, false, NoRedirect;
      if n.illegal {
        halt, next, ill := true, flush, true;
      } else if n.jump {
        if !i.jrStall && !jumpDone {
          redirect, jump := Redirect(PcJump, VecIrq), true;
        }
      } else if n.ebreak {
        halt, next := true, if debugMode || i.ebreakForced then DbgFlush else flush;
      } else if WfiActive(Registers(), i) || n.ecall || n.fencei || n.mret || n.uret || n.dret {
        halt, next := true, flush;
      } else if n.csrStatus {
        halt, next := true, flush;
        if i.idReady {
          dec0, dec1 := AtEnd(pulp, i.loop0, i.pc), AtEnd(pulp, i.loop1, i.pc);
        }
      } else {
        next, jump, dec0, dec1, redirect := PlainInDecode(i);
      }
    }

    /** Serving debug, in either decode state. */
    method ServeDebug(i: Input) returns (w: Wires)
      requires Looks(pulp, Registers(), i) && ServesDebug(Registers(), i)
      ensures Specified(pulp, Registers(), i, w)
    {
      w := Wires(DbgFlush, jumpDone, debugMode, if fsm == Decode then false else illegal, true, debugForceWakeup, false,
                 true, true, !pulp, false, false, DefaultTarget(i), NoRedirect, NO_REQUEST);
    }

    /** Taking an interrupt, in either decode state. */
    method TakeInterrupt(i: Input) returns (w: Wires)
      requires Looks(pulp, Registers(), i) && TakesIrq(Registers(), i)
      ensures Specified(pulp, Registers(), i, w)
    {
      w := Wires(Decode, jumpDone, debugMode, if fsm == Decode then false else illegal, debugReqEntry,
                 debugForceWakeup, false, true, true, false, false, false, DefaultTarget(i),
                 Redirect(PcException, VecIrq), NO_REQUEST.(save := SaveId, saveCause := true));
    }

    method ExecuteInDecode(i: Input) returns (w: Wires)
      requires fsm == Decode && Executes(pulp, Registers(), i)
      ensures Specified(pulp, Registers(), i, w)
    {
      var next, halt, ill, jump, dec0, dec1, redirect := InsnInDecode(i);
      if i.singleStep && !debugMode {
        halt := true;
        if i.idReady {
          next := StepNext(i);
        }
      }
      w := Wires(next, jump, debugMode, ill, debugReqEntry, debugForceWakeup, false, halt, false, true, dec0, dec1,
                 DefaultTarget(i), redirect, NO_REQUEST);
      DecodeHasNoPulse(pulp, Registers(), i);
      ExecutedNext(pulp, Registers(), i, w);
      ExecutedOutputs(pulp, Registers(), i, w);
    }

    method InDecode(i: Input) returns (w: Wires)
      requires fsm == Decode
      ensures Specified(pulp, Registers(), i, w)
    {
      if i.branchTaken {
        w := Defaults(Registers(), i).(redirect := Redirect(PcBranch, VecIrq));
        BranchNext(pulp, Registers(), i);
        BranchOutputs(pulp, Registers(), i);
      } else if i.instrValid {
        if (i.debugReq || debugReqQ || i.trigger) && !debugMode {
          w := ServeDebug(i);
        } else if i.irqReq && !debugMode {
          w := TakeInterrupt(i);
        } else {
          w := ExecuteInDecode(i);
        }
      } else {
        w := Defaults(Registers(), i);
        IdleNext(pulp, Registers(), i);
        IdleOutputs(pulp, Registers(), i);
      }
    }

    /** The default case of the decoding block in DECODE_HWLOOP. */
    method PlainInHwloop(i: Input) returns (next: Fsm, end4: bool, target: int, dec0: bool, dec1: bool)
      requires fsm == DecodeHwloop && Executes(pulp, Registers(), i) && KindOf(Registers(), i) == Plain
      ensures next == LoopExit(i)
      ensures end4 == HwlpEnd4(pulp, Registers(), i) && target == HwlpTarget(pulp, Registers(), i)
      ensures dec0 == DecCount(pulp, Registers(), i, i.loop0) && dec1 == DecCount(pulp, Registers(), i, i.loop1)
    {
      next, end4, target := DecodeHwloop, false, DefaultTarget(i);
      if BeforeEnd(pulp, i.loop1, i.pc) {
        if i.loop1.count > 1 {
          end4, target := true, i.loop1.start;
        } else {
          next := if InBody(pulp, i) then DecodeHwloop else Decode;
        }
      }
      if BeforeEnd(pulp, i.loop0, i.pc) {
        if i.loop0.count > 1 {
          end4, target, next := true, i.loop0.start, DecodeHwloop;
        } else {
          next := if InBody(pulp, i) then DecodeHwloop else Decode;
        }
      }
      dec0 := AtEnd(pulp, i.loop0, i.pc) && i.loop0.count != 0;
      dec1 := AtEnd(pulp, i.loop1, i.pc) && i.loop1.count != 0;
    }

    /** The decoding block in DECODE_HWLOOP. */
    method InsnInHwloop(i: Input)
      returns (next: Fsm, halt: bool, end4: bool, target: int, dec0: bool, dec1: bool)
      requires fsm == DecodeHwloop && Executes(pulp, Registers(), i)
      ensures next == AfterInsn(pulp, Registers(), i) && (halt <==> KindOf(Registers(), i) != Plain)
      ensures end4 == HwlpEnd4(pulp, Registers(), i) && target == HwlpTarget(pulp, Registers(), i)
      ensures dec0 == DecCount(pulp, Registers(), i, i.loop0) && dec1 == DecCount(pulp, Registers(), i, i.loop1)
    {
      var n := i.insn;
      var flush := if i.idReady then FlushEx else DecodeHwloop;
      next, halt, end4, target, dec0, dec1 := DecodeHwloop, false, false, DefaultTarget(i), false, false;
      if n.illegal {
        halt, next := true, FlushEx;
      } else if n.ebreak {
        halt, next := true, if debugMode || i.ebreakForced then DbgFlush else flush;
      } else if n.ecall {
        halt, next := true, flush;
      } else if n.csrStatus {
        halt, next := true, flush;
        if i.idReady {
          dec0, dec1 := AtEnd(pulp, i.loop0, i.pc), AtEnd(pulp, i.loop1, i.pc);
        }
      } else {
        next, end4, target, dec0, dec1 := PlainInHwloop(i);
      }
    }

    method ExecuteInHwloop(i: Input) returns (w: Wires)
      requires fsm == DecodeHwloop && Executes(pulp, Registers(), i)
      ensures Specified(pulp, Registers(), i, w)
    {
      var next, halt, end4, target, dec0, dec1 := InsnInHwloop(i);
      if i.singleStep && !debugMode {
        halt := true;
        if i.idReady {
          next := StepNext(i);
        }
      }
      w := Wires(next, jumpDone, debugMode, if i.insn.illegal then true else illegal, debugReqEntry, debugForceWakeup,
                 end4, halt, i.insn.illegal, true, dec0, dec1, target, NoRedirect, NO_REQUEST);
      HwloopHasNoJump(pulp, Registers(), i);
      ExecutedNext(pulp, Registers(), i, w);
      ExecutedOutputs(pulp, Registers(), i, w);
    }

    method InDecodeHwloop(i: Input) returns (w: Wires)
      requires fsm == DecodeHwloop
      ensures Specified(pulp, Registers(), i, w)
    {
      if pulp && i.instrValid {
        if (i.debugReq || debugReqQ || i.trigger) && !debugMode {
          w := ServeDebug(i);
        } else if i.irqReq && !debugMode {
          w := TakeInterrupt(i);
        } else {
          w := ExecuteInHwloop(i);
        }
      } else {
        w := Defaults(Registers(), i);
        IdleNext(pulp, Registers(), i);
        IdleOutputs(pulp, Registers(), i);
      }
    }

    /** RESET, BOOT_SET, WAIT_SLEEP, SLEEP and FIRST_FETCH. */
    method InStart(i: Input) returns (a: Away)
      requires fsm in {Reset, BootSet, WaitSleep, Sleep, FirstFetch}
      ensures AwaySpecified(pulp, Registers(), i, a)
    {
      var pending := i.debugReq || debugReqQ;
      var next, wake, halt, redirect, csr := fsm, debugForceWakeup, false, NoRedirect, NO_REQUEST;
      if fsm == Reset {
        if i.fetchEnable {
          next := BootSet;
        }
      } else if fsm == BootSet {
        redirect := Redirect(PcBoot, VecIrq);
        if pending {
          next, wake := DbgTakenIf, true;
        } else {
          next := FirstFetch;
        }
      } else if fsm == WaitSleep {
        halt, next := true, Sleep;
      } else if fsm == Sleep {
        halt := true;
        if i.irqWakeup || pending || debugMode {
          if pending {
            next, wake := DbgTakenIf, true;
          } else {
            next := FirstFetch;
          }
        }
      } else {
        next := Decode;
        if i.irqReq && !(pending || debugMode) {
          halt, redirect := true, Redirect(PcException, VecIrq);
          csr := NO_REQUEST.(save := SaveIf, saveCause := true);
        }
      }
      a := Away(next, debugMode, wake, halt, halt, redirect, csr);
    }

    method InFlushEx(i: Input) returns (a: Away)
      requires fsm == FlushEx
      ensures AwaySpecified(pulp, Registers(), i, a)
    {
      var next, csr := FlushEx, NO_REQUEST;
      if i.exValid {
        next := FlushWb;
        if illegal {
          csr := NO_REQUEST.(save := SaveId, saveCause := !debugMode);
        } else if i.insn.ebreak {
          csr := NO_REQUEST.(save := SaveId, saveCause := true);
        } else if i.insn.ecall {
          csr := NO_REQUEST.(save := SaveId, saveCause := !debugMode);
        }
      }
      a := Away(next, debugMode, debugForceWakeup, true, true, NoRedirect, csr);
    }

    method AfterException(i: Input) returns (a: Away)
      requires fsm == FlushWb && (illegal || i.insn.ebreak || i.insn.ecall)
      ensures AwaySpecified(pulp, Registers(), i, a)
    {
      var next := Decode;
      var vector := if debugMode && (illegal || !i.insn.ebreak) then VecDebugException else VecException;
      if i.singleStep && !debugMode {
        next := DbgTakenIf;
      }
      a := Away(next, debugMode, debugForceWakeup, true, true, Redirect(PcException, vector), NO_REQUEST);
    }

    method AfterOther(i: Input) returns (a: Away)
      requires fsm == FlushWb && !illegal && !i.insn.ebreak && !i.insn.ecall
      ensures AwaySpecified(pulp, Registers(), i, a)
    {
      var n := i.insn;
      var next, redirect, csr, wake := Decode, NoRedirect, NO_REQUEST, debugForceWakeup;
      if n.mret {
        next, csr := XretJump, NO_REQUEST.(restoreMret := !debugMode);
      } else if n.uret {
        next := XretJump;
      } else if n.dret {
        next, csr := XretJump, NO_REQUEST.(restoreDret := true);
      } else if n.csrStatus {
        if (AtEnd(pulp, i.loop0, i.pc) && i.loop0.count != 0) || (AtEnd(pulp, i.loop1, i.pc) && i.loop1.count != 0) {
          redirect := Redirect(PcHwloop, VecIrq);
        }
      } else if n.wfi {
        if i.debugReq || debugReqQ {
          next, wake := DbgTakenIf, true;
        } else {
          next := WaitSleep;
        }
      } else if n.fencei {
        redirect := Redirect(PcFencei, VecIrq);
      }
      a := Away(next, debugMode, wake, true, true, redirect, csr);
    }

    method InFlushWb(i: Input) returns (a: Away)
      requires fsm == FlushWb
      ensures AwaySpecified(pulp, Registers(), i, a)
    {
      if illegal || i.insn.ebreak || i.insn.ecall {
        a := AfterException(i);
      } else {
        a := AfterOther(i);
      }
    }

    method InXretJump(i: Input) returns (a: Away)
      requires fsm == XretJump
      ensures AwaySpecified(pulp, Registers(), i, a)
    {
      var next, mode, redirect := Decode, debugMode, NoRedirect;
      if i.mretDec {
        redirect := Redirect(if debugMode then PcException else PcMret, VecDebugException);
      } else if i.uretDec {
        redirect := Redirect(if debugMode then PcException else PcUret, VecDebugException);
      } else if i.dretDec {
        redirect, mode := Redirect(PcDret, VecIrq), false;
      }
      if i.singleStep && !debugMode {
        next := DbgTakenIf;
      }
      a := Away(next, mode, debugForceWakeup, false, false, redirect, NO_REQUEST);
    }

    method InDbgWaitBranch(i: Input) returns (a: Away)
      requires fsm == DbgWaitBranch
      ensures AwaySpecified(pulp, Registers(), i, a)
    {
      var redirect := NoRedirect;
      if i.branchTaken {
        redirect := Redirect(PcBranch, VecIrq);
      }
      a := Away(DbgFlush, debugMode, debugForceWakeup, true, false, redirect, NO_REQUEST);
    }

    method InDbgFlush(i: Input) returns (a: Away)
      requires fsm == DbgFlush
      ensures AwaySpecified(pulp, Registers(), i, a)
    {
      var next := DbgTakenIf;
      if debugMode || i.trigger || (i.ebreakForced && i.insn.ebreak) || debugReqEntry {
        next := DbgTakenId;
      }
      a := Away(next, debugMode, debugForceWakeup, true, true, NoRedirect, NO_REQUEST);
    }

    method InDbgTakenId(i: Input) returns (a: Away)
      requires fsm == DbgTakenId
      ensures AwaySpecified(pulp, Registers(), i, a)
    {
      var csr := NO_REQUEST;
      if !debugMode {
        var cause := CauseEbreak;
        if i.trigger {
          cause := CauseTrigger;
        } else if i.ebreakForced && i.insn.ebreak {
          cause := CauseEbreak;
        } else if debugReqEntry {
          cause := CauseHaltReq;
        }
        csr := CsrRequest(SaveId, true, true, cause, false, false);
      }
      a := Away(Decode, true, debugForceWakeup, false, false, Redirect(PcException, VecDebug), csr);
    }

    method InDbgTakenIf(i: Input) returns (a: Away)
      requires fsm == DbgTakenIf
      ensures AwaySpecified(pulp, Registers(), i, a)
    {
      var cause := CauseEbreak;
      if debugForceWakeup {
        cause := CauseHaltReq;
      } else if i.singleStep {
        cause := CauseStep;
      }
      a := Away(Decode, true, false, false, false, Redirect(PcException, VecDebug),
                CsrRequest(SaveIf, true, true, cause, false, false));
    }

    method InOtherState(i: Input) returns (w: Wires)
      requires IsAway(fsm)
      ensures Specified(pulp, Registers(), i, w)
    {
      var a: Away;
      match fsm {
        case FlushEx => a := InFlushEx(i);
        case FlushWb => a := InFlushWb(i);
        case XretJump => a := InXretJump(i);
        case DbgWaitBranch => a := InDbgWaitBranch(i);
        case DbgFlush => a := InDbgFlush(i);
        case DbgTakenId => a := InDbgTakenId(i);
        case DbgTakenIf => a := InDbgTakenIf(i);
        case _ => a := InStart(i);
      }
      w := AwayWires(Registers(), i, a);
      AwayNext(pulp, Registers(), i, a);
      AwayOutputs(pulp, Registers(), i, a);
    }

    /** The case over the states. */
    method Combinational(i: Input) returns (w: Wires)
      ensures Specified(pulp, Registers(), i, w)
    {
      if fsm == Decode {
        w := InDecode(i);
      } else if fsm == DecodeHwloop {
        w := InDecodeHwloop(i);
      } else {
        w := InOtherState(i);
      }
    }

    /** The debug state machine, one-hot in the source. */
    method NextDebugState(w: Wires) returns (next: DebugFsm)
      ensures next == if w.debugMode then Halted
                      else if debugFsm == HaveReset && w.next != FirstFetch then HaveReset else Running
    {
      next := debugFsm;
      match debugFsm {
        case HaveReset =>
          if w.debugMode || w.next == FirstFetch {
            next := if w.debugMode then Halted else Running;
          }
        case Running =>
          if w.debugMode {
            next := Halted;
          }
        case Halted =>
          if !w.debugMode {
            next := Running;
          }
      }
    }

    /** The sticky request, on the ungated clock. */
    method NextRequest(i: Input) returns (next: bool)
      ensures next == NextDebugReq(Registers(), i)
    {
      next := debugReqQ;
      if i.debugReq {
        next := true;
      } else if debugMode {
        next := false;
      }
    }

    /** The clocked registers take their values. */
    method Take(w: Wires, jump: bool, request: bool, state: DebugFsm)
      modifies this
      ensures Registers() == State(w.next, jump, w.debugMode, w.illegal, w.debugReqEntry, w.forceWakeup, request,
                                   state, w.end4)
    {
      fsm, jumpDone, debugMode, illegal, debugReqQ := w.next, jump, w.debugMode, w.illegal, request;
      debugReqEntry, debugForceWakeup, debugFsm, hwlpEnd4 := w.debugReqEntry, w.forceWakeup, state, w.end4;
    }

    /** The rising edge; only the sticky request moves while the clock is gated. */
    method Edge(i: Input, w: Wires)
      requires NextSpecified(pulp, Registers(), i, w)
      modifies this
      ensures Registers() == Step(pulp, old(Registers()), i)
    {
      var request := NextRequest(i);
      if i.gated {
        debugReqQ := request;
      } else {
        var state := NextDebugState(w);
        StepIsLatched(pulp, Registers(), i, w);
        Take(w, w.jumpDone && !i.idReady, request, state);
      }
    }

    /** One cycle: the outputs settle, then the rising edge. */
    method Clock(i: Input) returns (w: Wires)
      modifies this
      ensures Registers() == Step(pulp, old(Registers()), i)
      ensures Specified(pulp, old(Registers()), i, w)
    {
      w := Combinational(i);
      Edge(i, w);
    }
  }
}
