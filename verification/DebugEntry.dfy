/** Entering debug mode: sticky requests are served, single stepping lets one instruction through,
    and the halted output tells the truth. */
module DebugEntry {
  import opened Controller

  function Run(pulp: bool, s: State, ins: seq<Input>): State
    decreases |ins|
  {
    if ins == [] then s else Run(pulp, Step(pulp, s, ins[0]), ins[1..])
  }

  /** Debug mode is not entered during the run. */
  predicate NeverDebug(pulp: bool, s: State, ins: seq<Input>)
    decreases |ins|
  {
    !s.debugMode && (ins == [] || NeverDebug(pulp, Step(pulp, s, ins[0]), ins[1..]))
  }

  // ------------------------------------------------------------------ reachable states

  /** Holds after reset and is kept by every cycle: the halted output is the debug mode flag, havereset is shown
      until the first fetch or debug entry, the hardware-loop state needs the extension and has no illegal
      instruction behind it, and the debug flags are set on the way into debug mode only. */
  predicate Sound(pulp: bool, s: State) {
    && (s.debugFsm == Halted <==> s.debugMode)
    && (s.fsm == DecodeHwloop ==> pulp && !s.illegal)
    && (s.fsm in {Reset, BootSet} ==> s.debugFsm == HaveReset && !s.debugMode)
    && (s.debugFsm == HaveReset ==> s.fsm in {Reset, BootSet, DbgTakenIf})
    && (s.debugReqEntry ==> s.fsm in {DbgFlush, DbgTakenId}) && (s.debugForceWakeup ==> s.fsm == DbgTakenIf)
  }

  lemma HwloopIsLegal(pulp: bool, s: State, i: Input)
    requires s.fsm == DecodeHwloop ==> !s.illegal
    ensures NextFsm(pulp, s, i) == DecodeHwloop ==> !NextIllegal(pulp, s, i)
  {
  }

  lemma DecodeSound(pulp: bool, s: State, i: Input)
    requires s.fsm == Decode && !pulp
    ensures NextFsm(pulp, s, i) != DecodeHwloop
  {
  }

  lemma DebugFlagsStep(pulp: bool, s: State, i: Input)
    requires Sound(pulp, s)
    ensures NextReqEntry(pulp, s, i) ==> NextFsm(pulp, s, i) in {DbgFlush, DbgTakenId}
    ensures NextForceWakeup(s, i) ==> NextFsm(pulp, s, i) == DbgTakenIf
    ensures NextFsm(pulp, s, i) in {Reset, BootSet} ==> s.fsm == Reset && !NextDebugMode(s, i)
  {
  }

  lemma SoundStep(pulp: bool, s: State, i: Input)
    requires Sound(pulp, s)
    ensures Sound(pulp, Step(pulp, s, i))
  {
    if s.fsm == Decode && !pulp {
      DecodeSound(pulp, s, i);
    }
    HwloopIsLegal(pulp, s, i);
    DebugFlagsStep(pulp, s, i);
  }

  lemma {:induction false} HaltedIsDebugMode(pulp: bool, s: State, ins: seq<Input>)
    requires Sound(pulp, s)
    ensures Sound(pulp, Run(pulp, s, ins))
    decreases |ins|
  {
    if ins != [] {
      SoundStep(pulp, s, ins[0]);
      HaltedIsDebugMode(pulp, Step(pulp, s, ins[0]), ins[1..]);
    }
  }

  /** In every state reached from reset the halted output is the debug mode flag. */
  lemma HaltedFromReset(pulp: bool, ins: seq<Input>)
    ensures var s := Run(pulp, RESET, ins); Sound(pulp, s) && (s.debugFsm == Halted <==> s.debugMode)
  {
    HaltedIsDebugMode(pulp, RESET, ins);
  }

  // ------------------------------------------------------------------- debug requests

  /** A request of one cycle, clock gated or not, stays pending until debug mode. */
  lemma {:induction false} RequestStaysPending(pulp: bool, s: State, ins: seq<Input>, i: Input)
    requires ins != [] && ins[0].debugReq && NeverDebug(pulp, s, ins)
    ensures Run(pulp, s, ins).debugReqQ && Pending(Run(pulp, s, ins), i)
    decreases |ins|
  {
    assert Step(pulp, s, ins[0]).debugReqQ;
    StickyStays(pulp, Step(pulp, s, ins[0]), ins[1..]);
  }

  lemma {:induction false} StickyStays(pulp: bool, s: State, ins: seq<Input>)
    requires s.debugReqQ && NeverDebug(pulp, s, ins)
    ensures Run(pulp, s, ins).debugReqQ
    decreases |ins|
  {
    if ins != [] {
      StickyStays(pulp, Step(pulp, s, ins[0]), ins[1..]);
    }
  }

  /** Without a new request none is pending once debug mode has been on for a cycle, nor ever if none was. */
  lemma {:induction false} RequestIsForgotten(pulp: bool, s: State, ins: seq<Input>)
    requires forall k :: 0 <= k < |ins| ==> !ins[k].debugReq
    requires !s.debugReqQ || (s.debugMode && ins != [])
    ensures !Run(pulp, s, ins).debugReqQ
    decreases |ins|
  {
    if ins != [] {
      RequestIsForgotten(pulp, Step(pulp, s, ins[0]), ins[1..]);
    }
  }

  /** Steps left until debug mode when a request is pending. */
  function Rank(f: Fsm): nat {
    match f
    case Reset => 0
    case DbgTakenId => 1
    case DbgTakenIf => 1
    case DbgFlush => 2
    case BootSet => 2
    case Sleep => 2
    case Decode => 3
    case DecodeHwloop => 3
    case DbgWaitBranch => 3
    case WaitSleep => 3
    case FirstFetch => 4
    case XretJump => 4
    case FlushWb => 5
    case FlushEx => 6
  }

  /** Cycles that depend on the pipeline or the clock before the controller can move. */
  predicate Waiting(s: State, i: Input) {
    || i.gated
    || (s.fsm == Decode && (i.branchTaken || !i.instrValid))
    || (s.fsm == DecodeHwloop && !i.instrValid)
    || (s.fsm == FlushEx && !i.exValid)
  }

  lemma RankStep(pulp: bool, s: State, i: Input)
    requires Sound(pulp, s) && s.fsm != Reset && !s.debugMode && (i.debugReq || s.debugReqQ)
    ensures var t := Step(pulp, s, i);
            && t.fsm != Reset
            && (t.debugMode || Rank(t.fsm) < Rank(s.fsm) || (Waiting(s, i) && t.fsm == s.fsm))
  {
  }

  function Moving(pulp: bool, s: State, ins: seq<Input>): nat
    decreases |ins|
  {
    if ins == [] then 0
    else (if Waiting(s, ins[0]) then 0 else 1) + Moving(pulp, Step(pulp, s, ins[0]), ins[1..])
  }

  /** A pending request is served: a run outside debug mode has fewer moving cycles than the rank of
      the state it starts in, at most five, whatever the rest of the core does. */
  lemma {:induction false} RequestIsServed(pulp: bool, s: State, ins: seq<Input>)
    requires Sound(pulp, s) && s.fsm != Reset && s.debugReqQ && NeverDebug(pulp, s, ins)
    ensures Moving(pulp, s, ins) < Rank(s.fsm) <= 6
    decreases |ins|
  {
    if ins != [] {
      RankStep(pulp, s, ins[0]);
      SoundStep(pulp, s, ins[0]);
      RequestIsServed(pulp, Step(pulp, s, ins[0]), ins[1..]);
    }
  }

  /** In particular after any start from reset. */
  lemma RequestFromReset(pulp: bool, before: seq<Input>, ins: seq<Input>)
    requires var s := Run(pulp, RESET, before); s.fsm != Reset && s.debugReqQ && NeverDebug(pulp, s, ins)
    ensures Moving(pulp, Run(pulp, RESET, before), ins) <= 5
  {
    HaltedIsDebugMode(pulp, RESET, before);
    RequestIsServed(pulp, Run(pulp, RESET, before), ins);
  }

  // ------------------------------------------------------------------- single stepping

  predicate Flushing(f: Fsm) {
    f == FlushEx || f == FlushWb
  }

  /** An instruction that reaches debug mode through the pipeline flush. */
  predicate ThroughFlush(s: State, n: Decoded) {
    s.illegal || n.ebreak || n.ecall || n.mret || n.uret
  }

  /** On the way into debug mode after a stepped instruction. */
  predicate Stopping(s: State, n: Decoded) {
    && !s.debugMode
    && (s.fsm in {XretJump, DbgWaitBranch, DbgFlush, DbgTakenId, DbgTakenIf} ||
        (Flushing(s.fsm) && ThroughFlush(s, n)))
  }

  /** Stepping stays on, and the signals of the instruction are held through the flush. */
  predicate Held(s: State, i: Input, n: Decoded) {
    i.singleStep && (Flushing(s.fsm) ==> i.insn == n)
  }

  /** An instruction is taken exactly in the cycle it leaves ID, but for an illegal one that a loop does not take. */
  lemma TakenIsLeaving(pulp: bool, s: State, i: Input)
    ensures Taken(pulp, s, i) <==> Leaves(pulp, s, i) && !(s.fsm == DecodeHwloop && i.insn.illegal)
  {
    DecodingOutput(pulp, s, i);
    HoldsId(pulp, s, i);
  }

  /** While a halt is served is_decoding_o stays high in a core without the loop extension, though nothing is taken. */
  lemma DecodingOutput(pulp: bool, s: State, i: Input)
    ensures IsDecoding(pulp, s, i) <==>
              InDecode(pulp, s, i) && (if Halting(s, i) then !pulp else s.debugMode || !i.irqReq)
  {
  }

  /** ID is held for a halt, an interrupt or an illegal instruction in a loop, and while there is nothing to decode. */
  lemma HoldsId(pulp: bool, s: State, i: Input)
    ensures HaltId(pulp, s, i) <==>
              || (InDecode(pulp, s, i) && (!Undisturbed(s, i) || (s.fsm == DecodeHwloop && i.insn.illegal)))
              || (s.fsm == FirstFetch && i.irqReq && !i.debugReq && !s.debugReqQ && !s.debugMode)
              || s.fsm in {WaitSleep, Sleep, FlushEx, FlushWb, DbgFlush}
  {
  }

  lemma DecodeStops(pulp: bool, s: State, i: Input)
    requires s.fsm == Decode && Leaves(pulp, s, i) && i.singleStep && !s.debugMode
    ensures Stopping(Step(pulp, s, i), i.insn)
  {
  }

  lemma HwloopStops(pulp: bool, s: State, i: Input)
    requires s.fsm == DecodeHwloop && Leaves(pulp, s, i) && i.singleStep && !s.debugMode
    ensures Stopping(Step(pulp, s, i), i.insn)
  {
  }

  /** On every path - plain, branch, trap, xret, hardware loop - a stepped instruction starts the stop. */
  lemma TakenStops(pulp: bool, s: State, i: Input)
    requires Leaves(pulp, s, i) && i.singleStep && !s.debugMode
    ensures Stopping(Step(pulp, s, i), i.insn)
  {
    if s.fsm == Decode {
      DecodeStops(pulp, s, i);
    } else {
      HwloopStops(pulp, s, i);
    }
  }

  lemma StoppingStep(pulp: bool, s: State, i: Input, n: Decoded)
    requires Stopping(s, n) && Held(s, i, n)
    ensures !Taken(pulp, s, i)
    ensures var t := Step(pulp, s, i); t.debugMode || Stopping(t, n)
  {
  }

  predicate AllHeld(pulp: bool, s: State, ins: seq<Input>, n: Decoded)
    decreases |ins|
  {
    ins == [] || (Held(s, ins[0], n) && AllHeld(pulp, Step(pulp, s, ins[0]), ins[1..], n))
  }

  lemma {:induction false} NothingTakenWhileStopping(pulp: bool, s: State, ins: seq<Input>, i: Input, n: Decoded)
    requires Stopping(s, n) && AllHeld(pulp, s, ins + [i], n) && NeverDebug(pulp, s, ins + [i])
    ensures !Taken(pulp, Run(pulp, s, ins), i)
    decreases |ins|
  {
    var all := ins + [i];
    StoppingStep(pulp, s, all[0], n);
    if ins != [] {
      assert all[1..] == ins[1..] + [i];
      NothingTakenWhileStopping(pulp, Step(pulp, s, ins[0]), ins[1..], i, n);
    }
  }

  /** With stepping on, after one instruction is taken outside debug mode no other is taken until debug
      mode is entered. */
  lemma SingleStepTakesOne(pulp: bool, s: State, first: Input, ins: seq<Input>, i: Input)
    requires Leaves(pulp, s, first) && first.singleStep && !s.debugMode
    requires var t := Step(pulp, s, first);
             AllHeld(pulp, t, ins + [i], first.insn) && NeverDebug(pulp, t, ins + [i])
    ensures !Taken(pulp, Run(pulp, Step(pulp, s, first), ins), i)
  {
    TakenStops(pulp, s, first);
    NothingTakenWhileStopping(pulp, Step(pulp, s, first), ins, i, first.insn);
  }

  /** Steps left on the way into debug mode. */
  function StopRank(f: Fsm): nat {
    match f
    case DbgTakenId => 1
    case DbgTakenIf => 1
    case DbgFlush => 2
    case XretJump => 2
    case DbgWaitBranch => 3
    case FlushWb => 3
    case FlushEx => 4
    case _ => 0
  }

  /** And debug mode is entered: after the stepped instruction at most three cycles move without it. */
  lemma {:induction false} SteppingReachesDebug(pulp: bool, s: State, ins: seq<Input>, n: Decoded)
    requires Stopping(s, n) && AllHeld(pulp, s, ins, n) && NeverDebug(pulp, s, ins)
    ensures Moving(pulp, s, ins) < StopRank(s.fsm) <= 4
    decreases |ins|
  {
    if ins != [] {
      StoppingStep(pulp, s, ins[0], n);
      StopRankStep(pulp, s, ins[0], n);
      SteppingReachesDebug(pulp, Step(pulp, s, ins[0]), ins[1..], n);
    }
  }

  lemma StopRankStep(pulp: bool, s: State, i: Input, n: Decoded)
    requires Stopping(s, n) && Held(s, i, n)
    ensures var t := Step(pulp, s, i);
            t.debugMode || StopRank(t.fsm) < StopRank(s.fsm) || (Waiting(s, i) && t.fsm == s.fsm)
  {
  }

  /** Why the signals must be held: in the last flush cycle the controller stays on its way exactly if
      they still show an instruction that traps or returns, or a wfi while a request is pending. */
  lemma FlushNeedsHeldSignals(pulp: bool, s: State, i: Input)
    requires s.fsm == FlushWb && !s.debugMode && i.singleStep && !i.gated
    ensures Step(pulp, s, i).fsm in {DbgTakenIf, XretJump} <==>
              || ThroughFlush(s, i.insn) || i.insn.dret
              || (i.insn.wfi && !i.insn.csrStatus && Pending(s, i))
  {
  }
}
