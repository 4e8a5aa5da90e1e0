/** The other lives of the core: jumps, branches and plain instructions, boot, sleep and the entry into debug mode
    before an instruction is fetched. */
module Instructions {
  import opened Controller
  import opened TrapEntry
  import A = Aligner
  import T = CsrTraps

  // ---------------------------------------------------------------------------------- jumps

  /** A jump stands in DECODE, where the operand it needs may be late. */
  predicate HasJump(y: Core) {
    y.s.fsm == Decode && y.id.valid && Is(y.id.insn, OpJump)
  }

  /** It waits: nothing disturbs it, and the clock is gated or ID is not ready. */
  predicate JumpWaits(pulp: bool, c: T.Config, y: Core, dest: int, ws: seq<Cycle>)
    decreases |ws|
  {
    ws == [] ||
    (var x := ws[0];
     && Presents(y, x.i) && Undisturbed(y.s, x.i) && !x.i.branchTaken && (x.i.gated || !x.i.idReady)
     && x.to.jump == dest && JumpWaits(pulp, c, Next(pulp, c, y, x), dest, ws[1..]))
  }

  /** Since `y0`: the jump still stands there, sent ahead or not. */
  predicate JumpStands(y0: Core, dest: int, y: Core) {
    && y.s.fsm == Decode && y.s.debugMode == y0.s.debugMode && y.id == y0.id && y.t == y0.t
    && y.fetch == if y.s.jumpDone then A.Position(dest, A.None) else y0.fetch
  }

  lemma JumpControl(pulp: bool, s: State, i: Input)
    requires s.fsm == Decode && i.instrValid && !i.branchTaken && Undisturbed(s, i) && Is(i.insn, OpJump) && !i.gated
    requires !(i.singleStep && !s.debugMode && i.idReady)
    ensures NextFsm(pulp, s, i) == Decode && NextDebugMode(s, i) == s.debugMode && !HaltId(pulp, s, i)
    ensures RedirectOf(pulp, s, i) == if i.jrStall || s.jumpDone then NoRedirect else Redirect(PcJump, VecIrq)
    ensures NextJumpDone(pulp, s, i) == ((s.jumpDone || !i.jrStall) && !i.idReady)
    ensures CsrOf(pulp, s, i) == NO_REQUEST && !HwlpJump(pulp, s, i) && IsDecoding(pulp, s, i)
    ensures !(i.singleStep && !s.debugMode) ==> !HaltIf(pulp, s, i)
  {
  }

  lemma JumpCycle(pulp: bool, c: T.Config, y0: Core, y: Core, x: Cycle, dest: int)
    requires HasJump(y0) && JumpStands(y0, dest, y) && Presents(y, x.i) && Undisturbed(y.s, x.i)
    requires !x.i.branchTaken && (x.i.gated || !x.i.idReady) && x.to.jump == dest
    ensures var z := Next(pulp, c, y, x);
            && JumpStands(y0, dest, z) && (y.s.jumpDone ==> z.s.jumpDone)
            && JumpOf(pulp, y.s, x.i) == if z.s.jumpDone && !y.s.jumpDone then [Redirect(PcJump, VecIrq)] else []
  {
    if !x.i.gated {
      JumpControl(pulp, y.s, x.i);
      NoRequestKeeps(c, y.t, CsrInput(pulp, y, x.i));
    }
  }

  lemma {:induction false} JumpWaitRun(pulp: bool, c: T.Config, y0: Core, y: Core, dest: int, ws: seq<Cycle>)
    requires HasJump(y0) && JumpStands(y0, dest, y) && JumpWaits(pulp, c, y, dest, ws)
    ensures var z := Run(pulp, c, y, ws);
            && JumpStands(y0, dest, z) && (y.s.jumpDone ==> z.s.jumpDone)
            && Jumps(pulp, c, y, ws) == if z.s.jumpDone && !y.s.jumpDone then [Redirect(PcJump, VecIrq)] else []
    decreases |ws|
  {
    if ws != [] {
      JumpCycle(pulp, c, y0, y, ws[0], dest);
      JumpWaitRun(pulp, c, y0, Next(pulp, c, y, ws[0]), dest, ws[1..]);
    }
  }

  /** The instruction the core executes next: the one in ID, or the one IF hands over next. */
  function Ahead(y: Core): int {
    if y.id.valid then y.id.pc else y.fetch.pc
  }

  lemma JumpLeaves(pulp: bool, c: T.Config, y0: Core, y: Core, x: Cycle, dest: int)
    requires HasJump(y0) && JumpStands(y0, dest, y) && Presents(y, x.i) && Undisturbed(y.s, x.i)
    requires !x.i.branchTaken && !x.i.gated && x.i.idReady && !x.i.jrStall && x.to.jump == dest
    requires !(x.i.singleStep && !y.s.debugMode)
    ensures var z := Next(pulp, c, y, x);
            && Ahead(z) == dest && !z.s.jumpDone && z.s.fsm == Decode && z.t == y0.t && Taken(pulp, y.s, x.i)
            && JumpOf(pulp, y.s, x.i) == if y.s.jumpDone then [] else [Redirect(PcJump, VecIrq)]
  {
    JumpControl(pulp, y.s, x.i);
    NoRequestKeeps(c, y.t, CsrInput(pulp, y, x.i));
  }

  /** A jump, from the cycle it stands in ID until it leaves, through any stalls of ID, waiting for its operand and
      clock gating: the fetch unit is redirected once, to its target, and the target is what is executed next. */
  lemma JumpIsTaken(pulp: bool, c: T.Config, y: Core, dest: int, ws: seq<Cycle>, x: Cycle)
    requires HasJump(y) && !y.s.jumpDone && JumpWaits(pulp, c, y, dest, ws)
    requires var v := Run(pulp, c, y, ws); Presents(v, x.i) && Undisturbed(v.s, x.i)
    requires !x.i.branchTaken && !x.i.gated && x.i.idReady && !x.i.jrStall && x.to.jump == dest
    requires !(x.i.singleStep && !y.s.debugMode)
    ensures var v := Run(pulp, c, y, ws);
            var z := Next(pulp, c, v, x);
            && Jumps(pulp, c, y, ws) + JumpOf(pulp, v.s, x.i) == [Redirect(PcJump, VecIrq)]
            && Ahead(z) == dest && z.s.fsm == Decode && !z.s.jumpDone && z.t == y.t && Taken(pulp, v.s, x.i)
  {
    JumpWaitRun(pulp, c, y, y, dest, ws);
    JumpLeaves(pulp, c, y, Run(pulp, c, y, ws), x, dest);
  }

  // ---------------------------------------------------------------- branches and plain code

  /** A taken branch in EX: the instruction in ID is dropped and the fetch unit goes to the target, once, whatever
      else is asked of the controller; a debug request stays pending. */
  lemma BranchIsTaken(pulp: bool, c: T.Config, y: Core, x: Cycle)
    requires y.s.fsm == Decode && x.i.branchTaken && !x.i.gated
    ensures var z := Next(pulp, c, y, x);
            && z.fetch == A.Position(x.to.branch, A.None) && !z.id.valid && !Taken(pulp, y.s, x.i)
            && z.t == y.t && z.s.fsm == Decode && z.s.debugMode == y.s.debugMode
            && JumpOf(pulp, y.s, x.i) == [Redirect(PcBranch, VecIrq)]
            && (x.i.debugReq ==> z.s.debugReqQ)
  {
    NoRequestKeeps(c, y.t, CsrInput(pulp, y, x.i));
  }

  /** No loop body that runs again contains the instruction. */
  predicate OutsideLoops(pulp: bool, i: Input) {
    pulp ==> !(i.loop0.start <= i.pc && i.pc + 4 <= i.loop0.end && i.loop0.count > 1) &&
             !(i.loop1.start <= i.pc && i.pc + 4 <= i.loop1.end && i.loop1.count > 1)
  }

  /** An instruction that needs no flush; wfi is one in debug mode. */
  predicate Simple(op: Op, s: State) {
    op == OpPlain || op == OpBranch || (op == OpWfi && s.debugMode)
  }

  /** What IF hands over in a cycle that nothing holds. */
  predicate HandsOver(y: Core, x: Cycle, z: Core) {
    if x.fetchValid then
      && z.id == Id(true, y.fetch.pc, x.next, x.compressed)
      && z.fetch == A.Position(y.fetch.pc + (if x.compressed then 2 else 4), A.None)
    else !z.id.valid && z.fetch == y.fetch
  }

  lemma SimpleControl(pulp: bool, s: State, i: Input, op: Op)
    requires s.fsm == Decode && i.instrValid && !i.branchTaken && Undisturbed(s, i) && Is(i.insn, op) && Simple(op, s)
    requires OutsideLoops(pulp, i) && !i.gated && !(i.singleStep && !s.debugMode)
    ensures NextFsm(pulp, s, i) == Decode && NextDebugMode(s, i) == s.debugMode
    ensures RedirectOf(pulp, s, i) == NoRedirect && CsrOf(pulp, s, i) == NO_REQUEST && !HwlpJump(pulp, s, i)
    ensures !HaltIf(pulp, s, i) && !HaltId(pulp, s, i) && IsDecoding(pulp, s, i)
  {
  }

  /** A plain instruction outside loops stays while ID is not ready, and then leaves at once; the next one is handed
      over in the same cycle, and nothing else moves. */
  lemma PlainIsTaken(pulp: bool, c: T.Config, y: Core, x: Cycle, op: Op)
    requires y.s.fsm == Decode && Presents(y, x.i) && y.id.valid && Is(y.id.insn, op) && Simple(op, y.s)
    requires Undisturbed(y.s, x.i) && !x.i.branchTaken && OutsideLoops(pulp, x.i) && !x.i.gated
    requires !(x.i.singleStep && !y.s.debugMode) && y.fetch.target.None?
    ensures var z := Next(pulp, c, y, x);
            && z.s.fsm == Decode && z.s.debugMode == y.s.debugMode && z.t == y.t && JumpOf(pulp, y.s, x.i) == []
            && (Taken(pulp, y.s, x.i) <==> x.i.idReady)
            && if x.i.idReady then HandsOver(y, x, z) else z.id == y.id && z.fetch == y.fetch
  {
    SimpleControl(pulp, y.s, x.i, op);
    NoRequestKeeps(c, y.t, CsrInput(pulp, y, x.i));
  }

  /** An empty ID stage is filled as soon as a word is there; nothing is served meanwhile. */
  lemma EmptyIsFilled(pulp: bool, c: T.Config, y: Core, x: Cycle)
    requires y.s.fsm == Decode && Presents(y, x.i) && !y.id.valid && !x.i.branchTaken && !x.i.gated && x.i.idReady
    requires y.fetch.target.None?
    ensures var z := Next(pulp, c, y, x);
            && z.s.fsm == Decode && z.s.debugMode == y.s.debugMode && z.t == y.t && JumpOf(pulp, y.s, x.i) == []
            && HandsOver(y, x, z) && !Taken(pulp, y.s, x.i)
  {
    NoRequestKeeps(c, y.t, CsrInput(pulp, y, x.i));
  }

  /** An instruction that leaves ID asks for its loop to be counted down exactly if it ends the body, and is a plain one
      or an access to a status register; a jump back already made from DECODE has asked before. Exceptions, returns and
      jumps never do. */
  lemma OnlyEndsCount(pulp: bool, s: State, i: Input, l: Loop, op: Op)
    requires Leaves(pulp, s, i) && Is(i.insn, op) && (l.end == i.pc + 4 ==> l.start <= i.pc)
    requires l == i.loop0 || l == i.loop1
    requires s.fsm == DecodeHwloop ==> op !in {OpJump, OpMret, OpUret, OpDret, OpFencei}
    ensures var plain := op == OpPlain || op == OpBranch ||
                         (op == OpWfi && (s.fsm == DecodeHwloop || s.debugMode || i.singleStep));
            DecCount(pulp, s, i, l) <==>
              pulp && l.end == i.pc + 4 &&
              (op == OpStatus || (plain && l.count > 0 && (s.fsm == Decode && l.count > 1 ==> !s.jumpDone)))
  {
  }

  /** Met in DECODE, the end of a body that runs again sends the fetch unit back in its first cycle, and only then. */
  lemma LoopJumpIsTaken(pulp: bool, s: State, i: Input, l: Loop)
    requires pulp && s.fsm == Decode && InDecode(pulp, s, i) && Undisturbed(s, i) && Is(i.insn, OpPlain)
    requires (l == i.loop0 || l == i.loop1) && l.start <= i.pc && l.end == i.pc + 4 && l.count > 1
    ensures RedirectOf(pulp, s, i) == if s.jumpDone then NoRedirect else Redirect(PcHwloop, VecIrq)
    ensures NextJumpDone(pulp, s, i) == !i.idReady
  {
  }

  /** In DECODE_HWLOOP, at the last but one instruction of a body that runs again, IF is told once that the last one is
      followed by the start of the body. */
  lemma LoopEndIsAnnounced(c: T.Config, y: Core, x: Cycle)
    requires y.s.fsm == DecodeHwloop && Presents(y, x.i) && y.id.valid && Is(y.id.insn, OpPlain) && !x.i.gated
    requires Undisturbed(y.s, x.i) && !(x.i.singleStep && !y.s.debugMode) && !y.s.hwlpEnd4
    requires x.i.loop0.end != x.i.loop1.end
    requires var l := if x.i.loop0.end == y.id.pc + 8 && x.i.loop0.count > 1 then x.i.loop0 else x.i.loop1;
             l.end == y.id.pc + 8 && l.count > 1
    ensures var l := if x.i.loop0.end == y.id.pc + 8 && x.i.loop0.count > 1 then x.i.loop0 else x.i.loop1;
            var z := Next(true, c, y, x);
            && z.s.fsm == DecodeHwloop && z.s.hwlpEnd4 && JumpOf(true, y.s, x.i) == [] && z.t == y.t
            && if x.i.idReady && x.fetchValid then z.id.pc == y.fetch.pc && z.fetch == A.Position(l.start, A.None)
               else z.fetch == A.Position(y.fetch.pc, A.Some(l.start))
  {
    LoopEndControl(y.s, x.i);
    NoRequestKeeps(c, y.t, CsrInput(true, y, x.i));
  }

  lemma LoopEndControl(s: State, i: Input)
    requires s.fsm == DecodeHwloop && i.instrValid && Is(i.insn, OpPlain) && Undisturbed(s, i) && !s.hwlpEnd4
    requires !(i.singleStep && !s.debugMode) && !i.gated && i.loop0.end != i.loop1.end
    requires (i.loop0.end == i.pc + 8 && i.loop0.count > 1) || (i.loop1.end == i.pc + 8 && i.loop1.count > 1)
    ensures NextFsm(true, s, i) == DecodeHwloop && HwlpEnd4(true, s, i) && HwlpJump(true, s, i) && !HaltIf(true, s, i)
    ensures HwlpTarget(true, s, i) == if i.loop0.end == i.pc + 8 && i.loop0.count > 1 then i.loop0.start
                                      else i.loop1.start
    ensures RedirectOf(true, s, i) == NoRedirect && CsrOf(true, s, i) == NO_REQUEST
  {
  }

  /** Nothing is counted for an instruction that a halt, an interrupt or a branch keeps from executing. */
  lemma NothingElseCounts(pulp: bool, s: State, i: Input, l: Loop)
    requires !(InDecode(pulp, s, i) && Undisturbed(s, i))
    ensures !DecCount(pulp, s, i, l) && !HwlpJump(pulp, s, i)
  {
  }

  // ---------------------------------------------------------------------------- boot and sleep

  /** Held by reset until fetching is enabled. */
  lemma ResetWaits(pulp: bool, c: T.Config, y: Core, x: Cycle)
    requires y.s.fsm == Reset
    ensures var z := Next(pulp, c, y, x);
            && z.t == y.t && JumpOf(pulp, y.s, x.i) == [] && z.s.debugMode == y.s.debugMode
            && z.s.fsm == if x.i.fetchEnable && !x.i.gated then BootSet else Reset
  {
    NoRequestKeeps(c, y.t, CsrInput(pulp, y, x.i));
  }

  /** DBG_TAKEN_IF: debug mode before an instruction is fetched. The cause is 3 if a request woke or stopped the core,
      4 after a step. */
  lemma HaltsBeforeFetch(pulp: bool, c: T.Config, y: Core, x: Cycle)
    requires y.s.fsm == DbgTakenIf && !x.i.gated && (y.s.debugForceWakeup || x.i.singleStep)
    ensures var z := Next(pulp, c, y, x);
            && z.s.debugMode && z.s.fsm == Decode && z.fetch == A.Position(x.to.debug, A.None)
            && z.t.trap == y.t.trap
            && z.t.debug == y.t.debug.(dpc := y.fetch.pc, cause := if y.s.debugForceWakeup then 3 else 4)
  {
  }

  /** Out of reset: the fetch unit goes to the boot address; with a debug request pending debug mode is entered
      instead of the first fetch, with dpc the boot address and cause 3. */
  lemma Boots(pulp: bool, c: T.Config, y: Core, b: Cycle, n: Cycle)
    requires y.s.fsm == BootSet && !y.s.debugMode && !b.i.gated && !n.i.gated
    ensures var z := Next(pulp, c, y, b);
            && z.fetch == A.Position(b.to.boot, A.None) && z.t == y.t
            && JumpOf(pulp, y.s, b.i) == [Redirect(PcBoot, VecIrq)]
            && if b.i.debugReq || y.s.debugReqQ then
                 var d := Next(pulp, c, z, n);
                 d.s.debugMode && d.t.debug == y.t.debug.(dpc := b.to.boot, cause := 3) && d.t.trap == y.t.trap
               else z.s.fsm == FirstFetch && !z.s.debugMode
  {
    BootControl(pulp, y.s, b.i);
    NoRequestKeeps(c, y.t, CsrInput(pulp, y, b.i));
    if b.i.debugReq || y.s.debugReqQ {
      HaltsBeforeFetch(pulp, c, Next(pulp, c, y, b), n);
    }
  }

  lemma BootControl(pulp: bool, s: State, i: Input)
    requires s.fsm == BootSet && !s.debugMode && !i.gated
    ensures var woken := i.debugReq || s.debugReqQ;
            && NextFsm(pulp, s, i) == (if woken then DbgTakenIf else FirstFetch)
            && (woken ==> NextForceWakeup(s, i)) && !NextDebugMode(s, i)
    ensures RedirectOf(pulp, s, i) == Redirect(PcBoot, VecIrq) && CsrOf(pulp, s, i) == NO_REQUEST
  {
  }

  /** The cycle before decoding starts, when no interrupt is taken. */
  lemma FirstFetchCycle(pulp: bool, c: T.Config, y: Core, x: Cycle)
    requires y.s.fsm == FirstFetch && !x.i.gated && !Interrupts(pulp, y.s, x.i) && y.fetch.target.None?
    requires x.i.idReady
    ensures var z := Next(pulp, c, y, x);
            && z.s.fsm == Decode && z.s.debugMode == y.s.debugMode && z.t == y.t && HandsOver(y, x, z)
            && JumpOf(pulp, y.s, x.i) == [] && !HaltIf(pulp, y.s, x.i)
  {
    NoRequestKeeps(c, y.t, CsrInput(pulp, y, x.i));
  }

  /** A request that comes while a wfi is flushed: no sleep, but debug mode with dpc behind the wfi and cause 3. */
  lemma WfiHalts(pulp: bool, c: T.Config, y: Core, x: Cycle, n: Cycle)
    requires y.s.fsm == FlushWb && !y.s.illegal && Is(y.id.insn, OpWfi) && Presents(y, x.i)
    requires (x.i.debugReq || y.s.debugReqQ) && !x.i.gated && !n.i.gated
    ensures var d := Next(pulp, c, Next(pulp, c, y, x), n);
            d.s.debugMode && d.t.debug == y.t.debug.(dpc := y.fetch.pc, cause := 3) && d.t.trap == y.t.trap
  {
    WfiControl(pulp, y.s, x.i);
    NoRequestKeeps(c, y.t, CsrInput(pulp, y, x.i));
    HaltsBeforeFetch(pulp, c, Next(pulp, c, y, x), n);
  }

  lemma WfiControl(pulp: bool, s: State, i: Input)
    requires s.fsm == FlushWb && !s.illegal && Is(i.insn, OpWfi) && (i.debugReq || s.debugReqQ) && !i.gated
    ensures NextFsm(pulp, s, i) == DbgTakenIf && NextForceWakeup(s, i)
    ensures RedirectOf(pulp, s, i) == NoRedirect && CsrOf(pulp, s, i) == NO_REQUEST
    ensures HaltIf(pulp, s, i) && !HwlpJump(pulp, s, i)
  {
  }

  /** Nothing wakes the core. */
  predicate Quiet(s: State, i: Input) {
    !i.irqWakeup && !i.debugReq && !s.debugReqQ && !s.debugMode
  }

  predicate AllQuiet(pulp: bool, c: T.Config, y: Core, xs: seq<Cycle>)
    decreases |xs|
  {
    xs == [] || (Quiet(y.s, xs[0].i) && AllQuiet(pulp, c, Next(pulp, c, y, xs[0]), xs[1..]))
  }

  predicate Asleep(y0: Core, y: Core) {
    y.s.fsm in {WaitSleep, Sleep} && y.t == y0.t && y.fetch == y0.fetch && !y.id.valid && !y.s.debugMode
  }

  lemma SleepCycle(pulp: bool, c: T.Config, y0: Core, y: Core, x: Cycle)
    requires Asleep(y0, y) && Quiet(y.s, x.i)
    ensures Asleep(y0, Next(pulp, c, y, x)) && JumpOf(pulp, y.s, x.i) == [] && !Taken(pulp, y.s, x.i)
    ensures !x.i.gated ==> Next(pulp, c, y, x).s.fsm == Sleep
  {
    NoRequestKeeps(c, y.t, CsrInput(pulp, y, x.i));
  }

  /** After a wfi the core sleeps for as long as neither an enabled interrupt nor a debug request comes: nothing is
      fetched, redirected, taken or changed. */
  lemma {:induction false} Sleeps(pulp: bool, c: T.Config, y: Core, xs: seq<Cycle>)
    requires Asleep(y, y) && AllQuiet(pulp, c, y, xs)
    ensures Asleep(y, Run(pulp, c, y, xs)) && Jumps(pulp, c, y, xs) == [] && NoneTaken(pulp, c, y, xs)
    decreases |xs|
  {
    if xs != [] {
      SleepCycle(pulp, c, y, y, xs[0]);
      Sleeps(pulp, c, Next(pulp, c, y, xs[0]), xs[1..]);
    }
  }

  /** It wakes to the first fetch with an interrupt; a debug request enters debug mode instead, with dpc the address of
      the instruction behind the wfi and cause 3. */
  lemma Wakes(pulp: bool, c: T.Config, y: Core, x: Cycle, n: Cycle)
    requires y.s.fsm == Sleep && !y.s.debugMode && !y.id.valid && !x.i.gated && !n.i.gated && !Quiet(y.s, x.i)
    ensures var z := Next(pulp, c, y, x);
            && z.t == y.t && z.fetch == y.fetch && !z.id.valid && JumpOf(pulp, y.s, x.i) == []
            && if x.i.debugReq || y.s.debugReqQ then
                 var d := Next(pulp, c, z, n);
                 d.s.debugMode && d.t.debug == y.t.debug.(dpc := y.fetch.pc, cause := 3) && d.t.trap == y.t.trap
               else z.s.fsm == FirstFetch && !z.s.debugMode
  {
    WakeControl(pulp, y.s, x.i);
    NoRequestKeeps(c, y.t, CsrInput(pulp, y, x.i));
    if x.i.debugReq || y.s.debugReqQ {
      HaltsBeforeFetch(pulp, c, Next(pulp, c, y, x), n);
    }
  }

  lemma WakeControl(pulp: bool, s: State, i: Input)
    requires s.fsm == Sleep && !i.gated && (i.irqWakeup || i.debugReq || s.debugReqQ || s.debugMode)
    ensures var woken := i.debugReq || s.debugReqQ;
            && NextFsm(pulp, s, i) == (if woken then DbgTakenIf else FirstFetch)
            && (woken ==> NextForceWakeup(s, i)) && NextDebugMode(s, i) == s.debugMode
    ensures RedirectOf(pulp, s, i) == NoRedirect && CsrOf(pulp, s, i) == NO_REQUEST
    ensures HaltIf(pulp, s, i) && !HwlpJump(pulp, s, i)
  {
  }
}
