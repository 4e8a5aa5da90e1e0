/** Debug entries and single stepping over whole runs: dpc is the address saved by the last entry, and after a
    step it is the address the program goes on at. */
module StepEntry {
  import opened Controller
  import opened TrapEntry
  import A = Aligner
  import T = CsrTraps

  // ----------------------------------------------------------------------- debug entries

  /** The decoder: wfi and ebreak come alone. */
  predicate Exclusive(n: Decoded) {
    && (n.wfi ==> !n.fencei && !n.csrStatus)
    && (n.wfi || n.ebreak ==> !n.mret && !n.uret && !n.dret && !n.ecall)
  }

  /** In debug mode the core does not sleep, and is not entering debug mode again. */
  predicate Awake(y: Core) {
    y.s.debugMode ==>
      && y.s.fsm in {Decode, DecodeHwloop, FlushEx, FlushWb, XretJump, DbgFlush, DbgTakenId}
      && (y.s.fsm in {FlushEx, FlushWb} && !y.s.illegal ==> !y.id.insn.wfi)
  }

  predicate Enters(pulp: bool, y: Core, i: Input) {
    !i.gated && !y.s.debugMode && y.s.fsm in {DbgTakenId, DbgTakenIf}
  }

  /** The address a debug entry saves: the instruction in ID, or the one IF would hand over next. */
  function EntryAddress(y: Core): int {
    if y.s.fsm == DbgTakenId then y.id.pc else y.fetch.pc
  }

  lemma AwakeNext(pulp: bool, y: Core, i: Input)
    requires Awake(y) && Presents(y, i) && Exclusive(y.id.insn) && !i.gated && NextDebugMode(y.s, i)
    ensures NextFsm(pulp, y.s, i) in {Decode, DecodeHwloop, FlushEx, FlushWb, XretJump, DbgFlush, DbgTakenId}
  {
  }

  lemma AwakeFlush(pulp: bool, y: Core, i: Input)
    requires Awake(y) && Presents(y, i) && Exclusive(y.id.insn) && !i.gated && NextDebugMode(y.s, i)
    ensures NextFsm(pulp, y.s, i) == FlushEx && !NextIllegal(pulp, y.s, i) ==>
              !y.id.insn.wfi && (HaltIf(pulp, y.s, i) || RedirectOf(pulp, y.s, i) != NoRedirect)
    ensures NextFsm(pulp, y.s, i) == FlushWb ==>
              y.s.fsm == FlushEx && y.s.debugMode && NextIllegal(pulp, y.s, i) == y.s.illegal
  {
  }

  lemma AwakeStep(pulp: bool, c: T.Config, y: Core, x: Cycle)
    requires Awake(y) && Presents(y, x.i) && Exclusive(y.id.insn)
    ensures Awake(Next(pulp, c, y, x))
  {
    if !x.i.gated && NextDebugMode(y.s, x.i) {
      AwakeNext(pulp, y, x.i);
      AwakeFlush(pulp, y, x.i);
      if HaltIf(pulp, y.s, x.i) || RedirectOf(pulp, y.s, x.i) != NoRedirect {
        IdStays(pulp, c, y, x);
      }
    }
  }

  lemma EntryRequests(pulp: bool, y: Core, i: Input)
    requires Awake(y) && !i.gated
    ensures var r := CsrInput(pulp, y, i);
            && (r.debugSave <==> Enters(pulp, y, i)) && r.write == T.NoWrite
            && (r.debugSave ==> r.saveCause && T.ExceptionPc(r) == EntryAddress(y))
  {
  }

  /** The debug registers are written exactly when debug mode is entered, and the trap registers are not. */
  lemma DebugEntrySaves(pulp: bool, c: T.Config, y: Core, x: Cycle)
    requires Awake(y)
    ensures var z := Next(pulp, c, y, x);
            if Enters(pulp, y, x.i) then z.t.debug.dpc == EntryAddress(y) && T.StackOf(z.t) == T.StackOf(y.t)
            else z.t.debug == y.t.debug
  {
    if !x.i.gated {
      EntryRequests(pulp, y, x.i);
      if Enters(pulp, y, x.i) {
        T.DebugEntryLeavesTrapState(c, y.t, CsrInput(pulp, y, x.i));
      }
    }
  }

  predicate Watched(pulp: bool, c: T.Config, y: Core, xs: seq<Cycle>)
    decreases |xs|
  {
    xs == [] ||
    (Presents(y, xs[0].i) && Exclusive(y.id.insn) && Watched(pulp, c, Next(pulp, c, y, xs[0]), xs[1..]))
  }

  /** The addresses at which debug mode is entered. */
  function Entries(pulp: bool, c: T.Config, y: Core, xs: seq<Cycle>): seq<int>
    decreases |xs|
  {
    if xs == [] then []
    else
      (if Enters(pulp, y, xs[0].i) then [EntryAddress(y)] else []) +
      Entries(pulp, c, Next(pulp, c, y, xs[0]), xs[1..])
  }

  function Last(s: seq<int>, otherwise: int): int {
    if s == [] then otherwise else s[|s| - 1]
  }

  lemma LastOf(s: seq<int>, t: seq<int>, otherwise: int)
    ensures Last(s + t, otherwise) == Last(t, Last(s, otherwise))
  {
  }

  /** Over any run dpc is the address of the last debug entry, or what it was before the first. */
  lemma {:induction false} DpcIsLastEntry(pulp: bool, c: T.Config, y: Core, xs: seq<Cycle>)
    requires Awake(y) && Watched(pulp, c, y, xs)
    ensures Run(pulp, c, y, xs).t.debug.dpc == Last(Entries(pulp, c, y, xs), y.t.debug.dpc)
    decreases |xs|
  {
    if xs != [] {
      var z := Next(pulp, c, y, xs[0]);
      AwakeStep(pulp, c, y, xs[0]);
      DebugEntrySaves(pulp, c, y, xs[0]);
      DpcIsLastEntry(pulp, c, z, xs[1..]);
      LastOf(if Enters(pulp, y, xs[0].i) then [EntryAddress(y)] else [], Entries(pulp, c, z, xs[1..]),
             y.t.debug.dpc);
    }
  }

  // -------------------------------------------------------------- the way of a stepped instruction

  /** What stays the same on the way: the surroundings, whether a branch in EX is taken, and what stops the core at
      the instruction itself, a trigger match or an ebreak that enters debug mode. */
  datatype Course = Course(a: Around, taken: bool, trigger: bool, forced: bool)

  predicate Leads(w: Course, y: Core, x: Cycle) {
    && Surrounds(w.a, y, x) && w.a.step && x.i.trigger == w.trigger && x.i.ebreakForced == w.forced
    && (y.s.fsm == DbgWaitBranch ==> x.i.branchTaken == w.taken)
  }

  predicate StopsAtItself(w: Course, n: Decoded) {
    w.trigger || (w.forced && n.ebreak)
  }

  /** Where the program will stand, and with which trap registers. */
  datatype Goal = Goal(trap: T.Trap, pc: int)

  function GoalOf(pulp: bool, w: Course, y: Core): Goal {
    if InFlush(y.s.fsm) then Goal(EffectOf(pulp, w.a, y).trap, EffectOf(pulp, w.a, y).fetch.pc)
    else if y.s.fsm == DbgWaitBranch && w.taken then Goal(y.t.trap, w.a.to.branch)
    else Goal(y.t.trap, y.fetch.pc)
  }

  /** On the way to `goal` since `y0`; `through` says whether through a flush. */
  predicate Heads(pulp: bool, w: Course, y0: Core, through: bool, goal: Goal, y: Core) {
    var s, n := y.s, y.id.insn;
    && y.id.pc == y0.id.pc && n == y0.id.insn && y.t.debug == y0.t.debug && GoalOf(pulp, w, y) == goal
    && !s.debugMode && !s.debugReqEntry && !s.debugForceWakeup
    && match s.fsm
       case FlushEx => through && Flushable(w.a, y) && (Traps(s, n) || n.mret || n.uret)
       case FlushWb => through && Flushable(w.a, y) && (Traps(s, n) || n.mret || n.uret)
       case XretJump => through && Flushable(w.a, y)
       case DbgWaitBranch => !through
       case DbgFlush => !through
       case DbgTakenIf => through || !StopsAtItself(w, n)
       case DbgTakenId => !through && StopsAtItself(w, n)
       case _ => false
  }

  lemma FlushStays(pulp: bool, w: Course, y: Core, x: Cycle)
    requires InFlush(y.s.fsm) && Flushable(w.a, y) && Leads(w, y, x) && !x.i.gated && !y.s.debugMode
    requires y.s.fsm != XretJump ==> Traps(y.s, y.id.insn) || y.id.insn.mret || y.id.insn.uret
    requires !y.s.debugReqEntry && !y.s.debugForceWakeup
    ensures NextFsm(pulp, y.s, x.i) in {FlushEx, FlushWb, XretJump, DbgTakenIf} && !NextDebugMode(y.s, x.i)
    ensures NextFsm(pulp, y.s, x.i) in {FlushEx, FlushWb} ==>
              y.s.fsm == FlushEx && NextIllegal(pulp, y.s, x.i) == y.s.illegal
    ensures !NextReqEntry(pulp, y.s, x.i) && !NextForceWakeup(y.s, x.i) && !CsrInput(pulp, y, x.i).debugSave
  {
  }

  lemma FlushHeads(pulp: bool, c: T.Config, w: Course, y0: Core, through: bool, goal: Goal, y: Core, x: Cycle)
    requires Heads(pulp, w, y0, through, goal, y) && InFlush(y.s.fsm) && Leads(w, y, x) && !x.i.gated
    ensures Heads(pulp, w, y0, through, goal, Next(pulp, c, y, x))
  {
    FlushStays(pulp, w, y, x);
    FlushCycle(pulp, c, w.a, y, x);
    FlushHolds(pulp, c, w.a, y, x);
    NoDebugSave(c, y.t, CsrInput(pulp, y, x.i));
  }

  lemma NoDebugSave(c: T.Config, t: T.State, r: T.Input)
    requires !r.debugSave && r.write == T.NoWrite
    ensures T.Step(c, t, r).debug == t.debug
  {
  }

  lemma BranchStays(pulp: bool, w: Course, y: Core, x: Cycle)
    requires y.s.fsm == DbgWaitBranch && Leads(w, y, x) && !x.i.gated && !y.s.debugMode
    requires !y.s.debugReqEntry && !y.s.debugForceWakeup
    ensures NextFsm(pulp, y.s, x.i) == DbgFlush && !NextDebugMode(y.s, x.i) && HaltIf(pulp, y.s, x.i)
    ensures !NextReqEntry(pulp, y.s, x.i) && !NextForceWakeup(y.s, x.i) && CsrOf(pulp, y.s, x.i) == NO_REQUEST
    ensures RedirectOf(pulp, y.s, x.i) == if w.taken then Redirect(PcBranch, VecIrq) else NoRedirect
  {
  }

  lemma StopStays(pulp: bool, w: Course, y: Core, x: Cycle)
    requires y.s.fsm == DbgFlush && Leads(w, y, x) && !x.i.gated && !y.s.debugMode
    requires !y.s.debugReqEntry && !y.s.debugForceWakeup && x.i.insn == y.id.insn
    ensures NextFsm(pulp, y.s, x.i) == if StopsAtItself(w, y.id.insn) then DbgTakenId else DbgTakenIf
    ensures !NextDebugMode(y.s, x.i) && HaltIf(pulp, y.s, x.i) && RedirectOf(pulp, y.s, x.i) == NoRedirect
    ensures !NextReqEntry(pulp, y.s, x.i) && !NextForceWakeup(y.s, x.i) && CsrOf(pulp, y.s, x.i) == NO_REQUEST
  {
  }

  lemma BranchMoves(pulp: bool, c: T.Config, w: Course, y: Core, x: Cycle)
    requires y.s.fsm == DbgWaitBranch && Leads(w, y, x) && !x.i.gated && !y.s.debugMode
    requires !y.s.debugReqEntry && !y.s.debugForceWakeup
    ensures var z := Next(pulp, c, y, x);
            && z.id.pc == y.id.pc && z.id.insn == y.id.insn && z.t == y.t && z.s.fsm == DbgFlush
            && !z.s.debugMode && !z.s.debugReqEntry && !z.s.debugForceWakeup
            && z.fetch.pc == if w.taken then w.a.to.branch else y.fetch.pc
  {
    BranchStays(pulp, w, y, x);
    IdStays(pulp, c, y, x);
    NoRequestKeeps(c, y.t, CsrInput(pulp, y, x.i));
  }

  lemma BranchHeads(pulp: bool, c: T.Config, w: Course, y0: Core, through: bool, goal: Goal, y: Core, x: Cycle)
    requires Heads(pulp, w, y0, through, goal, y) && y.s.fsm == DbgWaitBranch && Leads(w, y, x) && !x.i.gated
    ensures Heads(pulp, w, y0, through, goal, Next(pulp, c, y, x))
  {
    BranchMoves(pulp, c, w, y, x);
    BranchDone(pulp, w, y0, through, goal, y, Next(pulp, c, y, x));
  }

  lemma BranchDone(pulp: bool, w: Course, y0: Core, through: bool, goal: Goal, y: Core, z: Core)
    requires Heads(pulp, w, y0, through, goal, y) && y.s.fsm == DbgWaitBranch
    requires z.id.pc == y.id.pc && z.id.insn == y.id.insn && z.t == y.t && z.s.fsm == DbgFlush
    requires !z.s.debugMode && !z.s.debugReqEntry && !z.s.debugForceWakeup
    requires z.fetch.pc == if w.taken then w.a.to.branch else y.fetch.pc
    ensures Heads(pulp, w, y0, through, goal, z)
  {
  }

  lemma StopHeads(pulp: bool, c: T.Config, w: Course, y0: Core, through: bool, goal: Goal, y: Core, x: Cycle)
    requires Heads(pulp, w, y0, through, goal, y) && y.s.fsm == DbgFlush && Leads(w, y, x) && !x.i.gated
    ensures Heads(pulp, w, y0, through, goal, Next(pulp, c, y, x))
  {
    StopStays(pulp, w, y, x);
    NoRequestKeeps(c, y.t, CsrInput(pulp, y, x.i));
  }

  lemma GatedHeads(pulp: bool, c: T.Config, w: Course, y0: Core, through: bool, goal: Goal, y: Core, x: Cycle)
    requires Heads(pulp, w, y0, through, goal, y) && x.i.gated
    ensures Heads(pulp, w, y0, through, goal, Next(pulp, c, y, x))
  {
  }

  /** Debug mode with dpc and cause saved: at the goal with cause 4, or at the instruction itself with cause 2 for a
      trigger match and 1 for an ebreak. */
  predicate Arrived(w: Course, y0: Core, through: bool, goal: Goal, z: Core) {
    var itself := !through && StopsAtItself(w, y0.id.insn);
    && z.s.debugMode && z.s.fsm == Decode && z.t.trap == goal.trap && z.fetch == A.Position(w.a.to.debug, A.None)
    && z.t.debug == y0.t.debug.(dpc := if itself then y0.id.pc else goal.pc,
                                cause := if !itself then 4 else if w.trigger then 2 else 1)
  }

  lemma EntryControl(pulp: bool, w: Course, y: Core, x: Cycle)
    requires y.s.fsm in {DbgTakenId, DbgTakenIf} && Leads(w, y, x) && !x.i.gated && !y.s.debugMode
    requires !y.s.debugReqEntry && !y.s.debugForceWakeup
    ensures NextFsm(pulp, y.s, x.i) == Decode && NextDebugMode(y.s, x.i)
    ensures RedirectOf(pulp, y.s, x.i) == Redirect(PcException, VecDebug)
    ensures var r := CsrInput(pulp, y, x.i);
            && r.saveCause && r.debugSave && T.ExceptionPc(r) == EntryAddress(y)
            && (y.s.fsm == DbgTakenIf ==> r.debugCause == 4)
            && (y.s.fsm == DbgTakenId && StopsAtItself(w, y.id.insn) ==> r.debugCause == if w.trigger then 2 else 1)
  {
  }

  lemma EntryArrives(pulp: bool, c: T.Config, w: Course, y0: Core, through: bool, goal: Goal, y: Core, x: Cycle)
    requires Heads(pulp, w, y0, through, goal, y) && Leads(w, y, x) && !x.i.gated
    requires y.s.fsm in {DbgTakenId, DbgTakenIf}
    ensures Arrived(w, y0, through, goal, Next(pulp, c, y, x))
  {
    EntryControl(pulp, w, y, x);
    T.DebugEntryLeavesTrapState(c, y.t, CsrInput(pulp, y, x.i));
  }

  /** Every cycle goes on towards the goal, or arrives. */
  lemma WayCycle(pulp: bool, c: T.Config, w: Course, y0: Core, through: bool, goal: Goal, y: Core, x: Cycle)
    requires Heads(pulp, w, y0, through, goal, y) && Leads(w, y, x)
    ensures var z := Next(pulp, c, y, x);
            Heads(pulp, w, y0, through, goal, z) || Arrived(w, y0, through, goal, z)
    ensures Next(pulp, c, y, x).s.debugMode ==> Arrived(w, y0, through, goal, Next(pulp, c, y, x))
  {
    if x.i.gated {
      GatedHeads(pulp, c, w, y0, through, goal, y, x);
    } else if InFlush(y.s.fsm) {
      FlushHeads(pulp, c, w, y0, through, goal, y, x);
    } else if y.s.fsm == DbgWaitBranch {
      BranchHeads(pulp, c, w, y0, through, goal, y, x);
    } else if y.s.fsm == DbgFlush {
      StopHeads(pulp, c, w, y0, through, goal, y, x);
    } else {
      EntryArrives(pulp, c, w, y0, through, goal, y, x);
    }
  }

  /** Every cycle of the run starts outside debug mode. */
  predicate Steps(pulp: bool, c: T.Config, w: Course, y: Core, xs: seq<Cycle>)
    decreases |xs|
  {
    xs == [] || (!y.s.debugMode && Leads(w, y, xs[0]) && Steps(pulp, c, w, Next(pulp, c, y, xs[0]), xs[1..]))
  }

  lemma {:induction false} StepRun(pulp: bool, c: T.Config, w: Course, y0: Core, through: bool, goal: Goal, y: Core,
                                   xs: seq<Cycle>)
    requires Heads(pulp, w, y0, through, goal, y) && Steps(pulp, c, w, y, xs)
    ensures var z := Run(pulp, c, y, xs); z.s.debugMode ==> Arrived(w, y0, through, goal, z)
    decreases |xs|
  {
    if xs != [] {
      var z := Next(pulp, c, y, xs[0]);
      WayCycle(pulp, c, w, y0, through, goal, y, xs[0]);
      if z.s.debugMode {
        assert xs[1..] == [];
      } else {
        StepRun(pulp, c, w, y0, through, goal, z, xs[1..]);
      }
    }
  }

  // ------------------------------------------------------------------------ single stepping

  /** Where straight-line execution goes on: behind the instruction, as IF has it, or at the start of a loop whose
      end it is and that runs again. In DECODE_HWLOOP IF knows this already, and after a jump sent ahead too. */
  function Past(pulp: bool, a: Around, y: Core): int {
    if !pulp || y.s.fsm != Decode || y.s.jumpDone then y.fetch.pc
    else if a.loop0.end == y.id.pc + 4 && a.loop0.count > 1 then a.loop0.start
    else if a.loop1.end == y.id.pc + 4 && a.loop1.count > 1 then a.loop1.start
    else y.fetch.pc
  }

  /** Where the program goes on after the instruction, and with which trap registers: the reference for a step. */
  function Successor(pulp: bool, w: Course, y: Core, op: Op): Goal {
    var m := Meant(pulp, w.a, y, op);
    match op
    case OpIllegal => Goal(m.trap, m.fetch.pc)
    case OpEcall => Goal(m.trap, m.fetch.pc)
    case OpMret => Goal(m.trap, m.fetch.pc)
    case OpUret => Goal(m.trap, m.fetch.pc)
    case OpEbreak => if w.forced then Goal(y.t.trap, y.fetch.pc) else Goal(m.trap, m.fetch.pc)
    case OpJump => Goal(y.t.trap, w.a.to.jump)
    case OpBranch => Goal(y.t.trap, if w.taken then w.a.to.branch else Past(pulp, w.a, y))
    case OpPlain => Goal(y.t.trap, Past(pulp, w.a, y))
    case OpWfi => Goal(y.t.trap, Past(pulp, w.a, y))
    case _ => Goal(y.t.trap, y.fetch.pc)
  }

  predicate Through(w: Course, op: Op) {
    op in {OpIllegal, OpEcall, OpMret, OpUret} || (op == OpEbreak && !w.forced)
  }

  /** Jumps and returns are executed in DECODE; a jump when its operand is there, and one that was sent ahead has
      moved the fetch unit. */
  predicate InPlace(w: Course, y: Core, x: Cycle, op: Op) {
    && (op in {OpJump, OpMret, OpUret} ==> y.s.fsm == Decode)
    && (op == OpJump ==> if y.s.jumpDone then y.fetch.pc == w.a.to.jump else !x.i.jrStall)
  }

  /** The stepped instruction leaves ID: nothing disturbs it, and no debug entry is under way. */
  predicate StepsOff(pulp: bool, w: Course, y: Core, x: Cycle, op: Op) {
    && Surrounds(w.a, y, x) && w.a.step && x.i.ebreakForced == w.forced
    && Leaves(pulp, y.s, x.i) && Is(y.id.insn, op) && InPlace(w, y, x, op) && ProperLoops(w.a, y.id.pc)
    && !y.s.debugMode && !y.s.debugReqEntry && !y.s.debugForceWakeup && (y.s.fsm == DecodeHwloop ==> !y.s.illegal)
  }

  lemma StepControl(pulp: bool, w: Course, y: Core, x: Cycle, op: Op)
    requires StepsOff(pulp, w, y, x, op)
    ensures NextFsm(pulp, y.s, x.i) == if Through(w, op) then FlushEx else if op == OpBranch then DbgWaitBranch
                                       else DbgFlush
    ensures HaltIf(pulp, y.s, x.i) && !NextDebugMode(y.s, x.i) && CsrOf(pulp, y.s, x.i) == NO_REQUEST
    ensures !NextReqEntry(pulp, y.s, x.i) && !NextForceWakeup(y.s, x.i)
    ensures NextIllegal(pulp, y.s, x.i) == y.id.insn.illegal
  {
    StepsOffTo(pulp, w, y, x, op);
  }

  lemma StepsOffTo(pulp: bool, w: Course, y: Core, x: Cycle, op: Op)
    requires StepsOff(pulp, w, y, x, op)
    ensures NextFsm(pulp, y.s, x.i) == if Through(w, op) then FlushEx else if op == OpBranch then DbgWaitBranch
                                       else DbgFlush
  {
  }

  lemma StepRedirect(pulp: bool, w: Course, y: Core, x: Cycle, op: Op)
    requires StepsOff(pulp, w, y, x, op) && !Through(w, op)
    ensures var r := RedirectOf(pulp, y.s, x.i);
            (if r.Redirect? then Target(pulp, y, x, r) else y.fetch.pc)
            == match op
               case OpJump => w.a.to.jump
               case OpBranch => Past(pulp, w.a, y)
               case OpPlain => Past(pulp, w.a, y)
               case OpWfi => Past(pulp, w.a, y)
               case _ => y.fetch.pc
  {
  }

  lemma ThroughHeads(pulp: bool, c: T.Config, w: Course, y: Core, x: Cycle, op: Op)
    requires StepsOff(pulp, w, y, x, op) && Through(w, op)
    ensures Heads(pulp, w, y, true, Successor(pulp, w, y, op), Next(pulp, c, y, x))
  {
    StepControl(pulp, w, y, x, op);
    LeaveCycle(pulp, c, y, x, op);
    FlushIsMeant(pulp, w.a, y, Next(pulp, c, y, x), op, x.i);
  }

  lemma StraightMoves(pulp: bool, c: T.Config, w: Course, y: Core, x: Cycle, op: Op)
    requires StepsOff(pulp, w, y, x, op) && !Through(w, op)
    ensures var z, goal := Next(pulp, c, y, x), Successor(pulp, w, y, op);
            && z.id.pc == y.id.pc && z.id.insn == y.id.insn && z.t == y.t && goal.trap == y.t.trap
            && goal.pc == if op == OpBranch && w.taken then w.a.to.branch else z.fetch.pc
  {
    StepControl(pulp, w, y, x, op);
    StepRedirect(pulp, w, y, x, op);
    IdStays(pulp, c, y, x);
    NoRequestKeeps(c, y.t, CsrInput(pulp, y, x.i));
  }

  lemma StraightHeads(pulp: bool, c: T.Config, w: Course, y: Core, x: Cycle, op: Op)
    requires StepsOff(pulp, w, y, x, op) && !Through(w, op)
    ensures Heads(pulp, w, y, false, Successor(pulp, w, y, op), Next(pulp, c, y, x))
  {
    StraightMoves(pulp, c, w, y, x, op);
    StepControl(pulp, w, y, x, op);
  }

  /** A single step: whatever the instruction, its waiting for EX and the gating of the clock, when debug mode is
      entered dpc is the address the program goes on at, dcsr.cause is 4, and the trap registers are those the
      instruction leaves; a trigger match or an ebreak that enters debug mode stops at the instruction itself. */
  lemma StepSavesSuccessor(pulp: bool, c: T.Config, w: Course, y: Core, op: Op, x: Cycle, xs: seq<Cycle>)
    requires StepsOff(pulp, w, y, x, op) && Steps(pulp, c, w, Next(pulp, c, y, x), xs)
    requires Run(pulp, c, Next(pulp, c, y, x), xs).s.debugMode
    ensures Arrived(w, y, Through(w, op), Successor(pulp, w, y, op), Run(pulp, c, Next(pulp, c, y, x), xs))
  {
    var z := Next(pulp, c, y, x);
    if Through(w, op) {
      ThroughHeads(pulp, c, w, y, x, op);
    } else {
      StraightHeads(pulp, c, w, y, x, op);
    }
    StepRun(pulp, c, w, y, Through(w, op), Successor(pulp, w, y, op), z, xs);
  }

  // --------------------------------------------------------------------- the instruction after

  /** The address behind the instruction in ID. */
  function Behind(d: Id): int {
    d.pc + (if d.compressed then 2 else 4)
  }

  /** Stepping over a status access that ends a loop body leaves the loop: dpc is behind the body, where without
      stepping the body would run again. */
  lemma StatusStepLeavesLoop(pulp: bool, w: Course, y: Core)
    requires Repeats(pulp, w.a.loop0, y.id.pc) || Repeats(pulp, w.a.loop1, y.id.pc)
    ensures Successor(pulp, w, y, OpStatus).pc == y.fetch.pc
    ensures Meant(pulp, w.a, y, OpStatus).fetch.pc in {w.a.loop0.start, w.a.loop1.start}
  {
  }

  /** Without hardware loops: IF is behind the instruction in ID, until a jump has been sent ahead of it. */
  predicate Orderly(y: Core) {
    var s, n := y.s, y.id.insn;
    && s.fsm !in {Reset, BootSet, DecodeHwloop} && y.fetch.target.None?
    && (y.id.valid ==> s.fsm in {Decode, DbgFlush})
    && (y.id.valid && s.jumpDone ==> n.jump)
    && (y.id.valid && !s.jumpDone ==> y.fetch.pc == Behind(y.id))
    && (s.fsm in {FlushEx, FlushWb} && n.illegal ==> s.illegal)
    && (s.fsm == XretJump ==> IsReturn(n) && !n.illegal)
  }

  lemma NoLoops(s: State, i: Input)
    ensures !HwlpJump(false, s, i) && !LoopJumpGoes(false, s, i)
    ensures s.fsm != DecodeHwloop ==> NextFsm(false, s, i) != DecodeHwloop
  {
  }

  /** What the controller does in such a state. */
  lemma OrderlyControl(y: Core, i: Input)
    requires Orderly(y) && Presents(y, i)
    ensures var f, r := NextFsm(false, y.s, i), RedirectOf(false, y.s, i);
            && f !in {Reset, BootSet, DecodeHwloop}
            && (f !in {Decode, DbgFlush} ==> HaltIf(false, y.s, i) || r.Redirect?)
            && (r.Redirect? && y.id.valid && !i.idReady && !HaltId(false, y.s, i) && !i.branchTaken ==>
                  y.id.insn.jump && NextJumpDone(false, y.s, i))
  {
    NoLoops(y.s, i);
  }

  lemma OrderlyValid(y: Core, i: Input)
    requires Orderly(y) && Presents(y, i) && y.id.valid
    ensures var f := NextFsm(false, y.s, i);
            f !in {Decode, DbgFlush} ==> i.idReady || HaltId(false, y.s, i)
  {
  }

  lemma OrderlyFlush(y: Core, i: Input)
    requires Orderly(y) && Presents(y, i)
    ensures var f := NextFsm(false, y.s, i);
            && (f in {FlushEx, FlushWb} && y.id.insn.illegal ==> NextIllegal(false, y.s, i))
            && (f == XretJump ==> IsReturn(y.id.insn) && !y.id.insn.illegal)
  {
  }

  lemma JumpDoneIsKept(s: State, i: Input)
    requires s.fsm == Decode && i.instrValid && NextJumpDone(false, s, i)
    ensures s.jumpDone || i.insn.jump
  {
    NoLoops(s, i);
  }

  /** A new instruction in ID has IF behind it. */
  lemma FetchedInOrder(c: T.Config, y: Core, x: Cycle)
    requires y.fetch.target.None? && !x.i.gated && Fetches(false, y.s, x)
    ensures var z := Next(false, c, y, x);
            z.id.valid && !z.s.jumpDone && z.fetch == A.Position(Behind(z.id), A.None)
  {
    NoLoops(y.s, x.i);
  }

  /** One that stays has IF where it was, unless a jump has been sent ahead. */
  lemma StaysInOrder(c: T.Config, y: Core, x: Cycle)
    requires Orderly(y) && Presents(y, x.i) && !x.i.gated && !Fetches(false, y.s, x)
    ensures var z := Next(false, c, y, x);
            && z.fetch.target.None? && z.id.insn == y.id.insn
            && (z.id.valid && z.s.jumpDone ==> z.id.insn.jump)
            && (z.id.valid && !z.s.jumpDone ==> z.fetch.pc == Behind(z.id))
  {
    NoLoops(y.s, x.i);
    OrderlyControl(y, x.i);
    if y.s.fsm == Decode && y.id.valid && NextJumpDone(false, y.s, x.i) {
      JumpDoneIsKept(y.s, x.i);
    }
  }

  lemma OrderlyStep(c: T.Config, y: Core, x: Cycle)
    requires Orderly(y) && Presents(y, x.i)
    ensures Orderly(Next(false, c, y, x))
  {
    if !x.i.gated {
      OrderlyControl(y, x.i);
      if Fetches(false, y.s, x) {
        FetchedInOrder(c, y, x);
      } else {
        StaysInOrder(c, y, x);
        OrderlyFlush(y, x.i);
        if y.id.valid {
          OrderlyValid(y, x.i);
        }
      }
    }
  }

  predicate AllPresent(c: T.Config, y: Core, xs: seq<Cycle>)
    decreases |xs|
  {
    xs == [] || (Presents(y, xs[0].i) && AllPresent(c, Next(false, c, y, xs[0]), xs[1..]))
  }

  lemma {:induction false} OrderlyRun(c: T.Config, y: Core, xs: seq<Cycle>)
    requires Orderly(y) && AllPresent(c, y, xs)
    ensures Orderly(Run(false, c, y, xs))
    decreases |xs|
  {
    if xs != [] {
      OrderlyStep(c, y, xs[0]);
      OrderlyRun(c, Next(false, c, y, xs[0]), xs[1..]);
    }
  }

  lemma SuccessorIsBehind(w: Course, y: Core, op: Op, x: Cycle)
    requires Orderly(y) && StepsOff(false, w, y, x, op)
    requires op in {OpPlain, OpWfi, OpFencei, OpDret, OpStatus} || (op == OpBranch && !w.taken)
    ensures Successor(false, w, y, op).pc == Behind(y.id) && !Through(w, op) && !y.id.insn.ebreak
  {
  }

  /** Without hardware loops, in any state reached from a start in order, the program goes on right behind an
      instruction that does not trap, return, jump or branch: dpc after a step is 2 or 4 bytes on. */
  lemma StepSavesFollowing(c: T.Config, w: Course, y: Core, op: Op, x: Cycle, xs: seq<Cycle>)
    requires Orderly(y) && StepsOff(false, w, y, x, op) && Steps(false, c, w, Next(false, c, y, x), xs)
    requires op in {OpPlain, OpWfi, OpFencei, OpDret, OpStatus} || (op == OpBranch && !w.taken)
    requires Run(false, c, Next(false, c, y, x), xs).s.debugMode
    ensures Run(false, c, Next(false, c, y, x), xs).t.debug.dpc == if w.trigger then y.id.pc else Behind(y.id)
  {
    SuccessorIsBehind(w, y, op, x);
    StepSavesSuccessor(false, c, w, y, op, x, xs);
  }
}
