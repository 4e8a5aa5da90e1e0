/** The loop system with the real aligner registers in place of the fetch position: the controller's pulses and
    redirects meet what the aligner asks for, so the loop results hold with the aligner in the loop. */
module HwLoopFetch {
  import opened Bits
  import opened Words
  import A = Aligner
  import C = Controller
  import H = HwLoop

  /** The loop system of HwLoop, with aligner and prefetcher instead of a position. */
  datatype Core = Core(
    ctl: C.State, idValid: bool, idPc: int, sys: A.System, count0: nat, count1: nat, saved: A.Option<int>)

  /** A cycle of the loop system. While a handler runs, aligner and prefetcher do what it makes them do. */
  datatype Cycle = Cycle(e: H.Env, handler: A.System)

  /** The position the registers stand for. */
  function Fetch(y: Core): A.Position {
    A.Position(y.sys.a.pcQ, y.sys.f.target)
  }

  function View(y: Core): H.Core {
    H.Core(y.ctl, y.idValid, y.idPc, Fetch(y), y.count0, y.count1, y.saved)
  }

  /** What the IF stage asks of the fetch unit in a cycle. */
  datatype Request = Request(jump: bool, pulse: bool, target: int, ready: bool, fetchValid: bool)

  function RequestOf(y: Core, i: C.Input, fetchValid: bool): Request {
    Request(C.RedirectOf(true, y.ctl, i) != C.NoRedirect, C.HwlpJump(true, y.ctl, i), C.HwlpTarget(true, y.ctl, i),
            i.idReady && !C.HaltIf(true, y.ctl, i), fetchValid)
  }

  /** What the aligner sees of it: no word is valid in a cycle with a jump. */
  function FetchInput(mem: A.Memory, sys: A.System, r: Request): A.Input {
    var valid := r.fetchValid && !r.jump;
    A.Input(valid, valid && r.ready, A.WordAt(mem, sys.f.addr), r.jump, r.target, r.pulse, r.target)
  }

  /** The return from a handler is a jump. */
  function ReturnInput(mem: A.Memory, y: Core, pc: int): A.Input {
    A.Input(false, false, A.WordAt(mem, y.sys.f.addr), true, pc, false, 0)
  }

  function NextCycle(mem: A.Memory, p: H.Program, y: Core, i: C.Input, fetchValid: bool): Core {
    var f := FetchInput(mem, y.sys, RequestOf(y, i, fetchValid));
    var delivers := A.Delivers(y.sys.a, f);
    Core(C.Step(true, y.ctl, i),
         if delivers then true else y.idValid && !(i.idReady || C.HaltId(true, y.ctl, i)),
         if delivers then y.sys.a.pcQ else y.idPc,
         A.Next(y.sys, f),
         H.CountNext(p, View(y), i, 0, i.loop0), H.CountNext(p, View(y), i, 1, i.loop1), A.None)
  }

  function Next(mem: A.Memory, p: H.Program, y: Core, x: Cycle): Core {
    if x.e.Return? then
      if y.saved.None? then y
      else
        Core(y.ctl.(fsm := C.Decode, hwlpEnd4 := false, jumpDone := x.e.jumpDone), false, y.idPc,
             A.Next(y.sys, ReturnInput(mem, y, y.saved.value)), y.count0, y.count1, A.None)
    else if y.saved.Some? then y.(sys := x.handler)
    else
      var i := H.InputOf(p, View(y), x.e.idReady, x.e.irq);
      if C.Looks(true, y.ctl, i) && C.TakesIrq(y.ctl, i) then
        Core(C.Step(true, y.ctl, i), false, y.idPc, x.handler, y.count0, y.count1, A.Some(y.idPc))
      else NextCycle(mem, p, y, i, x.e.fetchValid)
  }

  // ------------------------------------------------------------------------- simulation

  /** The two systems agree; the position only matters outside handlers. */
  predicate Same(h: H.Core, y: Core) {
    && h.ctl == y.ctl && h.idValid == y.idValid && h.idPc == y.idPc && h.count0 == y.count0
    && h.count1 == y.count1 && h.saved == y.saved && (y.saved.None? ==> h.fetch == Fetch(y))
  }

  /** A 32-bit instruction at a word address, not the last one of the address space. */
  ghost predicate WideCode(mem: A.Memory, pc: int) {
    A.Aligned(pc) && A.InSpace(pc + 4) && Wide(mem(pc))
  }

  ghost predicate Placed(p: H.Program) {
    A.Aligned(p.start0) && A.Aligned(p.start1)
  }

  /** The aligner stands at a position, in the aligned state. */
  ghost predicate Stands(mem: A.Memory, sys: A.System, p: A.Position) {
    A.Represents(mem, sys, p) && sys.a.fsm == A.Aligned32
  }

  /** Outside handlers it stands at the position; the addresses in ID and on the way back are word addresses. */
  ghost predicate Linked(mem: A.Memory, y: Core) {
    && (y.saved.None? ==> Stands(mem, y.sys, Fetch(y)))
    && (y.saved.Some? ==> A.Aligned(y.saved.value))
    && (y.idValid ==> A.Aligned(y.idPc))
  }

  /** What the controller asks of the fetch unit in a cycle without an interrupt. */
  lemma Requests(p: H.Program, h: H.Core, idReady: bool, irq: bool)
    requires H.Tracks(p, h) && h.saved.None?
    requires var i := H.InputOf(p, h, idReady, irq); !(C.Looks(true, h.ctl, i) && C.TakesIrq(h.ctl, i))
    ensures var i := H.InputOf(p, h, idReady, irq);
            && C.HwlpTarget(true, h.ctl, i) in {p.start0, p.start1}
            && (C.HwlpJump(true, h.ctl, i) ==> h.fetch.target.None? && C.RedirectOf(true, h.ctl, i) == C.NoRedirect)
  {
  }

  lemma StandsFacts(mem: A.Memory, sys: A.System, p: A.Position)
    requires Stands(mem, sys, p)
    ensures sys.a.pcQ == p.pc && sys.a.fsm == A.Aligned32 && (sys.a.hwlpUpdatePcQ <==> p.target.Some?)
  {
  }

  lemma AlignedIsEven(a: int)
    requires A.Aligned(a)
    ensures A.InSpace(a) && a % 4 == 0 && a % 2 == 0
  {
    ModUnique(a, 2, 2 * (a / 4), 0);
  }

  /** The aligner's own condition on its surroundings: pulses come one at a time, to a word address, while an
      aligned 32-bit instruction is about to be delivered. */
  lemma RequestIsAllowed(mem: A.Memory, sys: A.System, r: Request)
    requires sys.a.fsm == A.Aligned32 && Wide(mem(sys.a.pcQ)) && (r.pulse ==> !sys.a.hwlpUpdatePcQ)
    requires A.InSpace(r.target) && r.target % 4 == 0 && r.target % 2 == 0
    ensures A.Allowed(mem, sys, FetchInput(mem, sys, r))
  {
  }

  lemma RequestAllowed(mem: A.Memory, sys: A.System, p: A.Position, r: Request)
    requires Stands(mem, sys, p) && WideCode(mem, p.pc) && A.Aligned(r.target) && (r.pulse ==> p.target.None?)
    ensures A.Allowed(mem, sys, FetchInput(mem, sys, r))
  {
    StandsFacts(mem, sys, p);
    AlignedIsEven(r.target);
    RequestIsAllowed(mem, sys, r);
  }

  /** Where the fetch unit goes. */
  function Moved(p: A.Position, r: Request): A.Position {
    if r.jump then A.Position(r.target, A.None)
    else
      var target := if r.pulse then A.Some(r.target) else p.target;
      if r.fetchValid && r.ready then A.Position(if target.Some? then target.value else p.pc + 4, A.None)
      else A.Position(p.pc, target)
  }

  lemma RequestMoves(mem: A.Memory, sys: A.System, p: A.Position, r: Request)
    requires Stands(mem, sys, p) && WideCode(mem, p.pc) && A.Aligned(r.target) && (r.pulse ==> p.target.None?)
    ensures var f := FetchInput(mem, sys, r);
            && Stands(mem, A.Next(sys, f), Moved(p, r))
            && (A.Delivers(sys.a, f) <==> r.fetchValid && r.ready && !r.jump)
  {
    RequestAllowed(mem, sys, p, r);
    var f := FetchInput(mem, sys, r);
    A.StepFollows(mem, sys, p, f);
    MovedIsMoved(mem, sys, p, r);
  }

  lemma MovedIsMoved(mem: A.Memory, sys: A.System, p: A.Position, r: Request)
    requires Stands(mem, sys, p) && WideCode(mem, p.pc) && A.Aligned(r.target)
    ensures var f := FetchInput(mem, sys, r);
            && A.Moved(mem, p, sys.a, f) == Moved(p, r)
            && (A.Delivers(sys.a, f) <==> r.fetchValid && r.ready && !r.jump)
            && A.Step(sys.a, f).fsm == A.Aligned32
  {
  }

  /** Coming back from a handler, whatever that did to the aligner. */
  lemma ReturnMoves(mem: A.Memory, y: Core, pc: int)
    requires A.Aligned(pc)
    ensures Stands(mem, A.Next(y.sys, ReturnInput(mem, y, pc)), A.Position(pc, A.None))
  {
    AlignedIsEven(pc);
    A.Entry(mem, y.sys, A.Position(pc, A.None), ReturnInput(mem, y, pc));
    JumpIsAligned(y.sys.a, ReturnInput(mem, y, pc));
  }

  lemma JumpIsAligned(s: A.State, i: A.Input)
    requires i.branch && A.Aligned(i.branchAddr)
    ensures A.Step(s, i).fsm == A.Aligned32
  {
    ModUnique(i.branchAddr / 2, 2, i.branchAddr / 4, 0);
  }

  lemma PositionOf(mem: A.Memory, sys: A.System, p: A.Position)
    requires Stands(mem, sys, p)
    ensures A.Position(sys.a.pcQ, sys.f.target) == p && A.Aligned(p.pc)
  {
  }

  // --------------------------------------------------------------------------- one cycle

  /** The fetch side of a cycle without an interrupt. */
  lemma FetchAgrees(mem: A.Memory, p: H.Program, h: H.Core, y: Core, idReady: bool, irq: bool, fetchValid: bool)
    requires H.WellFormed(p) && Placed(p) && H.Tracks(p, h) && h == View(y) && Linked(mem, y) && h.saved.None?
    requires WideCode(mem, y.sys.a.pcQ)
    requires var i := H.InputOf(p, h, idReady, irq); !(C.Looks(true, h.ctl, i) && C.TakesIrq(h.ctl, i))
    ensures var i := H.InputOf(p, h, idReady, irq);
            var f := FetchInput(mem, y.sys, RequestOf(y, i, fetchValid));
            var z := A.Next(y.sys, f);
            && A.Allowed(mem, y.sys, f)
            && (A.Delivers(y.sys.a, f) <==> H.Fetches(h, i, fetchValid))
            && A.Position(z.a.pcQ, z.f.target) == H.FetchNext(h, i, fetchValid)
            && Stands(mem, z, A.Position(z.a.pcQ, z.f.target)) && A.Aligned(y.sys.a.pcQ)
  {
    var r := RequestOf(y, H.InputOf(p, h, idReady, irq), fetchValid);
    Requests(p, h, idReady, irq);
    PositionOf(mem, y.sys, Fetch(y));
    RequestAllowed(mem, y.sys, Fetch(y), r);
    RequestMoves(mem, y.sys, Fetch(y), r);
    PositionOf(mem, A.Next(y.sys, FetchInput(mem, y.sys, r)), Moved(Fetch(y), r));
  }

  /** A cycle of the program without an interrupt. */
  lemma PlainCycle(mem: A.Memory, p: H.Program, h: H.Core, y: Core, x: Cycle)
    requires H.WellFormed(p) && Placed(p) && H.Tracks(p, h) && h == View(y) && Linked(mem, y) && h.saved.None?
    requires WideCode(mem, y.sys.a.pcQ) && x.e.Cycle?
    requires var i := H.InputOf(p, h, x.e.idReady, x.e.irq); !(C.Looks(true, h.ctl, i) && C.TakesIrq(h.ctl, i))
    ensures H.Next(p, h, x.e) == View(Next(mem, p, y, x)) && Linked(mem, Next(mem, p, y, x))
  {
    FetchAgrees(mem, p, h, y, x.e.idReady, x.e.irq, x.e.fetchValid);
  }

  /** Every cycle: the two systems stay together. */
  lemma CycleAgrees(mem: A.Memory, p: H.Program, h: H.Core, y: Core, x: Cycle)
    requires H.WellFormed(p) && Placed(p) && H.Represents(p, h) && Same(h, y) && Linked(mem, y)
    requires y.saved.None? ==> WideCode(mem, y.sys.a.pcQ)
    ensures Same(H.Next(p, h, x.e), Next(mem, p, y, x)) && Linked(mem, Next(mem, p, y, x))
  {
    if y.saved.Some? {
      if x.e.Return? {
        ReturnMoves(mem, y, y.saved.value);
        PositionOf(mem, A.Next(y.sys, ReturnInput(mem, y, y.saved.value)), A.Position(y.saved.value, A.None));
      }
    } else if x.e.Cycle? {
      assert h == View(y);
      var i := H.InputOf(p, h, x.e.idReady, x.e.irq);
      if !(C.Looks(true, h.ctl, i) && C.TakesIrq(h.ctl, i)) {
        PlainCycle(mem, p, h, y, x);
      }
    }
  }

  // ------------------------------------------------------------------------- whole runs

  function Run(mem: A.Memory, p: H.Program, y: Core, xs: seq<Cycle>): Core
    decreases |xs|
  {
    if xs == [] then y else Run(mem, p, Next(mem, p, y, xs[0]), xs[1..])
  }

  function Envs(xs: seq<Cycle>): seq<H.Env>
    decreases |xs|
  {
    if xs == [] then [] else [xs[0].e] + Envs(xs[1..])
  }

  /** The addresses of the executed instructions. */
  function Retired(mem: A.Memory, p: H.Program, y: Core, xs: seq<Cycle>): seq<int>
    decreases |xs|
  {
    if xs == [] then []
    else
      (if H.Retires(p, View(y), xs[0].e) then [y.idPc] else []) + Retired(mem, p, Next(mem, p, y, xs[0]), xs[1..])
  }

  /** Outside handlers the program is 32-bit code at word addresses. */
  ghost predicate InWideCode(mem: A.Memory, p: H.Program, y: Core, xs: seq<Cycle>)
    decreases |xs|
  {
    xs == [] ||
    ((y.saved.None? ==> WideCode(mem, y.sys.a.pcQ)) && InWideCode(mem, p, Next(mem, p, y, xs[0]), xs[1..]))
  }

  lemma RetiresAgrees(p: H.Program, h: H.Core, y: Core, e: H.Env)
    requires Same(h, y)
    ensures H.Retires(p, h, e) == H.Retires(p, View(y), e)
  {
  }

  /** The system with the aligner executes what the loop system executes. */
  lemma {:induction false} RunAgrees(mem: A.Memory, p: H.Program, h: H.Core, y: Core, xs: seq<Cycle>)
    requires H.WellFormed(p) && Placed(p) && H.Represents(p, h) && Same(h, y) && Linked(mem, y)
    requires InWideCode(mem, p, y, xs)
    ensures Retired(mem, p, y, xs) == H.Retired(p, h, Envs(xs))
    ensures Same(H.Run(p, h, Envs(xs)), Run(mem, p, y, xs))
    decreases |xs|
  {
    if xs != [] {
      var x, rest := xs[0], xs[1..];
      assert Envs(xs)[0] == x.e && Envs(xs)[1..] == Envs(rest);
      H.CoreStep(p, h, x.e);
      CycleAgrees(mem, p, h, y, x);
      RetiresAgrees(p, h, y, x.e);
      RunAgrees(mem, p, H.Next(p, h, x.e), Next(mem, p, y, x), rest);
    }
  }

  /** Such a run begins with a jump to a word address, whatever the aligner was doing before. */
  lemma Entry(mem: A.Memory, p: H.Program, y: Core, before: A.System, pc: int)
    requires y.ctl.fsm == C.Decode && !y.ctl.debugMode && !y.ctl.debugReqQ && !y.idValid && y.saved.None?
    requires A.Aligned(pc) && y.sys == A.Next(before, ReturnInput(mem, y.(sys := before), pc))
    ensures H.Represents(p, View(y)) && Linked(mem, y) && H.Standing(View(y)).pc == pc
  {
    ReturnMoves(mem, y.(sys := before), pc);
    PositionOf(mem, y.sys, A.Position(pc, A.None));
    H.Entry(p, View(y));
  }

  // ----------------------------------------------------------------------- the loop nest

  /** The memory holds 32-bit code at every word address from `lo` to `hi`. */
  ghost predicate CodeIn(mem: A.Memory, lo: int, hi: int) {
    forall pc :: lo <= pc <= hi && A.Aligned(pc) ==> WideCode(mem, pc)
  }

  /** For the next `n` instructions the program stands between `lo` and `hi`. */
  ghost predicate StandsIn(p: H.Program, a: H.Arch, n: nat, lo: int, hi: int) {
    forall m: nat :: m <= n ==> lo <= H.Reached(p, a, m).pc <= hi
  }

  lemma StandsOn(p: H.Program, a: H.Arch, n: nat, lo: int, hi: int)
    requires n > 0 && StandsIn(p, a, n, lo, hi)
    ensures StandsIn(p, H.ArchNext(p, a), n - 1, lo, hi)
  {
    forall m: nat | m <= n - 1
      ensures lo <= H.Reached(p, H.ArchNext(p, a), m).pc <= hi
    {
      assert H.Reached(p, a, m + 1) == H.Reached(p, H.ArchNext(p, a), m);
    }
  }

  /** The fetch position is where the program stands, or one word further, or where a loop goes back to. */
  lemma FetchesNear(p: H.Program, h: H.Core, lo: int, hi: int)
    requires H.Tracks(p, h) && h.saved.None? && lo <= H.Standing(h).pc <= hi
    requires lo <= p.start0 <= hi && lo <= p.start1 <= hi
    ensures lo <= h.fetch.pc <= hi + 4
  {
  }

  lemma FetchesCode(mem: A.Memory, p: H.Program, h: H.Core, y: Core, lo: int, hi: int)
    requires H.Represents(p, h) && Same(h, y) && Linked(mem, y) && y.saved.None?
    requires lo <= H.Standing(h).pc <= hi && lo <= p.start0 <= hi && lo <= p.start1 <= hi && CodeIn(mem, lo, hi + 4)
    ensures WideCode(mem, y.sys.a.pcQ)
  {
    FetchesNear(p, h, lo, hi);
    PositionOf(mem, y.sys, Fetch(y));
  }

  /** While the program stands in a region of 32-bit code, all that is fetched is 32-bit code. */
  lemma {:induction false} StaysInCode(mem: A.Memory, p: H.Program, h: H.Core, y: Core, xs: seq<Cycle>, lo: int,
                                       hi: int)
    requires H.WellFormed(p) && Placed(p) && H.Represents(p, h) && Same(h, y) && Linked(mem, y)
    requires lo <= p.start0 <= hi && lo <= p.start1 <= hi && CodeIn(mem, lo, hi + 4)
    requires StandsIn(p, H.Standing(h), |H.Retired(p, h, Envs(xs))|, lo, hi)
    ensures InWideCode(mem, p, y, xs)
    decreases |xs|
  {
    if xs != [] {
      var x, rest := xs[0], xs[1..];
      assert Envs(xs)[0] == x.e && Envs(xs)[1..] == Envs(rest);
      assert H.Reached(p, H.Standing(h), 0) == H.Standing(h);
      if y.saved.None? {
        FetchesCode(mem, p, h, y, lo, hi);
      }
      H.CoreStep(p, h, x.e);
      CycleAgrees(mem, p, h, y, x);
      if H.Retires(p, h, x.e) {
        StandsOn(p, H.Standing(h), |H.Retired(p, h, Envs(xs))|, lo, hi);
      }
      StaysInCode(mem, p, H.Next(p, h, x.e), Next(mem, p, y, x), rest, lo, hi);
    }
  }

  lemma {:induction false} EnvsOf(xs: seq<Cycle>, k: nat)
    requires k <= |xs|
    ensures |Envs(xs)| == |xs| && Envs(xs[..k]) == Envs(xs)[..k]
    decreases |xs|
  {
    if k > 0 {
      EnvsOf(xs[1..], k - 1);
      assert xs[..k][1..] == xs[1..][..k - 1];
    } else if xs != [] {
      EnvsOf(xs[1..], 0);
    }
  }

  /** The bodies run exactly the programmed number of times with the aligner registers in the loop: with 32-bit
      code from the start of the nest to one word behind its end, the executed addresses are a part of the
      unrolled nest up to some cycle `k`, and if the run goes on after that, or moves often enough, they are
      all of it, both counts are zero, and execution stands behind the nest. */
  lemma BodiesRunExactly(mem: A.Memory, p: H.Program, setup: int, inner: nat, y: Core, xs: seq<Cycle>)
    returns (k: nat)
    requires H.Nest(p, setup, inner) && inner >= 1 && Placed(p) && CodeIn(mem, p.start1, p.end1 + 4)
    requires H.Represents(p, View(y)) && Linked(mem, y)
    requires H.Standing(View(y)).pc == p.start1 && y.count1 >= 1
    ensures k <= |xs|
    ensures var pcs, unrolled := Retired(mem, p, y, xs[..k]), H.Repeat(H.OuterBody(p, inner), y.count1);
            && pcs <= unrolled
            && (k < |xs| || H.Suffices(p, View(y), Envs(xs), |unrolled|) ==> pcs == unrolled)
            && (pcs == unrolled ==> H.Standing(View(Run(mem, p, y, xs[..k]))) == H.Arch(p.end1, 0, 0))
  {
    var h := View(y);
    k := H.BodiesRunExactly(p, setup, inner, h, Envs(xs));
    EnvsOf(xs, |xs|);
    EnvsOf(xs, k);
    var n := |H.Retired(p, h, Envs(xs[..k]))|;
    forall m: nat | m <= n
      ensures p.start1 <= H.Reached(p, H.Standing(h), m).pc <= p.end1
    {
      H.NestIsKept(p, setup, inner, H.Standing(h), m);
    }
    StaysInCode(mem, p, h, y, xs[..k], p.start1, p.end1);
    RunAgrees(mem, p, h, y, xs[..k]);
    StandingAgrees(H.Run(p, h, Envs(xs[..k])), Run(mem, p, y, xs[..k]));
  }

  lemma StandingAgrees(h: H.Core, y: Core)
    requires Same(h, y)
    ensures H.Standing(h) == H.Standing(View(y))
  {
  }
}
