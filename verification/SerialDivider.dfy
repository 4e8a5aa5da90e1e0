/** The serial divider of rtl/cv32e40p_alu_div.sv at any data width `w`. */
module SerialDivider {
  import opened Bits
  import opened IsaDivision

  datatype Fsm = Idle | Divide | Finish

  datatype Input = Input(
    opA: nat, opB: nat, opBShift: nat, opBIsZero: bool,
    opBSign: bool, opCode: Op, inVld: bool, outRdy: bool)

  datatype State = State(
    fsm: Fsm, aReg: nat, bReg: nat, resReg: nat, cnt: nat,
    remSel: bool, compInv: bool, resInv: bool)

  const RESET := State(Idle, 0, 0, 0, 0, false, false, false)

  ghost predicate InRange(w: nat, i: Input) {
    w > 0 && i.opA < Pow2(w) && i.opB < Pow2(w)
  }

  ghost predicate Valid(w: nat, s: State) {
    w > 0 && s.aReg < Pow2(w) && s.bReg < Pow2(w) && s.resReg < Pow2(w)
  }

  // ---------------------------------------------------------------- datapath

  predicate LoadEn(s: State, i: Input) {
    s.fsm == Idle && i.inVld
  }

  /** The operand signs differ in a signed operation. */
  predicate SignsDiffer(w: nat, i: Input)
    requires w > 0
  {
    i.opCode.IsSigned() && Msb(w, i.opA) != i.opBSign
  }

  predicate AbComp(s: State, i: Input) {
    (s.aReg == s.bReg || ((s.aReg > s.bReg) != s.compInv)) && (s.aReg != 0 || i.opBIsZero)
  }

  /** The right shift of the divisor fills with the comparison flag. */
  function BShifted(w: nat, s: State): nat
    requires w > 0
  {
    (if s.compInv then Pow2(w - 1) else 0) + s.bReg / 2
  }

  function AddOut(w: nat, s: State, i: Input): nat
    requires w > 0
  {
    if LoadEn(s, i) then
      if SignsDiffer(w, i) then Word(w, 0 - i.opA) else Word(w, i.opA)
    else
      Word(w, s.aReg - s.bReg)
  }

  function ResShifted(w: nat, s: State, bit: bool): nat
    requires w > 0
  {
    (if bit then Pow2(w - 1) else 0) + s.resReg / 2
  }

  /** Output valid. */
  predicate OutVld(s: State, i: Input) {
    (s.fsm == Idle && !i.inVld) || s.fsm == Finish
  }

  /** Output data. */
  function Res(w: nat, s: State): nat {
    var out := if s.remSel then s.aReg else Reverse(w, s.resReg);
    if s.resInv then Word(w, 0 - out) else out
  }

  function Step(w: nat, s: State, i: Input): State
    requires w > 0
  {
    match s.fsm
    case Idle =>
      if i.inVld then
        State(Divide, AddOut(w, s, i), i.opB, 0, i.opBShift,
              i.opCode.IsRem(), i.opBSign,
              (!i.opBIsZero || i.opCode.IsRem()) && SignsDiffer(w, i))
      else s.(cnt := if s.cnt != 0 then s.cnt - 1 else 0)
    case Divide =>
      var bit := AbComp(s, i);
      s.(fsm := if s.cnt == 0 then Finish else Divide,
         aReg := if bit then AddOut(w, s, i) else s.aReg,
         bReg := BShifted(w, s),
         resReg := ResShifted(w, s, bit),
         cnt := if s.cnt != 0 then s.cnt - 1 else 0)
    case Finish =>
      s.(fsm := if i.outRdy then Idle else Finish,
         cnt := if s.cnt != 0 then s.cnt - 1 else 0)
  }

  function Run(w: nat, s: State, ins: seq<Input>): State
    requires w > 0
    decreases |ins|
  {
    if ins == [] then s else Step(w, Run(w, s, ins[..|ins| - 1]), ins[|ins| - 1])
  }

  // ------------------------------------------------- magnitudes of both signs

  /** Magnitude of a register read as non-negative, or, for `neg`, as zero or negative. */
  function Mag(w: nat, neg: bool, x: nat): nat {
    if neg && x != 0 then (if x <= Pow2(w) then Pow2(w) - x else 0) else x
  }

  /** Unsigned comparison, or the inverted one on negative words, compares magnitudes. */
  lemma CompareIsMagnitude(w: nat, s: State, i: Input)
    requires Valid(w, s) && !i.opBIsZero && s.bReg != 0
    ensures AbComp(s, i) <==> Mag(w, s.compInv, s.aReg) >= Mag(w, s.compInv, s.bReg)
  {
  }

  /** Modular subtraction subtracts magnitudes when the comparison succeeds. */
  lemma SubtractIsMagnitude(w: nat, neg: bool, a: nat, b: nat)
    requires a < Pow2(w) && b < Pow2(w) && Mag(w, neg, a) >= Mag(w, neg, b) > 0
    ensures Mag(w, neg, Word(w, a - b)) == Mag(w, neg, a) - Mag(w, neg, b)
  {
  }

  /** The sign-filled shift halves an even magnitude. */
  lemma ShiftIsMagnitude(w: nat, s: State, m: nat)
    requires Valid(w, s) && m > 0 && Mag(w, s.compInv, s.bReg) == 2 * m
    requires s.compInv ==> s.bReg >= Pow2(w - 1)
    ensures BShifted(w, s) < Pow2(w) && Mag(w, s.compInv, BShifted(w, s)) == m
    ensures s.compInv ==> BShifted(w, s) >= Pow2(w - 1)
  {
  }

  lemma ResShiftAppends(w: nat, s: State, bit: bool)
    requires Valid(w, s)
    ensures ResShifted(w, s, bit) < Pow2(w)
    ensures Reverse(w, ResShifted(w, s, bit))
         == Word(w, 2 * Reverse(w, s.resReg) + if bit then 1 else 0)
  {
    ReverseShiftIn(w, s.resReg, if bit then 1 else 0);
  }

  // ------------------------------------------------------- one DIVIDE cycle

  /** Before the compare of a DIVIDE cycle: `q` holds the quotient bits so far, and the
      magnitude `mu` of the sign-matched dividend is `q` times the shifted divisor plus AReg. */
  ghost predicate Dividing(w: nat, s: State, k: nat, beta: nat, mu: nat) {
    && Valid(w, s) && s.fsm == Divide && s.cnt <= k < w && beta > 0
    && Mag(w, s.compInv, s.bReg) == beta * Pow2(s.cnt)
    && (s.compInv ==> s.bReg >= Pow2(w - 1))
    && Mag(w, s.compInv, s.aReg) < 2 * Mag(w, s.compInv, s.bReg)
    && Reverse(w, s.resReg) < Pow2(k - s.cnt)
    && mu == Reverse(w, s.resReg) * (2 * Mag(w, s.compInv, s.bReg)) + Mag(w, s.compInv, s.aReg)
  }

  /** After the last compare: quotient and remainder of the magnitudes. */
  ghost predicate Divided(w: nat, s: State, beta: nat, mu: nat) {
    && Valid(w, s) && s.fsm == Finish && beta > 0
    && Mag(w, s.compInv, s.aReg) == mu % beta
    && Reverse(w, s.resReg) == mu / beta
  }

  lemma QuotientBit(p: nat, q: nat, a: nat, mu: nat, bit: nat)
    requires p > 0 && a < 2 * p && mu == q * (2 * p) + a
    requires bit == if a >= p then 1 else 0
    ensures var a' := if bit == 1 then a - p else a;
            0 <= a' < p && mu == (2 * q + bit) * p + a'
  {
    assert (2 * q + bit) * p == q * (2 * p) + bit * p;
  }

  /** What one DIVIDE cycle does to the magnitudes `a` and `p` and the quotient bits `q`. */
  lemma CycleOnMagnitudes(w: nat, s: State, i: Input, k: nat, bit: nat)
    requires Valid(w, s) && s.fsm == Divide && s.cnt <= k < w && !i.opBIsZero
    requires Reverse(w, s.resReg) < Pow2(k - s.cnt)
    requires Mag(w, s.compInv, s.bReg) > 0
    requires bit == if Mag(w, s.compInv, s.aReg) >= Mag(w, s.compInv, s.bReg) then 1 else 0
    ensures var t, inv := Step(w, s, i), s.compInv;
            && t.aReg < Pow2(w) && t.resReg < Pow2(w) && t.compInv == inv
            && Mag(w, inv, t.aReg) == Mag(w, inv, s.aReg) - (if bit == 1 then Mag(w, inv, s.bReg) else 0)
            && Reverse(w, t.resReg) == 2 * Reverse(w, s.resReg) + bit < Pow2(k - s.cnt + 1)
  {
    CompareIsMagnitude(w, s, i);
    if bit == 1 {
      SubtractIsMagnitude(w, s.compInv, s.aReg, s.bReg);
    }
    QuotientGrows(w, s, k, bit);
  }

  /** Before the last cycle: the divisor is halved and the invariant is kept. */
  lemma MiddleCycle(w: nat, s: State, i: Input, k: nat, beta: nat, mu: nat, bit: nat)
    requires Dividing(w, s, k, beta, mu) && !i.opBIsZero && s.cnt > 0
    requires bit == if Mag(w, s.compInv, s.aReg) >= Mag(w, s.compInv, s.bReg) then 1 else 0
    ensures var t := Step(w, s, i); t.cnt == s.cnt - 1 && Dividing(w, t, k, beta, mu)
  {
    var c, p := s.cnt, Mag(w, s.compInv, s.bReg);
    QuotientBit(p, Reverse(w, s.resReg), Mag(w, s.compInv, s.aReg), mu, bit);
    CycleOnMagnitudes(w, s, i, k, bit);
    PositiveProduct(beta, c - 1);
    HalfProduct(beta, c - 1);
    ShiftIsMagnitude(w, s, beta * Pow2(c - 1));
  }

  /** The last cycle leaves quotient and remainder. */
  lemma LastCycle(w: nat, s: State, i: Input, k: nat, beta: nat, mu: nat, bit: nat)
    requires Dividing(w, s, k, beta, mu) && !i.opBIsZero && s.cnt == 0
    requires bit == if Mag(w, s.compInv, s.aReg) >= Mag(w, s.compInv, s.bReg) then 1 else 0
    ensures Divided(w, Step(w, s, i), beta, mu)
  {
    var a, p, q := Mag(w, s.compInv, s.aReg), Mag(w, s.compInv, s.bReg), Reverse(w, s.resReg);
    UnitProduct(beta);
    QuotientBit(p, q, a, mu, bit);
    CycleOnMagnitudes(w, s, i, k, bit);
    ModUnique(mu, beta, 2 * q + bit, if bit == 1 then a - p else a);
    StepBReg(w, s, i);
  }

  /** A DIVIDE cycle keeps the quotient-times-divisor identity and the bound on AReg, for
      divisors of either sign, and the last one leaves quotient and remainder. */
  lemma DivideCycle(w: nat, s: State, i: Input, k: nat, beta: nat, mu: nat)
    requires Dividing(w, s, k, beta, mu) && !i.opBIsZero
    ensures var t := Step(w, s, i);
            && t.compInv == s.compInv && t.remSel == s.remSel && t.resInv == s.resInv
            && if s.cnt > 0 then t.cnt == s.cnt - 1 && Dividing(w, t, k, beta, mu)
               else Divided(w, t, beta, mu)
  {
    var bit := if Mag(w, s.compInv, s.aReg) >= Mag(w, s.compInv, s.bReg) then 1 else 0;
    if s.cnt > 0 {
      MiddleCycle(w, s, i, k, beta, mu, bit);
    } else {
      LastCycle(w, s, i, k, beta, mu, bit);
    }
  }

  lemma StepBReg(w: nat, s: State, i: Input)
    requires Valid(w, s) && s.fsm == Divide
    ensures Step(w, s, i).bReg < Pow2(w)
  {
  }

  lemma UnitProduct(beta: nat)
    ensures beta * Pow2(0) == beta
  {
  }

  lemma PositiveProduct(beta: nat, c: nat)
    requires beta > 0
    ensures beta * Pow2(c) > 0
  {
  }

  lemma HalfProduct(beta: nat, c: nat)
    ensures beta * Pow2(c + 1) == 2 * (beta * Pow2(c))
  {
  }

  lemma QuotientGrows(w: nat, s: State, k: nat, bit: nat)
    requires Valid(w, s) && s.cnt <= k < w && bit <= 1 && Reverse(w, s.resReg) < Pow2(k - s.cnt)
    ensures var r := ResShifted(w, s, bit == 1);
            r < Pow2(w) && Reverse(w, r) == 2 * Reverse(w, s.resReg) + bit < Pow2(k - s.cnt + 1)
  {
    ResShiftAppends(w, s, bit == 1);
    Pow2Mono(k - s.cnt + 1, w);
    var v := 2 * Reverse(w, s.resReg) + bit;
  }

  // --------------------------------------------------------------- whole runs

  /** What the divider needs at its inputs for divisor `b`: a non-zero divisor arrives shifted up
      until its magnitude fills the word; zero arrives as zero with a full-length count. */
  ghost predicate Normalised(w: nat, i: Input, b: int) {
    && InRange(w, i) && i.inVld
    && (i.opBIsZero <==> b == 0)
    && (i.opBSign <==> b < 0)
    && (b < 0 ==> i.opCode.IsSigned())
    && if b == 0 then i.opB == 0 && i.opBShift + 1 >= w
       else
         && i.opBShift < w
         && Mag(w, b < 0, i.opB) == Abs(b) * Pow2(i.opBShift)
         && (if b < 0 then i.opB >= Pow2(w - 1) && 2 * Mag(w, true, i.opB) > Pow2(w - 1)
             else i.opB >= Pow2(w - 1))
  }

  /** Of all inputs only the zero flag is read after the load. */
  ghost predicate Held(ins: seq<Input>) {
    forall j :: 0 <= j < |ins| ==> ins[j].opBIsZero == ins[0].opBIsZero
  }

  /** The flags stored by the load. */
  ghost predicate Loaded(w: nat, s: State, i: Input)
    requires w > 0
  {
    && s.compInv == i.opBSign && s.remSel == i.opCode.IsRem()
    && s.resInv == ((!i.opBIsZero || i.opCode.IsRem()) && SignsDiffer(w, i))
  }

  /** The load negates the dividend exactly when its sign differs from the divisor's. */
  lemma LoadedDividend(w: nat, s: State, i: Input, b: int)
    requires s.fsm == Idle && Normalised(w, i, b) && b != 0
    ensures var t := Step(w, s, i);
            t.aReg < Pow2(w) && Mag(w, i.opBSign, t.aReg) == Abs(Operand(i.opCode, w, i.opA))
  {
    NegatedTwice(w, i.opA);
    WordWraps(w, i.opA);
  }

  lemma LoadNonZero(w: nat, s: State, i: Input, b: int)
    requires s.fsm == Idle && Normalised(w, i, b) && b != 0
    ensures var t := Step(w, s, i);
            Loaded(w, t, i) && t.cnt == i.opBShift
            && Dividing(w, t, i.opBShift, Abs(b), Abs(Operand(i.opCode, w, i.opA)))
  {
    LoadedDividend(w, s, i, b);
    ReverseZero(w);
  }

  lemma {:induction false} ReverseZero(w: nat)
    ensures Reverse(w, 0) == 0
  {
    if w > 0 {
      ReverseZero(w - 1);
    }
  }

  lemma {:induction false} RunNonZero(w: nat, s: State, ins: seq<Input>, b: int)
    requires s.fsm == Idle && 1 <= |ins| && Normalised(w, ins[0], b) && b != 0 && Held(ins)
    requires |ins| <= ins[0].opBShift + 2
    ensures var t, k := Run(w, s, ins), ins[0].opBShift;
            var mu := Abs(Operand(ins[0].opCode, w, ins[0].opA));
            && Loaded(w, t, ins[0])
            && if |ins| <= k + 1 then t.cnt == k + 1 - |ins| && Dividing(w, t, k, Abs(b), mu)
               else Divided(w, t, Abs(b), mu)
    decreases |ins|
  {
    var n := |ins| - 1;
    var before := ins[..n];
    if n == 0 {
      LoadNonZero(w, s, ins[0], b);
      assert Run(w, s, before) == s;
    } else {
      assert before[0] == ins[0] && forall j :: 0 <= j < n ==> before[j] == ins[j];
      RunNonZero(w, s, before, b);
      assert ins[n].opBIsZero == ins[0].opBIsZero;
      DivideCycle(w, Run(w, s, before), ins[n], ins[0].opBShift, Abs(b), Abs(Operand(ins[0].opCode, w, ins[0].opA)));
    }
  }

  function Min(a: nat, b: nat): nat {
    if a < b then a else b
  }

  lemma ZeroCycle(w: nat, s: State, i: Input)
    requires Valid(w, s) && s.fsm == Divide && s.bReg == 0 && !s.compInv && i.opBIsZero
    ensures var t := Step(w, s, i);
            && Valid(w, t) && t == s.(fsm := t.fsm, resReg := t.resReg, cnt := t.cnt)
            && Reverse(w, t.resReg) == Word(w, 2 * Reverse(w, s.resReg) + 1)
            && (if s.cnt > 0 then t.fsm == Divide && t.cnt == s.cnt - 1 else t.fsm == Finish)
  {
    ResShiftAppends(w, s, true);
  }

  /** `n` cycles into a division by zero: the dividend is untouched and n - 1 quotient bits are set. */
  ghost predicate Zeroing(w: nat, s: State, t: State, i: Input, n: nat)
    requires w > 0 && n > 0
  {
    && Valid(w, t) && Loaded(w, t, i) && t.bReg == 0
    && t.aReg == Step(w, s, i).aReg
    && Reverse(w, t.resReg) == Pow2(Min(n - 1, w)) - 1
    && (if n <= i.opBShift + 1 then t.fsm == Divide && t.cnt == i.opBShift + 1 - n else t.fsm == Finish)
  }

  lemma ZeroLoad(w: nat, s: State, i: Input)
    requires s.fsm == Idle && Normalised(w, i, 0)
    ensures Zeroing(w, s, Step(w, s, i), i, 1)
  {
    ReverseZero(w);
  }

  lemma ZeroStep(w: nat, s: State, t: State, i: Input, live: Input, n: nat)
    requires Normalised(w, i, 0) && live.opBIsZero && 0 < n <= i.opBShift + 1 && Zeroing(w, s, t, i, n)
    ensures Zeroing(w, s, Step(w, t, live), i, n + 1)
  {
    ZeroCycle(w, t, live);
    AllOnes(w, n);
  }

  /** Division by zero: every compare succeeds and subtracts nothing. */
  lemma {:induction false} RunZero(w: nat, s: State, ins: seq<Input>)
    requires s.fsm == Idle && 1 <= |ins| && Normalised(w, ins[0], 0) && Held(ins)
    requires |ins| <= ins[0].opBShift + 2
    ensures Zeroing(w, s, Run(w, s, ins), ins[0], |ins|)
    decreases |ins|
  {
    var n := |ins| - 1;
    var before := ins[..n];
    if n == 0 {
      assert Run(w, s, before) == s;
      ZeroLoad(w, s, ins[0]);
    } else {
      assert before[0] == ins[0] && forall j :: 0 <= j < n ==> before[j] == ins[j];
      RunZero(w, s, before);
      assert ins[n].opBIsZero == ins[0].opBIsZero;
      ZeroStep(w, s, Run(w, s, before), ins[0], ins[n], n);
    }
  }

  lemma AllOnes(w: nat, n: nat)
    requires w > 0 && n > 0
    ensures Word(w, 2 * (Pow2(Min(n - 1, w)) - 1) + 1) == Pow2(Min(n, w)) - 1
  {
    if n <= w {
      Pow2Mono(n, w);
    } else {
    }
  }

  /** The register pair of a finished division, read through the output multiplexers, is the
      rounded-to-zero quotient or the remainder with the dividend's sign. */
  lemma FinishedResult(w: nat, t: State, i: Input, b: int)
    requires Normalised(w, i, b) && b != 0 && Loaded(w, t, i)
    requires Divided(w, t, Abs(b), Abs(Operand(i.opCode, w, i.opA)))
    ensures Res(w, t) == Truncated(i.opCode, w, Operand(i.opCode, w, i.opA), b)
  {
    var r, q := if t.compInv && t.aReg != 0 then Pow2(w) - t.aReg else t.aReg, Reverse(w, t.resReg);
    NegatedTwice(w, r);
    NegatedTwice(w, q);
    WordWraps(w, r);
    WordWraps(w, q);
  }

  /** From IDLE, a normalised divisor and a held zero flag give, after the load and shift+1 DIVIDE
      cycles and not before, a valid output equal to the ISA result of opA by `b`. */
  lemma DivisionRun(w: nat, s: State, ins: seq<Input>, b: int)
    requires s.fsm == Idle && 1 <= |ins| <= ins[0].opBShift + 2
    requires Normalised(w, ins[0], b) && Held(ins)
    ensures var t := Run(w, s, ins);
            if |ins| < ins[0].opBShift + 2 then t.fsm == Divide
            else t.fsm == Finish && Res(w, t) == ValueResult(ins[0].opCode, w, ins[0].opA, b)
  {
    var i, t := ins[0], Run(w, s, ins);
    if b != 0 {
      RunNonZero(w, s, ins, b);
      if t.fsm == Finish {
        FinishedResult(w, t, i, b);
      }
    } else {
      RunZero(w, s, ins);
      NegatedTwice(w, i.opA);
      WordWraps(w, i.opA);
    }
  }

  /** The ISA result for a divisor given by value, overflow included. */
  function ValueResult(op: Op, w: nat, rs1: nat, b: int): nat
    requires w > 0
  {
    if b == 0 then (if op.IsRem() then rs1 else Pow2(w) - 1)
    else Truncated(op, w, Operand(op, w, rs1), b)
  }

  lemma ValueResultIsIsa(op: Op, w: nat, rs1: nat, rs2: nat)
    requires w > 0 && rs1 < Pow2(w) && rs2 < Pow2(w)
    ensures ValueResult(op, w, rs1, Operand(op, w, rs2)) == Result(op, w, rs1, rs2)
  {
    if Overflows(op, w, rs1, rs2) {
      OverflowIsTruncated(op, w);
    }
  }

  lemma StepValid(w: nat, s: State, i: Input)
    requires Valid(w, s) && InRange(w, i)
    ensures Valid(w, Step(w, s, i))
  {
    ResShiftAppends(w, s, AbComp(s, i));
    assert BShifted(w, s) < Pow2(w) && AddOut(w, s, i) < Pow2(w);
  }

  /** A finished result stays until it is taken. */
  lemma ResultHeld(w: nat, s: State, i: Input)
    requires w > 0 && s.fsm == Finish
    ensures var t := Step(w, s, i);
            Res(w, t) == Res(w, s) && t.fsm == if i.outRdy then Idle else Finish
  {
  }

  /** The output of a division is valid from the cycle it is finished, for as long as it is not taken, and no
      longer; only the zero flag has to be held, and that only until then. */
  lemma {:induction false} ValidUntilTaken(w: nat, s: State, ins: seq<Input>, b: int)
    requires s.fsm == Idle && 1 <= |ins| && ins[0].opBShift + 2 <= |ins|
    requires Normalised(w, ins[0], b) && Held(ins[..ins[0].opBShift + 2])
    requires forall j :: ins[0].opBShift + 2 <= j < |ins| ==> !ins[j].outRdy
    ensures var t := Run(w, s, ins);
            && t.fsm == Finish && Res(w, t) == ValueResult(ins[0].opCode, w, ins[0].opA, b)
            && (forall i: Input :: OutVld(t, i) && Step(w, t, i).fsm == if i.outRdy then Idle else Finish)
            && (forall take: Input, i: Input :: take.outRdy ==> (OutVld(Step(w, t, take), i) <==> !i.inVld))
    decreases |ins|
  {
    var n := |ins| - 1;
    if |ins| == ins[0].opBShift + 2 {
      assert ins[..|ins|] == ins;
      DivisionRun(w, s, ins, b);
    } else {
      var before := ins[..n];
      assert before[..ins[0].opBShift + 2] == ins[..ins[0].opBShift + 2];
      ValidUntilTaken(w, s, before, b);
      ResultHeld(w, Run(w, s, before), ins[n]);
    }
    forall i: Input
      ensures Step(w, Run(w, s, ins), i).fsm == if i.outRdy then Idle else Finish
    {
      ResultHeld(w, Run(w, s, ins), i);
    }
    forall take: Input, i: Input | take.outRdy
      ensures OutVld(Step(w, Run(w, s, ins), take), i) <==> !i.inVld
    {
      TakenLeavesValid(w, Run(w, s, ins), take, i);
    }
  }

  // ---------------------------------------------------------------------- the handshake

  /** Cycles of a run in which the output is not valid. */
  function BusyCycles(w: nat, s: State, ins: seq<Input>): nat
    requires w > 0
    decreases |ins|
  {
    if ins == [] then 0
    else
      var n := |ins| - 1;
      BusyCycles(w, s, ins[..n]) + (if OutVld(Run(w, s, ins[..n]), ins[n]) then 0 else 1)
  }

  /** What the divisions loaded in a run cost: the load cycle and one cycle for each bit of shift + 1. */
  function LoadedCycles(w: nat, s: State, ins: seq<Input>): nat
    requires w > 0
    decreases |ins|
  {
    if ins == [] then 0
    else
      var n := |ins| - 1;
      LoadedCycles(w, s, ins[..n]) +
      (if Run(w, s, ins[..n]).fsm == Idle && ins[n].inVld then ins[n].opBShift + 2 else 0)
  }

  /** Cycles to come of a division under way. */
  function CyclesToGo(s: State): nat {
    if s.fsm == Divide then s.cnt + 1 else 0
  }

  /** Over any run the output is invalid for exactly the cycles of the divisions loaded, whatever the requests and
      however long results are left at the output: a unit that divides nothing holds nobody up. */
  lemma {:induction false} BusyForDivisions(w: nat, s: State, ins: seq<Input>)
    requires w > 0
    ensures BusyCycles(w, s, ins) + CyclesToGo(Run(w, s, ins)) == LoadedCycles(w, s, ins) + CyclesToGo(s)
    decreases |ins|
  {
    if ins != [] {
      BusyForDivisions(w, s, ins[..|ins| - 1]);
    }
  }

  /** From reset and without a request the output is valid in every cycle. */
  lemma {:induction false} IdleIsValid(w: nat, s: State, ins: seq<Input>, i: Input)
    requires w > 0 && s.fsm == Idle && forall j :: 0 <= j < |ins| ==> !ins[j].inVld
    ensures Run(w, s, ins).fsm == Idle && (OutVld(Run(w, s, ins), i) <==> !i.inVld)
    ensures RESET.fsm == Idle
    decreases |ins|
  {
    if ins != [] {
      IdleIsValid(w, s, ins[..|ins| - 1], i);
    }
  }

  /** Between divisions: in the cycle after a result is taken the output is valid unless a new one is loaded. */
  lemma TakenLeavesValid(w: nat, t: State, take: Input, i: Input)
    requires w > 0 && t.fsm == Finish && take.outRdy
    ensures OutVld(t, take) && (OutVld(Step(w, t, take), i) <==> !i.inVld)
  {
  }

  // ------------------------------------------------------------ the register file of the unit

  class Divider {
    const width: nat
    var fsm: Fsm
    var aReg: nat
    var bReg: nat
    var resReg: nat
    var cnt: nat
    var remSel: bool
    var compInv: bool
    var resInv: bool

    ghost predicate WellFormed()
      reads this
    {
      Valid(width, Registers())
    }

    function Registers(): State
      reads this
    {
      State(fsm, aReg, bReg, resReg, cnt, remSel, compInv, resInv)
    }

    constructor (w: nat)
      requires w > 0
      ensures width == w && Registers() == RESET && WellFormed()
    {
      width := w;
      fsm, aReg, bReg, resReg, cnt := Idle, 0, 0, 0, 0;
      remSel, compInv, resInv := false, false, false;
    }

    /** One rising clock edge. */
    method Clock(i: Input)
      requires width > 0
      modifies this
      ensures Registers() == Step(width, old(Registers()), i)
    {
      var s := Registers();
      var load, bit := LoadEn(s, i), AbComp(s, i);
      var sum, half, res := AddOut(width, s, i), BShifted(width, s), ResShifted(width, s, bit);
      if load {
        aReg, bReg, resReg, cnt := sum, i.opB, 0, i.opBShift;
        remSel, compInv := i.opCode.IsRem(), i.opBSign;
        resInv := (!i.opBIsZero || i.opCode.IsRem()) && SignsDiffer(width, i);
        fsm := Divide;
      } else {
        if fsm == Divide {
          if bit {
            aReg := sum;
          }
          bReg, resReg := half, res;
          if cnt == 0 {
            fsm := Finish;
          }
        } else if fsm == Finish && i.outRdy {
          fsm := Idle;
        }
        if cnt != 0 {
          cnt := cnt - 1;
        }
      }
    }

    /** Clocks the unit until its output is valid. */
    method DivideWord(i: Input, ghost b: int) returns (r: nat)
      requires WellFormed() && fsm == Idle && Normalised(width, i, b)
      modifies this
      ensures WellFormed() && fsm == Finish
      ensures r == ValueResult(i.opCode, width, i.opA, b)
    {
      ghost var start, ins := Registers(), [i];
      assert Run(width, start, ins) == Step(width, start, i) by {
        assert ins[..0] == [];
      }
      StepValid(width, Registers(), i);
      Clock(i);
      DivisionRun(width, start, ins, b);
      while fsm != Finish
        invariant WellFormed() && fsm != Idle
        invariant 1 <= |ins| <= i.opBShift + 2 && Held(ins) && ins[0] == i
        invariant Registers() == Run(width, start, ins)
        invariant fsm == Finish <==> |ins| == i.opBShift + 2
        decreases i.opBShift + 2 - |ins|
      {
        ghost var longer := ins + [i];
        assert longer[..|longer| - 1] == ins;
        StepValid(width, Registers(), i);
        Clock(i);
        ins := longer;
        DivisionRun(width, start, ins, b);
      }
      r := Res(width, Registers());
      DivisionRun(width, start, ins, b);
    }
  }
}
