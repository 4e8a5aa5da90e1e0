/** Division in the ALU (rtl/cv32e40p_alu.sv): the divisor is normalised by leading-bit count and
    shift, the decoder swaps the operands, and the serial divider runs. The operand width `w` is
    any power of two `Pow2(l - 1)`, counted in `l` bits; the core has 32 and 6. */
module AluDivide {
  import opened Bits
  import opened IsaDivision
  import opened SerialDivider

  ghost predicate Widths(w: nat, l: nat) {
    l > 0 && w == Pow2(l - 1)
  }

  function Invert(w: nat, x: nat): nat
    requires x < Pow2(w)
  {
    Pow2(w) - 1 - x
  }

  predicate Negative(w: nat, op: Op, a: nat)
    requires w > 0
  {
    op.IsSigned() && Msb(w, a)
  }

  /** Input of the first-one finder for the division operators. */
  function FfInput(w: nat, op: Op, a: nat): nat
    requires w > 0 && a < Pow2(w)
  {
    Reverse(w, if Negative(w, op, a) then Invert(w, a) else a)
  }

  /** Shift amount for divisor `a`. */
  function DivShift(w: nat, l: nat, op: Op, a: nat): (r: nat)
    requires w > 0 && a < Pow2(w)
  {
    var ff := FfInput(w, op, a);
    var count := if ff == 0 then w - 1 else Word(l, LowestOne(ff) - 1);
    Word(l, count + if Negative(w, op, a) then 0 else 1)
  }

  /** Reverse, shift right by the low bits of the amount, reverse. */
  function ShiftLeftResult(w: nat, a: nat, amount: nat): nat
    requires w > 0
  {
    Reverse(w, ShiftRight(Reverse(w, a), amount % w))
  }

  /** What the ALU presents to the divider; the decoder puts the divisor on operand a. */
  function DividerInput(w: nat, l: nat, op: Op, operandA: nat, operandB: nat, outRdy: bool): Input
    requires w > 0 && operandA < Pow2(w)
  {
    var shift := DivShift(w, l, op, operandA);
    Input(operandB, ShiftLeftResult(w, operandA, shift), shift, operandA == 0,
          Negative(w, op, operandA), op, true, outRdy)
  }

  // ----------------------------------------------------------- normalisation

  /** Shifting up by the number of leading zeros fills the word. */
  lemma FillsWord(w: nat, x: nat, z: nat)
    requires z < w && Pow2(w - 1 - z) <= x < Pow2(w - z)
    ensures Pow2(w - 1) <= x * Pow2(z) && x * Pow2(z) + Pow2(z) <= Pow2(w)
  {
    Pow2Add(w - 1 - z, z);
    Pow2Add(w - z, z);
    var p := Pow2(z);
    MulMonotone(Pow2(w - 1 - z), x, p);
    MulMonotone(x + 1, Pow2(w - z), p);
    assert (x + 1) * p == x * p + p;
  }

  lemma CounterWraps(w: nat, l: nat, z: nat)
    requires Widths(w, l) && z <= w
    ensures Word(l, z) == z
    ensures z < w ==> Word(l, Word(l, z - 1) + 1) == z
    ensures 0 < z ==> Word(l, z - 1) == z - 1
  {
    WordWraps(l, z);
    WordWraps(l, z - 1);
    WordWraps(l, Pow2(l));
  }

  lemma ShifterIsLeftShift(w: nat, a: nat, k: nat)
    requires k < w && a < Pow2(w)
    ensures ShiftLeftResult(w, a, k) == ShiftLeft(w, a, k)
  {
    ModUnique(k, w, 0, k);
    ReversedRightShiftIsLeftShift(w, a, k);
  }

  /** The shift amount is the number of leading zeros. */
  lemma NonNegativeShift(w: nat, l: nat, op: Op, a: nat)
    requires Widths(w, l) && 0 < a < Pow2(w) && !Negative(w, op, a)
    ensures var k := DivShift(w, l, op, a); k < w && Pow2(w - 1 - k) <= a < Pow2(w - k)
  {
    LeadingZeros(w, a);
    CounterWraps(w, l, LowestOne(Reverse(w, a)));
  }

  /** A divisor read as non-negative ends with its top bit set. */
  lemma NormaliseNonNegative(w: nat, l: nat, op: Op, a: nat)
    requires Widths(w, l) && 0 < a < Pow2(w) && !Negative(w, op, a)
    ensures var k := DivShift(w, l, op, a);
            k < w && ShiftLeftResult(w, a, k) == a * Pow2(k) && Pow2(w - 1) <= a * Pow2(k)
  {
    var k := DivShift(w, l, op, a);
    NonNegativeShift(w, l, op, a);
    FillsWord(w, a, k);
    ShifterIsLeftShift(w, a, k);
    ShiftLeftIsProduct(w, a, k);
  }

  lemma NegativeShift(w: nat, l: nat, op: Op, a: nat)
    requires Widths(w, l) && a < Pow2(w) && Negative(w, op, a)
    ensures var k, m := DivShift(w, l, op, a), Pow2(w) - a;
            k < w && Pow2(w - 1) < 2 * (m * Pow2(k)) && m * Pow2(k) <= Pow2(w - 1)
  {
    var m := Pow2(w) - a;
    if m == 1 {
      ReverseZero(w);
      CounterWraps(w, l, w - 1);
      UnitProduct(Pow2(w - 1));
    } else {
      LeadingZeros(w, m - 1);
      var z := LowestOne(Reverse(w, m - 1));
      CounterWraps(w, l, z);
      assert z > 0;
      FillsWord(w, m - 1, z);
      NegativeFills(m, Pow2(z - 1), Pow2(w - 1));
    }
  }

  /** A negative divisor keeps exactly one sign bit. */
  lemma NormaliseNegative(w: nat, l: nat, op: Op, a: nat)
    requires Widths(w, l) && a < Pow2(w) && Negative(w, op, a)
    ensures var k, m := DivShift(w, l, op, a), Pow2(w) - a;
            && k < w && Pow2(w - 1) < 2 * (m * Pow2(k)) && m * Pow2(k) <= Pow2(w - 1)
            && ShiftLeftResult(w, a, k) == Pow2(w) - m * Pow2(k)
  {
    var k := DivShift(w, l, op, a);
    NegativeShift(w, l, op, a);
    ShifterIsLeftShift(w, a, k);
    ShiftLeftOfNegative(w, Pow2(w) - a, k);
  }

  lemma NegativeFills(m: nat, p: nat, top: nat)
    requires m > 1 && p > 0 && top <= (m - 1) * (2 * p) && (m - 1) * (2 * p) + 2 * p <= 2 * top
    ensures top < 2 * (m * p) && m * p <= top
  {
    assert (m - 1) * (2 * p) == 2 * (m * p) - 2 * p;
  }

  lemma ZeroDivisor(w: nat, l: nat, op: Op)
    requires Widths(w, l)
    ensures DivShift(w, l, op, 0) == w && ShiftLeftResult(w, 0, w) == 0
  {
    ReverseZero(w);
    CounterWraps(w, l, w);
    assert forall k :: ShiftRight(0, k) == 0;
  }

  /** Every divisor arrives at the serial divider in the form it needs. */
  lemma DivisorIsNormalised(w: nat, l: nat, op: Op, rs1: nat, rs2: nat, outRdy: bool)
    requires Widths(w, l) && rs1 < Pow2(w) && rs2 < Pow2(w)
    ensures Normalised(w, DividerInput(w, l, op, rs2, rs1, outRdy), Operand(op, w, rs2))
    ensures DivShift(w, l, op, rs2) <= w
  {
    if rs2 == 0 {
      ZeroDivisor(w, l, op);
    } else if Negative(w, op, rs2) {
      NormaliseNegative(w, l, op, rs2);
    } else {
      NormaliseNonNegative(w, l, op, rs2);
    }
  }

  // --------------------------------------------------------------- the result

  /** The division instructions: for all operands, the output is not valid in the load cycle and the
      cycles before the last, whatever the live inputs, and then is the result of section 7.2 for rs1 op rs2. */
  lemma DivisionIsIsa(w: nat, l: nat, op: Op, rs1: nat, rs2: nat, s: State, ins: seq<Input>)
    requires Widths(w, l) && rs1 < Pow2(w) && rs2 < Pow2(w) && s.fsm == Idle
    requires 1 <= |ins| <= DivShift(w, l, op, rs2) + 2 && Held(ins)
    requires ins[0] == DividerInput(w, l, op, rs2, rs1, ins[0].outRdy)
    ensures DivShift(w, l, op, rs2) <= w && !OutVld(s, ins[0])
    ensures var t := Run(w, s, ins);
            && (forall live: Input :: OutVld(t, live) <==> |ins| == DivShift(w, l, op, rs2) + 2)
            && (|ins| == DivShift(w, l, op, rs2) + 2 ==> t.fsm == Finish && Res(w, t) == Result(op, w, rs1, rs2))
  {
    DivisorIsNormalised(w, l, op, rs1, rs2, ins[0].outRdy);
    DivisionRun(w, s, ins, Operand(op, w, rs2));
    ValueResultIsIsa(op, w, rs1, rs2);
  }

  /** And it stays valid with that result until it is taken. */
  lemma DivisionUntilTaken(w: nat, l: nat, op: Op, rs1: nat, rs2: nat, s: State, ins: seq<Input>)
    requires Widths(w, l) && rs1 < Pow2(w) && rs2 < Pow2(w) && s.fsm == Idle
    requires 1 <= |ins| && DivShift(w, l, op, rs2) + 2 <= |ins| && Held(ins[..DivShift(w, l, op, rs2) + 2])
    requires ins[0] == DividerInput(w, l, op, rs2, rs1, ins[0].outRdy)
    requires forall j :: DivShift(w, l, op, rs2) + 2 <= j < |ins| ==> !ins[j].outRdy
    ensures var t := Run(w, s, ins);
            && t.fsm == Finish && Res(w, t) == Result(op, w, rs1, rs2)
            && (forall i: Input :: OutVld(t, i) && Step(w, t, i).fsm == if i.outRdy then Idle else Finish)
            && (forall take: Input, i: Input :: take.outRdy ==> (OutVld(Step(w, t, take), i) <==> !i.inVld))
  {
    DivisorIsNormalised(w, l, op, rs1, rs2, ins[0].outRdy);
    ValidUntilTaken(w, s, ins, Operand(op, w, rs2));
    ValueResultIsIsa(op, w, rs1, rs2);
  }

  /** One division of the 32-bit core, from idle to a valid output. */
  method Execute(unit: Divider, op: Op, rs1: nat, rs2: nat) returns (r: nat)
    requires unit.width == 32 && unit.WellFormed() && unit.fsm == Idle
    requires rs1 < Pow2(32) && rs2 < Pow2(32)
    modifies unit
    ensures unit.WellFormed() && unit.fsm == Finish
    ensures r == Result(op, 32, rs1, rs2)
  {
    DivisorIsNormalised(32, 6, op, rs1, rs2, true);
    ValueResultIsIsa(op, 32, rs1, rs2);
    r := unit.DivideWord(DividerInput(32, 6, op, rs2, rs1, true), Operand(op, 32, rs2));
  }
}
