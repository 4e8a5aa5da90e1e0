/** Integer division as section 7.2 of the RISC-V Unprivileged ISA (20191213) defines it. */
module IsaDivision {
  import opened Bits

  datatype Op = DivU | Div | RemU | Rem {
    predicate IsSigned() {
      this == Div || this == Rem
    }

    predicate IsRem() {
      this == RemU || this == Rem
    }
  }

  function Abs(v: int): nat {
    if v < 0 then -v else v
  }

  /** Quotient rounded towards zero. */
  function TruncDiv(a: int, b: int): int
    requires b != 0
  {
    var q := Abs(a) / Abs(b);
    if (a < 0) != (b < 0) then -q else q
  }

  /** Remainder with the sign of the dividend. */
  function TruncRem(a: int, b: int): int
    requires b != 0
  {
    var r := Abs(a) % Abs(b);
    if a < 0 then -r else r
  }

  function Operand(op: Op, w: nat, x: nat): int
    requires w > 0
  {
    if op.IsSigned() then Signed(w, x) else x
  }

  predicate Overflows(op: Op, w: nat, rs1: nat, rs2: nat)
    requires w > 0
  {
    op.IsSigned() && Signed(w, rs1) == 0 - Pow2(w - 1) && Signed(w, rs2) == -1
  }

  /** The `w`-bit word of the truncated quotient or remainder. */
  function Truncated(op: Op, w: nat, a: int, b: int): nat
    requires b != 0
  {
    Word(w, if op.IsRem() then TruncRem(a, b) else TruncDiv(a, b))
  }

  /** Result register for `rs1 op rs2` on `w`-bit registers, with the two special cases of the table. */
  function Result(op: Op, w: nat, rs1: nat, rs2: nat): (r: nat)
    requires w > 0
  {
    var a, b := Operand(op, w, rs1), Operand(op, w, rs2);
    if b == 0 then
      if op.IsRem() then rs1 else Pow2(w) - 1
    else if Overflows(op, w, rs1, rs2) then
      if op.IsRem() then 0 else rs1
    else
      Truncated(op, w, a, b)
  }

  /** The overflow row of the table is what truncation and wrap-around give anyway. */
  lemma OverflowIsTruncated(op: Op, w: nat)
    requires w > 0
    ensures Truncated(op, w, 0 - Pow2(w - 1), -1) == if op.IsRem() then 0 else Pow2(w - 1)
  {
    ByMinusOne(Pow2(w - 1));
  }

  lemma ByMinusOne(p: nat)
    requires p > 0
    ensures TruncDiv(0 - p, -1) == p && TruncRem(0 - p, -1) == 0
  {
  }

  /** The standard's defining identity. */
  lemma TruncIsEuclidean(a: int, b: int)
    requires b != 0
    ensures a == b * TruncDiv(a, b) + TruncRem(a, b)
    ensures Abs(TruncRem(a, b)) < Abs(b)
    ensures TruncRem(a, b) == 0 || (TruncRem(a, b) < 0 <==> a < 0)
  {
    var q, r, m := Abs(a) / Abs(b), Abs(a) % Abs(b), Abs(b);
    assert Abs(a) == q * m + r;
    if b < 0 {
      assert b * q == -(q * m) && b * (-q) == q * m;
    } else {
      assert b * q == q * m && b * (-q) == -(q * m);
    }
  }

  /** It leaves no freedom: a remainder smaller than the divisor with the sign of the dividend. */
  lemma TruncIsUnique(a: int, b: int, q: int, r: int)
    requires b != 0 && a == b * q + r && Abs(r) < Abs(b) && (r == 0 || (r < 0 <==> a < 0))
    ensures q == TruncDiv(a, b) && r == TruncRem(a, b)
  {
    var m := Abs(b);
    var s := if (a < 0) != (b < 0) then -q else q;
    assert Abs(a) == s * m + Abs(r) by {
      assert b * q == (if b < 0 then -m else m) * q;
    }
    ModUnique(Abs(a), m, s, Abs(r));
  }
}
