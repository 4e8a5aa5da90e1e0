/** Comparison, minimum and maximum, absolute value and clip of rtl/cv32e40p_alu.sv: byte comparators
    cascaded into lanes. */
module AluCompare {
  import opened AluAdder

  datatype Flags = Flags(f0: bool, f1: bool, f2: bool, f3: bool)

  /** The flag of byte `i`. */
  predicate At(f: Flags, i: nat)
    requires i < 4
  {
    if i == 0 then f.f0 else if i == 1 then f.f1 else if i == 2 then f.f2 else f.f3
  }

  // --------------------------------------------------------------------- byte comparators

  /** Nine-bit signed comparison of two bytes; the extra bit is the sign if `signed`. */
  predicate GreaterByte(signed: bool, a: Byte, b: Byte) {
    if signed then Signed8(a) > Signed8(b) else a > b
  }

  /** Which bytes carry a sign: the top byte of each lane. */
  function CmpSigned(mode: Mode, signed: bool): Flags {
    if !signed then Flags(false, false, false, false)
    else match mode
      case Vec8 => Flags(true, true, true, true)
      case Vec16 => Flags(false, true, false, true)
      case Vec32 => Flags(false, false, false, true)
  }

  function EqualBytes(a: Bytes, b: Bytes): Flags {
    Flags(a.b0 == b.b0, a.b1 == b.b1, a.b2 == b.b2, a.b3 == b.b3)
  }

  function GreaterBytes(mode: Mode, signed: bool, a: Bytes, b: Bytes): Flags {
    var s := CmpSigned(mode, signed);
    Flags(GreaterByte(s.f0, a.b0, b.b0), GreaterByte(s.f1, a.b1, b.b1),
          GreaterByte(s.f2, a.b2, b.b2), GreaterByte(s.f3, a.b3, b.b3))
  }

  function IsEqual(mode: Mode, a: Bytes, b: Bytes): Flags {
    var e := EqualBytes(a, b);
    match mode
    case Vec8 => e
    case Vec16 => Flags(e.f0 && e.f1, e.f0 && e.f1, e.f2 && e.f3, e.f2 && e.f3)
    case Vec32 => var all := e.f3 && e.f2 && e.f1 && e.f0; Flags(all, all, all, all)
  }

  function IsGreater(mode: Mode, signed: bool, a: Bytes, b: Bytes): Flags {
    var e, g := EqualBytes(a, b), GreaterBytes(mode, signed, a, b);
    match mode
    case Vec8 => g
    case Vec16 =>
      var low, high := g.f1 || (e.f1 && g.f0), g.f3 || (e.f3 && g.f2);
      Flags(low, low, high, high)
    case Vec32 =>
      var all := g.f3 || (e.f3 && (g.f2 || (e.f2 && (g.f1 || (e.f1 && g.f0)))));
      Flags(all, all, all, all)
  }

  // -------------------------------------------------------------------------- lane values

  function ByteAt(x: Bytes, i: nat): Byte
    requires i < 4
  {
    if i == 0 then x.b0 else if i == 1 then x.b1 else if i == 2 then x.b2 else x.b3
  }

  /** The number in the lane that holds byte `i`. */
  function Lane(mode: Mode, signed: bool, x: Bytes, i: nat): int
    requires i < 4
  {
    match mode
    case Vec8 => if signed then Signed8(ByteAt(x, i)) else ByteAt(x, i)
    case Vec16 => var h := if i < 2 then Low(x) else High(x); if signed then Signed16(h) else h
    case Vec32 => if signed then Signed32(Value(x)) else Value(x)
  }

  /** Comparing two bytes decides like comparing the numbers they make. */
  lemma HalfOrder(signed: bool, a0: Byte, a1: Byte, b0: Byte, b1: Byte)
    ensures var x, y := a0 + 256 * a1, b0 + 256 * b1;
            && (x == y <==> a0 == b0 && a1 == b1)
            && ((a1 == b1 && a0 > b0) || GreaterByte(signed, a1, b1) <==>
                  if signed then Signed16(x) > Signed16(y) else x > y)
  {
  }

  /** A 32-bit number is its top byte, signed or not, and three more digits. */
  function Weighed(signed: bool, x: Bytes): int {
    x.b0 + 256 * x.b1 + 0x1_0000 * x.b2 + 0x100_0000 * (if signed then Signed8(x.b3) else x.b3)
  }

  lemma WeighedIsLane(signed: bool, x: Bytes)
    ensures Weighed(signed, x) == if signed then Signed32(Value(x)) else Value(x)
  {
  }

  lemma LowBytesOrder(a: Bytes, b: Bytes)
    ensures a.b0 + 256 * a.b1 + 0x1_0000 * a.b2 > b.b0 + 256 * b.b1 + 0x1_0000 * b.b2 <==>
              a.b2 > b.b2 || (a.b2 == b.b2 && (a.b1 > b.b1 || (a.b1 == b.b1 && a.b0 > b.b0)))
  {
  }

  lemma TopByteOrder(x: int, low: nat, y: int, other: nat)
    requires low < 0x100_0000 && other < 0x100_0000
    ensures low + 0x100_0000 * x > other + 0x100_0000 * y <==> x > y || (x == y && low > other)
  {
  }

  lemma WordOrder(signed: bool, a: Bytes, b: Bytes)
    ensures Weighed(signed, a) > Weighed(signed, b) <==>
              GreaterByte(signed, a.b3, b.b3) ||
              (a.b3 == b.b3 && (a.b2 > b.b2 || (a.b2 == b.b2 && (a.b1 > b.b1 || (a.b1 == b.b1 && a.b0 > b.b0)))))
  {
    LowBytesOrder(a, b);
    TopByteOrder(if signed then Signed8(a.b3) else a.b3, a.b0 + 256 * a.b1 + 0x1_0000 * a.b2,
                 if signed then Signed8(b.b3) else b.b3, b.b0 + 256 * b.b1 + 0x1_0000 * b.b2);
  }

  lemma WordEquality(signed: bool, a: Bytes, b: Bytes)
    ensures Weighed(signed, a) == Weighed(signed, b) <==> a == b
  {
    WordOrder(signed, a, b);
    WordOrder(signed, b, a);
  }

  lemma HalvesCompare(signed: bool, a: Bytes, b: Bytes, i: nat)
    requires i < 4
    ensures At(IsEqual(Vec16, a, b), i) <==> Lane(Vec16, signed, a, i) == Lane(Vec16, signed, b, i)
    ensures At(IsGreater(Vec16, signed, a, b), i) <==> Lane(Vec16, signed, a, i) > Lane(Vec16, signed, b, i)
  {
    if i < 2 {
      HalfOrder(signed, a.b0, a.b1, b.b0, b.b1);
    } else {
      HalfOrder(signed, a.b2, a.b3, b.b2, b.b3);
    }
  }

  lemma WordsCompare(signed: bool, a: Bytes, b: Bytes, i: nat)
    requires i < 4
    ensures At(IsEqual(Vec32, a, b), i) <==> Lane(Vec32, signed, a, i) == Lane(Vec32, signed, b, i)
    ensures At(IsGreater(Vec32, signed, a, b), i) <==> Lane(Vec32, signed, a, i) > Lane(Vec32, signed, b, i)
  {
    WordEquality(signed, a, b);
    WordOrder(signed, a, b);
    WeighedIsLane(signed, a);
    WeighedIsLane(signed, b);
  }

  /** The cascaded comparators compare the lanes, signed or unsigned, in every mode. */
  lemma ComparatorsAreLanewise(mode: Mode, signed: bool, a: Bytes, b: Bytes, i: nat)
    requires i < 4
    ensures At(IsEqual(mode, a, b), i) <==> Lane(mode, signed, a, i) == Lane(mode, signed, b, i)
    ensures At(IsGreater(mode, signed, a, b), i) <==> Lane(mode, signed, a, i) > Lane(mode, signed, b, i)
  {
    match mode {
      case Vec8 =>
      case Vec16 => HalvesCompare(signed, a, b, i);
      case Vec32 => WordsCompare(signed, a, b, i);
    }
  }

  // ----------------------------------------------------------------------- comparison ops

  datatype Relation = Eq | Ne | Gt | Ge | Lt | Le

  predicate CmpResult(rel: Relation, equal: bool, greater: bool) {
    match rel
    case Eq => equal
    case Ne => !equal
    case Gt => greater
    case Ge => greater || equal
    case Lt => !(greater || equal)
    case Le => !greater
  }

  predicate Holds(rel: Relation, x: int, y: int) {
    match rel
    case Eq => x == y
    case Ne => x != y
    case Gt => x > y
    case Ge => x >= y
    case Lt => x < y
    case Le => x <= y
  }

  function Compare(mode: Mode, signed: bool, rel: Relation, a: Bytes, b: Bytes): Bytes {
    var e, g := IsEqual(mode, a, b), IsGreater(mode, signed, a, b);
    Bytes(if CmpResult(rel, e.f0, g.f0) then 255 else 0, if CmpResult(rel, e.f1, g.f1) then 255 else 0,
          if CmpResult(rel, e.f2, g.f2) then 255 else 0, if CmpResult(rel, e.f3, g.f3) then 255 else 0)
  }

  /** Every byte of a comparison is all ones or all zeros, as the relation holds in its lane. */
  lemma CompareIsRelation(mode: Mode, signed: bool, rel: Relation, a: Bytes, b: Bytes, i: nat)
    requires i < 4
    ensures ByteAt(Compare(mode, signed, rel, a, b), i)
         == if Holds(rel, Lane(mode, signed, a, i), Lane(mode, signed, b, i)) then 255 else 0
  {
    ComparatorsAreLanewise(mode, signed, a, b, i);
  }

  // ------------------------------------------------------------------------------ min, max

  function Select(f: Flags, a: Bytes, b: Bytes): Bytes {
    Bytes(if f.f0 then a.b0 else b.b0, if f.f1 then a.b1 else b.b1,
          if f.f2 then a.b2 else b.b2, if f.f3 then a.b3 else b.b3)
  }

  function MinMax(mode: Mode, signed: bool, min: bool, a: Bytes, b: Bytes, other: Bytes): Bytes {
    var g := IsGreater(mode, signed, a, b);
    Select(Flags(g.f0 != min, g.f1 != min, g.f2 != min, g.f3 != min), a, other)
  }

  function Min(x: int, y: int): int {
    if x <= y then x else y
  }

  function Max(x: int, y: int): int {
    if x >= y then x else y
  }

  /** One decision per lane: its bytes come from the same operand. */
  lemma SelectedLane(mode: Mode, signed: bool, min: bool, a: Bytes, b: Bytes, other: Bytes, i: nat)
    requires i < 4
    ensures Lane(mode, signed, MinMax(mode, signed, min, a, b, other), i)
         == if At(IsGreater(mode, signed, a, b), i) != min then Lane(mode, signed, a, i)
            else Lane(mode, signed, other, i)
  {
  }

  lemma MinMaxIsLanewise(mode: Mode, signed: bool, min: bool, a: Bytes, b: Bytes, i: nat)
    requires i < 4
    ensures var x, y := Lane(mode, signed, a, i), Lane(mode, signed, b, i);
            Lane(mode, signed, MinMax(mode, signed, min, a, b, b), i) == if min then Min(x, y) else Max(x, y)
  {
    SelectedLane(mode, signed, min, a, b, b, i);
    ComparatorsAreLanewise(mode, signed, a, b, i);
  }

  /** Absolute value: the larger of the operand and its negation, which the adder computes with a second
      operand of zero. */
  function Abs(mode: Mode, a: Bytes, zero: Bytes): Bytes {
    MinMax(mode, true, false, a, zero, AdderResult(Expanded(mode, true, Not(a), zero)))
  }

  function LaneSize(mode: Mode): int {
    match mode
    case Vec8 => 0x100
    case Vec16 => 0x1_0000
    case Vec32 => 0x1_0000_0000
  }

  /** The negation of a lane; the most negative number is its own. */
  function Negated(mode: Mode, x: int): int {
    if x == -(LaneSize(mode) / 2) then x else -x
  }

  lemma NegatedByte(x: Byte, r: Byte)
    requires r == (255 - x + 1) % 256
    ensures Signed8(r) == Negated(Vec8, Signed8(x))
  {
  }

  lemma NegatedHalf(x: nat, inverted: nat, r: nat)
    requires x < 0x1_0000 && inverted == 0xFFFF - x && r == (inverted + 1) % 0x1_0000
    ensures Signed16(r) == Negated(Vec16, Signed16(x))
  {
  }

  lemma NegatedWord(x: nat, inverted: nat, r: nat)
    requires x < 0x1_0000_0000 && inverted == 0xFFFF_FFFF - x && r == (inverted + 1) % 0x1_0000_0000
    ensures Signed32(r) == Negated(Vec32, Signed32(x))
  {
  }

  lemma NegatedBytes(a: Bytes, zero: Bytes, r: Bytes, i: nat)
    requires i < 4 && ByteAt(zero, i) == 0 && Lanewise(Vec8, 1, Not(a), zero, r)
    ensures Lane(Vec8, true, r, i) == Negated(Vec8, Lane(Vec8, true, a, i))
  {
    NegatedByte(ByteAt(a, i), ByteAt(r, i));
  }

  lemma NegatedLow(a: Bytes, zero: nat, r: Bytes)
    requires zero == 0 && Low(r) == (Low(Not(a)) + zero + 1) % 0x1_0000
    ensures Signed16(Low(r)) == Negated(Vec16, Signed16(Low(a)))
  {
    NegatedHalf(Low(a), Low(Not(a)), Low(r));
  }

  lemma NegatedHigh(a: Bytes, zero: nat, r: Bytes)
    requires zero == 0 && High(r) == (High(Not(a)) + zero + 1) % 0x1_0000
    ensures Signed16(High(r)) == Negated(Vec16, Signed16(High(a)))
  {
    NegatedHalf(High(a), High(Not(a)), High(r));
  }

  lemma NegatedWhole(a: Bytes, zero: nat, r: Bytes)
    requires zero == 0 && Value(r) == (Value(Not(a)) + zero + 1) % 0x1_0000_0000
    ensures Signed32(Value(r)) == Negated(Vec32, Signed32(Value(a)))
  {
    NegatedWord(Value(a), Value(Not(a)), Value(r));
  }

  lemma NegatedWords(a: Bytes, zero: Bytes, r: Bytes, i: nat)
    requires i < 4 && Value(zero) == 0 && Lanewise(Vec32, 1, Not(a), zero, r)
    ensures Lane(Vec32, true, r, i) == Negated(Vec32, Lane(Vec32, true, a, i))
  {
    NegatedWhole(a, Value(zero), r);
  }

  lemma ZeroLow(zero: Bytes)
    requires Value(zero) == 0
    ensures Low(zero) == 0
  {
  }

  lemma ZeroHigh(zero: Bytes)
    requires Value(zero) == 0
    ensures High(zero) == 0
  {
  }

  lemma ZeroByte(zero: Bytes, i: nat)
    requires i < 4 && Value(zero) == 0
    ensures ByteAt(zero, i) == 0
  {
  }

  lemma ZeroLane(mode: Mode, zero: Bytes, i: nat)
    requires i < 4 && Value(zero) == 0
    ensures Lane(mode, true, zero, i) == 0
  {
    match mode {
      case Vec8 => ZeroByte(zero, i);
      case Vec16 =>
        if i < 2 {
          ZeroLow(zero);
        } else {
          ZeroHigh(zero);
        }
      case Vec32 =>
    }
  }

  lemma NegatedLowLane(a: Bytes, zero: Bytes, r: Bytes)
    requires Value(zero) == 0 && Low(r) == (Low(Not(a)) + Low(zero) + 1) % 0x1_0000
    ensures Signed16(Low(r)) == Negated(Vec16, Signed16(Low(a)))
  {
    ZeroLow(zero);
    NegatedLow(a, Low(zero), r);
  }

  lemma NegatedHighLane(a: Bytes, zero: Bytes, r: Bytes)
    requires Value(zero) == 0 && High(r) == (High(Not(a)) + High(zero) + 1) % 0x1_0000
    ensures Signed16(High(r)) == Negated(Vec16, Signed16(High(a)))
  {
    ZeroHigh(zero);
    NegatedHigh(a, High(zero), r);
  }

  lemma NegatedHalves(a: Bytes, zero: Bytes, r: Bytes, i: nat)
    requires i < 4 && Value(zero) == 0 && Lanewise(Vec16, 1, Not(a), zero, r)
    ensures Lane(Vec16, true, r, i) == Negated(Vec16, Lane(Vec16, true, a, i))
  {
    NegatedLowLane(a, zero, r);
    NegatedHighLane(a, zero, r);
  }

  lemma NegationIsLanewise(mode: Mode, a: Bytes, zero: Bytes, i: nat)
    requires i < 4 && Value(zero) == 0
    ensures Lane(mode, true, AdderResult(Expanded(mode, true, Not(a), zero)), i)
         == Negated(mode, Lane(mode, true, a, i))
  {
    var r := AdderResult(Expanded(mode, true, Not(a), zero));
    AdderIsLanewise(mode, true, Not(a), zero);
    match mode {
      case Vec8 =>
        ZeroByte(zero, i);
        NegatedBytes(a, zero, r, i);
      case Vec16 => NegatedHalves(a, zero, r, i);
      case Vec32 => NegatedWords(a, zero, r, i);
    }
  }

  /** Absolute values lane by lane; the most negative number has none and stays. */
  lemma AbsIsLanewise(mode: Mode, a: Bytes, zero: Bytes, i: nat)
    requires i < 4 && Value(zero) == 0
    ensures var x := Lane(mode, true, a, i);
            Lane(mode, true, Abs(mode, a, zero), i) == if x > 0 then x else Negated(mode, x)
  {
    NegationIsLanewise(mode, a, zero, i);
    ZeroLane(mode, zero, i);
    SelectedLane(mode, true, false, a, zero, AdderResult(Expanded(mode, true, Not(a), zero)), i);
    ComparatorsAreLanewise(mode, true, a, zero, i);
  }

  // -------------------------------------------------------------------------------- clip

  const ZERO := Bytes(0, 0, 0, 0)

  /** ALU_CLIP, in 32-bit mode. */
  function Clip(a: Bytes, b: Bytes): Bytes {
    if Expanded(Vec32, true, a, b) < 0 || a == Not(b) then Not(b) else MinMax(Vec32, true, true, a, b, b)
  }

  function ClipU(a: Bytes, b: Bytes): Bytes {
    if a.b3 >= 0x80 || a == ZERO then ZERO else MinMax(Vec32, true, true, a, b, b)
  }

  function Int(x: Bytes): int {
    Signed32(Value(x))
  }

  lemma IntIsUnique(a: Bytes, b: Bytes)
    ensures Int(a) == Int(b) <==> a == b
  {
    WordEquality(true, a, b);
    WeighedIsLane(true, a);
    WeighedIsLane(true, b);
  }

  /** Clip for any bound, negative ones too. */
  lemma ClipResult(a: Bytes, b: Bytes)
    ensures Int(Clip(a, b)) == if Int(a) <= -(Int(b) + 1) then -(Int(b) + 1) else Min(Int(a), Int(b))
  {
    ExpandedSign(a, b);
    NotIsMinusOne(b);
    IntIsUnique(a, Not(b));
    MinMaxIsLanewise(Vec32, true, true, a, b, 3);
  }

  lemma SignBit(a: Bytes)
    ensures a.b3 >= 0x80 <==> Int(a) < 0
  {
    WeighedIsLane(true, a);
  }

  lemma OnlyZero(a: Bytes)
    ensures a == ZERO <==> Int(a) == 0
  {
    WeighedIsLane(true, a);
    assert Weighed(true, a) == 0 ==> a.b0 == 0 && a.b1 == 0 && a.b2 == 0 && a.b3 == 0;
  }

  lemma ClipUResult(a: Bytes, b: Bytes)
    ensures Int(ClipU(a, b)) == if Int(a) <= 0 then 0 else Min(Int(a), Int(b))
  {
    SignBit(a);
    OnlyZero(a);
    if a.b3 >= 0x80 || a == ZERO {
      assert Int(ZERO) == 0;
    } else {
      MinMaxIsLanewise(Vec32, true, true, a, b, 3);
    }
  }

  /** The register forms clear the sign of the bound on the way into EX. */
  function Bound(rs2: Bytes): Bytes {
    rs2.(b3 := rs2.b3 % 0x80)
  }

  lemma SignCleared(rest: nat, top: Byte, v: nat, w: nat)
    requires rest < 0x100_0000 && v == rest + 0x100_0000 * top && w == rest + 0x100_0000 * (top % 0x80)
    ensures w == v % 0x8000_0000
    ensures Signed32(w) == w == if Signed32(v) < 0 then Signed32(v) + 0x8000_0000 else Signed32(v)
  {
  }

  lemma BoundClearsSign(rs2: Bytes)
    ensures Int(Bound(rs2)) == Value(rs2) % 0x8000_0000
    ensures Int(Bound(rs2)) == if Int(rs2) < 0 then Int(rs2) + 0x8000_0000 else Int(rs2)
  {
    SignCleared(rs2.b0 + 256 * rs2.b1 + 0x1_0000 * rs2.b2, rs2.b3, Value(rs2), Value(Bound(rs2)));
  }

  function Clamp(lo: int, hi: int, x: int): int {
    if x <= lo then lo else if x >= hi then hi else x
  }

  /** cv.clipr as documented, for every pair of registers. */
  lemma ClipIsClamp(rs1: Bytes, rs2: Bytes)
    ensures var hi := Value(rs2) % 0x8000_0000;
            Int(Clip(rs1, Bound(rs2))) == Clamp(-(hi + 1), hi, Int(rs1))
  {
    BoundClearsSign(rs2);
    ClipResult(rs1, Bound(rs2));
  }

  /** cv.clipur as documented. */
  lemma ClipUIsClamp(rs1: Bytes, rs2: Bytes)
    ensures Int(ClipU(rs1, Bound(rs2))) == Clamp(0, Value(rs2) % 0x8000_0000, Int(rs1))
  {
    BoundClearsSign(rs2);
    ClipUResult(rs1, Bound(rs2));
  }

  /** The results for the bare bound `b` and the cleared bound `c`. */
  lemma BareBound(a: int, b: int, c: int)
    requires -0x8000_0000 <= a < 0x8000_0000 && -0x8000_0000 <= b < 0x8000_0000
    requires c == if b < 0 then b + 0x8000_0000 else b
    ensures (if a <= -(b + 1) then -(b + 1) else Min(a, b)) == (if a <= -(c + 1) then -(c + 1) else Min(a, c))
       <==> b >= 0 || (a == -(b + 1) && a < 0x4000_0000)
  {
  }

  /** Why the sign must be cleared: with the bare register as bound the result is the documented one only
      if that is not negative, but for a coincidence at one operand. */
  lemma ClipNeedsBound(rs1: Bytes, rs2: Bytes)
    ensures Clip(rs1, rs2) == Clip(rs1, Bound(rs2)) <==>
              Int(rs2) >= 0 || (Int(rs1) == -(Int(rs2) + 1) && Int(rs1) < 0x4000_0000)
  {
    IntIsUnique(Clip(rs1, rs2), Clip(rs1, Bound(rs2)));
    ClipResult(rs1, rs2);
    ClipResult(rs1, Bound(rs2));
    BoundClearsSign(rs2);
    BareBound(Int(rs1), Int(rs2), Int(Bound(rs2)));
  }
}
