/** The ALU at its own width: 32-bit vector shifts in the three modes, and the normalised adder. */
module AluVector {
  import opened Bits
  import opened AluShifter
  import A = AluAdder
  import B = Bitfield
  import C = AluCompare

  // ------------------------------------------------------------------------ vector shifts

  function LaneWidth(mode: A.Mode): nat {
    match mode
    case Vec8 => 8
    case Vec16 => 16
    case Vec32 => 32
  }

  function LaneCount(mode: A.Mode): nat {
    match mode
    case Vec8 => 4
    case Vec16 => 2
    case Vec32 => 1
  }

  lemma ModeWidth(mode: A.Mode)
    ensures Width(LaneWidth(mode), LaneCount(mode)) == 32
  {
    match mode {
      case Vec8 => assert Width(8, 3) == 24;
      case Vec16 => assert Width(16, 1) == 16;
      case Vec32 => assert Width(32, 1) == 32;
    }
  }

  /** The low three, four or five bits of each lane of the second operand. */
  function Amounts(mode: A.Mode, b: nat): (amounts: seq<nat>)
    ensures |amounts| == LaneCount(mode)
  {
    var lanes := Split(LaneWidth(mode), LaneCount(mode), b);
    seq(LaneCount(mode), k requires 0 <= k < LaneCount(mode) => lanes[k] % LaneWidth(mode))
  }

  /** ALU_SLL in every vector mode. */
  function VectorLeft(mode: A.Mode, a: nat, b: nat): nat {
    ShiftVectorLeft(LaneWidth(mode), LaneCount(mode), a, Amounts(mode, b))
  }

  /** Each lane is shifted left by its own amount. */
  lemma VectorLeftIsLanewise(mode: A.Mode, a: nat, b: nat, k: nat)
    requires a < Pow2(32) && k < LaneCount(mode)
    ensures Split(LaneWidth(mode), LaneCount(mode), VectorLeft(mode, a, b))[k]
         == ShiftLeft(LaneWidth(mode), Split(LaneWidth(mode), LaneCount(mode), a)[k],
                      Split(LaneWidth(mode), LaneCount(mode), b)[k] % LaneWidth(mode))
  {
    ModeWidth(mode);
    VectorShiftIsLanewise(LaneWidth(mode), LaneCount(mode), a, Amounts(mode, b));
  }

  // --------------------------------------------------------------------- normalised adder

  lemma Size32()
    ensures Pow2(32) == 0x1_0000_0000
  {
    assert Pow2(8) == 0x100;
    Pow2Add(8, 8);
    Pow2Add(16, 16);
  }

  lemma HalfSizes()
    ensures Pow2(7) == 0x80 && Pow2(8) == 0x100 && Pow2(15) == 0x8000 && Pow2(16) == 0x1_0000
    ensures Pow2(31) == 0x8000_0000
  {
    assert Pow2(7) == 0x80 && Pow2(8) == 0x100;
    Pow2Add(8, 7);
    Pow2Add(8, 8);
    Pow2Add(16, 15);
  }

  /** The lanes of a word in bytes. */
  function Lanes(mode: A.Mode, x: A.Bytes): seq<nat> {
    match mode
    case Vec8 => [x.b0, x.b1, x.b2, x.b3]
    case Vec16 => [A.Low(x), A.High(x)]
    case Vec32 => [A.Value(x)]
  }

  lemma JoinFirst(w: nat, x: nat, y: nat, xs: seq<nat>)
    requires Join(w, xs) == y
    ensures Join(w, [x] + xs) == x + Pow2(w) * y
  {
    assert ([x] + xs)[1..] == xs;
  }

  lemma JoinBytes(b: seq<nat>)
    requires |b| == 4
    ensures Join(8, b) == b[0] + Pow2(8) * (b[1] + Pow2(8) * (b[2] + Pow2(8) * b[3]))
  {
    JoinFirst(8, b[3], 0, []);
    JoinFirst(8, b[2], Join(8, [b[3]]), [b[3]]);
    JoinFirst(8, b[1], Join(8, [b[2]] + [b[3]]), [b[2]] + [b[3]]);
    JoinFirst(8, b[0], Join(8, [b[1]] + ([b[2]] + [b[3]])), [b[1]] + ([b[2]] + [b[3]]));
    assert b == [b[0]] + ([b[1]] + ([b[2]] + [b[3]]));
  }

  lemma JoinHalves(h: seq<nat>)
    requires |h| == 2
    ensures Join(16, h) == h[0] + Pow2(16) * h[1]
  {
    JoinFirst(16, h[1], 0, []);
    JoinFirst(16, h[0], h[1], [h[1]]);
    assert h == [h[0]] + [h[1]];
  }

  lemma JoinLanes(mode: A.Mode, x: A.Bytes)
    ensures Join(LaneWidth(mode), Lanes(mode, x)) == A.Value(x)
  {
    HalfSizes();
    match mode {
      case Vec8 => JoinBytes(Lanes(mode, x));
      case Vec16 => JoinHalves(Lanes(mode, x));
      case Vec32 => JoinFirst(32, A.Value(x), 0, []);
    }
  }

  lemma SplitLanes(mode: A.Mode, x: A.Bytes)
    ensures Split(LaneWidth(mode), LaneCount(mode), A.Value(x)) == Lanes(mode, x)
  {
    HalfSizes();
    Size32();
    JoinLanes(mode, x);
    SplitJoin(LaneWidth(mode), Lanes(mode, x));
  }

  /** The lane of comparisons that holds byte `i` is the bit-level lane of shifts, read in two's complement. */
  lemma LaneIsReading(mode: A.Mode, signed: bool, x: A.Bytes, i: nat)
    requires i < 4
    ensures C.Lane(mode, signed, x, i)
         == Reading(LaneWidth(mode), signed,
                    Split(LaneWidth(mode), LaneCount(mode), A.Value(x))[i * LaneCount(mode) / 4])
  {
    HalfSizes();
    Size32();
    SplitLanes(mode, x);
  }

  /** A register read as a number. */
  function Number(signed: bool, x: A.Bytes): int {
    Reading(32, signed, A.Value(x))
  }

  /** The exact sum or difference. */
  function ExactSum(subtract: bool, signed: bool, a: A.Bytes, b: A.Bytes): int {
    if subtract then Number(signed, a) - Number(signed, b) else Number(signed, a) + Number(signed, b)
  }

  /** The number of a bit list, bit 0 first. */
  function FromBits(s: seq<bool>): nat {
    if s == [] then 0 else (if s[0] then 1 else 0) + 2 * FromBits(s[1..])
  }

  /** The rounding value: the bit mask of a field of one bit at `n`, without its lowest bit. */
  function RoundValue(round: bool, n: B.Index): nat {
    if round then FromBits(B.Mask(0, n)[1..]) else 0
  }

  lemma {:induction false} OneBit(s: seq<bool>, k: int)
    requires forall i :: 0 <= i < |s| ==> (s[i] <==> i == k)
    ensures FromBits(s) == if 0 <= k < |s| then Pow2(k) else 0
    decreases |s|
  {
    if s != [] {
      assert forall i :: 0 <= i < |s[1..]| ==> (s[1..][i] <==> i == k - 1);
      OneBit(s[1..], k - 1);
    }
  }

  /** It is half of the unit that is left after the shift. */
  lemma RoundIsHalfUnit(round: bool, n: B.Index)
    ensures RoundValue(round, n) == HalfUnit(round, n)
  {
    var bits := B.Mask(0, n)[1..];
    forall i | 0 <= i < |bits|
      ensures bits[i] <==> i == n - 1
    {
      B.MaskIsField(0, n, i + 1);
    }
    OneBit(bits, n - 1);
  }

  /** ALU_ADD, ALU_SUB and their rounding and unsigned variants in 32-bit mode, shifted right by `n`. */
  function AddSubNormalised(subtract: bool, signed: bool, round: bool, a: A.Bytes, b: A.Bytes, n: B.Index): nat {
    ShiftResult(32, signed, Word(32, A.Value(A.AddSub(A.Vec32, subtract, a, b)) + RoundValue(round, n)), n)
  }

  lemma ReadingsAgree(signed: bool, x: A.Bytes) returns (c: int)
    ensures Number(signed, x) == A.Value(x) + c * 0x1_0000_0000
  {
    Size32();
    c := if signed && Msb(32, A.Value(x)) then -1 else 0;
  }

  /** The adder result is the word of the exact sum, whichever way the operands are read. */
  lemma AdderIsWordOfSum(subtract: bool, signed: bool, a: A.Bytes, b: A.Bytes)
    ensures A.Value(A.AddSub(A.Vec32, subtract, a, b)) == Word(32, ExactSum(subtract, signed, a, b))
  {
    Size32();
    A.AddSubIsLanewise(A.Vec32, subtract, a, b);
    var c := ReadingsAgree(signed, a);
    var d := ReadingsAgree(signed, b);
    var x := A.Exact(subtract, A.Value(a), A.Value(b));
    var e := ExactSum(subtract, signed, a, b);
    WordIsModulo(32, x);
    WordIsModulo(32, e);
    Congruent(x, if subtract then c - d else c + d, e);
  }

  lemma Congruent(x: int, q: int, e: int)
    requires e == x + q * 0x1_0000_0000
    ensures e % 0x1_0000_0000 == x % 0x1_0000_0000
  {
  }

  lemma SumsInRange(subtract: bool, signed: bool, a: A.Bytes, b: A.Bytes)
    ensures SumRange(32, signed, ExactSum(subtract, signed, a, b))
  {
    Size32();
    ReadingInRange(32, signed, A.Value(a));
    ReadingInRange(32, signed, A.Value(b));
  }

  lemma NormalisedOfSum(subtract: bool, signed: bool, round: bool, a: A.Bytes, b: A.Bytes, n: B.Index)
    ensures AddSubNormalised(subtract, signed, round, a, b, n)
         == Normalised(32, signed, round, Word(32, ExactSum(subtract, signed, a, b)), n)
  {
    RoundIsHalfUnit(round, n);
    AdderIsWordOfSum(subtract, signed, a, b);
  }

  /** The result is the modular sum with half a unit added, read as the operation reads it and divided by
      2^n rounding down. */
  lemma NormalisedAdd(subtract: bool, signed: bool, round: bool, a: A.Bytes, b: A.Bytes, n: B.Index)
    ensures Reading(32, signed, AddSubNormalised(subtract, signed, round, a, b, n))
         == FloorShift(Reading(32, signed, Word(32, ExactSum(subtract, signed, a, b) + HalfUnit(round, n))), n)
  {
    var e := ExactSum(subtract, signed, a, b);
    NormalisedOfSum(subtract, signed, round, a, b, n);
    NormalisedIsFloor(32, signed, round, e, n);
  }

  /** Read over the integers, the documented formula is met exactly if nothing is shifted or the rounded
      sum fits 32 bits. */
  lemma NormalisedAddIsExact(subtract: bool, signed: bool, round: bool, a: A.Bytes, b: A.Bytes, n: B.Index)
    ensures var exact := ExactSum(subtract, signed, a, b) + HalfUnit(round, n);
            AddSubNormalised(subtract, signed, round, a, b, n) == Word(32, FloorShift(exact, n))
            <==> n == 0 || InRange(32, signed, exact)
  {
    SumsInRange(subtract, signed, a, b);
    NormalisedOfSum(subtract, signed, round, a, b, n);
    NormalisedIsExact(32, signed, round, ExactSum(subtract, signed, a, b), n);
  }

  const MAX_INT := A.Bytes(0xFF, 0xFF, 0xFF, 0x7F)
  const ONE := A.Bytes(1, 0, 0, 0)

  lemma WitnessSum()
    ensures ExactSum(false, true, MAX_INT, ONE) == 0x8000_0000
  {
    Size32();
    assert A.Value(MAX_INT) == 0x7FFF_FFFF && A.Value(ONE) == 1;
  }

  lemma WitnessOverflows()
    ensures !InRange(32, true, 0x8000_0000)
  {
    Size32();
  }

  /** An input on which it is not: cv.addN of the largest positive number and 1, shifted by 1. */
  lemma NormalisedAddOverflows()
    ensures AddSubNormalised(false, true, false, MAX_INT, ONE, 1)
         != Word(32, FloorShift(ExactSum(false, true, MAX_INT, ONE), 1))
  {
    WitnessSum();
    WitnessOverflows();
    NormalisedAddIsExact(false, true, false, MAX_INT, ONE, 1);
  }
}
