/** The partitioned adder, the comparators, and clip of rtl/cv32e40p_alu.sv: 32-bit operands as four bytes,
    read as four 8-bit, two 16-bit or one 32-bit lane. */
module AluAdder {
  import opened Bits

  type Byte = x: nat | x < 256

  datatype Bytes = Bytes(b0: Byte, b1: Byte, b2: Byte, b3: Byte)

  datatype Mode = Vec8 | Vec16 | Vec32

  // ------------------------------------------------------------------------- lane values

  function Low(x: Bytes): (h: nat)
    ensures h < 0x1_0000
  {
    x.b0 + 256 * x.b1
  }

  function High(x: Bytes): (h: nat)
    ensures h < 0x1_0000
  {
    x.b2 + 256 * x.b3
  }

  function Value(x: Bytes): (v: nat)
    ensures v < 0x1_0000_0000
  {
    x.b0 + 256 * x.b1 + 0x1_0000 * x.b2 + 0x100_0000 * x.b3
  }

  function Signed8(b: Byte): int {
    if b >= 0x80 then b - 0x100 else b
  }

  function Signed16(h: nat): int {
    if h >= 0x8000 then h - 0x1_0000 else h
  }

  function Signed32(v: nat): int {
    if v >= 0x8000_0000 then v - 0x1_0000_0000 else v
  }

  function Not(x: Bytes): Bytes {
    Bytes(255 - x.b0, 255 - x.b1, 255 - x.b2, 255 - x.b3)
  }

  lemma NotIsMinusOne(x: Bytes)
    ensures Low(Not(x)) == 0xFFFF - Low(x) && High(Not(x)) == 0xFFFF - High(x)
    ensures Value(Not(x)) == 0xFFFF_FFFF - Value(x)
    ensures Signed32(Value(Not(x))) == -(Signed32(Value(x)) + 1)
  {
  }

  // ------------------------------------------------------------------- the 36-bit adder

  /** The guard bits below the four bytes. */
  datatype Guards = Guards(g0: nat, g1: nat, g2: nat, g3: nat)

  /** `special` covers subtraction, absolute value and clip: there each lane starts with a carry. */
  function GuardsA(mode: Mode, special: bool): Guards {
    if special then Guards(1, 1, 1, 1)
    else match mode
      case Vec8 => Guards(1, 0, 0, 0)
      case Vec16 => Guards(1, 1, 0, 1)
      case Vec32 => Guards(1, 1, 1, 1)
  }

  function GuardsB(mode: Mode, special: bool): Guards {
    if !special then Guards(0, 0, 0, 0)
    else match mode
      case Vec8 => Guards(1, 1, 1, 1)
      case Vec16 => Guards(1, 0, 1, 0)
      case Vec32 => Guards(1, 0, 0, 0)
  }

  /** Guards and bytes interleaved, as a signed number. */
  function AdderIn(g: Guards, x: Bytes): int {
    g.g0 + 2 * (x.b0 + 256 * (g.g1 + 2 * (x.b1 + 256 * (g.g2 + 2 * (x.b2 + 256 * (g.g3 + 2 * Signed8(x.b3)))))))
  }

  /** The 37-bit sum; its top bit is its sign. */
  function Expanded(mode: Mode, special: bool, x: Bytes, y: Bytes): int {
    AdderIn(GuardsA(mode, special), x) + AdderIn(GuardsB(mode, special), y)
  }

  function AdderResult(e: int): Bytes {
    Bytes(e / 0x2 % 256, e / 0x400 % 256, e / 0x8_0000 % 256, e / 0x1000_0000 % 256)
  }

  /** One guard bit and one byte. */
  lemma PeelDigits(e: int, d: nat, r: Byte, rest: int)
    requires d <= 1 && e == d + 2 * (r + 256 * rest)
    ensures e / 2 % 256 == r && e / 512 == rest
  {
  }

  lemma NestedDivision(e: int)
    ensures e / 0x400 == e / 512 / 2
    ensures e / 0x8_0000 == e / 512 / 512 / 2
    ensures e / 0x1000_0000 == e / 512 / 512 / 512 / 2
  {
  }

  /** Mixed-radix digits are unique: what the result wires pick out. */
  lemma DigitsOf(e: int, d: Guards, r: Bytes, q: int)
    requires d.g0 <= 1 && d.g1 <= 1 && d.g2 <= 1 && d.g3 <= 1
    requires e == Interleaved(d, r.b0, r.b1, r.b2, r.b3 + 256 * q)
    ensures AdderResult(e) == r
    ensures e < 0 <==> q < 0
  {
    var e3 := d.g3 + 2 * (r.b3 + 256 * q);
    var e2 := d.g2 + 2 * (r.b2 + 256 * e3);
    var e1 := d.g1 + 2 * (r.b1 + 256 * e2);
    PeelDigits(e, d.g0, r.b0, e1);
    PeelDigits(e1, d.g1, r.b1, e2);
    PeelDigits(e2, d.g2, r.b2, e3);
    PeelDigits(e3, d.g3, r.b3, q);
    NestedDivision(e);
  }

  /** The byte sums with their carries, from the guard sums and the plain byte sums. */
  datatype Ripple = Ripple(t0: nat, t1: nat, t2: nat, c3: nat)

  function RippleOf(g: Guards, s0: nat, s1: nat, s2: nat): Ripple {
    var t0 := s0 + g.g0 / 2;
    var t1 := s1 + (g.g1 + t0 / 256) / 2;
    var t2 := s2 + (g.g2 + t1 / 256) / 2;
    Ripple(t0, t1, t2, (g.g3 + t2 / 256) / 2)
  }

  function Interleaved(g: Guards, s0: nat, s1: nat, s2: nat, top: int): int {
    g.g0 + 2 * (s0 + 256 * (g.g1 + 2 * (s1 + 256 * (g.g2 + 2 * (s2 + 256 * (g.g3 + 2 * top))))))
  }

  lemma RippleDigits(e: int, g: Guards, s0: nat, s1: nat, s2: nat, top: int, t: Ripple)
    requires g.g0 <= 2 && g.g1 <= 2 && g.g2 <= 2 && g.g3 <= 2 && s0 < 511 && s1 < 511 && s2 < 511
    requires e == Interleaved(g, s0, s1, s2, top) && t == RippleOf(g, s0, s1, s2)
    ensures AdderResult(e) == Bytes(t.t0 % 256, t.t1 % 256, t.t2 % 256, (top + t.c3) % 256)
    ensures e < 0 <==> top + t.c3 < 0
  {
    var t3 := top + t.c3;
    var d := Guards(g.g0 % 2, (g.g1 + t.t0 / 256) % 2, (g.g2 + t.t1 / 256) % 2, (g.g3 + t.t2 / 256) % 2);
    var b := Bytes(t.t0 % 256, t.t1 % 256, t.t2 % 256, t3 % 256);
    CarriesCancel(e, g, s0, s1, s2, top, d, b, g.g0 / 2, t.t0 / 256, (g.g1 + t.t0 / 256) / 2, t.t1 / 256,
                  (g.g2 + t.t1 / 256) / 2, t.t2 / 256, t.c3, t3 / 256);
    DigitsOf(e, d, b, t3 / 256);
  }

  lemma CarriesCancel(e: int, g: Guards, s0: nat, s1: nat, s2: nat, top: int, d: Guards, b: Bytes,
                      c0: nat, k0: nat, c1: nat, k1: nat, c2: nat, k2: nat, c3: nat, q: int)
    requires e == Interleaved(g, s0, s1, s2, top)
    requires g.g0 == d.g0 + 2 * c0 && s0 + c0 == b.b0 + 256 * k0
    requires g.g1 + k0 == d.g1 + 2 * c1 && s1 + c1 == b.b1 + 256 * k1
    requires g.g2 + k1 == d.g2 + 2 * c2 && s2 + c2 == b.b2 + 256 * k2
    requires g.g3 + k2 == d.g3 + 2 * c3 && top + c3 == b.b3 + 256 * q
    ensures e == Interleaved(d, b.b0, b.b1, b.b2, b.b3 + 256 * q)
  {
  }

  /** The guard digits of both operands together. */
  function GuardSum(mode: Mode, special: bool): Guards {
    var a, b := GuardsA(mode, special), GuardsB(mode, special);
    Guards(a.g0 + b.g0, a.g1 + b.g1, a.g2 + b.g2, a.g3 + b.g3)
  }

  lemma SumIsInterleaved(mode: Mode, special: bool, x: Bytes, y: Bytes)
    ensures Expanded(mode, special, x, y)
         == Interleaved(GuardSum(mode, special), x.b0 + y.b0, x.b1 + y.b1, x.b2 + y.b2, Signed8(x.b3) + Signed8(y.b3))
  {
  }

  function Carry(special: bool): nat {
    if special then 1 else 0
  }

  /** The result of the adder in every lane. */
  predicate Lanewise(mode: Mode, c: nat, x: Bytes, y: Bytes, r: Bytes) {
    match mode
    case Vec8 =>
      && r.b0 == (x.b0 + y.b0 + c) % 256 && r.b1 == (x.b1 + y.b1 + c) % 256
      && r.b2 == (x.b2 + y.b2 + c) % 256 && r.b3 == (x.b3 + y.b3 + c) % 256
    case Vec16 =>
      Low(r) == (Low(x) + Low(y) + c) % 0x1_0000 && High(r) == (High(x) + High(y) + c) % 0x1_0000
    case Vec32 => Value(r) == (Value(x) + Value(y) + c) % 0x1_0000_0000
  }

  /** What a guard does to the carry below it: pass it, cut it, or start a new one. */
  lemma GuardCarries(g: nat, s: nat)
    requires g <= 2 && s <= 511
    ensures (g + s / 256) / 2 == if g == 1 then s / 256 else g / 2
  {
  }

  /** Where carries pass and where they start. */
  lemma CarriesByMode(mode: Mode, special: bool, s0: nat, s1: nat, s2: nat)
    requires s0 <= 510 && s1 <= 510 && s2 <= 510
    ensures var t, c := RippleOf(GuardSum(mode, special), s0, s1, s2), Carry(special);
            && t.t0 == s0 + c
            && t.t1 == s1 + (if mode == Vec8 then c else t.t0 / 256)
            && t.t2 == s2 + (if mode == Vec32 then t.t1 / 256 else c)
            && t.c3 == (if mode == Vec8 then c else t.t2 / 256)
  {
    var g := GuardSum(mode, special);
    var t := RippleOf(g, s0, s1, s2);
    GuardCarries(g.g1, t.t0);
    GuardCarries(g.g2, t.t1);
    GuardCarries(g.g3, t.t2);
  }

  lemma Lane16(x: Bytes, y: Bytes, c: nat, t0: nat, t1: nat)
    requires t0 == x.b0 + y.b0 + c && t1 == x.b1 + y.b1 + t0 / 256
    ensures t0 % 256 + 256 * (t1 % 256) == (Low(x) + Low(y) + c) % 0x1_0000
  {
    TwoDigits(t0, x.b1 + y.b1, t1);
  }

  lemma HighLane16(x: Bytes, y: Bytes, c: nat, t2: nat, t3: nat)
    requires t2 == x.b2 + y.b2 + c && t3 == x.b3 + y.b3 + t2 / 256
    ensures t2 % 256 + 256 * (t3 % 256) == (High(x) + High(y) + c) % 0x1_0000
  {
    TwoDigits(t2, x.b3 + y.b3, t3);
  }

  lemma Lane32(x: Bytes, y: Bytes, c: nat, t0: nat, t1: nat, t2: nat, t3: nat)
    requires t0 == x.b0 + y.b0 + c && t1 == x.b1 + y.b1 + t0 / 256
    requires t2 == x.b2 + y.b2 + t1 / 256 && t3 == x.b3 + y.b3 + t2 / 256
    ensures t0 % 256 + 256 * (t1 % 256) + 0x1_0000 * (t2 % 256) + 0x100_0000 * (t3 % 256)
         == (Value(x) + Value(y) + c) % 0x1_0000_0000
  {
    FourDigits(t0, x.b1 + y.b1, t1, x.b2 + y.b2, t2, x.b3 + y.b3, t3);
  }

  lemma LanesByMode(mode: Mode, c: nat, x: Bytes, y: Bytes, t0: nat, t1: nat, t2: nat, t3: nat, r: Bytes)
    requires t0 == x.b0 + y.b0 + c && t1 == x.b1 + y.b1 + (if mode == Vec8 then c else t0 / 256)
    requires t2 == x.b2 + y.b2 + (if mode == Vec32 then t1 / 256 else c)
    requires t3 == x.b3 + y.b3 + (if mode == Vec8 then c else t2 / 256)
    requires r.b0 == t0 % 256 && r.b1 == t1 % 256 && r.b2 == t2 % 256 && r.b3 == t3 % 256
    ensures Lanewise(mode, c, x, y, r)
  {
    if mode == Vec16 {
      Lane16(x, y, c, t0, t1);
      HighLane16(x, y, c, t2, t3);
    } else if mode == Vec32 {
      Lane32(x, y, c, t0, t1, t2, t3);
    }
  }

  /** The byte sums behind the result, with the carries as the guards let them through. */
  lemma AdderBytes(mode: Mode, special: bool, x: Bytes, y: Bytes, t: Ripple)
    requires t == RippleOf(GuardSum(mode, special), x.b0 + y.b0, x.b1 + y.b1, x.b2 + y.b2)
    ensures var e := Expanded(mode, special, x, y);
            && AdderResult(e) == Bytes(t.t0 % 256, t.t1 % 256, t.t2 % 256, (Signed8(x.b3) + Signed8(y.b3) + t.c3) % 256)
            && (e < 0 <==> Signed8(x.b3) + Signed8(y.b3) + t.c3 < 0)
  {
    SumIsInterleaved(mode, special, x, y);
    RippleDigits(Expanded(mode, special, x, y), GuardSum(mode, special), x.b0 + y.b0, x.b1 + y.b1, x.b2 + y.b2,
                 Signed8(x.b3) + Signed8(y.b3), t);
  }

  lemma AdderCarries(mode: Mode, special: bool, x: Bytes, y: Bytes, t: Ripple)
    requires t == RippleOf(GuardSum(mode, special), x.b0 + y.b0, x.b1 + y.b1, x.b2 + y.b2)
    ensures t.t0 == x.b0 + y.b0 + Carry(special)
    ensures t.t1 == x.b1 + y.b1 + (if mode == Vec8 then Carry(special) else t.t0 / 256)
    ensures t.t2 == x.b2 + y.b2 + (if mode == Vec32 then t.t1 / 256 else Carry(special))
    ensures t.c3 == (if mode == Vec8 then Carry(special) else t.t2 / 256)
  {
    CarriesByMode(mode, special, x.b0 + y.b0, x.b1 + y.b1, x.b2 + y.b2);
  }

  lemma AdderLanes(mode: Mode, c: nat, x: Bytes, y: Bytes, r: Bytes, t: Ripple)
    requires t.t0 == x.b0 + y.b0 + c && t.t1 == x.b1 + y.b1 + (if mode == Vec8 then c else t.t0 / 256)
    requires t.t2 == x.b2 + y.b2 + (if mode == Vec32 then t.t1 / 256 else c)
    requires t.c3 == (if mode == Vec8 then c else t.t2 / 256)
    requires r.b0 == t.t0 % 256 && r.b1 == t.t1 % 256 && r.b2 == t.t2 % 256
    requires r.b3 == (Signed8(x.b3) + Signed8(y.b3) + t.c3) % 256
    ensures Lanewise(mode, c, x, y, r)
  {
    TopByte(x.b3, y.b3, t.c3);
    LanesByMode(mode, c, x, y, t.t0, t.t1, t.t2, x.b3 + y.b3 + t.c3, r);
  }

  /** The guard bits cut the carry chain at lane borders and start every lane with the carry. */
  lemma AdderIsLanewise(mode: Mode, special: bool, x: Bytes, y: Bytes)
    ensures Lanewise(mode, Carry(special), x, y, AdderResult(Expanded(mode, special, x, y)))
  {
    var t := RippleOf(GuardSum(mode, special), x.b0 + y.b0, x.b1 + y.b1, x.b2 + y.b2);
    AdderBytes(mode, special, x, y, t);
    AdderCarries(mode, special, x, y, t);
    AdderLanes(mode, Carry(special), x, y, AdderResult(Expanded(mode, special, x, y)), t);
  }

  lemma TopByte(x: Byte, y: Byte, c: nat)
    ensures (Signed8(x) + Signed8(y) + c) % 256 == (x + y + c) % 256
  {
  }

  lemma TwoDigits(t0: nat, s1: nat, t1: nat)
    requires t1 == s1 + t0 / 256
    ensures t0 % 256 + 256 * (t1 % 256) == (t0 + 256 * s1) % 0x1_0000
    ensures t1 / 256 == (t0 + 256 * s1) / 0x1_0000
  {
  }

  lemma TwoHalves(low: nat, u: nat)
    ensures low % 0x1_0000 + 0x1_0000 * ((u + low / 0x1_0000) % 0x1_0000) == (low + 0x1_0000 * u) % 0x1_0000_0000
  {
  }

  lemma FourDigits(t0: nat, s1: nat, t1: nat, s2: nat, t2: nat, s3: nat, t3: nat)
    requires t1 == s1 + t0 / 256 && t2 == s2 + t1 / 256 && t3 == s3 + t2 / 256
    ensures t0 % 256 + 256 * (t1 % 256) + 0x1_0000 * (t2 % 256) + 0x100_0000 * (t3 % 256)
         == (t0 + 256 * s1 + 0x1_0000 * s2 + 0x100_0000 * s3) % 0x1_0000_0000
  {
    TwoDigits(t0, s1, t1);
    TwoDigits(t2, s3, t3);
    TwoHalves(t0 + 256 * s1, s2 + 256 * s3);
  }

  // ------------------------------------------------------------------- add and subtract

  function SecondOperand(subtract: bool, b: Bytes): Bytes {
    if subtract then Not(b) else b
  }

  /** ALU_ADD* and ALU_SUB* before normalisation: a subtraction inverts the second operand. */
  function AddSub(mode: Mode, subtract: bool, a: Bytes, b: Bytes): Bytes {
    AdderResult(Expanded(mode, subtract, a, SecondOperand(subtract, b)))
  }

  lemma Subtracted(m: int, x: int, y: int)
    requires 0 <= x < m && 0 <= y < m
    ensures (x + (m - 1 - y) + 1) % m == (x - y) % m
  {
    var d := x - y;
    if d < 0 {
      ModUnique(d, m, -1, d + m);
      ModUnique(d + m, m, 0, d + m);
    } else {
      ModUnique(d, m, 0, d);
      ModUnique(d + m, m, 1, d);
    }
  }

  function Exact(subtract: bool, x: nat, y: nat): int {
    if subtract then x - y else x + y
  }

  /** Every lane of `r` is the sum or difference modulo the lane size. */
  predicate Combined(mode: Mode, subtract: bool, a: Bytes, b: Bytes, r: Bytes) {
    match mode
    case Vec8 =>
      && r.b0 == Exact(subtract, a.b0, b.b0) % 256 && r.b1 == Exact(subtract, a.b1, b.b1) % 256
      && r.b2 == Exact(subtract, a.b2, b.b2) % 256 && r.b3 == Exact(subtract, a.b3, b.b3) % 256
    case Vec16 =>
      && Low(r) == Exact(subtract, Low(a), Low(b)) % 0x1_0000
      && High(r) == Exact(subtract, High(a), High(b)) % 0x1_0000
    case Vec32 => Value(r) == Exact(subtract, Value(a), Value(b)) % 0x1_0000_0000
  }

  /** The three lane sizes: adding the carry and the second operand, inverted for a subtraction. */
  lemma ByteLane(subtract: bool, x: Byte, y: Byte, r: nat)
    requires r == (x + (if subtract then 255 - y else y) + Carry(subtract)) % 256
    ensures r == Exact(subtract, x, y) % 256
  {
    Subtracted(256, x, y);
  }

  lemma HalfLane(subtract: bool, x: nat, y: nat, added: nat, r: nat)
    requires x < 0x1_0000 && y < 0x1_0000 && added == (if subtract then 0xFFFF - y else y)
    requires r == (x + added + Carry(subtract)) % 0x1_0000
    ensures r == Exact(subtract, x, y) % 0x1_0000
  {
    Subtracted(0x1_0000, x, y);
  }

  lemma WordLane(subtract: bool, x: nat, y: nat, added: nat, r: nat)
    requires x < 0x1_0000_0000 && y < 0x1_0000_0000 && added == (if subtract then 0xFFFF_FFFF - y else y)
    requires r == (x + added + Carry(subtract)) % 0x1_0000_0000
    ensures r == Exact(subtract, x, y) % 0x1_0000_0000
  {
    Subtracted(0x1_0000_0000, x, y);
  }

  lemma BytesCombine(subtract: bool, a: Bytes, b: Bytes, r: Bytes)
    requires Lanewise(Vec8, Carry(subtract), a, SecondOperand(subtract, b), r)
    ensures Combined(Vec8, subtract, a, b, r)
  {
    ByteLane(subtract, a.b0, b.b0, r.b0);
    ByteLane(subtract, a.b1, b.b1, r.b1);
    ByteLane(subtract, a.b2, b.b2, r.b2);
    ByteLane(subtract, a.b3, b.b3, r.b3);
  }

  lemma SecondLow(subtract: bool, b: Bytes)
    ensures Low(SecondOperand(subtract, b)) == if subtract then 0xFFFF - Low(b) else Low(b)
  {
  }

  lemma SecondHigh(subtract: bool, b: Bytes)
    ensures High(SecondOperand(subtract, b)) == if subtract then 0xFFFF - High(b) else High(b)
  {
  }

  lemma SecondValue(subtract: bool, b: Bytes)
    ensures Value(SecondOperand(subtract, b)) == if subtract then 0xFFFF_FFFF - Value(b) else Value(b)
  {
  }

  lemma HalvesCombine(subtract: bool, a: Bytes, b: Bytes, second: Bytes, r: Bytes)
    requires Lanewise(Vec16, Carry(subtract), a, second, r)
    requires Low(second) == (if subtract then 0xFFFF - Low(b) else Low(b))
    requires High(second) == (if subtract then 0xFFFF - High(b) else High(b))
    ensures Combined(Vec16, subtract, a, b, r)
  {
    HalfLane(subtract, Low(a), Low(b), Low(second), Low(r));
    HalfLane(subtract, High(a), High(b), High(second), High(r));
  }

  lemma WordsCombine(subtract: bool, a: Bytes, b: Bytes, second: Bytes, r: Bytes)
    requires Lanewise(Vec32, Carry(subtract), a, second, r)
    requires Value(second) == (if subtract then 0xFFFF_FFFF - Value(b) else Value(b))
    ensures Combined(Vec32, subtract, a, b, r)
  {
    WordLane(subtract, Value(a), Value(b), Value(second), Value(r));
  }

  /** Addition and subtraction modulo the lane size, in every lane of every mode. */
  lemma AddSubIsLanewise(mode: Mode, subtract: bool, a: Bytes, b: Bytes)
    ensures Combined(mode, subtract, a, b, AddSub(mode, subtract, a, b))
  {
    var second := SecondOperand(subtract, b);
    AdderIsLanewise(mode, subtract, a, second);
    match mode {
      case Vec8 =>
        BytesCombine(subtract, a, b, AddSub(mode, subtract, a, b));
      case Vec16 =>
        SecondLow(subtract, b);
        SecondHigh(subtract, b);
        HalvesCombine(subtract, a, b, second, AddSub(mode, subtract, a, b));
      case Vec32 =>
        SecondValue(subtract, b);
        WordsCombine(subtract, a, b, second, AddSub(mode, subtract, a, b));
    }
  }

  /** Bit 36, the sign of the 37-bit sum, in the 32-bit mode of clip. */
  lemma ExpandedSign(x: Bytes, y: Bytes)
    ensures Expanded(Vec32, true, x, y) < 0 <==> Signed32(Value(x)) + Signed32(Value(y)) + 1 < 0
  {
    var t := RippleOf(GuardSum(Vec32, true), x.b0 + y.b0, x.b1 + y.b1, x.b2 + y.b2);
    AdderBytes(Vec32, true, x, y, t);
    AdderCarries(Vec32, true, x, y, t);
    SignOfBytes(x, y, t.t0, t.t1, t.t2, t.c3);
  }

  lemma SignOfBytes(x: Bytes, y: Bytes, t0: nat, t1: nat, t2: nat, c3: nat)
    requires t0 == x.b0 + y.b0 + 1 && t1 == x.b1 + y.b1 + t0 / 256 && t2 == x.b2 + y.b2 + t1 / 256 && c3 == t2 / 256
    ensures Signed8(x.b3) + Signed8(y.b3) + c3 < 0 <==> Signed32(Value(x)) + Signed32(Value(y)) + 1 < 0
  {
    var low := t0 % 256 + 256 * (t1 % 256) + 0x1_0000 * (t2 % 256);
    assert Signed32(Value(x)) == x.b0 + 256 * x.b1 + 0x1_0000 * x.b2 + 0x100_0000 * Signed8(x.b3);
    assert Signed32(Value(y)) == y.b0 + 256 * y.b1 + 0x1_0000 * y.b2 + 0x100_0000 * Signed8(y.b3);
    assert Signed32(Value(x)) + Signed32(Value(y)) + 1 == low + 0x100_0000 * (Signed8(x.b3) + Signed8(y.b3) + c3);
  }
}
