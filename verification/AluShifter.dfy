/** The shifter of rtl/cv32e40p_alu.sv: lane-wise left shifts done with a right shifter between two bit
    reversals, and the normalising right shift of add and subtract with rounding. */
module AluShifter {
  import opened Bits

  // -------------------------------------------------------------------------- lanes

  predicate AreLanes(w: nat, xs: seq<nat>) {
    forall k :: 0 <= k < |xs| ==> xs[k] < Pow2(w)
  }

  /** The word with the given lanes of `w` bits, lane 0 lowest. */
  function Join(w: nat, xs: seq<nat>): nat
    decreases |xs|
  {
    if xs == [] then 0 else xs[0] + Pow2(w) * Join(w, xs[1..])
  }

  /** `n` lanes of `w` bits. */
  function Width(w: nat, n: nat): nat {
    if n == 0 then 0 else w + Width(w, n - 1)
  }

  function LowBits(w: nat, x: nat): (r: nat)
    ensures r < Pow2(w)
  {
    x % Pow2(w)
  }

  function Quotient(x: nat, p: nat): (q: nat)
    requires p > 0
    ensures x == p * q + x % p
  {
    x / p
  }

  function HighBits(w: nat, x: nat): nat {
    Quotient(x, Pow2(w))
  }

  function Split(w: nat, n: nat, x: nat): (xs: seq<nat>)
    ensures |xs| == n && AreLanes(w, xs)
    decreases n
  {
    if n == 0 then [] else [LowBits(w, x)] + Split(w, n - 1, HighBits(w, x))
  }

  lemma DigitsBound(p: nat, q: nat, lo: nat, hi: nat)
    requires lo < p && hi < q
    ensures lo + p * hi < p * q
  {
    MulMonotone(hi + 1, q, p);
    assert (hi + 1) * p == p * hi + p;
    assert q * p == p * q;
  }

  lemma QuotientBound(p: nat, q: nat, x: nat)
    requires 0 < p && x < p * q
    ensures Quotient(x, p) < q
  {
    if Quotient(x, p) >= q {
      MulMonotone(q, Quotient(x, p), p);
      assert false;
    }
  }

  lemma {:induction false} JoinBound(w: nat, xs: seq<nat>)
    requires AreLanes(w, xs)
    ensures Join(w, xs) < Pow2(Width(w, |xs|))
    decreases |xs|
  {
    if xs != [] {
      var n := Width(w, |xs| - 1);
      JoinBound(w, xs[1..]);
      Pow2Add(w, n);
      DigitsBound(Pow2(w), Pow2(n), xs[0], Join(w, xs[1..]));
    }
  }

  lemma {:induction false} SplitJoin(w: nat, xs: seq<nat>)
    requires AreLanes(w, xs)
    ensures Split(w, |xs|, Join(w, xs)) == xs
    decreases |xs|
  {
    if xs != [] {
      ModUnique(Join(w, xs), Pow2(w), Join(w, xs[1..]), xs[0]);
      SplitJoin(w, xs[1..]);
    }
  }

  lemma {:induction false} JoinSplit(w: nat, n: nat, x: nat)
    requires x < Pow2(Width(w, n))
    ensures Join(w, Split(w, n, x)) == x
    decreases n
  {
    if n > 0 {
      var p, q := Pow2(w), HighBits(w, x);
      Pow2Add(w, Width(w, n - 1));
      QuotientBound(p, Pow2(Width(w, n - 1)), x);
      JoinSplit(w, n - 1, q);
      assert Split(w, n, x)[1..] == Split(w, n - 1, q);
    }
  }

  // ------------------------------------------------------------------------ mirror images

  lemma HalfOfDigits(p: nat, lo: nat, hi: nat)
    ensures (lo + 2 * p * hi) % 2 == lo % 2 && (lo + 2 * p * hi) / 2 == lo / 2 + p * hi
  {
    assert 2 * p * hi == 2 * (p * hi);
  }

  lemma BitTimes(b: nat, p: nat, q: nat, r: nat)
    ensures q * (Bit(b, p) + r) == Bit(b, q * p) + q * r
  {
  }

  lemma DoubledPower(m: nat, hi: nat)
    requires m > 0
    ensures Pow2(m) * hi == 2 * Pow2(m - 1) * hi
  {
  }

  /** Peeling the lowest bit off a word in two parts. */
  lemma ConcatHalves(m: nat, lo: nat, hi: nat, x: nat)
    requires m > 0 && x == lo + Pow2(m) * hi
    ensures x % 2 == lo % 2 && x / 2 == lo / 2 + Pow2(m - 1) * hi
  {
    DoubledPower(m, hi);
    HalfOfDigits(Pow2(m - 1), lo, hi);
  }

  /** The mirror image of a word is the mirror image of its upper part, followed by that of its lower. */
  lemma {:induction false} ReverseConcat(m: nat, n: nat, lo: nat, hi: nat, x: nat)
    requires lo < Pow2(m) && hi < Pow2(n) && x == lo + Pow2(m) * hi
    ensures Reverse(m + n, x) == Reverse(n, hi) + Pow2(n) * Reverse(m, lo)
    decreases m
  {
    if m > 0 {
      ConcatHalves(m, lo, hi, x);
      ReverseConcat(m - 1, n, lo / 2, hi, x / 2);
      ConcatLast(m, n, lo, x, Reverse(n, hi));
    }
  }

  lemma ConcatLast(m: nat, n: nat, lo: nat, x: nat, high: nat)
    requires m > 0 && x % 2 == lo % 2
    requires Reverse(m - 1 + n, x / 2) == high + Pow2(n) * Reverse(m - 1, lo / 2)
    ensures Reverse(m + n, x) == high + Pow2(n) * Reverse(m, lo)
  {
    ReverseStep(m + n, x);
    ReverseStep(m, lo);
    Pow2Add(n, m - 1);
    ConcatStep(lo % 2, Pow2(m - 1), Pow2(n), Reverse(m - 1, lo / 2), high, Reverse(m, lo), Reverse(m + n, x),
               Pow2(m + n - 1));
  }

  lemma ConcatStep(b: nat, p: nat, q: nat, r: nat, high: nat, low: nat, all: nat, top: nat)
    requires top == q * p && all == Bit(b, top) + (high + q * r) && low == Bit(b, p) + r
    ensures all == high + q * low
  {
    BitTimes(b, p, q, r);
  }

  lemma ReverseStep(w: nat, x: nat)
    requires w > 0
    ensures Reverse(w, x) == Bit(x % 2, Pow2(w - 1)) + Reverse(w - 1, x / 2)
  {
  }

  /** Lanes in mirror order, each reversed. */
  function Mirror(w: nat, xs: seq<nat>): (ys: seq<nat>)
    ensures |ys| == |xs| && AreLanes(w, ys)
    ensures forall k :: 0 <= k < |ys| ==> ys[k] == Reverse(w, xs[|xs| - 1 - k])
    decreases |xs|
  {
    if xs == [] then [] else Mirror(w, xs[1..]) + [Reverse(w, xs[0])]
  }

  lemma Regrouped(a: nat, p: nat, j: nat, q: nat, y: nat)
    ensures a + p * (j + q * y) == a + p * j + (p * q) * y
  {
  }

  lemma {:induction false} JoinAppend(w: nat, xs: seq<nat>, y: nat)
    ensures Join(w, xs + [y]) == Join(w, xs) + Pow2(Width(w, |xs|)) * y
    decreases |xs|
  {
    if xs == [] {
      assert [] + [y] == [y];
      assert Join(w, [y][1..]) == 0;
    } else {
      var n := Width(w, |xs| - 1);
      JoinAppend(w, xs[1..], y);
      assert (xs + [y])[1..] == xs[1..] + [y];
      Pow2Add(w, n);
      Regrouped(xs[0], Pow2(w), Join(w, xs[1..]), Pow2(n), y);
    }
  }

  lemma {:induction false} ReverseJoin(w: nat, xs: seq<nat>)
    requires AreLanes(w, xs)
    ensures Reverse(Width(w, |xs|), Join(w, xs)) == Join(w, Mirror(w, xs))
    decreases |xs|
  {
    if xs != [] {
      var n, rest := Width(w, |xs| - 1), Join(w, xs[1..]);
      JoinBound(w, xs[1..]);
      ReverseConcat(w, n, xs[0], rest, Join(w, xs));
      ReverseJoin(w, xs[1..]);
      var mirrored, last := Mirror(w, xs[1..]), Reverse(w, xs[0]);
      JoinAppend(w, mirrored, last);
      assert Mirror(w, xs) == mirrored + [last] && Width(w, |xs|) == w + n;
    }
  }

  // -------------------------------------------------------------------------- left shift

  /** The right shifter, lane by lane. */
  function ShiftLanesRight(w: nat, xs: seq<nat>, amounts: seq<nat>): (ys: seq<nat>)
    requires |xs| == |amounts| && AreLanes(w, xs)
    ensures |ys| == |xs| && AreLanes(w, ys)
  {
    seq(|xs|, k requires 0 <= k < |xs| => ShiftRight(xs[k], amounts[k]))
  }

  function Swapped(amounts: seq<nat>): seq<nat> {
    seq(|amounts|, k requires 0 <= k < |amounts| => amounts[|amounts| - 1 - k])
  }

  /** The left shift of the source: reverse the operand, swap the amounts, shift right, reverse the result. */
  function ShiftVectorLeft(w: nat, n: nat, x: nat, amounts: seq<nat>): nat
    requires |amounts| == n
  {
    var shifted := ShiftLanesRight(w, Split(w, n, Reverse(Width(w, n), x)), Swapped(amounts));
    Reverse(Width(w, n), Join(w, shifted))
  }

  /** It shifts every lane left by the amount of its own lane, for any lane width and number of lanes. */
  lemma VectorShiftIsLanewise(w: nat, n: nat, x: nat, amounts: seq<nat>)
    requires w > 0 && |amounts| == n && x < Pow2(Width(w, n))
    ensures forall k :: 0 <= k < n ==>
              Split(w, n, ShiftVectorLeft(w, n, x, amounts))[k] == ShiftLeft(w, Split(w, n, x)[k], amounts[k])
  {
    var xs := Split(w, n, x);
    JoinSplit(w, n, x);
    ReverseJoin(w, xs);
    SplitJoin(w, Mirror(w, xs));
    var shifted := ShiftLanesRight(w, Mirror(w, xs), Swapped(amounts));
    ReverseJoin(w, shifted);
    SplitJoin(w, Mirror(w, shifted));
    forall k | 0 <= k < n
      ensures Mirror(w, shifted)[k] == ShiftLeft(w, xs[k], amounts[k])
    {
      assert shifted[n - 1 - k] == ShiftRight(Mirror(w, xs)[n - 1 - k], Swapped(amounts)[n - 1 - k]);
      ReversedRightShiftIsLeftShift(w, xs[k], amounts[k]);
    }
  }

  // -------------------------------------------------------------------------- right shift

  /** A word read as a number. */
  function Reading(w: nat, signed: bool, x: nat): int
    requires w > 0
  {
    if signed then Signed(w, x) else x
  }

  predicate InRange(w: nat, signed: bool, v: int)
    requires w > 0
  {
    if signed then 0 <= v + Pow2(w - 1) < Pow2(w) else 0 <= v < Pow2(w)
  }

  /** Division by 2^k, rounding down. */
  function FloorShift(v: int, k: nat): int {
    if k == 0 then v else FloorShift(v, k - 1) / 2
  }

  lemma HalfBounds(f: int, p: int, v: int)
    requires p > 0 && f * p <= v < (f + 1) * p
    ensures f / 2 * (2 * p) <= v < (f / 2 + 1) * (2 * p)
  {
    var h := f / 2;
    if f == 2 * h {
      assert h * (2 * p) == f * p;
      assert (h + 1) * (2 * p) == (f + 1) * p + p;
    } else {
      assert f == 2 * h + 1;
      assert h * (2 * p) == f * p - p;
      assert (h + 1) * (2 * p) == (f + 1) * p;
    }
  }

  lemma {:induction false} FloorShiftIsFloor(v: int, k: nat)
    ensures FloorShift(v, k) * Pow2(k) <= v < (FloorShift(v, k) + 1) * Pow2(k)
  {
    if k > 0 {
      FloorShiftIsFloor(v, k - 1);
      HalfBounds(FloorShift(v, k - 1), Pow2(k - 1), v);
    }
  }

  /** The operand sign- or zero-extended to twice its width. */
  function Extended(w: nat, signed: bool, x: nat): nat
    requires w > 0 && x < Pow2(w)
  {
    if signed && Msb(w, x) then (Pow2(w) - 1) * Pow2(w) + x else x
  }

  /** The 32-bit right shift of the source: a logical shift of the extended operand, cut to the width. */
  function ShiftResult(w: nat, signed: bool, x: nat, k: nat): nat
    requires w > 0 && x < Pow2(w)
  {
    Word(w, ShiftRight(Extended(w, signed, x), k))
  }

  lemma {:induction false} ShiftOfNegative(m: nat, v: int, k: nat)
    requires k <= m && 0 <= v + Pow2(m)
    ensures FloorShift(v, k) + Pow2(m - k) >= 0
    ensures ShiftRight(v + Pow2(m), k) == FloorShift(v, k) + Pow2(m - k)
  {
    if k > 0 {
      ShiftOfNegative(m, v, k - 1);
    }
  }

  lemma {:induction false} ShiftOfPositive(x: nat, k: nat)
    ensures ShiftRight(x, k) == FloorShift(x, k)
  {
    if k > 0 {
      ShiftOfPositive(x, k - 1);
    }
  }

  lemma {:induction false} WordPeriods(w: nat, v: int, q: nat)
    ensures Word(w, v + q * Pow2(w)) == Word(w, v)
    decreases q
  {
    if q > 0 {
      var u := v + (q - 1) * Pow2(w);
      assert v + q * Pow2(w) == u + Pow2(w);
      WordPeriods(w, v, q - 1);
      WordIsModulo(w, u);
      WordIsModulo(w, u + Pow2(w));
      ModPeriod(u, Pow2(w));
    }
  }

  lemma {:induction false} FloorShiftInRange(w: nat, signed: bool, v: int, k: nat)
    requires w > 0 && InRange(w, signed, v)
    ensures InRange(w, signed, FloorShift(v, k))
  {
    if k > 0 {
      FloorShiftInRange(w, signed, v, k - 1);
    }
  }

  lemma ReadingOfWord(w: nat, signed: bool, v: int)
    requires w > 0 && InRange(w, signed, v)
    ensures Reading(w, signed, Word(w, v)) == v
  {
    WordWraps(w, v);
  }

  lemma ReadingInRange(w: nat, signed: bool, x: nat)
    requires w > 0 && x < Pow2(w)
    ensures InRange(w, signed, Reading(w, signed, x))
    ensures Word(w, Reading(w, signed, x)) == x
  {
    WordOfSigned(w, x);
  }

  lemma ExtendedNegative(w: nat, x: nat)
    requires w > 0 && x < Pow2(w) && Msb(w, x)
    ensures Extended(w, true, x) == Signed(w, x) + Pow2(w + w)
  {
    Pow2Add(w, w);
    var p := Pow2(w);
    assert (p - 1) * p == p * p - p;
  }

  /** The bits shifted in from the extension fall away with the cut. */
  lemma NegativeShift(w: nat, x: nat, k: nat)
    requires w > 0 && x < Pow2(w) && k <= w && Msb(w, x)
    ensures ShiftResult(w, true, x, k) == Word(w, FloorShift(Signed(w, x), k))
  {
    var f := FloorShift(Signed(w, x), k);
    ExtendedNegative(w, x);
    ShiftOfNegative(w + w, Signed(w, x), k);
    assert w + w - k == (w - k) + w;
    Pow2Add(w - k, w);
    WordPeriods(w, f, Pow2(w - k));
  }

  /** The shift divides the number the word stands for by 2^k, rounding down. */
  lemma ShiftIsFloor(w: nat, signed: bool, x: nat, k: nat)
    requires w > 0 && x < Pow2(w) && k <= w
    ensures Reading(w, signed, ShiftResult(w, signed, x, k)) == FloorShift(Reading(w, signed, x), k)
  {
    var v := Reading(w, signed, x);
    if signed && Msb(w, x) {
      NegativeShift(w, x, k);
    } else {
      ShiftOfPositive(x, k);
    }
    ReadingInRange(w, signed, x);
    FloorShiftInRange(w, signed, v, k);
    ReadingOfWord(w, signed, FloorShift(v, k));
  }

  // ------------------------------------------------------------ rounding and normalisation

  function HalfUnit(round: bool, n: nat): nat {
    if round && n > 0 then Pow2(n - 1) else 0
  }

  /** The adder result `s`, rounded and shifted right. */
  function Normalised(w: nat, signed: bool, round: bool, s: nat, n: nat): nat
    requires w > 0
  {
    ShiftResult(w, signed, Word(w, s + HalfUnit(round, n)), n)
  }

  lemma {:induction false} FloorShiftAdd(v: int, c: int, m: nat, k: nat)
    requires k <= m
    ensures FloorShift(v + c * Pow2(m), k) == FloorShift(v, k) + c * Pow2(m - k)
  {
    if k > 0 {
      FloorShiftAdd(v, c, m, k - 1);
      HalfOfSum(FloorShift(v, k - 1), c, Pow2(m - k));
    }
  }

  lemma HalfOfSum(f: int, c: int, p: int)
    ensures (f + c * (2 * p)) / 2 == f / 2 + c * p
  {
    assert c * (2 * p) == 2 * (c * p);
  }

  lemma ModulosDiffer(p: nat, x: int, d: nat)
    requires 0 < d < p
    ensures x % p != (x + d) % p
  {
    var q, r := x / p, x % p;
    assert x == q * p + r;
    if r + d < p {
      ModUnique(x + d, p, q, r + d);
    } else {
      assert (q + 1) * p == q * p + p;
      ModUnique(x + d, p, q + 1, r + d - p);
    }
  }

  lemma WordsDiffer(w: nat, x: int, y: int)
    requires x < y < x + Pow2(w)
    ensures Word(w, x) != Word(w, y)
  {
    WordIsModulo(w, x);
    WordIsModulo(w, y);
    ModulosDiffer(Pow2(w), x, y - x);
  }

  lemma SmallMultiple(w: nat, n: nat, c: nat)
    requires n <= w && 0 < c < Pow2(n)
    ensures 0 < c * Pow2(w - n) < Pow2(w)
  {
    Pow2Add(n, w - n);
    var p := Pow2(w - n);
    MulMonotone(c + 1, Pow2(n), p);
    assert (c + 1) * p == c * p + p;
  }

  /** Dropping a multiple of 2^w before the shift shows in the result, unless there is no shift. */
  lemma OverflowShows(w: nat, n: nat, v: int, c: int)
    requires n <= w && 0 - Pow2(n) < c < Pow2(n)
    ensures Word(w, FloorShift(v, n)) == Word(w, FloorShift(v + c * Pow2(w), n)) <==> c == 0
  {
    FloorShiftAdd(v, c, w, n);
    var f, g := FloorShift(v, n), FloorShift(v + c * Pow2(w), n);
    if c > 0 {
      SmallMultiple(w, n, c);
      WordsDiffer(w, f, g);
    } else if c < 0 {
      SmallMultiple(w, n, -c);
      assert g + (-c) * Pow2(w - n) == f;
      WordsDiffer(w, g, f);
    }
  }

  lemma SameModulo(p: nat, x: int, y: int) returns (c: int)
    requires p > 0 && x % p == y % p
    ensures x == y + c * p
  {
    c := x / p - y / p;
    assert x == (x / p) * p + x % p;
    assert y == (y / p) * p + y % p;
  }

  /** Numbers with the same word differ by a multiple of 2^w. */
  lemma SameWord(w: nat, x: int, y: int) returns (c: int)
    requires Word(w, x) == Word(w, y)
    ensures x == y + c * Pow2(w)
  {
    WordIsModulo(w, x);
    WordIsModulo(w, y);
    c := SameModulo(Pow2(w), x, y);
  }

  lemma WordAbsorbs(w: nat, e: int, h: int)
    ensures Word(w, Word(w, e) + h) == Word(w, e + h)
  {
    var p, s := Pow2(w), Word(w, e);
    assert Word(w, s) == s;
    var c := SameWord(w, e, s);
    if c >= 0 {
      WordPeriods(w, s + h, c);
    } else {
      assert s + h == e + h + (-c) * p;
      WordPeriods(w, e + h, -c);
    }
  }

  /** For the exact sum or difference `e` and the half unit, the result is that sum, as the register holds
      it, divided by 2^n and rounded down. */
  lemma NormalisedIsFloor(w: nat, signed: bool, round: bool, e: int, n: nat)
    requires w > 0 && n <= w
    ensures Reading(w, signed, Normalised(w, signed, round, Word(w, e), n))
         == FloorShift(Reading(w, signed, Word(w, e + HalfUnit(round, n))), n)
  {
    WordAbsorbs(w, e, HalfUnit(round, n));
    ShiftIsFloor(w, signed, Word(w, e + HalfUnit(round, n)), n);
  }

  /** The exact sums and differences of two `w`-bit numbers. */
  predicate SumRange(w: nat, signed: bool, e: int)
    requires w > 0
  {
    if signed then 0 <= e + Pow2(w) < 2 * Pow2(w) else 0 < e + Pow2(w) < 3 * Pow2(w) - 1
  }

  lemma FewPeriods(w: nat, signed: bool, e: int, h: nat, n: nat, v: int, c: int)
    requires w > 0 && 0 < n < w && SumRange(w, signed, e) && InRange(w, signed, v)
    requires h == 0 || h == Pow2(n - 1)
    requires e + h == v + c * Pow2(w)
    ensures 0 - Pow2(n) < c < Pow2(n)
    ensures c == 0 <==> InRange(w, signed, e + h)
  {
    var p := Pow2(w);
    Pow2Mono(n - 1, w - 2);
    assert 4 * Pow2(w - 2) == p;
    Multiples(p, c);
    assert n >= 2 ==> Pow2(n) >= 4 by { Pow2Mono(if n >= 2 then 2 else n, n); }
  }

  lemma Multiples(p: nat, c: int)
    requires p > 0
    ensures c >= 1 ==> c * p >= p
    ensures c >= 2 ==> c * p >= 2 * p
    ensures c >= 3 ==> c * p >= 3 * p
    ensures c <= -1 ==> c * p <= 0 - p
    ensures c <= -2 ==> c * p <= 0 - 2 * p
  {
  }

  /** The documented result, from the exact sum: it is met exactly if there is no shift or the rounded sum
      fits the register. */
  lemma NormalisedIsExact(w: nat, signed: bool, round: bool, e: int, n: nat)
    requires w > 0 && n < w && SumRange(w, signed, e)
    ensures var exact := e + HalfUnit(round, n);
            Normalised(w, signed, round, Word(w, e), n) == Word(w, FloorShift(exact, n))
            <==> n == 0 || InRange(w, signed, exact)
  {
    var exact := e + HalfUnit(round, n);
    var t := Word(w, exact);
    var v := Reading(w, signed, t);
    NormalisedIsFloor(w, signed, round, e, n);
    ReadingInRange(w, signed, t);
    FloorShiftInRange(w, signed, v, n);
    ReadingInRange(w, signed, Normalised(w, signed, round, Word(w, e), n));
    if n > 0 {
      var c := SameWord(w, exact, v);
      FewPeriods(w, signed, e, HalfUnit(round, n), n, v, c);
      OverflowShows(w, n, v, c);
    }
  }
}
