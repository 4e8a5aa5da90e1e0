/** Words of any width as natural numbers: powers of two, bit reversal, the
    lowest set bit, and the two's-complement reading. */
module Bits {

  function Pow2(n: nat): (r: nat)
    ensures r > 0
  {
    if n == 0 then 1 else 2 * Pow2(n - 1)
  }

  /** The low `w` bits of `x` in mirror order. */
  function Reverse(w: nat, x: nat): (r: nat)
    ensures r < Pow2(w)
  {
    if w == 0 then 0 else Bit(x % 2, Pow2(w - 1)) + Reverse(w - 1, x / 2)
  }

  /** Index of the lowest set bit. */
  function LowestOne(x: nat): (z: nat)
    requires x > 0
  {
    if x % 2 == 1 then 0 else 1 + LowestOne(x / 2)
  }

  predicate Msb(w: nat, x: nat)
    requires w > 0
  {
    x >= Pow2(w - 1)
  }

  /** The two's-complement value of a `w`-bit word. */
  function Signed(w: nat, x: nat): int
    requires w > 0
  {
    if Msb(w, x) then x - Pow2(w) else x
  }

  /** The `w`-bit word of an integer: `v` modulo 2^w. */
  function Word(w: nat, v: int): (x: nat)
    ensures x < Pow2(w)
    decreases v < 0, if v < 0 then 0 - v else v
  {
    if v < 0 then Word(w, v + Pow2(w)) else if v < Pow2(w) then v else Word(w, v - Pow2(w))
  }

  lemma WordWraps(w: nat, v: int)
    requires 0 <= v + Pow2(w) && v < 2 * Pow2(w)
    ensures Word(w, v) == if v < 0 then v + Pow2(w) else if v < Pow2(w) then v else v - Pow2(w)
  {
  }

  lemma NegatedTwice(w: nat, x: nat)
    requires x < Pow2(w)
    ensures Word(w, 0 - x) == if x == 0 then 0 else Pow2(w) - x
    ensures Word(w, 0 - Word(w, 0 - x)) == x
  {
    WordWraps(w, 0 - x);
    WordWraps(w, 0 - Word(w, 0 - x));
  }

  lemma ModPeriod(v: int, p: nat)
    requires p > 0
    ensures (v + p) % p == v % p
  {
    var q, r := v / p, v % p;
    assert v == q * p + r;
    assert v + p == (q + 1) * p + r;
    ModUnique(v + p, p, q + 1, r);
  }

  lemma {:induction false} WordIsModulo(w: nat, v: int)
    ensures Word(w, v) == v % Pow2(w)
    decreases v < 0, if v < 0 then 0 - v else v
  {
    if v < 0 {
      WordIsModulo(w, v + Pow2(w));
      ModPeriod(v, Pow2(w));
    } else if v < Pow2(w) {
      ModUnique(v, Pow2(w), 0, v);
    } else {
      WordIsModulo(w, v - Pow2(w));
      ModPeriod(v - Pow2(w), Pow2(w));
    }
  }

  lemma {:induction false} Pow2Add(m: nat, n: nat)
    ensures Pow2(m + n) == Pow2(m) * Pow2(n)
    decreases n
  {
    if n > 0 {
      Pow2Add(m, n - 1);
      calc {
        Pow2(m + n);
        2 * Pow2(m + (n - 1));
        2 * (Pow2(m) * Pow2(n - 1));
        Pow2(m) * (2 * Pow2(n - 1));
      }
    }
  }

  lemma {:induction false} Pow2Mono(m: nat, n: nat)
    requires m <= n
    ensures Pow2(m) <= Pow2(n)
    decreases n - m
  {
    if m < n {
      Pow2Mono(m + 1, n);
    }
  }

  lemma ModUnique(x: int, m: int, q: int, r: int)
    requires m > 0 && 0 <= r < m && x == q * m + r
    ensures x % m == r && x / m == q
  {
    var d := x / m - q;
    assert x == (x / m) * m + x % m;
    assert d * m == r - x % m;
    assert d >= 1 ==> d * m >= m;
    assert d <= -1 ==> d * m <= -m;
  }

  function Bit(b: nat, weight: nat): nat {
    if b == 0 then 0 else weight
  }

  /** Peeling the top bit of the argument instead of the bottom one. */
  lemma {:induction false} ReverseTop(w: nat, hi: nat, lo: nat)
    requires w > 0 && hi <= 1 && lo < Pow2(w - 1)
    ensures Reverse(w, Bit(hi, Pow2(w - 1)) + lo) == 2 * Reverse(w - 1, lo) + hi
  {
    if w == 1 {
      assert Reverse(0, hi / 2) == 0;
    } else {
      var half := Bit(hi, Pow2(w - 2));
      var x := 2 * half + lo;
      assert Bit(hi, Pow2(w - 1)) + lo == x;
      assert x % 2 == lo % 2 && x / 2 == half + lo / 2;
      assert Reverse(w, x) == Bit(lo % 2, Pow2(w - 1)) + Reverse(w - 1, half + lo / 2);
      assert Reverse(w - 1, lo) == Bit(lo % 2, Pow2(w - 2)) + Reverse(w - 2, lo / 2);
      ReverseTop(w - 1, hi, lo / 2);
    }
  }

  /** Shifting a bit in at the top appends it at the bottom of the mirror image. */
  lemma ReverseShiftIn(w: nat, x: nat, c: nat)
    requires w > 0 && x < Pow2(w) && c <= 1
    ensures Bit(c, Pow2(w - 1)) + x / 2 < Pow2(w)
    ensures Reverse(w, Bit(c, Pow2(w - 1)) + x / 2) == Word(w, 2 * Reverse(w, x) + c)
  {
    ReverseTop(w, c, x / 2);
  }

  /** Reversal is its own inverse. */
  lemma {:induction false} ReverseInvolution(w: nat, x: nat)
    requires x < Pow2(w)
    ensures Reverse(w, Reverse(w, x)) == x
  {
    if w > 0 {
      ReverseTop(w, x % 2, Reverse(w - 1, x / 2));
      ReverseInvolution(w - 1, x / 2);
    }
  }

  /** Logical right shift. */
  function ShiftRight(x: nat, k: nat): (r: nat)
    ensures r <= x
  {
    if k == 0 then x else ShiftRight(x, k - 1) / 2
  }

  /** Left shift of a `w`-bit word, bits beyond the top dropped. */
  function ShiftLeft(w: nat, x: nat, k: nat): (r: nat)
    requires x < Pow2(w)
    ensures r < Pow2(w)
  {
    if k == 0 then x else Word(w, 2 * ShiftLeft(w, x, k - 1))
  }

  /** No bit is dropped while the product still fits. */
  lemma {:induction false} ShiftLeftIsProduct(w: nat, x: nat, k: nat)
    requires x < Pow2(w) && x * Pow2(k) < Pow2(w)
    ensures ShiftLeft(w, x, k) == x * Pow2(k)
  {
    if k > 0 {
      var p := Pow2(k - 1);
      assert x * Pow2(k) == 2 * (x * p);
      ShiftLeftIsProduct(w, x, k - 1);
    }
  }

  /** The same for the word of a negative number, up to the most negative one. */
  lemma {:induction false} ShiftLeftOfNegative(w: nat, m: nat, k: nat)
    requires 0 < m && m * Pow2(k) <= Pow2(w) && m <= Pow2(w)
    ensures ShiftLeft(w, Pow2(w) - m, k) == Pow2(w) - m * Pow2(k)
  {
    if k > 0 {
      var p := Pow2(k - 1);
      assert m * Pow2(k) == 2 * (m * p);
      assert m * p > 0;
      ShiftLeftOfNegative(w, m, k - 1);
      WordWraps(w, 2 * (Pow2(w) - m * p));
    }
  }

  lemma MulMonotone(a: nat, b: nat, p: nat)
    requires a <= b
    ensures a * p <= b * p
  {
  }

  /** Reverse, shift right, reverse: a left shift at any width and amount. */
  lemma {:induction false} ReversedRightShiftIsLeftShift(w: nat, x: nat, k: nat)
    requires w > 0 && x < Pow2(w)
    ensures Reverse(w, ShiftRight(Reverse(w, x), k)) == ShiftLeft(w, x, k)
    decreases k
  {
    if k == 0 {
      ReverseInvolution(w, x);
    } else {
      ReversedRightShiftIsLeftShift(w, x, k - 1);
      ReverseShiftIn(w, ShiftRight(Reverse(w, x), k - 1), 0);
    }
  }

  lemma LowestOneDoubles(y: nat)
    ensures LowestOne(2 * y + 1) == 0
    ensures y > 0 ==> LowestOne(2 * y) == 1 + LowestOne(y)
  {
  }

  /** The lowest set bit of the mirror image counts the leading zeros. */
  lemma {:induction false} LeadingZeros(w: nat, x: nat)
    requires 0 < x < Pow2(w)
    ensures Reverse(w, x) > 0
    ensures var z := LowestOne(Reverse(w, x)); z < w && Pow2(w - 1 - z) <= x < Pow2(w - z)
  {
    if x < Pow2(w - 1) {
      var r := Reverse(w - 1, x);
      assert Reverse(w, x) == 2 * r by { ReverseTop(w, 0, x); }
      LeadingZeros(w - 1, x);
      LowestOneDoubles(r);
    } else {
      var r := Reverse(w - 1, x - Pow2(w - 1));
      assert Reverse(w, x) == 2 * r + 1 by { ReverseTop(w, 1, x - Pow2(w - 1)); }
      LowestOneDoubles(r);
    }
  }

  lemma WordOfSigned(w: nat, x: nat)
    requires w > 0 && x < Pow2(w)
    ensures Word(w, Signed(w, x)) == x
    ensures Msb(w, x) <==> Signed(w, x) < 0
    ensures 0 <= Signed(w, x) + Pow2(w - 1) < Pow2(w)
  {
    assert Word(w, x) == x;
  }
}
