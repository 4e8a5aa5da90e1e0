/** Bit-field insert, extract, clear and set of rtl/cv32e40p_alu.sv, bit by bit: a field of `w` + 1 bits
    at position `p`. */
module Bitfield {

  /** Bit 0 first. */
  type Word32 = s: seq<bool> | |s| == 32 witness seq(32, _ => false)

  type Index = i: nat | i < 32

  function ShiftLeft(x: Word32, k: Index): Word32 {
    seq(32, i requires 0 <= i < 32 => i >= k && x[i - k])
  }

  function ShiftRight(x: Word32, k: Index, fill: bool): Word32 {
    seq(32, i requires 0 <= i < 32 => if i + k < 32 then x[i + k] else fill)
  }

  function Not(x: Word32): Word32 {
    seq(32, i requires 0 <= i < 32 => !x[i])
  }

  function And(x: Word32, y: Word32): Word32 {
    seq(32, i requires 0 <= i < 32 => x[i] && y[i])
  }

  function Or(x: Word32, y: Word32): Word32 {
    seq(32, i requires 0 <= i < 32 => x[i] || y[i])
  }

  function All(b: bool): Word32 {
    seq(32, _ => b)
  }

  /** 0xFFFFFFFE shifted left by `w`, inverted, and shifted left by `p`. */
  function Mask(w: Index, p: Index): Word32 {
    var allButLowest: Word32 := seq(32, i requires 0 <= i < 32 => i != 0);
    ShiftLeft(Not(ShiftLeft(allButLowest, w)), p)
  }

  lemma MaskIsField(w: Index, p: Index, i: Index)
    ensures Mask(w, p)[i] <==> p <= i <= p + w
  {
  }

  /** The result of insert and extract: the shifted operand under the mask, `others` elsewhere. */
  function Merge(mask: Word32, shifted: Word32, others: Word32): Word32 {
    Or(And(mask, shifted), And(others, Not(mask)))
  }

  function Insert(a: Word32, c: Word32, w: Index, p: Index): Word32 {
    Merge(Mask(w, p), ShiftLeft(a, p), c)
  }

  function Extract(signed: bool, x: Word32, w: Index, p: Index): Word32 {
    var shifted := ShiftRight(x, p, signed && x[31]);
    Merge(Mask(w, 0), shifted, All(signed && shifted[w]))
  }

  function Clear(x: Word32, w: Index, p: Index): Word32 {
    And(x, Not(Mask(w, p)))
  }

  function Set(x: Word32, w: Index, p: Index): Word32 {
    Or(x, Mask(w, p))
  }

  /** The highest bit of a field, which the top of the word may cut. */
  function Top(w: Index, p: Index): Index {
    if w + p < 31 then w + p else 31
  }

  // --------------------------------------------------------- what is documented, per bit

  /** Bits p to min(p + w, 31), extended with zeros or the highest extracted bit. */
  lemma ExtractIsField(signed: bool, x: Word32, w: Index, p: Index, i: Index)
    ensures Extract(signed, x, w, p)[i] == if p + i <= Top(w, p) then x[p + i] else signed && x[Top(w, p)]
  {
    MaskIsField(w, 0, i);
  }

  /** The field is replaced, the rest untouched. */
  lemma InsertIsField(a: Word32, c: Word32, w: Index, p: Index, i: Index)
    ensures Insert(a, c, w, p)[i] == if p <= i <= Top(w, p) then a[i - p] else c[i]
  {
    MaskIsField(w, p, i);
  }

  lemma ClearAndSetField(x: Word32, w: Index, p: Index, i: Index)
    ensures Clear(x, w, p)[i] <==> x[i] && !(p <= i <= Top(w, p))
    ensures Set(x, w, p)[i] <==> x[i] || p <= i <= Top(w, p)
  {
    MaskIsField(w, p, i);
  }

  // ----------------------------------------------------------------------- round trips

  /** What was inserted comes out again, as far as it fits. */
  lemma ExtractAfterInsert(a: Word32, c: Word32, w: Index, p: Index, i: Index)
    ensures Extract(false, Insert(a, c, w, p), w, p)[i] <==> i <= Top(w, p) - p && a[i]
    ensures p + w <= 31 ==> (Extract(false, Insert(a, c, w, p), w, p)[i] <==> i <= w && a[i])
  {
    ExtractIsField(false, Insert(a, c, w, p), w, p, i);
    if p + i <= Top(w, p) {
      InsertIsField(a, c, w, p, p + i);
    }
  }

  /** Putting an extracted field back changes nothing. */
  lemma InsertAfterExtract(signed: bool, x: Word32, w: Index, p: Index)
    ensures Insert(Extract(signed, x, w, p), x, w, p) == x
  {
    var y := Insert(Extract(signed, x, w, p), x, w, p);
    forall i: Index
      ensures y[i] == x[i]
    {
      InsertIsField(Extract(signed, x, w, p), x, w, p, i);
      if p <= i <= Top(w, p) {
        ExtractIsField(signed, x, w, p, i - p);
      }
    }
  }

  /** Clearing and setting are inserting zeros and ones. */
  lemma ClearAndSetAreInserts(x: Word32, w: Index, p: Index)
    ensures Clear(x, w, p) == Insert(All(false), x, w, p)
    ensures Set(x, w, p) == Insert(All(true), x, w, p)
  {
    forall i: Index
      ensures Clear(x, w, p)[i] == Insert(All(false), x, w, p)[i]
      ensures Set(x, w, p)[i] == Insert(All(true), x, w, p)[i]
    {
      InsertIsField(All(false), x, w, p, i);
      InsertIsField(All(true), x, w, p, i);
      ClearAndSetField(x, w, p, i);
    }
  }
}
