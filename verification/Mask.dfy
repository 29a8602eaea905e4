/** The weekday mask of a weekly series: bit `o` stands for the o-th day from Monday. */
module Mask {

  function Bit(o: nat): bv8
    requires o < 8
  {
    1 << o
  }

  predicate Has(mask: bv8, o: nat)
    requires o < 8
  {
    mask & Bit(o) != 0
  }

  /** `count_ones` of the source's `u8`. */
  function CountOnes(m: bv8): nat {
    OnesBelow(m, 8)
  }

  function OnesBelow(m: bv8, n: nat): nat
    requires n <= 8
  {
    if n == 0 then 0 else OnesBelow(m, n - 1) + (if Has(m, n - 1) then 1 else 0)
  }

  function Span(lo: nat, hi: nat): bv8
    requires hi <= 7
  {
    if hi <= lo then 0 else Span(lo, hi - 1) | Bit(hi - 1)
  }

  /** How many of the bits `lo..hi` are set: mask with the span, then count. */
  function MaskBetween(mask: bv8, lo: nat, hi: nat): nat
    requires hi <= 7
  {
    CountOnes(mask & Span(lo, hi))
  }

  lemma HasOr(a: bv8, b: bv8, o: nat)
    requires o < 8
    ensures Has(a | b, o) <==> Has(a, o) || Has(b, o)
  {
    assert (a | b) & Bit(o) == (a & Bit(o)) | (b & Bit(o));
  }

  lemma NoBits(o: nat)
    requires o < 8
    ensures !Has(0, o)
  {
  }

  lemma BitDistinct(k: nat, o: nat)
    requires k < 8 && o < 8
    ensures Has(Bit(k), o) <==> k == o
  {
    BitValue(k);
    BitValue(o);
  }

  lemma BitValue(o: nat)
    requires o < 8
    ensures Bit(o) == [1 as bv8, 2, 4, 8, 16, 32, 64, 128][o]
  {
  }

  lemma HasAnd(a: bv8, b: bv8, o: nat)
    requires o < 8
    ensures Has(a & b, o) <==> Has(a, o) && Has(b, o)
  {
    BitValue(o);
  }

  lemma {:induction false} HasSpan(lo: nat, hi: nat, o: nat)
    requires hi <= 7 && o < 8
    ensures Has(Span(lo, hi), o) <==> lo <= o < hi
  {
    hide Has, Bit;
    if lo >= hi {
      NoBits(o);
    } else {
      HasSpan(lo, hi - 1, o);
      HasOr(Span(lo, hi - 1), Bit(hi - 1), o);
      BitDistinct(hi - 1, o);
    }
  }

  lemma {:induction false} OnesDiffer(a: bv8, b: bv8, k: nat, n: nat)
    requires k < 8 && n <= 8 && !Has(a, k)
    requires forall o: nat :: o < 8 && o != k ==> Has(a, o) == Has(b, o)
    ensures OnesBelow(b, n) == OnesBelow(a, n) + (if k < n && Has(b, k) then 1 else 0)
  {
    hide Has;
    if n > 0 {
      OnesDiffer(a, b, k, n - 1);
    }
  }

  lemma HasSpanOf(mask: bv8, lo: nat, hi: nat, o: nat)
    requires hi <= 7 && o < 8
    ensures Has(mask & Span(lo, hi), o) <==> Has(mask, o) && lo <= o < hi
  {
    hide Has, Span;
    HasAnd(mask, Span(lo, hi), o);
    HasSpan(lo, hi, o);
  }

  /** `a` holds exactly the bits `lo..hi` of the mask. */
  ghost predicate Slice(mask: bv8, a: bv8, lo: nat, hi: nat) {
    forall o: nat :: o < 8 ==> (Has(a, o) <==> Has(mask, o) && lo <= o < hi)
  }

  lemma SpanSlices(mask: bv8, lo: nat, hi: nat)
    requires hi <= 7
    ensures Slice(mask, mask & Span(lo, hi), lo, hi)
  {
    hide Has, Span;
    forall o: nat | o < 8
      ensures Has(mask & Span(lo, hi), o) <==> Has(mask, o) && lo <= o < hi
    {
      HasSpanOf(mask, lo, hi, o);
    }
  }

  lemma SliceStep(mask: bv8, a: bv8, b: bv8, lo: nat, hi: nat)
    requires lo <= hi < 7 && Slice(mask, a, lo, hi) && Slice(mask, b, lo, hi + 1)
    ensures CountOnes(b) == CountOnes(a) + (if Has(mask, hi) then 1 else 0)
  {
    hide Has, OnesBelow;
    OnesDiffer(a, b, hi, 8);
  }

  /** Counting a span one bit further adds exactly that bit. */
  lemma MaskBetweenStep(mask: bv8, lo: nat, hi: nat)
    requires lo <= hi < 7
    ensures MaskBetween(mask, lo, hi + 1) == MaskBetween(mask, lo, hi) + (if Has(mask, hi) then 1 else 0)
  {
    hide Has, OnesBelow, Span, Slice, CountOnes;
    SpanSlices(mask, lo, hi);
    SpanSlices(mask, lo, hi + 1);
    SliceStep(mask, mask & Span(lo, hi), mask & Span(lo, hi + 1), lo, hi);
  }

  lemma {:induction false} SliceCountsBelow(mask: bv8, a: bv8, n: nat)
    requires n <= 8 && Slice(mask, a, 0, 7) && !Has(mask, 7)
    ensures OnesBelow(a, n) == OnesBelow(mask, n)
  {
    hide Has;
    if n > 0 {
      SliceCountsBelow(mask, a, n - 1);
    }
  }

  /** A mask of weekdays only has all its bits in one week. */
  lemma WholeWeek(mask: bv8)
    requires !Has(mask, 7)
    ensures MaskBetween(mask, 0, 7) == CountOnes(mask)
  {
    hide Has, OnesBelow, Span, Slice;
    SpanSlices(mask, 0, 7);
    SliceCountsBelow(mask, mask & Span(0, 7), 8);
  }

  lemma EmptySpan(mask: bv8, lo: nat, hi: nat)
    requires hi <= lo && hi <= 7
    ensures MaskBetween(mask, lo, hi) == 0
  {
    hide Has, OnesBelow, Span, Slice;
    SpanSlices(mask, lo, hi);
    NoOnes(mask, mask & Span(lo, hi), lo, hi, 8);
  }

  lemma {:induction false} NoOnes(mask: bv8, a: bv8, lo: nat, hi: nat, n: nat)
    requires n <= 8 && hi <= lo && Slice(mask, a, lo, hi)
    ensures OnesBelow(a, n) == 0
  {
    hide Has;
    if n > 0 {
      NoOnes(mask, a, lo, hi, n - 1);
    }
  }

  /** The union of the named days' bits. */
  function MaskOf(days: seq<nat>): bv8
    requires forall i :: 0 <= i < |days| ==> days[i] < 7
  {
    if days == [] then 0 else MaskOf(days[..|days| - 1]) | Bit(days[|days| - 1])
  }

  lemma {:induction false} MaskOfHas(days: seq<nat>, o: nat)
    requires forall i :: 0 <= i < |days| ==> days[i] < 7
    requires o < 8
    ensures Has(MaskOf(days), o) <==> o in days
  {
    hide Has, Bit;
    if days == [] {
      NoBits(o);
    } else {
      var n := |days| - 1;
      MaskOfHas(days[..n], o);
      HasOr(MaskOf(days[..n]), Bit(days[n]), o);
      BitDistinct(days[n], o);
      assert days == days[..n] + [days[n]];
    }
  }
}
