/** Cells of the clipped raster and the NaN-aware reductions the extraction
    applies to them (nanmin, nanmax, nanmean, the NaN count).  A float32 NaN is
    modelled by the constructor Missing, which makes validity explicit. */
module Cells {

  datatype Option<T> = None | Some(value: T)

  /** One cell of the raster: a reading, or NaN. */
  datatype Cell = Missing | Reading(v: real)

  /** The masking step: a reading at or below zero becomes NaN, every other
      cell is left as it is. */
  function Mask(c: Cell): (r: Cell)
    ensures r.Missing? <==> c.Missing? || c.v <= 0.0
    ensures r.Reading? ==> r == c && r.v > 0.0
  {
    if c.Reading? && c.v <= 0.0 then Missing else c
  }

  /** Does some cell of `s` hold a reading? */
  predicate HasReading(s: seq<Cell>)
  {
    exists k :: 0 <= k < |s| && s[k].Reading?
  }

  /** Every reading of `s` lies in [lo, hi]. */
  predicate InRange(s: seq<Cell>, lo: real, hi: real)
  {
    forall k :: 0 <= k < |s| && s[k].Reading? ==> lo <= s[k].v <= hi
  }

  /** np.isnan(s).sum(): the number of NaN cells. */
  function MissingCount(s: seq<Cell>): (n: nat)
    ensures n <= |s|
    ensures n == |s| <==> !HasReading(s)
  {
    if s == [] then 0
    else (if s[0].Missing? then 1 else 0) + MissingCount(s[1..])
  }

  /** The number of cells that hold a reading. */
  function ValidCount(s: seq<Cell>): nat
  {
    |s| - MissingCount(s)
  }

  /** The sum of the readings, ignoring NaN (np.nansum). */
  function ValidSum(s: seq<Cell>): real
  {
    if s == [] then 0.0
    else (if s[0].Reading? then s[0].v else 0.0) + ValidSum(s[1..])
  }

  /** np.nanmean: the mean of the readings; NaN when there is none, a case
      the extraction never reaches. */
  function ValidMean(s: seq<Cell>): real
    requires ValidCount(s) > 0
  {
    ValidSum(s) / (ValidCount(s) as real)
  }

  /** Adding the mean once per reading gives back the sum of the readings. */
  lemma MeanTimesCount(s: seq<Cell>)
    requires ValidCount(s) > 0
    ensures Times(ValidCount(s), ValidMean(s)) == ValidSum(s)
  {
    TimesIsProduct(ValidCount(s), ValidMean(s));
  }

  /** np.nanmin: the least reading, None (NaN) when there is none. */
  function NanMin(s: seq<Cell>): (m: Option<real>)
    ensures m.None? <==> !HasReading(s)
    ensures m.Some? ==> exists k :: 0 <= k < |s| && s[k] == Reading(m.value)
    ensures m.Some? ==> forall k :: 0 <= k < |s| && s[k].Reading? ==> m.value <= s[k].v
  {
    if s == [] then None
    else
      var rest := NanMin(s[1..]);
      assert forall k :: 1 <= k < |s| ==> s[k] == s[1..][k - 1];
      if s[0].Missing? then rest
      else if rest.None? || s[0].v < rest.value then Some(s[0].v)
      else rest
  }

  /** The nanmin of a sequence never exceeds its nanmax. */
  lemma MinAtMostMax(s: seq<Cell>)
    ensures NanMin(s).Some? <==> NanMax(s).Some?
    ensures NanMin(s).Some? ==> NanMin(s).value <= NanMax(s).value
  {
    if NanMin(s).Some? {
      var k :| 0 <= k < |s| && s[k] == Reading(NanMin(s).value);
    }
  }

  /** np.nanmax: the greatest reading, None (NaN) when there is none. */
  function NanMax(s: seq<Cell>): (m: Option<real>)
    ensures m.None? <==> !HasReading(s)
    ensures m.Some? ==> exists k :: 0 <= k < |s| && s[k] == Reading(m.value)
    ensures m.Some? ==> forall k :: 0 <= k < |s| && s[k].Reading? ==> s[k].v <= m.value
  {
    if s == [] then None
    else
      var rest := NanMax(s[1..]);
      assert forall k :: 1 <= k < |s| ==> s[k] == s[1..][k - 1];
      if s[0].Missing? then rest
      else if rest.None? || s[0].v > rest.value then Some(s[0].v)
      else rest
  }

  /** The normalization (v - mn) / (mx - mn) of one cell.  NaN stays NaN;
      when mx == mn every reading equals mn, so the quotient is 0 / 0, NaN. */
  function NormCell(c: Cell, mn: real, mx: real): (r: Cell)
    ensures r.Missing? <==> c.Missing? || mx == mn
    ensures r.Reading? ==> Denormalize(r.v, mn, mx) == c.v
  {
    match c
    case Missing => Missing
    case Reading(v) =>
      if mx == mn then Missing
      else DenormalizeInverts(v, mn, mx); Reading((v - mn) / (mx - mn))
  }

  /** NormCell applied to every cell of `s`. */
  function NormCells(s: seq<Cell>, mn: real, mx: real): (r: seq<Cell>)
    ensures |r| == |s|
  {
    seq(|s|, k requires 0 <= k < |s| => NormCell(s[k], mn, mx))
  }

  lemma NormCellsAppend(a: seq<Cell>, b: seq<Cell>, mn: real, mx: real)
    ensures NormCells(a + b, mn, mx) == NormCells(a, mn, mx) + NormCells(b, mn, mx)
  {
    var l, r := NormCells(a + b, mn, mx), NormCells(a, mn, mx) + NormCells(b, mn, mx);
    forall k | 0 <= k < |l| ensures l[k] == r[k] {
      if k < |a| { assert (a + b)[k] == a[k]; } else { assert (a + b)[k] == b[k - |a|]; }
    }
  }

  lemma {:induction false} MissingCountAppend(a: seq<Cell>, b: seq<Cell>)
    ensures MissingCount(a + b) == MissingCount(a) + MissingCount(b)
  {
    if a != [] {
      assert (a + b)[1..] == a[1..] + b;
      MissingCountAppend(a[1..], b);
    } else {
      assert a + b == b;
    }
  }

  lemma {:induction false} InRangeAppend(a: seq<Cell>, b: seq<Cell>, lo: real, hi: real)
    requires InRange(a, lo, hi) && InRange(b, lo, hi)
    ensures InRange(a + b, lo, hi)
  {
    forall k | 0 <= k < |a + b| && (a + b)[k].Reading?
      ensures lo <= (a + b)[k].v <= hi
    {
      if k < |a| { assert (a + b)[k] == a[k]; } else { assert (a + b)[k] == b[k - |a|]; }
    }
  }

  /** `n` copies of `a` added up: n * a without a product of two unknowns. */
  function Times(n: nat, a: real): (r: real)
  {
    if n == 0 then 0.0 else Times(n - 1, a) + a
  }

  lemma {:induction false} TimesIsProduct(n: nat, a: real)
    ensures Times(n, a) == (n as real) * a
  {
    if n > 0 {
      TimesIsProduct(n - 1, a);
      AddOne((n - 1) as real, a);
    }
  }

  lemma AddOne(n: real, a: real)
    ensures (n + 1.0) * a == n * a + a
  {
  }

  /** Readings in [a, b] give a sum between count copies of a and count
      copies of b. */
  lemma {:induction false} ValidSumBounds(s: seq<Cell>, a: real, b: real)
    requires InRange(s, a, b)
    ensures Times(ValidCount(s), a) <= ValidSum(s) <= Times(ValidCount(s), b)
  {
    if s != [] {
      assert InRange(s[1..], a, b) by {
        forall k | 0 <= k < |s[1..]| && s[1..][k].Reading? ensures a <= s[1..][k].v <= b {
          assert s[1..][k] == s[k + 1];
        }
      }
      ValidSumBounds(s[1..], a, b);
      if s[0].Reading? {
        assert ValidCount(s) == ValidCount(s[1..]) + 1;
      } else {
        assert ValidCount(s) == ValidCount(s[1..]);
      }
    }
  }

  /** The mean of readings that lie in [a, b] lies in [a, b]. */
  lemma MeanBounds(s: seq<Cell>, a: real, b: real)
    requires ValidCount(s) > 0 && InRange(s, a, b)
    ensures a <= ValidMean(s) <= b
  {
    ValidSumBounds(s, a, b);
    TimesIsProduct(ValidCount(s), a);
    TimesIsProduct(ValidCount(s), b);
    DivBounds(ValidSum(s), ValidCount(s) as real, a, b);
  }

  lemma DivBounds(x: real, n: real, a: real, b: real)
    requires n > 0.0 && n * a <= x <= n * b
    ensures a <= x / n <= b
  {
  }

  /** Every reading of `s` normalized against [mn, mx] with mn < mx lies in
      [0, 1]. */
  lemma NormCellsInUnit(s: seq<Cell>, mn: real, mx: real)
    requires mn < mx && InRange(s, mn, mx)
    ensures InRange(NormCells(s, mn, mx), 0.0, 1.0)
  {
    var r := NormCells(s, mn, mx);
    forall k | 0 <= k < |r| && r[k].Reading? ensures 0.0 <= r[k].v <= 1.0 {
      DivBounds(s[k].v - mn, mx - mn, 0.0, 1.0);
    }
  }

  /** A reading that occurs in `s` and bounds every reading from below is
      the nanmin of `s`. */
  lemma NanMinIs(s: seq<Cell>, k: nat, v: real)
    requires k < |s| && s[k] == Reading(v)
    requires forall x :: 0 <= x < |s| && s[x].Reading? ==> v <= s[x].v
    ensures NanMin(s) == Some(v)
  {
    assert HasReading(s);
  }

  /** A reading that occurs in `s` and bounds every reading from above is
      the nanmax of `s`. */
  lemma NanMaxIs(s: seq<Cell>, k: nat, v: real)
    requires k < |s| && s[k] == Reading(v)
    requires forall x :: 0 <= x < |s| && s[x].Reading? ==> s[x].v <= v
    ensures NanMax(s) == Some(v)
  {
    assert HasReading(s);
  }

  /** Normalizing against the sequence's own nanmin and nanmax, when they
      differ, gives nanmin 0 and nanmax 1. */
  lemma NormCellsMinMax(s: seq<Cell>, mn: real, mx: real)
    requires mn < mx && NanMin(s) == Some(mn) && NanMax(s) == Some(mx)
    ensures NanMin(NormCells(s, mn, mx)) == Some(0.0)
    ensures NanMax(NormCells(s, mn, mx)) == Some(1.0)
  {
    var r := NormCells(s, mn, mx);
    assert InRange(s, mn, mx);
    NormCellsInUnit(s, mn, mx);
    var k :| 0 <= k < |s| && s[k] == Reading(mn);
    var h :| 0 <= h < |s| && s[h] == Reading(mx);
    SelfQuotient(mn, mx);
    assert r[k] == Reading(0.0);
    assert r[h] == Reading(1.0);
    NanMinIs(r, k, 0.0);
    NanMaxIs(r, h, 1.0);
  }

  lemma SelfQuotient(mn: real, mx: real)
    requires mn < mx
    ensures (mn - mn) / (mx - mn) == 0.0 && (mx - mn) / (mx - mn) == 1.0
  {
  }

  /** x * d, kept behind a function so that the solver treats the product
      as a term of its own in the inductive proofs below. */
  function Scaled(x: real, d: real): real
  {
    x * d
  }

  /** With mn < mx normalizing keeps the NaN count, and scaling the
      normalized sum back by (mx - mn) gives the raw sum less one mn per
      reading. */
  lemma {:induction false} NormCellsSum(s: seq<Cell>, mn: real, mx: real)
    requires mn < mx
    ensures MissingCount(NormCells(s, mn, mx)) == MissingCount(s)
    ensures Scaled(ValidSum(NormCells(s, mn, mx)), mx - mn) == ValidSum(s) - Times(ValidCount(s), mn)
  {
    var r := NormCells(s, mn, mx);
    if s != [] {
      var tail := NormCells(s[1..], mn, mx);
      assert r[1..] == tail;
      NormCellsSum(s[1..], mn, mx);
      if s[0].Reading? {
        var q := (s[0].v - mn) / (mx - mn);
        assert r[0] == Reading(q);
        assert ValidSum(r) == q + ValidSum(tail);
        assert ValidCount(s) == ValidCount(s[1..]) + 1;
        ScaleStep(s[0].v, mn, mx - mn, ValidSum(tail));
      } else {
        assert ValidCount(s) == ValidCount(s[1..]);
        assert ValidSum(r) == ValidSum(tail);
      }
    } else {
      assert r == [];
    }
  }

  lemma ScaleStep(v: real, mn: real, d: real, rest: real)
    requires d > 0.0
    ensures Scaled((v - mn) / d + rest, d) == (v - mn) + Scaled(rest, d)
  {
  }

  /** The de-normalization m * (hi - lo) + lo that maps [0, 1] back onto
      [lo, hi]. */
  function Denormalize(m: real, lo: real, hi: real): real
  {
    m * (hi - lo) + lo
  }

  /** De-normalizing a normalized value against the same, non-degenerate
      [lo, hi] gives the value back. */
  lemma DenormalizeInverts(v: real, lo: real, hi: real)
    requires lo != hi
    ensures Denormalize((v - lo) / (hi - lo), lo, hi) == v
  {
  }

  /** With mn < mx, de-normalizing the normalized mean against the same
      [mn, mx] gives back the raw mean. */
  lemma DenormalizedMean(s: seq<Cell>, mn: real, mx: real)
    requires mn < mx && ValidCount(s) > 0
    ensures ValidCount(NormCells(s, mn, mx)) == ValidCount(s)
    ensures Denormalize(ValidMean(NormCells(s, mn, mx)), mn, mx) == ValidMean(s)
  {
    var r := NormCells(s, mn, mx);
    NormCellsSumOf(s, mn, mx, r);
    MeanScale(r, s, mx - mn, mn);
  }

  /** NormCellsSum, with the reading count it keeps, for a normalized
      sequence passed in by name: naming `r` keeps the proof of
      DenormalizedMean within the resource limit. */
  lemma NormCellsSumOf(s: seq<Cell>, mn: real, mx: real, r: seq<Cell>)
    requires mn < mx && r == NormCells(s, mn, mx)
    ensures ValidCount(r) == ValidCount(s)
    ensures Scaled(ValidSum(r), mx - mn) == ValidSum(s) - Times(ValidCount(s), mn)
  {
    NormCellsSum(s, mn, mx);
  }

  lemma MeanScale(r: seq<Cell>, s: seq<Cell>, d: real, mn: real)
    requires ValidCount(r) == ValidCount(s) > 0 && d > 0.0
    requires Scaled(ValidSum(r), d) == ValidSum(s) - Times(ValidCount(s), mn)
    ensures Denormalize(ValidMean(r), mn, mn + d) == ValidMean(s)
  {
    TimesIsProduct(ValidCount(s), mn);
    MeanArith(ValidSum(r), ValidCount(s) as real, d, ValidSum(s), mn, ValidMean(r), ValidMean(s));
  }

  lemma MeanArith(sr: real, n: real, d: real, s: real, mn: real, a: real, b: real)
    requires n > 0.0 && d > 0.0 && Scaled(sr, d) == s - n * mn
    requires a == sr / n && b == s / n
    ensures Denormalize(a, mn, mn + d) == b
  {
  }
}
