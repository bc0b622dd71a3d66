/** The grid-wide steps around the tile loop: the masking of non-positive
    readings, the min-max normalization of the window, and the label rule
    that de-normalizes a tile mean against a (nanmin, nanmax) pair.  The
    lemmas compare the label rule as written, which takes that pair from the
    already normalized grid, with the rule taken on the raw scale. */
module Normalization {
  import opened Cells
  import opened Tiling

  /** The masking step on a grid value: every cell through Mask. */
  function MaskGrid(g: Grid): (m: Grid)
    ensures |m| == |g| && forall r :: 0 <= r < |g| ==> |m[r]| == |g[r]|
  {
    seq(|g|, r requires 0 <= r < |g| => seq(|g[r]|, c requires 0 <= c < |g[r]| => Mask(g[r][c])))
  }

  /** A cell of the masked grid is NaN exactly when the raw cell was NaN or
      at most zero; every other cell keeps its reading. */
  lemma MaskGridCells(g: Grid, rows: nat, cols: nat)
    requires IsMatrix(g, rows, cols)
    ensures IsMatrix(MaskGrid(g), rows, cols)
    ensures forall r, c :: 0 <= r < rows && 0 <= c < cols ==>
              (MaskGrid(g)[r][c].Missing? <==> g[r][c].Missing? || g[r][c].v <= 0.0) &&
              (g[r][c].Reading? && g[r][c].v > 0.0 ==> MaskGrid(g)[r][c] == g[r][c])
  {
  }

  /** The (nanmin, nanmax) of a grid, None when it holds no reading. */
  function Range(g: Grid): (r: Option<(real, real)>)
    ensures r.None? <==> !HasReading(Flatten(g))
    ensures r.Some? ==> r.value.0 <= r.value.1
  {
    var s := Flatten(g);
    MinAtMostMax(s);
    match (NanMin(s), NanMax(s))
    case (Some(mn), Some(mx)) => Some((mn, mx))
    case _ => None
  }

  /** Normalization of every cell against [mn, mx]. */
  function NormGrid(g: Grid, mn: real, mx: real): (n: Grid)
    ensures |n| == |g| && forall r :: 0 <= r < |g| ==> n[r] == NormCells(g[r], mn, mx)
  {
    seq(|g|, r requires 0 <= r < |g| => NormCells(g[r], mn, mx))
  }

  /** The normalization (v - nanmin) / (nanmax - nanmin) of the whole grid.
      A non-empty grid without readings has NaN for its nanmin and stays all
      NaN; numpy's nanmin raises on an empty grid, which the extraction
      methods therefore exclude. */
  function Normalized(g: Grid): (n: Grid)
    ensures |n| == |g| && forall r :: 0 <= r < |g| ==> |n[r]| == |g[r]|
  {
    match Range(g)
    case Some((mn, mx)) => NormGrid(g, mn, mx)
    case None => seq(|g|, r requires 0 <= r < |g| => seq(|g[r]|, c => Missing))
  }

  /** The (lo, hi) of the de-normalization mean * (hi - lo) + lo: nanmin and
      nanmax of the grid given.  A grid without readings yields no tile, so
      the pair is then never used. */
  function ScaleOf(g: Grid): (s: (real, real))
    ensures HasReading(Flatten(g)) ==> NanMin(Flatten(g)) == Some(s.0) && NanMax(Flatten(g)) == Some(s.1)
  {
    match Range(g)
    case Some(r) => r
    case None => (0.0, 0.0)
  }

  /** The label of a tile: 1 when its de-normalized mean exceeds the
      threshold, 0 otherwise. */
  function LabelFor(t: Grid, lo: real, hi: real, threshold: real): (l: int)
    requires ValidCount(Flatten(t)) > 0
    ensures l == 0 || l == 1
    ensures l == 1 <==> Denormalize(ValidMean(Flatten(t)), lo, hi) > threshold
  {
    if Denormalize(ValidMean(Flatten(t)), lo, hi) > threshold then 1 else 0
  }


  /** Every reading of `g` lies in [lo, hi]. */
  predicate GridInRange(g: Grid, lo: real, hi: real)
  {
    forall r, c :: 0 <= r < |g| && 0 <= c < |g[r]| && g[r][c].Reading? ==> lo <= g[r][c].v <= hi
  }

  /** No cell of `g` holds a reading. */
  predicate AllMissing(g: Grid)
  {
    forall r, c :: 0 <= r < |g| && 0 <= c < |g[r]| ==> g[r][c].Missing?
  }

  lemma FlattenBounds(g: Grid, lo: real, hi: real)
    requires InRange(Flatten(g), lo, hi)
    ensures GridInRange(g, lo, hi)
  {
    forall r, c | 0 <= r < |g| && 0 <= c < |g[r]| && g[r][c].Reading?
      ensures lo <= g[r][c].v <= hi
    {
      FlattenHas(g, r, c);
    }
  }

  lemma GridBoundsFlatten(g: Grid, lo: real, hi: real)
    requires GridInRange(g, lo, hi)
    ensures InRange(Flatten(g), lo, hi)
  {
    forall r | 0 <= r < |g| ensures InRange(g[r], lo, hi) {
    }
    FlattenInRange(g, lo, hi);
  }

  lemma AllMissingFlatten(g: Grid)
    requires AllMissing(g)
    ensures !HasReading(Flatten(g))
  {
    forall r | 0 <= r < |g| ensures !HasReading(g[r]) {
    }
    FlattenNoReading(g);
  }

  lemma TileInRange(g: Grid, o: Origin, p: nat, lo: real, hi: real)
    requires TileFits(g, o, p) && GridInRange(g, lo, hi)
    ensures GridInRange(Tile(g, o, p), lo, hi)
  {
    var t: Grid := Tile(g, o, p);
    forall a: int, b: int | 0 <= a < |t| && 0 <= b < |t[a]| && t[a][b].Reading?
      ensures lo <= t[a][b].v <= hi
    {
      assert t[a][b] == g[o.i + a][o.j + b];
    }
  }

  lemma TileAllMissing(g: Grid, o: Origin, p: nat)
    requires TileFits(g, o, p) && AllMissing(g)
    ensures AllMissing(Tile(g, o, p))
  {
    var t: Grid := Tile(g, o, p);
    forall a: int, b: int | 0 <= a < |t| && 0 <= b < |t[a]| ensures t[a][b].Missing? {
      assert t[a][b] == g[o.i + a][o.j + b];
    }
  }

  /** The readings of a grid lie between its nanmin and its nanmax. */
  lemma RangeBounds(g: Grid)
    requires Range(g).Some?
    ensures GridInRange(g, Range(g).value.0, Range(g).value.1)
  {
    FlattenBounds(g, Range(g).value.0, Range(g).value.1);
  }

  /** Every reading of the normalized grid lies in [0, 1]. */
  lemma NormalizedInUnit(g: Grid)
    ensures GridInRange(Normalized(g), 0.0, 1.0)
  {
    match Range(g)
    case None =>
    case Some((mn, mx)) =>
      RangeBounds(g);
      var n: Grid := Normalized(g);
      forall r: int, c: int | 0 <= r < |n| && 0 <= c < |n[r]| && n[r][c].Reading?
        ensures 0.0 <= n[r][c].v <= 1.0
      {
        assert n[r][c] == NormCell(g[r][c], mn, mx);
        DivBounds(g[r][c].v - mn, mx - mn, 0.0, 1.0);
      }
  }

  /** Without readings, or with a single value throughout, normalizing
      leaves NaN in every cell: the nanmin is NaN, or the quotient is 0 / 0. */
  lemma UniformNormalizedAllMissing(g: Grid)
    requires Range(g).None? || Range(g).value.0 == Range(g).value.1
    ensures AllMissing(Normalized(g))
  {
    var n: Grid := Normalized(g);
    match Range(g)
    case None =>
    case Some((mn, mx)) =>
      forall r: int, c: int | 0 <= r < |n| && 0 <= c < |n[r]| ensures n[r][c].Missing? {
        assert n[r][c] == NormCell(g[r][c], mn, mx);
      }
  }

  lemma {:induction false} FlattenNorm(g: Grid, mn: real, mx: real)
    ensures Flatten(NormGrid(g, mn, mx)) == NormCells(Flatten(g), mn, mx)
  {
    if g != [] {
      assert NormGrid(g, mn, mx)[1..] == NormGrid(g[1..], mn, mx);
      FlattenNorm(g[1..], mn, mx);
      NormCellsAppend(g[0], Flatten(g[1..]), mn, mx);
    } else {
      assert NormGrid(g, mn, mx) == [];
    }
  }

  /** Slicing commutes with normalization. */
  lemma TileNorm(g: Grid, o: Origin, p: nat, mn: real, mx: real)
    requires TileFits(g, o, p)
    ensures TileFits(NormGrid(g, mn, mx), o, p)
    ensures Tile(NormGrid(g, mn, mx), o, p) == NormGrid(Tile(g, o, p), mn, mx)
  {
    var t := Tile(NormGrid(g, mn, mx), o, p);
    var u := NormGrid(Tile(g, o, p), mn, mx);
    forall a, b | 0 <= a < p && 0 <= b < p ensures t[a][b] == u[a][b] {
      assert t[a][b] == NormCell(g[o.i + a][o.j + b], mn, mx);
    }
    GridExt(t, u, p, p);
  }

  /** When the raw window holds two different readings, the normalized grid
      has nanmin 0 and nanmax 1. */
  lemma NormalizedRange(g: Grid)
    requires Range(g).Some? && Range(g).value.0 < Range(g).value.1
    ensures Range(Normalized(g)) == Some((0.0, 1.0))
  {
    var (mn, mx) := Range(g).value;
    assert Normalized(g) == NormGrid(g, mn, mx);
    FlattenNorm(g, mn, mx);
    NormCellsMinMax(Flatten(g), mn, mx);
  }

  /** A tile of the normalized grid can hold a reading only when the raw
      window holds two different readings. */
  lemma SpreadOfReadingTile(g: Grid, o: Origin, p: nat)
    requires TileFits(Normalized(g), o, p)
    ensures ValidCount(Flatten(Tile(Normalized(g), o, p))) > 0 ==>
              Range(g).Some? && Range(g).value.0 < Range(g).value.1
  {
    if Range(g).None? || Range(g).value.0 == Range(g).value.1 {
      UniformNormalizedAllMissing(g);
      TileAllMissing(Normalized(g), o, p);
      AllMissingFlatten(Tile(Normalized(g), o, p));
    }
  }

  /** As written, the (nanmin, nanmax) pair that de-normalizes a tile mean
      is taken from the normalized grid and is (0, 1): the label compares the
      normalized mean itself with the threshold. */
  lemma AsWrittenLabelTestsNormalizedMean(g: Grid, o: Origin, p: nat, threshold: real)
    requires TileFits(Normalized(g), o, p) && ValidCount(Flatten(Tile(Normalized(g), o, p))) > 0
    ensures ScaleOf(Normalized(g)) == (0.0, 1.0)
    ensures LabelFor(Tile(Normalized(g), o, p), ScaleOf(Normalized(g)).0, ScaleOf(Normalized(g)).1, threshold)
            == if ValidMean(Flatten(Tile(Normalized(g), o, p))) > threshold then 1 else 0
  {
    SpreadOfReadingTile(g, o, p);
    NormalizedRange(g);
  }

  /** A normalized mean lies in [0, 1], so for any threshold of at least 1
      (TEMP_THRESHOLD is 305) the label as written is always 0. */
  lemma AsWrittenLabelIsZero(g: Grid, o: Origin, p: nat, threshold: real)
    requires TileFits(Normalized(g), o, p) && ValidCount(Flatten(Tile(Normalized(g), o, p))) > 0
    requires threshold >= 1.0
    ensures LabelFor(Tile(Normalized(g), o, p), ScaleOf(Normalized(g)).0, ScaleOf(Normalized(g)).1, threshold) == 0
  {
    var t := Tile(Normalized(g), o, p);
    AsWrittenLabelTestsNormalizedMean(g, o, p, threshold);
    NormalizedInUnit(g);
    TileInRange(Normalized(g), o, p, 0.0, 1.0);
    GridBoundsFlatten(t, 0.0, 1.0);
    MeanBounds(Flatten(t), 0.0, 1.0);
  }

  /** De-normalizing with the raw window's (nanmin, nanmax) gives back the
      raw tile mean, so the label is 1 exactly when the mean of the tile's
      raw readings exceeds the threshold. */
  lemma RawScaleLabelIsRawMeanTest(g: Grid, o: Origin, p: nat, threshold: real)
    requires TileFits(Normalized(g), o, p) && ValidCount(Flatten(Tile(Normalized(g), o, p))) > 0
    ensures TileFits(g, o, p) && ValidCount(Flatten(Tile(g, o, p))) > 0
    ensures LabelFor(Tile(Normalized(g), o, p), ScaleOf(g).0, ScaleOf(g).1, threshold)
            == if ValidMean(Flatten(Tile(g, o, p))) > threshold then 1 else 0
  {
    SpreadOfReadingTile(g, o, p);
    var (mn, mx) := Range(g).value;
    assert Normalized(g) == NormGrid(g, mn, mx);
    var t := Tile(g, o, p);
    TileNorm(g, o, p, mn, mx);
    FlattenNorm(t, mn, mx);
    NormCellsSum(Flatten(t), mn, mx);
    DenormalizedMean(Flatten(t), mn, mx);
  }

  /** A window without readings, or with one value throughout, normalizes
      to NaN only, so every tile is dropped and no patch is produced. */
  lemma UniformRasterYieldsNoPatches(g: Grid, rows: nat, cols: nat, p: int)
    requires p > 0 && IsMatrix(g, rows, cols)
    requires Range(g).None? || Range(g).value.0 == Range(g).value.1
    ensures IsMatrix(Normalized(g), rows, cols)
    ensures Kept(Normalized(g), rows, cols, p) == []
  {
    var n := Normalized(g);
    UniformNormalizedAllMissing(g);
    var s := Candidates(rows, cols, p);
    CandidatesFit(n, rows, cols, p);
    forall x | 0 <= x < |s| ensures !Passes(Tile(n, s[x], p), p) {
      TileAllMissing(n, s[x], p);
      AllMissingFlatten(Tile(n, s[x], p));
      FilterRejectsMissingOnly(Tile(n, s[x], p), p);
    }
    KeepFilterNone(n, p, s);
  }
}
