/** The per-day extraction `extract_patch_data`: mask the non-positive
    readings of the clipped window, normalize the window, walk it in
    PATCH_SIZE steps, drop tiles that are more than 30% NaN, and append every
    other tile with its 0/1 heat-island label to two parallel lists. */
module Extraction {
  import opened Cells
  import opened Tiling
  import opened Normalization

  /** PATCH_SIZE, the side of a tile in pixels. */
  const PATCH_SIZE: int := 128

  /** TEMP_THRESHOLD, in kelvin. */
  const TEMP_THRESHOLD: real := 305.0

  /** The cells of a 2-D array as a grid value. */
  function Snapshot(a: array2<Cell>): (g: Grid)
    reads a
    ensures IsMatrix(g, a.Length0, a.Length1)
    ensures forall r, c :: 0 <= r < a.Length0 && 0 <= c < a.Length1 ==> g[r][c] == a[r, c]
  {
    seq(a.Length0, r requires 0 <= r < a.Length0 reads a =>
      seq(a.Length1, c requires 0 <= c < a.Length1 reads a => a[r, c]))
  }

  /** The window as read from the raster and cast to float32: every cell a
      reading. */
  function Readings(raw: array2<real>): (g: Grid)
    reads raw
    ensures IsMatrix(g, raw.Length0, raw.Length1)
    ensures forall r, c :: 0 <= r < raw.Length0 && 0 <= c < raw.Length1 ==> g[r][c] == Reading(raw[r, c])
  {
    seq(raw.Length0, r requires 0 <= r < raw.Length0 reads raw =>
      seq(raw.Length1, c requires 0 <= c < raw.Length1 reads raw => Reading(raw[r, c])))
  }

  /** The slice data[i:i+p, j:j+p] of an array: the tile at (i, j) of its
      snapshot. */
  function Slice(data: array2<Cell>, i: int, j: int, p: nat): (t: Grid)
    reads data
    requires 0 <= i && i + p <= data.Length0 && 0 <= j && j + p <= data.Length1
    ensures TileFits(Snapshot(data), Origin(i, j), p)
    ensures t == Tile(Snapshot(data), Origin(i, j), p)
  {
    var t := seq(p, a requires 0 <= a < p reads data =>
               seq(p, b requires 0 <= b < p reads data => data[i + a, j + b]));
    InsideFits(Snapshot(data), data.Length0, data.Length1, Origin(i, j), p);
    GridExt(t, Tile(Snapshot(data), Origin(i, j), p), p, p);
    t
  }

  /** `patches` and `labels` hold, position by position, the tile at each
      origin of `kept` and the label of that tile. */
  predicate Emitted(g: Grid, p: nat, kept: seq<Origin>, patches: seq<Grid>, labels: seq<int>,
                    lo: real, hi: real, threshold: real)
  {
    |patches| == |kept| && |labels| == |kept| &&
    forall k :: 0 <= k < |kept| ==>
      TileFits(g, kept[k], p) && patches[k] == Tile(g, kept[k], p) &&
      ValidCount(Flatten(patches[k])) > 0 &&
      labels[k] == LabelFor(patches[k], lo, hi, threshold)
  }

  lemma EmitOne(g: Grid, p: nat, kept: seq<Origin>, patches: seq<Grid>, labels: seq<int>,
                lo: real, hi: real, threshold: real, o: Origin, patch: Grid, hot: int)
    requires Emitted(g, p, kept, patches, labels, lo, hi, threshold)
    requires TileFits(g, o, p) && patch == Tile(g, o, p) && ValidCount(Flatten(patch)) > 0
    requires hot == LabelFor(patch, lo, hi, threshold)
    ensures Emitted(g, p, kept + [o], patches + [patch], labels + [hot], lo, hi, threshold)
  {
  }

  lemma EmitAppend(g: Grid, p: nat, kept: seq<Origin>, patches: seq<Grid>, labels: seq<int>,
                   kept': seq<Origin>, patches': seq<Grid>, labels': seq<int>,
                   lo: real, hi: real, threshold: real)
    requires Emitted(g, p, kept, patches, labels, lo, hi, threshold)
    requires Emitted(g, p, kept', patches', labels', lo, hi, threshold)
    ensures Emitted(g, p, kept + kept', patches + patches', labels + labels', lo, hi, threshold)
  {
    forall k | 0 <= k < |kept + kept'|
      ensures TileFits(g, (kept + kept')[k], p) && (patches + patches')[k] == Tile(g, (kept + kept')[k], p)
    {
      if k < |kept| { } else {
        assert (kept + kept')[k] == kept'[k - |kept|];
        assert (patches + patches')[k] == patches'[k - |kept|];
      }
    }
    forall k | 0 <= k < |kept + kept'|
      ensures ValidCount(Flatten((patches + patches')[k])) > 0 &&
              (labels + labels')[k] == LabelFor((patches + patches')[k], lo, hi, threshold)
    {
      if k < |kept| { } else {
        assert (patches + patches')[k] == patches'[k - |kept|];
        assert (labels + labels')[k] == labels'[k - |kept|];
      }
    }
  }

  lemma PrefixSnoc<T>(s: seq<T>, n: nat)
    requires n < |s|
    ensures s[..n + 1] == s[..n] + [s[n]]
  {
  }

  /** The inner loop for row origin i: the kept tiles of that row, each with
      its label, in column order. */
  method TileRow(data: array2<Cell>, i: int, p: int, lo: real, hi: real, threshold: real)
    returns (patches: seq<Grid>, labels: seq<int>)
    requires p > 0 && 0 <= i && i + p <= data.Length0
    ensures AllFit(Snapshot(data), p, RowCandidates(i, data.Length1, p))
    ensures Emitted(Snapshot(data), p, KeepFilter(Snapshot(data), p, RowCandidates(i, data.Length1, p)),
                    patches, labels, lo, hi, threshold)
  {
    ghost var g := Snapshot(data);
    var cols := data.Length1;
    RowFits(g, data.Length0, cols, i, p);
    ghost var row := RowCandidates(i, cols, p);
    patches, labels := [], [];
    ghost var kept: seq<Origin> := [];
    ghost var cj: nat := 0;
    var j := 0;
    while j < cols - p
      invariant 0 <= j && cj <= |row| && j == Offset(cj, p)
      invariant kept == KeepFilter(g, p, row[..cj])
      invariant Emitted(g, p, kept, patches, labels, lo, hi, threshold)
    {
      OriginBound(cj, cols, p);
      ghost var o := Origin(i, j);
      assert row[cj] == o;
      PrefixSnoc(row, cj);
      var patch := Slice(data, i, j, p);
      KeepFilterSnoc(g, p, row[..cj], o);
      OffsetNext(cj, p);
      if 10 * MissingCount(Flatten(patch)) > 3 * p * p {
        j, cj := j + p, cj + 1;
        continue;
      }
      PassedTileHasReading(patch, p);
      var hot := if Denormalize(ValidMean(Flatten(patch)), lo, hi) > threshold then 1 else 0;
      EmitOne(g, p, kept, patches, labels, lo, hi, threshold, o, patch, hot);
      patches := patches + [patch];
      labels := labels + [hot];
      kept := kept + [o];
      j, cj := j + p, cj + 1;
    }
    OriginBound(cj, cols, p);
    assert row[..cj] == row;
  }

  /** The tile loop, with the de-normalization range (lo, hi) given.  The
      result lists one patch and one label per kept tile, in the order the
      loops meet them. */
  method TileAndLabel(data: array2<Cell>, p: int, lo: real, hi: real, threshold: real)
    returns (patches: seq<Grid>, labels: seq<int>)
    requires p > 0
    ensures Emitted(Snapshot(data), p, Kept(Snapshot(data), data.Length0, data.Length1, p),
                    patches, labels, lo, hi, threshold)
  {
    ghost var g := Snapshot(data);
    var rows, cols := data.Length0, data.Length1;
    patches, labels := [], [];
    ghost var ri: nat := 0;
    var i := 0;
    while i < rows - p
      invariant 0 <= i && ri <= OriginCount(rows, p) && i == Offset(ri, p)
      invariant RowsDone(g, p, ri, cols, patches, labels, lo, hi, threshold)
    {
      OriginBound(ri, rows, p);
      OffsetNext(ri, p);
      assert ri + 1 <= OriginCount(rows, p) && i + p == Offset(ri + 1, p);
      var rowPatches, rowLabels := TileRow(data, i, p, lo, hi, threshold);
      RowStep(g, p, ri, cols, patches, labels, rowPatches, rowLabels, lo, hi, threshold);
      patches := patches + rowPatches;
      labels := labels + rowLabels;
      i, ri := i + p, ri + 1;
    }
    KeptAfterRows(g, rows, cols, p, ri);
  }

  /** Once the row origin leaves range(0, rows - p, p), every row has been
      visited and the kept tiles so far are all of them. */
  lemma KeptAfterRows(g: Grid, rows: nat, cols: nat, p: int, ri: nat)
    requires p > 0 && IsMatrix(g, rows, cols)
    requires ri <= OriginCount(rows, p) && Offset(ri, p) >= rows - p
    requires AllFit(g, p, CandidatesUpTo(ri, cols, p))
    ensures Kept(g, rows, cols, p) == KeepFilter(g, p, CandidatesUpTo(ri, cols, p))
  {
    OriginBound(ri, rows, p);
    assert CandidatesUpTo(ri, cols, p) == Candidates(rows, cols, p);
  }

  /** The lists hold the kept tiles of the first ri rows of candidates. */
  predicate RowsDone(g: Grid, p: int, ri: nat, cols: int, patches: seq<Grid>, labels: seq<int>,
                     lo: real, hi: real, threshold: real)
    requires p > 0
  {
    AllFit(g, p, CandidatesUpTo(ri, cols, p)) &&
    Emitted(g, p, KeepFilter(g, p, CandidatesUpTo(ri, cols, p)), patches, labels, lo, hi, threshold)
  }

  /** One pass of the outer loop: the kept tiles of the first ri + 1 rows are
      those of the first ri rows followed by those of row ri. */
  lemma RowStep(g: Grid, p: int, ri: nat, cols: int, patches: seq<Grid>, labels: seq<int>,
                rowPatches: seq<Grid>, rowLabels: seq<int>, lo: real, hi: real, threshold: real)
    requires p > 0
    requires RowsDone(g, p, ri, cols, patches, labels, lo, hi, threshold)
    requires AllFit(g, p, RowCandidates(Offset(ri, p), cols, p))
    requires Emitted(g, p, KeepFilter(g, p, RowCandidates(Offset(ri, p), cols, p)), rowPatches, rowLabels, lo, hi, threshold)
    ensures RowsDone(g, p, ri + 1, cols, patches + rowPatches, labels + rowLabels, lo, hi, threshold)
  {
    var done := CandidatesUpTo(ri, cols, p);
    var row := RowCandidates(Offset(ri, p), cols, p);
    assert CandidatesUpTo(ri + 1, cols, p) == done + row;
    KeepFilterAppend(g, p, done, row);
    EmitAppend(g, p, KeepFilter(g, p, done), patches, labels, KeepFilter(g, p, row), rowPatches, rowLabels, lo, hi, threshold);
  }

  /** `.astype(np.float32)`: the window read from the raster as a fresh
      array of readings. */
  method Cast(raw: array2<real>) returns (data: array2<Cell>)
    ensures fresh(data)
    ensures data.Length0 == raw.Length0 && data.Length1 == raw.Length1
    ensures Snapshot(data) == Readings(raw)
  {
    var rows, cols := raw.Length0, raw.Length1;
    data := new Cell[rows, cols]((r, c) reads raw requires 0 <= r < rows && 0 <= c < cols =>
              Reading(raw[r, c]));
    GridExt(Snapshot(data), Readings(raw), rows, cols);
  }

  /** `data[data <= 0] = np.nan`, in place. */
  method MaskNonPositive(data: array2<Cell>)
    modifies data
    ensures Snapshot(data) == MaskGrid(old(Snapshot(data)))
  {
    ghost var before := Snapshot(data);
    forall r, c | 0 <= r < data.Length0 && 0 <= c < data.Length1 {
      data[r, c] := Mask(data[r, c]);
    }
    MaskGridCells(before, data.Length0, data.Length1);
    GridExt(Snapshot(data), MaskGrid(before), data.Length0, data.Length1);
  }

  /** `(data - np.nanmin(data)) / (np.nanmax(data) - np.nanmin(data))`: a
      fresh array holding the normalized window. */
  method Normalize(data: array2<Cell>) returns (norm: array2<Cell>)
    requires data.Length0 > 0 && data.Length1 > 0
    ensures fresh(norm)
    ensures norm.Length0 == data.Length0 && norm.Length1 == data.Length1
    ensures Snapshot(norm) == Normalized(Snapshot(data))
  {
    var rows, cols := data.Length0, data.Length1;
    var m := Snapshot(data);
    match Range(m)
    case Some((mn, mx)) =>
      norm := new Cell[rows, cols]((r, c) reads data requires 0 <= r < rows && 0 <= c < cols =>
                NormCell(data[r, c], mn, mx));
      GridExt(Snapshot(norm), NormGrid(m, mn, mx), rows, cols);
    case None =>
      norm := new Cell[rows, cols]((r, c) => Missing);
      GridExt(Snapshot(norm), Normalized(m), rows, cols);
  }

  /** extract_patch_data as written: the label de-normalizes the tile mean
      with the nanmin and nanmax of the already normalized grid, which are
      0 and 1, so it compares the normalized mean with the threshold and is
      0 for every threshold of at least 1. */
  method ExtractPatchData(raw: array2<real>, p: int, threshold: real)
    returns (patches: seq<Grid>, labels: seq<int>)
    requires raw.Length0 > 0 && raw.Length1 > 0
    requires p > 0
    ensures var g := Normalized(MaskGrid(Readings(raw)));
            IsMatrix(g, raw.Length0, raw.Length1) &&
            Emitted(g, p, Kept(g, raw.Length0, raw.Length1, p), patches, labels,
                    ScaleOf(g).0, ScaleOf(g).1, threshold)
    ensures forall k :: 0 <= k < |labels| ==>
              ValidCount(Flatten(patches[k])) > 0 &&
              labels[k] == (if ValidMean(Flatten(patches[k])) > threshold then 1 else 0)
    ensures threshold >= 1.0 ==> forall k :: 0 <= k < |labels| ==> labels[k] == 0
  {
    var data := Cast(raw);
    MaskNonPositive(data);
    var norm := Normalize(data);
    var scale := ScaleOf(Snapshot(norm));
    patches, labels := TileAndLabel(norm, p, scale.0, scale.1, threshold);
    ghost var g := Snapshot(norm);
    ghost var kept := Kept(g, raw.Length0, raw.Length1, p);
    forall k | 0 <= k < |labels|
      ensures labels[k] == (if ValidMean(Flatten(patches[k])) > threshold then 1 else 0)
      ensures threshold >= 1.0 ==> labels[k] == 0
    {
      AsWrittenLabelTestsNormalizedMean(Snapshot(data), kept[k], p, threshold);
      if threshold >= 1.0 {
        AsWrittenLabelIsZero(Snapshot(data), kept[k], p, threshold);
      }
    }
  }

  /** extract_patch_data with the label de-normalized against the nanmin and
      nanmax of the masked raw window, as the labelling rule intends: the
      label is 1 exactly when the mean of the tile's raw readings exceeds the
      threshold. */
  method ExtractPatchDataRawScale(raw: array2<real>, p: int, threshold: real)
    returns (patches: seq<Grid>, labels: seq<int>)
    requires raw.Length0 > 0 && raw.Length1 > 0
    requires p > 0
    ensures var m := MaskGrid(Readings(raw));
            var g := Normalized(m);
            IsMatrix(g, raw.Length0, raw.Length1) &&
            Emitted(g, p, Kept(g, raw.Length0, raw.Length1, p), patches, labels,
                    ScaleOf(m).0, ScaleOf(m).1, threshold)
    ensures var m := MaskGrid(Readings(raw));
            var g := Normalized(m);
            IsMatrix(g, raw.Length0, raw.Length1) &&
            var kept := Kept(g, raw.Length0, raw.Length1, p);
            |labels| == |kept| &&
            forall k :: 0 <= k < |kept| ==>
              TileFits(m, kept[k], p) && ValidCount(Flatten(Tile(m, kept[k], p))) > 0 &&
              labels[k] == (if ValidMean(Flatten(Tile(m, kept[k], p))) > threshold then 1 else 0)
  {
    var data := Cast(raw);
    MaskNonPositive(data);
    var scale := ScaleOf(Snapshot(data));
    var norm := Normalize(data);
    patches, labels := TileAndLabel(norm, p, scale.0, scale.1, threshold);
    ghost var m := Snapshot(data);
    ghost var kept := Kept(Snapshot(norm), raw.Length0, raw.Length1, p);
    forall k | 0 <= k < |kept|
      ensures TileFits(m, kept[k], p) && ValidCount(Flatten(Tile(m, kept[k], p))) > 0
      ensures labels[k] == (if ValidMean(Flatten(Tile(m, kept[k], p))) > threshold then 1 else 0)
    {
      RawScaleLabelIsRawMeanTest(m, kept[k], p, threshold);
    }
  }

  /** One day's extraction with the script's configuration: PATCH_SIZE-pixel
      tiles labelled against TEMP_THRESHOLD.  Every label it produces is 0. */
  method ExtractDay(raw: array2<real>) returns (patches: seq<Grid>, labels: seq<int>)
    requires raw.Length0 > 0 && raw.Length1 > 0
    ensures var g := Normalized(MaskGrid(Readings(raw)));
            IsMatrix(g, raw.Length0, raw.Length1) &&
            Emitted(g, PATCH_SIZE, Kept(g, raw.Length0, raw.Length1, PATCH_SIZE), patches, labels,
                    ScaleOf(g).0, ScaleOf(g).1, TEMP_THRESHOLD)
    ensures forall k :: 0 <= k < |labels| ==> labels[k] == 0
  {
    patches, labels := ExtractPatchData(raw, PATCH_SIZE, TEMP_THRESHOLD);
  }
}
