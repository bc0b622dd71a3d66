# Patch extraction for urban heat-island labelling, in Dafny

This project models `extract_patch_data` from `scripts/generate_patches_labels.py`, the routine that turns one day's land-surface-temperature raster into training data. It does five things:

- clips the Washington DC window out of the raster;
- replaces readings at or below zero with NaN;
- min-max normalizes the window;
- walks it in `PATCH_SIZE` (128-pixel) steps, dropping every tile that is more than 30% NaN;
- appends each remaining tile, with a 0/1 label, to two parallel lists. The label is 1 when the tile's de-normalized mean exceeds `TEMP_THRESHOLD` (305 K).

Files and modules:

- `cells.dfy` (module `Cells`): a raster cell, either a reading or NaN (`Missing`), plus the NaN-aware reductions the routine uses. Those are the NaN count, `nanmin`, `nanmax` and `nanmean`, and the per-cell normalization.
- `tiling.dfy` (module `Tiling`): how tiles are chosen.
  - the origins `range(0, n - PATCH_SIZE, PATCH_SIZE)` visits;
  - the candidate tiles in the order the nested loops meet them;
  - the NaN-fraction filter, stated in integers: a tile is dropped when `10 * NaN-count > 3 * P * P`;
  - the sequence of kept tile origins.
- `normalization.dfy` (module `Normalization`): the grid-wide steps and the lemmas about them.
  - the masking step and the normalization;
  - the `(nanmin, nanmax)` pair and the label rule;
  - lemmas comparing the label as written with the label on the raw scale.
- `extraction.dfy` (module `Extraction`): the routine itself, imperative as in the source.
  - The window is an `array2`. A fresh array is made by the cast and by the normalization, and the masking step changes it in place.
  - The nested tile loops are `while` loops with a `continue` for dropped tiles. They extend the `patches` and `labels` sequences in lock-step.
  - A separate method runs the routine with the script's constants.
- `window.dfy` (module `Clip`): how the pixel window is computed from the region's corner coordinates.

The tile loop's contract says, position by position, what `patches` and `labels` hold. Entry k is the tile at the k-th kept origin, and that tile holds a reading. The label is 0 or 1, and it is 1 exactly when the de-normalized mean exceeds the threshold. The kept origins are characterized separately:

- a tile is kept iff both coordinates are visited origins and its NaN count is within 30%;
- kept origins are in strictly increasing row-major order;
- there is one kept origin per passing candidate.

A 300 × 300 raster at 310 K everywhere normalizes to 0 / 0, which is NaN in every cell, so every tile is dropped and no patch is produced (`Normalization.UniformRasterYieldsNoPatches`), although its tiling has four candidates (`Tiling.ThreeHundredSquare`). Even a non-uniform window gets only 0 labels at 305 K; see "## Findings".

## Model

| member | source | states |
|---|---|---|
| Cells.Mask | scripts/generate_patches_labels.py:41 | a cell becomes NaN exactly when it was NaN or a reading at most 0; a remaining reading is unchanged and positive |
| Normalization.MaskGrid | scripts/generate_patches_labels.py:41 | masking keeps the grid's shape (cell by cell: `Normalization.MaskGridCells`) |
| Normalization.MaskGridCells | scripts/generate_patches_labels.py:41 | the masking of a whole grid keeps its shape and masks every cell by that rule |
| Extraction.MaskNonPositive | scripts/generate_patches_labels.py:41 | masks the array in place: its new contents are the masking of its old contents |
| Extraction.Cast | scripts/generate_patches_labels.py:38 | the window becomes a fresh array with every cell a reading of the raw value |
| Tiling.Passes | scripts/generate_patches_labels.py:52 | the filter `np.isnan(patch).mean() > 0.3` negated, stated exactly in integers: a tile passes when 10 times its NaN count is at most 3 * P * P (a definition; its consequences are `Tiling.PassesAt128`, `Tiling.PassedTileHasReading` and `Tiling.FilterRejectsMissingOnly`) |
| Cells.MissingCount | scripts/generate_patches_labels.py:52 | the NaN count is at most the length, and equals it exactly when there is no reading |
| Cells.NanMin | scripts/generate_patches_labels.py:44 | NaN (None) exactly when there is no reading; otherwise a value that occurs as a reading and is at most every reading |
| Cells.NanMax | scripts/generate_patches_labels.py:44 | NaN (None) exactly when there is no reading; otherwise a value that occurs as a reading and is at least every reading |
| Normalization.Range | scripts/generate_patches_labels.py:44 | the (nanmin, nanmax) pair of a grid is absent exactly when the grid has no reading, and nanmin <= nanmax |
| Normalization.Normalized | scripts/generate_patches_labels.py:44 | normalization keeps the window's shape |
| Extraction.Normalize | scripts/generate_patches_labels.py:44 | a fresh array of the window's shape whose contents are the normalized window |
| Normalization.NormalizedInUnit | scripts/generate_patches_labels.py:44 | every reading of the normalized window lies in [0, 1] |
| Normalization.UniformNormalizedAllMissing | scripts/generate_patches_labels.py:44 | a window without readings, or with a single value throughout, normalizes to NaN in every cell |
| Normalization.NormalizedRange | scripts/generate_patches_labels.py:44 | when the window has two different readings, the normalized window has nanmin 0 and nanmax 1 |
| Cells.NormCellsMinMax | scripts/generate_patches_labels.py:44 | normalizing a sequence against its own differing nanmin and nanmax gives nanmin 0 and nanmax 1 |
| Cells.NormCell | scripts/generate_patches_labels.py:44 | a normalized cell is NaN exactly when the cell was NaN or nanmax == nanmin (0 / 0); otherwise de-normalizing it with the same (nanmin, nanmax) gives the reading back |
| Cells.NormCellsInUnit | scripts/generate_patches_labels.py:44 | readings within [nanmin, nanmax] normalize into [0, 1] |
| Cells.NormCellsSum | scripts/generate_patches_labels.py:44 | with mn < mx normalization keeps the NaN count, and the normalized sum scaled back by (max - min) is the raw sum less min per reading |
| Cells.Denormalize | scripts/generate_patches_labels.py:55 | line 55's `mean * (nanmax - nanmin) + nanmin`, mapping [0, 1] back onto [lo, hi] (a definition; its contract is `Cells.DenormalizedMean`, `Cells.NormCell` and `Normalization.LabelFor`) |
| Cells.DenormalizedMean | scripts/generate_patches_labels.py:44-55 | de-normalizing the normalized mean with the same (min, max) gives back the raw mean, over the same number of readings |
| Cells.ValidMean | scripts/generate_patches_labels.py:55 | `np.nanmean`, defined when the sequence holds a reading: the sum of the readings divided by their number (a definition; its contract is `Cells.MeanTimesCount` and `Cells.MeanBounds`) |
| Cells.MeanTimesCount | scripts/generate_patches_labels.py:55 | adding the mean once per reading gives back the sum of the readings |
| Cells.MeanBounds | scripts/generate_patches_labels.py:55 | the mean of readings that lie in [a, b] lies in [a, b] |
| Normalization.ScaleOf | scripts/generate_patches_labels.py:55 | the `(np.nanmin(data), np.nanmax(data))` pair of line 55: when the grid holds a reading, the least and the greatest reading. The `(0.0, 0.0)` fallback stands where numpy gives NaN and is never used, because a grid without readings keeps no tile (`Normalization.UniformRasterYieldsNoPatches`) |
| Normalization.LabelFor | scripts/generate_patches_labels.py:55 | the label is 0 or 1, and it is 1 exactly when mean * (hi - lo) + lo exceeds the threshold |
| Normalization.AsWrittenLabelTestsNormalizedMean | scripts/generate_patches_labels.py:44-55 | for a tile with a reading, the (nanmin, nanmax) of the overwritten `data` is (0, 1), so the label is 1 exactly when the normalized tile mean exceeds the threshold |
| Normalization.AsWrittenLabelIsZero | scripts/generate_patches_labels.py:55 | with any threshold of at least 1, the label as written is 0 for every tile |
| Normalization.RawScaleLabelIsRawMeanTest | scripts/generate_patches_labels.py:55 | with the raw window's (nanmin, nanmax), the label is 1 exactly when the mean of the tile's raw readings exceeds the threshold |
| Normalization.UniformRasterYieldsNoPatches | scripts/generate_patches_labels.py:44-53 | a window without readings or with one value throughout yields no kept tile |
| Tiling.OriginCount | scripts/generate_patches_labels.py:49-50 | the length of `range(0, n - P, P)`: one more than for n - P while n - P > 0, else none (a definition; its closed form is `Tiling.OriginCountClosedForm`) |
| Tiling.Origins | scripts/generate_patches_labels.py:49-50 | `range(0, n - P, P)`: OriginCount(n, P) values, the k-th being k * P, each below n - P |
| Tiling.OriginBound | scripts/generate_patches_labels.py:49-50 | the k-th multiple of P is visited exactly when it is below n - P |
| Tiling.OriginsExact | scripts/generate_patches_labels.py:49-50 | the visited origins are exactly the non-negative multiples of P strictly below n - P |
| Tiling.OriginCountClosedForm | scripts/generate_patches_labels.py:49-50 | there are floor((n - 1) / P) origins when n >= 1, and none otherwise |
| Tiling.LastFullTileSkipped | scripts/generate_patches_labels.py:49-50 | the origin n - P of the last full tile is never visited |
| Tiling.ExactMultipleLosesLastTile | scripts/generate_patches_labels.py:49-50 | a 384-pixel side holds three full 128-pixel tiles, but only origins 0 and 128 are visited |
| Tiling.ThreeHundredSquare | scripts/generate_patches_labels.py:49-50 | a 300 × 300 window visits origins 0 and 128 on each side, four candidates in all |
| Tiling.Candidates | scripts/generate_patches_labels.py:49-50 | the (i, j) pairs the nested `for` loops visit, in visiting order (a definition; its contract is `Tiling.CandidatesMembers`, `Tiling.CandidateInside`, `Tiling.CandidatesCount` and `Tiling.CandidatesSorted`) |
| Tiling.CandidatesMembers | scripts/generate_patches_labels.py:49-50 | a tile is a candidate exactly when both of its coordinates are visited origins |
| Tiling.CandidateInside | scripts/generate_patches_labels.py:49-51 | every candidate lies strictly inside the grid: i + P < rows and j + P < cols |
| Tiling.CandidatesCount | scripts/generate_patches_labels.py:49-50 | the number of candidates is the product of the numbers of origins along the two sides |
| Tiling.CandidatesSorted | scripts/generate_patches_labels.py:49-50 | the loops meet candidates in strictly increasing row-major order |
| Tiling.Tile | scripts/generate_patches_labels.py:51 | a slice is a full P × P block with patch[a][b] == data[i + a][j + b] |
| Extraction.Slice | scripts/generate_patches_labels.py:51 | slicing the array gives the tile of its contents at (i, j) |
| Tiling.PassesAt128 | scripts/generate_patches_labels.py:52 | for P = 128 a tile passes exactly when at most 4915 of its cells are NaN |
| Tiling.PassedTileHasReading | scripts/generate_patches_labels.py:52-55 | a tile that passes the filter holds a reading, so its mean is defined |
| Tiling.FilterRejectsMissingOnly | scripts/generate_patches_labels.py:52-53 | a tile with no reading is always dropped |
| Tiling.KeepFilter | scripts/generate_patches_labels.py:52-53 | the `continue` that drops a failing tile, applied in order to a sequence of candidates (a definition; its contract is `Tiling.KeepFilterCount`, `Tiling.Kept` and `Tiling.KeptCharacterized`) |
| Tiling.KeepFilterCount | scripts/generate_patches_labels.py:52-57 | the filter keeps one origin for each position whose tile passes |
| Tiling.Kept | scripts/generate_patches_labels.py:49-57 | every kept origin's tile fits in the grid and passes the filter |
| Tiling.KeptCharacterized | scripts/generate_patches_labels.py:49-57 | a tile is kept iff both coordinates are visited origins and it passes; kept tiles are in strictly increasing row-major order; there is one per passing candidate and never more than there are candidates |
| Extraction.TileRow | scripts/generate_patches_labels.py:50-57 | the inner loop over one row yields, in column order, each kept tile of that row and its label |
| Extraction.Emitted | scripts/generate_patches_labels.py:51-57 | what `patches` and `labels` hold after the appends: equal lengths and, position by position, the tile at each kept origin, fitting the grid and holding a reading, with its line-55 label (a definition; it is the contract of `Extraction.TileRow`, `Extraction.TileAndLabel` and the extraction methods) |
| Extraction.TileAndLabel | scripts/generate_patches_labels.py:47-57 | `patches` and `labels` have one entry per kept origin, in loop order. The k-th patch is the tile at the k-th kept origin and holds a reading; the k-th label is that tile's label |
| Extraction.ExtractPatchData | scripts/generate_patches_labels.py:38-57 | the lists pair every kept tile of the masked, normalized window with a label that tests the normalized mean against the threshold, so with a threshold of at least 1 every label is 0 |
| Extraction.ExtractPatchDataRawScale | scripts/generate_patches_labels.py:38-57 | the same lists, with each label 1 exactly when the mean of the tile's raw readings exceeds the threshold |
| Extraction.ExtractDay | scripts/generate_patches_labels.py:31-57 | with PATCH_SIZE and TEMP_THRESHOLD, the lists pair every kept tile of the masked, normalized window with its label, position by position, and every label is 0 |
| Clip.LatLonToPixel | scripts/generate_patches_labels.py:27-29 | returns the column, then the row, of the library's inverse transform |
| Clip.ClipWindow | scripts/generate_patches_labels.py:34-37 | the window starts at the north-west corner's column and the south-east corner's row. Its right edge is the south-east corner's column, and its bottom edge (row offset plus height) is the north-west corner's row |

## Left out

- `rasterio.open` and `src.read` (lines 32 and 38) are file I/O. The values read through the window are the `raw` array the model takes as input.
- `rowcol` is the raster library's geographic-to-pixel inverse and is not visible, so it is a parameter of `Clip.ClipWindow`. The model does not decide the sign of the height the library would produce, and does not relate the window to the shape of `raw`.
- float32 arithmetic is modelled with exact reals. The rounding of the cast, the normalization and the mean is left out. A NaN produced by the masking or the normalization is the `Missing` constructor.
- The 0.3 NaN-fraction test is stated in integers. For P = 128 it agrees with the float test, since count / 16384 is exact.
- `Extraction.Cast`: every raw value is taken as a finite reading, so the raw window is assumed free of NaN and +inf. A −inf reading is at most 0, so line 41 would mask it like any non-positive reading. A raw NaN survives line 41 and then behaves like a masked cell. A +inf reading would make the nanmax infinite, so every finite reading would normalize to 0 and the infinite cell to NaN. Neither NaN nor +inf input is modelled.
- Extraction.ExtractPatchData, Extraction.ExtractPatchDataRawScale, Extraction.ExtractDay and Extraction.Normalize require a window with at least one row and one column. On an empty window numpy's `nanmin` at line 44 raises `ValueError`; that error path is not modelled.
- numpy's runtime warnings for `nanmin`/`nanmax` of an all-NaN window and for 0 / 0 are left out. Only their NaN results are modelled.
- `Extraction.TileAndLabel`: the de-normalization pair is a parameter computed once before the loops. The source recomputes `np.nanmin(data)` and `np.nanmax(data)` for every tile, but `data` does not change inside the loops, so the values are the same.
- `Extraction.TileRow`: the inner loop returns the row's patches and labels, and the outer loop appends them. The source appends to the same two list objects directly. The resulting sequences are the same, but list identity is not modelled.
- `np.array`, `np.save`, `print`, `os.makedirs` and `os.path.join` (lines 25 and 59–64) are output plumbing.
- The `__main__` loop over `DAYS` with its `os.path.exists` skip (lines 66–72) is file-system driven.
- The unused `tqdm` import.

## Findings

| source | as written | input that shows it | evidently intended | confidence | as-written member | corrected member |
|---|---|---|---|---|---|---|
| scripts/generate_patches_labels.py:55 | Line 44 overwrites `data`, so the tile mean is de-normalized with the nanmin and nanmax of the normalized window, 0 and 1. The label is then "normalized mean > 305", which is always 0. | A 300 × 300 window at 300 K in its left half and 320 K in its right half. The left tiles average 300 K and the right tiles about 317 K, yet every label is 0. | De-normalize with the raw window's nanmin and nanmax, so that the label is 1 exactly when the tile's raw mean exceeds 305 K | not executed | Normalization.AsWrittenLabelIsZero (with Extraction.ExtractPatchData and Extraction.ExtractDay) | Normalization.RawScaleLabelIsRawMeanTest (with Extraction.ExtractPatchDataRawScale) |
