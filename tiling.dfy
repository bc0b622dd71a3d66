/** Tiling of a grid into PATCH_SIZE x PATCH_SIZE blocks: the origins the two
    nested `range(0, dim - PATCH_SIZE, PATCH_SIZE)` loops visit, the candidate
    tiles in the order those loops produce them, and the NaN-fraction filter. */
module Tiling {
  import opened Cells

  /** A 2-D grid of cells, row by row. */
  type Grid = seq<seq<Cell>>

  predicate IsMatrix(g: Grid, rows: nat, cols: nat)
  {
    |g| == rows && forall r :: 0 <= r < rows ==> |g[r]| == cols
  }

  /** The cells of a grid in row-major order. */
  function Flatten(g: Grid): seq<Cell>
  {
    if g == [] then [] else g[0] + Flatten(g[1..])
  }

  lemma {:induction false} FlattenLength(g: Grid, rows: nat, cols: nat)
    requires IsMatrix(g, rows, cols)
    ensures |Flatten(g)| == rows * cols
  {
    if rows > 0 {
      assert IsMatrix(g[1..], rows - 1, cols) by {
        forall r | 0 <= r < rows - 1 ensures |g[1..][r]| == cols {
          assert g[1..][r] == g[r + 1];
        }
      }
      FlattenLength(g[1..], rows - 1, cols);
      assert rows * cols == cols + (rows - 1) * cols;
    }
  }

  /** Every row of `g` keeps its readings in [lo, hi], so the flattened grid
      does. */
  lemma {:induction false} FlattenInRange(g: Grid, lo: real, hi: real)
    requires forall r :: 0 <= r < |g| ==> InRange(g[r], lo, hi)
    ensures InRange(Flatten(g), lo, hi)
  {
    if g != [] {
      assert forall r :: 0 <= r < |g[1..]| ==> g[1..][r] == g[r + 1];
      FlattenInRange(g[1..], lo, hi);
      InRangeAppend(g[0], Flatten(g[1..]), lo, hi);
    }
  }

  /** A grid none of whose rows holds a reading flattens to NaN only. */
  lemma {:induction false} FlattenNoReading(g: Grid)
    requires forall r :: 0 <= r < |g| ==> !HasReading(g[r])
    ensures !HasReading(Flatten(g))
  {
    if g != [] {
      assert forall r :: 0 <= r < |g[1..]| ==> g[1..][r] == g[r + 1];
      FlattenNoReading(g[1..]);
      var a: seq<Cell>, b: seq<Cell> := g[0], Flatten(g[1..]);
      forall k | 0 <= k < |a + b| ensures (a + b)[k].Missing? {
        if k < |a| { assert (a + b)[k] == a[k]; } else { assert (a + b)[k] == b[k - |a|]; }
      }
    }
  }

  /** Cell (r, c) of `g` occurs in the flattened grid. */
  lemma {:induction false} FlattenHas(g: Grid, r: nat, c: nat)
    requires r < |g| && c < |g[r]|
    ensures g[r][c] in Flatten(g)
  {
    if r == 0 {
      assert Flatten(g)[c] == g[0][c];
    } else {
      assert g[1..][r - 1] == g[r];
      FlattenHas(g[1..], r - 1, c);
    }
  }

  /** Two grids of the same shape with the same cells are equal. */
  lemma GridExt(a: Grid, b: Grid, rows: nat, cols: nat)
    requires IsMatrix(a, rows, cols) && IsMatrix(b, rows, cols)
    requires forall r, c :: 0 <= r < rows && 0 <= c < cols ==> a[r][c] == b[r][c]
    ensures a == b
  {
    forall r | 0 <= r < rows ensures a[r] == b[r] {
      assert forall c :: 0 <= c < cols ==> a[r][c] == b[r][c];
    }
  }

  /** The upper-left corner (row i, column j) of a tile. */
  datatype Origin = Origin(i: int, j: int)

  /** A p x p tile at `o` lies inside `g`. */
  predicate TileFits(g: Grid, o: Origin, p: nat)
  {
    0 <= o.i && o.i + p <= |g| && 0 <= o.j
    && forall r :: o.i <= r < o.i + p ==> o.j + p <= |g[r]|
  }

  /** The slice g[i:i+p, j:j+p]. */
  function Tile(g: Grid, o: Origin, p: nat): (t: Grid)
    requires TileFits(g, o, p)
    ensures IsMatrix(t, p, p)
    ensures forall a, b :: 0 <= a < p && 0 <= b < p ==> t[a][b] == g[o.i + a][o.j + b]
  {
    seq(p, a requires 0 <= a < p => seq(p, b requires 0 <= b < p => g[o.i + a][o.j + b]))
  }

  /** The number of values `range(0, n - p, p)` produces. */
  function OriginCount(n: int, p: int): nat
    requires p > 0
    decreases n
  {
    if n - p > 0 then 1 + OriginCount(n - p, p) else 0
  }

  /** k steps of size p from 0: the k-th origin, k * p.  Written as a sum
      so that the loop proofs stay in linear arithmetic. */
  function Offset(k: nat, p: int): int
  {
    if k == 0 then 0 else Offset(k - 1, p) + p
  }

  lemma {:induction false} OffsetIsProduct(k: nat, p: int)
    ensures Offset(k, p) == k * p
  {
    if k > 0 {
      OffsetIsProduct(k - 1, p);
      assert k * p == (k - 1) * p + p;
    }
  }

  lemma OffsetNext(k: nat, p: int)
    ensures Offset(k + 1, p) == Offset(k, p) + p
  {
  }

  lemma {:induction false} OffsetStrict(x: nat, y: nat, p: int)
    requires x < y && p > 0
    ensures Offset(x, p) < Offset(y, p)
  {
    if x < y - 1 {
      OffsetStrict(x, y - 1, p);
    }
  }

  /** The values of `range(0, n - p, p)`, in order: the tile origins along a
      dimension of length n. */
  function Origins(n: int, p: int): (s: seq<int>)
    requires p > 0
    ensures |s| == OriginCount(n, p)
    ensures forall k :: 0 <= k < |s| ==> s[k] == k * p && s[k] < n - p
  {
    OffsetsInRange(n, p);
    seq(OriginCount(n, p), k requires 0 <= k => Offset(k, p))
  }

  /** Each of the first OriginCount(n, p) offsets is a multiple of p below
      n - p. */
  lemma OffsetsInRange(n: int, p: int)
    requires p > 0
    ensures forall k: nat :: k < OriginCount(n, p) ==> Offset(k, p) == k * p && Offset(k, p) < n - p
  {
    forall k: nat | k < OriginCount(n, p) ensures Offset(k, p) == k * p && Offset(k, p) < n - p {
      OffsetIsProduct(k, p);
      OriginBound(k, n, p);
    }
  }

  /** The k-th multiple of p is visited exactly when it is below n - p. */
  lemma {:induction false} OriginBound(k: nat, n: int, p: int)
    requires p > 0
    ensures Offset(k, p) < n - p <==> k < OriginCount(n, p)
  {
    if k > 0 && n - p > 0 {
      OriginBound(k - 1, n - p, p);
    } else if k > 0 {
      OffsetStrict(0, k, p);
    }
  }

  /** The origins along a dimension of length n are exactly the non-negative
      multiples of p strictly below n - p; in particular n - p itself, the
      origin of the last full tile, is never visited. */
  lemma OriginsExact(n: int, p: int, x: int)
    requires p > 0
    ensures x in Origins(n, p) <==> 0 <= x && x % p == 0 && x < n - p
  {
    var s := Origins(n, p);
    assert x in s ==> 0 <= x && x % p == 0 && x < n - p by {
      if x in s {
        var k :| 0 <= k < |s| && s[k] == x;
        OriginBound(k, n, p);
        OffsetIsProduct(k, p);
        MultipleMod(k, p);
      }
    }
    assert 0 <= x && x % p == 0 && x < n - p ==> x in s by {
      if 0 <= x && x % p == 0 && x < n - p {
        var k := x / p;
        assert k * p == x;
        OffsetIsProduct(k, p);
        OriginBound(k, n, p);
        assert s[k] == x;
      }
    }
  }

  lemma MultipleMod(k: nat, p: int)
    requires p > 0
    ensures (k * p) % p == 0 && k * p >= 0
  {
    DivUnique(k * p, k, 0, p);
  }

  /** Euclidean division is unique: x == q * p + r with 0 <= r < p
      determines x / p and x % p. */
  lemma DivUnique(x: int, q: int, r: int, p: int)
    requires p > 0 && 0 <= r < p && x == q * p + r
    ensures x / p == q && x % p == r
  {
    var q', r' := x / p, x % p;
    assert x == q' * p + r';
    assert (q - q') * p == r' - r;
    MulSign(q - q', p);
  }

  lemma MulSign(d: int, p: int)
    requires p > 0
    ensures d >= 1 ==> d * p >= p
    ensures d <= -1 ==> d * p <= -p
  {
  }

  /** There are max(0, floor((n - 1) / p)) origins. */
  lemma {:induction false} OriginCountClosedForm(n: int, p: int)
    requires p > 0
    ensures OriginCount(n, p) == if n >= 1 then (n - 1) / p else 0
  {
    if n - p > 0 {
      OriginCountClosedForm(n - p, p);
      DivStep(n - 1 - p, p);
    }
  }

  lemma DivStep(m: int, p: int)
    requires p > 0 && m >= 0
    ensures (m + p) / p == m / p + 1
  {
    var q, r := m / p, m % p;
    assert m == q * p + r;
    assert m + p == (q + 1) * p + r;
    DivUnique(m + p, q + 1, r, p);
  }

  /** The tile at exactly n - p, which would still fit, is never visited. */
  lemma LastFullTileSkipped(n: int, p: int)
    requires p > 0
    ensures n - p !in Origins(n, p)
  {
    OriginsExact(n, p, n - p);
  }

  /** Lexicographic order on origins: row first, then column. */
  predicate Before(a: Origin, b: Origin)
  {
    a.i < b.i || (a.i == b.i && a.j < b.j)
  }

  predicate StrictlyIncreasing(s: seq<Origin>)
  {
    forall x, y :: 0 <= x < y < |s| ==> Before(s[x], s[y])
  }

  /** The inner loop for row origin i: (i, 0), (i, p), ... */
  function RowCandidates(i: int, cols: int, p: int): (s: seq<Origin>)
    requires p > 0
    ensures |s| == OriginCount(cols, p)
  {
    seq(OriginCount(cols, p), c requires 0 <= c => Origin(i, Offset(c, p)))
  }

  /** The candidates of the first r row origins, in loop order. */
  function CandidatesUpTo(r: nat, cols: int, p: int): seq<Origin>
    requires p > 0
  {
    if r == 0 then [] else CandidatesUpTo(r - 1, cols, p) + RowCandidates(Offset(r - 1, p), cols, p)
  }

  /** Every candidate tile of a rows x cols grid, in the order the nested
      loops visit them. */
  function Candidates(rows: int, cols: int, p: int): seq<Origin>
    requires p > 0
  {
    CandidatesUpTo(OriginCount(rows, p), cols, p)
  }

  lemma {:induction false} CandidatesUpToMembers(r: nat, cols: int, p: int, o: Origin)
    requires p > 0
    ensures o in CandidatesUpTo(r, cols, p) <==>
            (exists k: nat :: k < r && o.i == Offset(k, p)) && o.j in Origins(cols, p)
  {
    if r > 0 {
      CandidatesUpToMembers(r - 1, cols, p, o);
      var prev := CandidatesUpTo(r - 1, cols, p);
      var row := RowCandidates(Offset(r - 1, p), cols, p);
      assert CandidatesUpTo(r, cols, p) == prev + row;
      assert o in prev + row <==> o in prev || o in row;
      assert o in row <==> o.i == Offset(r - 1, p) && o.j in Origins(cols, p) by {
        if o in row {
          var c :| 0 <= c < |row| && row[c] == o;
          assert Origins(cols, p)[c] == o.j;
        }
        if o.i == Offset(r - 1, p) && o.j in Origins(cols, p) {
          var c :| 0 <= c < OriginCount(cols, p) && Origins(cols, p)[c] == o.j;
          assert row[c] == o;
        }
      }
      assert (exists k: nat :: k < r && o.i == Offset(k, p)) <==>
             (exists k: nat :: k < r - 1 && o.i == Offset(k, p)) || o.i == Offset(r - 1, p) by {
        if exists k: nat :: k < r && o.i == Offset(k, p) {
          var k: nat :| k < r && o.i == Offset(k, p);
          if k < r - 1 { } else { assert o.i == Offset(r - 1, p); }
        }
        if o.i == Offset(r - 1, p) {
          var k: nat := r - 1;
          assert k < r && o.i == Offset(k, p);
        }
      }
    }
  }

  /** A tile is a candidate exactly when both of its coordinates are origins
      of their dimension. */
  lemma CandidatesMembers(rows: int, cols: int, p: int, o: Origin)
    requires p > 0
    ensures o in Candidates(rows, cols, p) <==> o.i in Origins(rows, p) && o.j in Origins(cols, p)
  {
    var n := OriginCount(rows, p);
    assert Candidates(rows, cols, p) == CandidatesUpTo(n, cols, p);
    CandidatesUpToMembers(n, cols, p, o);
    if o.i in Origins(rows, p) {
      var k: nat :| k < n && Origins(rows, p)[k] == o.i;
      assert k < n && o.i == Offset(k, p);
      assert exists k: nat :: k < n && o.i == Offset(k, p);
    }
    if exists k: nat :: k < n && o.i == Offset(k, p) {
      var k: nat :| k < n && o.i == Offset(k, p);
      assert Origins(rows, p)[k] == o.i;
    }
  }

  /** Each candidate tile lies strictly inside the grid: it would still fit
      if moved one cell down or one cell right. */
  lemma CandidateInside(rows: int, cols: int, p: int, o: Origin)
    requires p > 0 && o in Candidates(rows, cols, p)
    ensures 0 <= o.i && o.i + p < rows && 0 <= o.j && o.j + p < cols
  {
    CandidatesMembers(rows, cols, p, o);
    OriginsExact(rows, p, o.i);
    OriginsExact(cols, p, o.j);
  }

  lemma {:induction false} CandidatesUpToCount(r: nat, cols: int, p: int)
    requires p > 0
    ensures |CandidatesUpTo(r, cols, p)| == r * OriginCount(cols, p)
  {
    if r > 0 {
      CandidatesUpToCount(r - 1, cols, p);
      assert r * OriginCount(cols, p) == (r - 1) * OriginCount(cols, p) + OriginCount(cols, p);
    }
  }

  /** There are (origins along rows) * (origins along columns) candidates. */
  lemma CandidatesCount(rows: int, cols: int, p: int)
    requires p > 0
    ensures |Candidates(rows, cols, p)| == OriginCount(rows, p) * OriginCount(cols, p)
  {
    CandidatesUpToCount(OriginCount(rows, p), cols, p);
  }

  lemma {:induction false} CandidatesUpToSorted(r: nat, cols: int, p: int)
    requires p > 0
    ensures StrictlyIncreasing(CandidatesUpTo(r, cols, p))
    ensures forall x :: 0 <= x < |CandidatesUpTo(r, cols, p)| ==> CandidatesUpTo(r, cols, p)[x].i < Offset(r, p)
  {
    if r > 0 {
      CandidatesUpToSorted(r - 1, cols, p);
      var a := CandidatesUpTo(r - 1, cols, p);
      var b := RowCandidates(Offset(r - 1, p), cols, p);
      forall x, y | 0 <= x < y < |b| ensures Before(b[x], b[y]) {
        OffsetStrict(x, y, p);
      }
      forall x, y | 0 <= x < y < |a + b| ensures Before((a + b)[x], (a + b)[y]) {
        if y < |a| {
          assert (a + b)[x] == a[x] && (a + b)[y] == a[y];
        } else if x < |a| {
          assert (a + b)[x] == a[x] && (a + b)[y] == b[y - |a|];
        } else {
          assert (a + b)[x] == b[x - |a|] && (a + b)[y] == b[y - |a|];
        }
      }
      forall x | 0 <= x < |a + b| ensures (a + b)[x].i < Offset(r, p) {
        if x < |a| { assert (a + b)[x] == a[x]; } else { assert (a + b)[x] == b[x - |a|]; }
      }
    }
  }

  /** The nested loops visit the candidates in strictly increasing
      lexicographic (row-major) order. */
  lemma CandidatesSorted(rows: int, cols: int, p: int)
    requires p > 0
    ensures StrictlyIncreasing(Candidates(rows, cols, p))
  {
    CandidatesUpToSorted(OriginCount(rows, p), cols, p);
  }

  /** The filter: a tile is kept unless its NaN fraction exceeds 0.3, i.e.
      unless 10 * (NaN cells) > 3 * p * p. */
  predicate Passes(t: Grid, p: int)
  {
    10 * MissingCount(Flatten(t)) <= 3 * p * p
  }

  /** For PATCH_SIZE = 128 the filter keeps a tile exactly when at most 4915
      of its 16384 cells are NaN; the float test `mean > 0.3` agrees, since
      `count / 16384` is exact in binary floating point. */
  lemma PassesAt128(t: Grid)
    ensures Passes(t, 128) <==> MissingCount(Flatten(t)) <= 4915
  {
  }

  /** A kept p x p tile holds at least one reading, so the mean of its
      readings is defined. */
  lemma PassedTileHasReading(t: Grid, p: nat)
    requires p > 0 && IsMatrix(t, p, p) && Passes(t, p)
    ensures ValidCount(Flatten(t)) > 0
  {
    FlattenLength(t, p, p);
    PositiveSquare(p);
  }

  /** A tile with no reading at all is always dropped. */
  lemma FilterRejectsMissingOnly(t: Grid, p: nat)
    requires p > 0 && IsMatrix(t, p, p) && !HasReading(Flatten(t))
    ensures !Passes(t, p)
  {
    FlattenLength(t, p, p);
    PositiveSquare(p);
    assert 3 * p * p == 3 * (p * p);
  }

  lemma PositiveSquare(p: int)
    requires p > 0
    ensures p * p > 0
  {
  }

  /** Every tile with an origin in `s` fits in `g`. */
  predicate AllFit(g: Grid, p: nat, s: seq<Origin>)
  {
    forall x :: 0 <= x < |s| ==> TileFits(g, s[x], p)
  }

  /** The kept origins of `s`, in order. */
  function KeepFilter(g: Grid, p: nat, s: seq<Origin>): seq<Origin>
    requires forall x :: 0 <= x < |s| ==> TileFits(g, s[x], p)
  {
    if s == [] then []
    else
      var o := s[|s| - 1];
      KeepFilter(g, p, s[..|s| - 1]) + (if Passes(Tile(g, o, p), p) then [o] else [])
  }

  /** Filtering one more candidate appends it exactly when it passes. */
  lemma KeepFilterSnoc(g: Grid, p: nat, s: seq<Origin>, o: Origin)
    requires forall x :: 0 <= x < |s| ==> TileFits(g, s[x], p)
    requires TileFits(g, o, p)
    ensures forall x :: 0 <= x < |s + [o]| ==> TileFits(g, (s + [o])[x], p)
    ensures KeepFilter(g, p, s + [o]) == KeepFilter(g, p, s) + (if Passes(Tile(g, o, p), p) then [o] else [])
  {
    assert (s + [o])[..|s|] == s;
  }

  /** Filtering a concatenation filters each part. */
  lemma {:induction false} KeepFilterAppend(g: Grid, p: nat, s: seq<Origin>, t: seq<Origin>)
    requires forall x :: 0 <= x < |s| ==> TileFits(g, s[x], p)
    requires forall x :: 0 <= x < |t| ==> TileFits(g, t[x], p)
    ensures forall x :: 0 <= x < |s + t| ==> TileFits(g, (s + t)[x], p)
    ensures KeepFilter(g, p, s + t) == KeepFilter(g, p, s) + KeepFilter(g, p, t)
  {
    assert forall x :: 0 <= x < |s + t| ==> (s + t)[x] == if x < |s| then s[x] else t[x - |s|];
    if t != [] {
      var init := t[..|t| - 1];
      var o := t[|t| - 1];
      KeepFilterAppend(g, p, s, init);
      assert (s + t)[..|s + t| - 1] == s + init;
      assert (s + t)[|s + t| - 1] == o;
      assert KeepFilter(g, p, s + t) == KeepFilter(g, p, s + init) + (if Passes(Tile(g, o, p), p) then [o] else []);
    } else {
      assert s + t == s;
    }
  }

  /** Every tile of the row of candidates at row origin i fits. */
  lemma RowFits(g: Grid, rows: nat, cols: nat, i: int, p: int)
    requires p > 0 && IsMatrix(g, rows, cols) && 0 <= i && i + p <= rows
    ensures forall x :: 0 <= x < |RowCandidates(i, cols, p)| ==> TileFits(g, RowCandidates(i, cols, p)[x], p)
  {
    var row := RowCandidates(i, cols, p);
    forall x | 0 <= x < |row| ensures TileFits(g, row[x], p) {
      OriginBound(x, cols, p);
      if x > 0 { OffsetStrict(0, x, p); }
      InsideFits(g, rows, cols, row[x], p);
    }
  }

  /** A p x p tile whose corner leaves p rows and p columns of a rows x cols
      grid fits. */
  lemma InsideFits(g: Grid, rows: nat, cols: nat, o: Origin, p: nat)
    requires IsMatrix(g, rows, cols)
    requires 0 <= o.i && o.i + p <= rows && 0 <= o.j && o.j + p <= cols
    ensures TileFits(g, o, p)
  {
  }

  /** The positions in `s` whose tiles pass the filter. */
  function PassingIndices(g: Grid, p: nat, s: seq<Origin>): set<int>
    requires AllFit(g, p, s)
  {
    set x | 0 <= x < |s| && Passes(Tile(g, s[x], p), p)
  }

  /** Whether each origin of `s` passes the filter, position by position. */
  function Verdicts(g: Grid, p: nat, s: seq<Origin>): (v: seq<bool>)
    requires AllFit(g, p, s)
    ensures |v| == |s|
  {
    seq(|s|, x requires 0 <= x < |s| => Passes(Tile(g, s[x], p), p))
  }

  /** The positions holding true. */
  function TrueIndices(v: seq<bool>): set<int>
  {
    set x | 0 <= x < |v| && v[x]
  }

  /** The number of trues, counted from the back. */
  function CountTrue(v: seq<bool>): nat
  {
    if v == [] then 0 else CountTrue(v[..|v| - 1]) + (if v[|v| - 1] then 1 else 0)
  }

  /** There are as many positions holding true as CountTrue counts. */
  lemma {:induction false} TrueIndicesCount(v: seq<bool>)
    ensures |TrueIndices(v)| == CountTrue(v)
  {
    if v != [] {
      var n := |v| - 1;
      TrueIndicesCount(v[..n]);
      var last: set<int> := if v[n] then {n} else {};
      assert TrueIndices(v) == TrueIndices(v[..n]) + last;
      assert TrueIndices(v[..n]) !! last;
    }
  }

  /** The filter keeps one origin per true verdict. */
  lemma {:induction false} KeepFilterCountTrue(g: Grid, p: nat, s: seq<Origin>)
    requires AllFit(g, p, s)
    ensures |KeepFilter(g, p, s)| == CountTrue(Verdicts(g, p, s))
  {
    if s != [] {
      var n := |s| - 1;
      KeepFilterCountTrue(g, p, s[..n]);
      assert Verdicts(g, p, s)[..n] == Verdicts(g, p, s[..n]);
    }
  }

  /** The filter keeps one origin per passing position. */
  lemma KeepFilterCount(g: Grid, p: nat, s: seq<Origin>)
    requires AllFit(g, p, s)
    ensures |KeepFilter(g, p, s)| == |PassingIndices(g, p, s)|
  {
    KeepFilterCountTrue(g, p, s);
    TrueIndicesCount(Verdicts(g, p, s));
    assert PassingIndices(g, p, s) == TrueIndices(Verdicts(g, p, s));
  }

  /** Every origin the filter keeps fits and passes. */
  lemma {:induction false} KeepFilterPasses(g: Grid, p: nat, s: seq<Origin>)
    requires forall x :: 0 <= x < |s| ==> TileFits(g, s[x], p)
    ensures forall x :: 0 <= x < |KeepFilter(g, p, s)| ==>
              TileFits(g, KeepFilter(g, p, s)[x], p) && Passes(Tile(g, KeepFilter(g, p, s)[x], p), p)
  {
    if s != [] {
      KeepFilterPasses(g, p, s[..|s| - 1]);
    }
  }

  /** When no candidate passes, nothing is kept. */
  lemma {:induction false} KeepFilterNone(g: Grid, p: nat, s: seq<Origin>)
    requires AllFit(g, p, s)
    requires forall x :: 0 <= x < |s| ==> !Passes(Tile(g, s[x], p), p)
    ensures KeepFilter(g, p, s) == []
  {
    if s != [] {
      KeepFilterNone(g, p, s[..|s| - 1]);
    }
  }

  lemma {:induction false} KeepFilterMembers(g: Grid, p: nat, s: seq<Origin>, o: Origin)
    requires forall x :: 0 <= x < |s| ==> TileFits(g, s[x], p)
    ensures o in KeepFilter(g, p, s) <==> o in s && Passes(Tile(g, o, p), p)
  {
    if s != [] {
      var init := s[..|s| - 1];
      KeepFilterMembers(g, p, init, o);
      assert s == init + [s[|s| - 1]];
    }
  }

  lemma {:induction false} KeepFilterShorter(g: Grid, p: nat, s: seq<Origin>)
    requires forall x :: 0 <= x < |s| ==> TileFits(g, s[x], p)
    ensures |KeepFilter(g, p, s)| <= |s|
  {
    if s != [] {
      KeepFilterShorter(g, p, s[..|s| - 1]);
    }
  }

  lemma {:induction false} KeepFilterSorted(g: Grid, p: nat, s: seq<Origin>)
    requires forall x :: 0 <= x < |s| ==> TileFits(g, s[x], p)
    requires StrictlyIncreasing(s)
    ensures StrictlyIncreasing(KeepFilter(g, p, s))
  {
    if s != [] {
      var init := s[..|s| - 1];
      var o := s[|s| - 1];
      KeepFilterSorted(g, p, init);
      var a := KeepFilter(g, p, init);
      var b: seq<Origin> := if Passes(Tile(g, o, p), p) then [o] else [];
      forall x | 0 <= x < |a| ensures Before(a[x], o) {
        KeepFilterMembers(g, p, init, a[x]);
        var y :| 0 <= y < |init| && init[y] == a[x];
        assert s[y] == a[x];
      }
      forall x, y | 0 <= x < y < |a + b| ensures Before((a + b)[x], (a + b)[y]) {
        if y < |a| {
          assert (a + b)[x] == a[x] && (a + b)[y] == a[y];
        } else {
          assert (a + b)[x] == a[x] && (a + b)[y] == o;
        }
      }
    }
  }

  /** Every candidate of a rows x cols grid fits inside it. */
  lemma CandidatesFit(g: Grid, rows: nat, cols: nat, p: int)
    requires p > 0 && IsMatrix(g, rows, cols)
    ensures forall x :: 0 <= x < |Candidates(rows, cols, p)| ==> TileFits(g, Candidates(rows, cols, p)[x], p)
  {
    var s := Candidates(rows, cols, p);
    forall x | 0 <= x < |s| ensures TileFits(g, s[x], p) {
      CandidateInside(rows, cols, p, s[x]);
    }
  }

  /** The origins of the tiles the extraction emits, in emission order. */
  function Kept(g: Grid, rows: nat, cols: nat, p: int): (k: seq<Origin>)
    requires p > 0 && IsMatrix(g, rows, cols)
    ensures forall x :: 0 <= x < |k| ==> TileFits(g, k[x], p) && Passes(Tile(g, k[x], p), p)
  {
    CandidatesFit(g, rows, cols, p);
    KeepFilterPasses(g, p, Candidates(rows, cols, p));
    KeepFilter(g, p, Candidates(rows, cols, p))
  }

  /** A tile is emitted exactly when it is a candidate and passes the
      filter; emitted tiles are in strictly increasing row-major order and
      there are never more of them than candidates. */
  lemma KeptCharacterized(g: Grid, rows: nat, cols: nat, p: int)
    requires p > 0 && IsMatrix(g, rows, cols)
    ensures forall o: Origin :: o.i in Origins(rows, p) && o.j in Origins(cols, p) ==> TileFits(g, o, p)
    ensures forall o :: o in Kept(g, rows, cols, p) <==>
              o.i in Origins(rows, p) && o.j in Origins(cols, p) && Passes(Tile(g, o, p), p)
    ensures StrictlyIncreasing(Kept(g, rows, cols, p))
    ensures |Kept(g, rows, cols, p)| <= OriginCount(rows, p) * OriginCount(cols, p)
    ensures AllFit(g, p, Candidates(rows, cols, p))
    ensures |Kept(g, rows, cols, p)| == |PassingIndices(g, p, Candidates(rows, cols, p))|
  {
    var s := Candidates(rows, cols, p);
    CandidatesFit(g, rows, cols, p);
    forall o: Origin | o.i in Origins(rows, p) && o.j in Origins(cols, p) ensures TileFits(g, o, p) {
      CandidatesMembers(rows, cols, p, o);
      CandidateInside(rows, cols, p, o);
    }
    forall o ensures o in Kept(g, rows, cols, p) <==>
              o.i in Origins(rows, p) && o.j in Origins(cols, p) && Passes(Tile(g, o, p), p)
    {
      KeepFilterMembers(g, p, s, o);
      CandidatesMembers(rows, cols, p, o);
    }
    CandidatesSorted(rows, cols, p);
    KeepFilterSorted(g, p, s);
    KeepFilterShorter(g, p, s);
    CandidatesCount(rows, cols, p);
    KeepFilterCount(g, p, s);
  }

  /** A 300 x 300 window has tile origins 0 and 128 along each side, hence
      four candidate tiles. */
  lemma ThreeHundredSquare()
    ensures Origins(300, 128) == [0, 128]
    ensures |Candidates(300, 300, 128)| == 4
  {
    assert OriginCount(300, 128) == 2 by {
      assert OriginCount(44, 128) == 0;
    }
    assert Offset(1, 128) == 128;
    CandidatesCount(300, 300, 128);
  }

  /** A side of 384 = 3 * 128 pixels holds three full tiles, yet only two
      are visited. */
  lemma ExactMultipleLosesLastTile()
    ensures Origins(384, 128) == [0, 128]
    ensures 256 !in Origins(384, 128)
  {
    assert OriginCount(384, 128) == 2 by {
      assert OriginCount(128, 128) == 0;
    }
    assert Offset(1, 128) == 128;
    LastFullTileSkipped(384, 128);
  }
}
