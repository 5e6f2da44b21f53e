/** The weaver's `patternToSize` helper: fit a boolean pattern to
    `weftSize` rows of `warpSize` columns. It first cuts the grid down, then
    grows it back by repeating it: columns are appended from the front of
    each row, rows from the top of the grid.

    The functions ending in `Loop` follow the source loop by loop and push
    by push; `Tiled` is the closed form they are proved to compute. */
module Resize {
  import opened Outcomes
  import opened Grids

  // ---------------------------------------------------------------------
  // Truncation
  // ---------------------------------------------------------------------

  /** `while (s.length > n) s.splice(s.length - 1, 1)`: the source cuts
      each row to `warpSize` entries and the grid to `weftSize` rows this
      way. */
  function TruncateLoop<T>(s: seq<T>, n: nat): (r: seq<T>)
    ensures |r| == Min(|s|, n)
    ensures r == s[..|r|]
    decreases |s|
  {
    if |s| > n then TruncateLoop(s[..|s| - 1], n) else s
  }

  /** The first stage: only when row 0 is wider than `warpSize` is every
      row cut down to `warpSize` columns. */
  function TruncateColumns(p: Grid, warp: nat): (q: Grid)
    requires |p| > 0
    ensures |q| == |p|
    ensures |p[0]| > warp ==> forall j | 0 <= j < |q| :: q[j] == p[j][..Min(|p[j]|, warp)]
    ensures |p[0]| <= warp ==> q == p
  {
    if |p[0]| > warp then seq(|p|, j requires 0 <= j < |p| => TruncateLoop(p[j], warp)) else p
  }

  // ---------------------------------------------------------------------
  // Padding, as the loops do it
  // ---------------------------------------------------------------------

  /** One pass of the inner `for`: a row long enough to have an entry at
      `idx` gets a copy of that entry pushed on its end. */
  function PadPass(p: Grid, idx: nat): (q: Grid)
    ensures |q| == |p|
    ensures forall j | 0 <= j < |p| :: q[j] == if idx < |p[j]| then p[j] + [p[j][idx]] else p[j]
  {
    seq(|p|, j requires 0 <= j < |p| => if idx < |p[j]| then p[j] + [p[j][idx]] else p[j])
  }

  /** The column-padding `while`, from cursor `idx` on. With row 0 empty and
      `warpSize` positive no pass ever lengthens row 0 and the cursor goes
      back to 0 each time, so the loop never ends. */
  function PadColumnsLoop(p: Grid, warp: nat, idx: nat): (r: Result<Grid>)
    requires |p| > 0
    requires |p[0]| > 0 ==> idx < |p[0]|
    ensures r.Fail? <==> |p[0]| == 0 && warp > 0
    ensures r.Fail? ==> r.fault == Diverges
    ensures r.Ok? ==> |r.value| == |p| && |r.value[0]| == if |p[0]| < warp then warp else |p[0]|
    decreases warp - |p[0]|
  {
    if |p[0]| >= warp then Ok(p)
    else if |p[0]| == 0 then Fail(Diverges)
    else
      var q := PadPass(p, idx);
      var next := if idx + 1 >= |q[0]| then 0 else idx + 1;
      PadColumnsLoop(q, warp, next)
  }

  /** The row-padding `while`, from cursor `idx` on: the row at the cursor
      is pushed again. */
  function PadRowsLoop(p: Grid, weft: nat, idx: nat): (q: Grid)
    requires idx < |p|
    ensures |q| == if |p| < weft then weft else |p|
    ensures q[..|p|] == p
    decreases weft - |p|
  {
    if |p| >= weft then p
    else
      var q := p + [p[idx]];
      var next := if idx + 1 >= |q| then 0 else idx + 1;
      PadRowsLoop(q, weft, next)
  }

  /** `patternToSize(pattern, warpSize, weftSize)`. Reading row 0 of an
      empty grid (an empty pattern, or one cut down to no rows) is a
      `TypeError`. */
  function PatternToSize(p: Grid, warp: nat, weft: nat): (r: Result<Grid>)
    ensures r.Fail? && r.fault == TypeError <==> |p| == 0 || weft == 0
    ensures r.Fail? && r.fault == Diverges <==> |p| > 0 && weft > 0 && |p[0]| == 0 && warp > 0
    ensures r.Ok? ==> |r.value| == weft
  {
    if |p| == 0 then Fail(TypeError)
    else
      var p1 := TruncateColumns(p, warp);
      var p2 := TruncateLoop(p1, weft);
      if |p2| == 0 then Fail(TypeError)
      else
        assert p2[0] == p1[0];
        match PadColumnsLoop(p2, warp, 0)
        case Fail(f) => Fail(f)
        case Ok(p3) => Ok(PadRowsLoop(p3, weft, 0))
  }

  // ---------------------------------------------------------------------
  // Closed forms
  // ---------------------------------------------------------------------

  /** `row` repeated end to end and cut at `n` entries. */
  function Cycle(row: Row, n: nat): (r: Row)
    requires |row| > 0
    ensures |r| == n
    ensures forall c | 0 <= c < n :: r[c] == row[c % |row|]
  {
    seq(n, c requires 0 <= c => row[c % |row|])
  }

  /** A row after `extra` column passes: an empty row stays empty, any
      other row grows by `extra` entries repeating it from the front. */
  function Padded(row: Row, extra: nat): (r: Row)
    ensures |row| == 0 ==> r == row
    ensures |row| > 0 ==> |r| == |row| + extra
  {
    if |row| == 0 then row else Cycle(row, |row| + extra)
  }

  /** Every row of `p` after `extra` column passes. */
  function PaddedRows(p: Grid, extra: nat): (q: Grid)
    ensures |q| == |p|
    ensures forall j | 0 <= j < |p| :: q[j] == Padded(p[j], extra)
  {
    seq(|p|, j requires 0 <= j < |p| => Padded(p[j], extra))
  }

  /** The rows of `p` repeated from the top and cut at `n` rows. */
  function Repeated(p: Grid, n: nat): (q: Grid)
    requires |p| > 0
    ensures |q| == n
    ensures forall i | 0 <= i < n :: q[i] == p[i % |p|]
  {
    seq(n, i requires 0 <= i => p[i % |p|])
  }

  /** The pattern repeated in both directions and cut at `weft` rows of
      `warp` columns: the size the weaver asks for. */
  function Tiled(p: Grid, width: nat, warp: nat, weft: nat): (t: Grid)
    requires |p| > 0 && width > 0 && Rectangular(p, width)
    ensures |t| == weft && Rectangular(t, warp)
    ensures forall i, c | 0 <= i < weft && 0 <= c < warp :: t[i][c] == p[i % |p|][c % width]
  {
    seq(weft, i requires 0 <= i => Cycle(p[i % |p|], warp))
  }

  lemma ModShift(l: nat, k: nat)
    requires l > 0
    ensures (l + k) % l == k % l
  {
    var q := k / l;
    var r := k % l;
    assert l + k == l * (q + 1) + r;
    ModUnique(l + k, l, q + 1, r);
  }

  /** The remainder is the one `r` in `[0, l)` with `n == l * q + r`. */
  lemma ModUnique(n: int, l: int, q: int, r: int)
    requires l > 0 && 0 <= r < l && n == l * q + r
    ensures n % l == r
  {
    var q1 := n / l;
    var r1 := n % l;
    assert l * q1 + r1 == l * q + r;
    if q1 > q {
      assert l * q1 >= l * (q + 1) by { MulMono(l, q + 1, q1); }
      assert false;
    } else if q1 < q {
      assert l * q >= l * (q1 + 1) by { MulMono(l, q1 + 1, q); }
      assert false;
    }
  }

  lemma ModSmall(c: int, l: int)
    requires 0 <= c < l
    ensures c % l == c
  {
    ModUnique(c, l, 0, c);
  }

  lemma MulMono(l: int, a: int, b: int)
    requires l > 0 && a <= b
    ensures l * a <= l * b
  {
    assert l * b - l * a == l * (b - a);
  }

  /** Pushing the entry `|row|` places back extends the cycle by one. */
  lemma CycleGrows(row: Row, n: nat)
    requires 0 < |row| <= n
    ensures Cycle(row, n) + [Cycle(row, n)[n - |row|]] == Cycle(row, n + 1)
  {
    var l := |row|;
    var r := Cycle(row, n);
    var r1 := Cycle(row, n + 1);
    var e := r + [r[n - l]];
    ModShift(l, n - l);
    assert e[n] == r1[n];
    forall c | 0 <= c < n ensures e[c] == r1[c] {
    }
  }

  /** One pass appends to a padded row exactly the entry `Padded` predicts. */
  lemma PadOneRow(row: Row, k: nat)
    ensures var r := Padded(row, k);
            (if k < |r| then r + [r[k]] else r) == Padded(row, k + 1)
  {
    if |row| > 0 {
      CycleGrows(row, |row| + k);
    }
  }

  /** One pass of the column loop at cursor `k` takes every row from `k`
      passes to `k + 1`. */
  lemma PadPassStep(p0: Grid, k: nat)
    ensures PadPass(PaddedRows(p0, k), k) == PaddedRows(p0, k + 1)
  {
    var p := PaddedRows(p0, k);
    var q := PadPass(p, k);
    var p1 := PaddedRows(p0, k + 1);
    forall j | 0 <= j < |p0| ensures q[j] == p1[j] {
      PadOneRow(p0[j], k);
    }
  }

  /** After `k` passes from cursor 0 the cursor is `k` and every row is
      `Padded` by `k`: the source never resets the cursor, because row 0
      outgrows it on every pass. */
  lemma {:induction false} PadColumnsFromPasses(p0: Grid, p: Grid, warp: nat, k: nat)
    requires |p0| > 0 && |p0[0]| > 0 && p == PaddedRows(p0, k)
    ensures PadColumnsLoop(p, warp, k)
              == Ok(PaddedRows(p0, if |p0[0]| + k < warp then warp - |p0[0]| else k))
    decreases warp - |p0[0]| - k
  {
    var l0 := |p0[0]|;
    assert |p[0]| == l0 + k;
    if l0 + k < warp {
      var p1 := PaddedRows(p0, k + 1);
      PadPassStep(p0, k);
      assert |p1[0]| == l0 + k + 1;
      assert PadColumnsLoop(p, warp, k) == PadColumnsLoop(p1, warp, k + 1);
      PadColumnsFromPasses(p0, p1, warp, k + 1);
    }
  }

  /** After `k` pushes from cursor 0 the grid is the first `|p0| + k` rows of
      `p0` repeated; the cursor is `k` and is never reset. */
  lemma {:induction false} PadRowsFromPushes(p0: Grid, p: Grid, weft: nat, k: nat)
    requires |p0| > 0 && p == Repeated(p0, |p0| + k)
    ensures PadRowsLoop(p, weft, k) == Repeated(p0, if |p0| + k < weft then weft else |p0| + k)
    decreases weft - |p0| - k
  {
    var h := |p0|;
    if h + k < weft {
      var p1 := Repeated(p0, h + k + 1);
      ModShift(h, k);
      assert p + [p[k]] == p1;
      assert PadRowsLoop(p, weft, k) == PadRowsLoop(p1, weft, k + 1);
      PadRowsFromPushes(p0, p1, weft, k + 1);
    }
  }

  /** Zero passes leave a row as it is. */
  lemma PaddedByNothing(row: Row)
    ensures Padded(row, 0) == row
  {
    if |row| > 0 {
      var r := Padded(row, 0);
      forall c | 0 <= c < |row| ensures r[c] == row[c] {
        ModSmall(c, |row|);
      }
    }
  }

  /** The first `|p|` rows of `p` repeated are `p` itself. */
  lemma RepeatedWhole(p: Grid)
    requires |p| > 0
    ensures Repeated(p, |p|) == p
  {
    var r := Repeated(p, |p|);
    forall i | 0 <= i < |p| ensures r[i] == p[i] {
      ModSmall(i, |p|);
    }
  }

  /** Starting from cursor 0 the column loop pads every non-empty row by the
      number of columns row 0 lacks. */
  lemma PadColumnsCloses(p0: Grid, warp: nat)
    requires |p0| > 0 && |p0[0]| > 0
    ensures PadColumnsLoop(p0, warp, 0)
              == Ok(PaddedRows(p0, if |p0[0]| < warp then warp - |p0[0]| else 0))
  {
    var p := PaddedRows(p0, 0);
    forall j | 0 <= j < |p0| ensures p[j] == p0[j] {
      PaddedByNothing(p0[j]);
    }
    assert p == p0;
    PadColumnsFromPasses(p0, p0, warp, 0);
  }

  /** Starting from cursor 0 the row loop repeats the rows from the top. */
  lemma PadRowsCloses(p0: Grid, weft: nat)
    requires |p0| > 0
    ensures PadRowsLoop(p0, weft, 0) == Repeated(p0, if |p0| < weft then weft else |p0|)
  {
    RepeatedWhole(p0);
    PadRowsFromPushes(p0, p0, weft, 0);
  }

  // ---------------------------------------------------------------------
  // What the helper computes
  // ---------------------------------------------------------------------

  /** After both cuts a rectangular pattern keeps its first rows, each cut
      to its first `warp` columns. */
  lemma CutsArePrefixes(p: Grid, width: nat, warp: nat, weft: nat)
    requires |p| > 0 && Rectangular(p, width)
    ensures var p2 := TruncateLoop(TruncateColumns(p, warp), weft);
            |p2| == Min(|p|, weft)
              && forall j | 0 <= j < |p2| :: p2[j] == p[j][..Min(width, warp)]
  {
    var p1 := TruncateColumns(p, warp);
    var p2 := TruncateLoop(p1, weft);
    forall j | 0 <= j < |p2| ensures p2[j] == p[j][..Min(width, warp)] {
      assert p2[j] == p1[j];
      if width <= warp {
        assert p[j][..width] == p[j];
      }
    }
  }

  /** For a rectangular pattern with at least one column the helper tiles
      it: cell (i, c) of the result is cell (i mod height, c mod width) of
      the pattern, at exactly `weftSize` by `warpSize`. */
  lemma PatternToSizeTiles(p: Grid, width: nat, warp: nat, weft: nat)
    requires |p| > 0 && width > 0 && Rectangular(p, width) && weft > 0
    ensures PatternToSize(p, warp, weft) == Ok(Tiled(p, width, warp, weft))
  {
    var p2 := TruncateLoop(TruncateColumns(p, warp), weft);
    CutsArePrefixes(p, width, warp, weft);
    if warp == 0 {
      assert PadColumnsLoop(p2, warp, 0) == Ok(p2);
      PadRowsCloses(p2, weft);
      ZeroWarpTiles(p, width, p2, weft);
    } else {
      var w1 := Min(width, warp);
      var extra := if w1 < warp then warp - w1 else 0;
      PadColumnsCloses(p2, warp);
      PadRowsCloses(PaddedRows(p2, extra), weft);
      PositiveWarpTiles(p, width, warp, p2, weft);
    }
  }

  lemma ZeroWarpTiles(p: Grid, width: nat, p2: Grid, weft: nat)
    requires |p| > 0 && width > 0 && Rectangular(p, width) && weft > 0
    requires |p2| == Min(|p|, weft) && forall j | 0 <= j < |p2| :: p2[j] == p[j][..0]
    ensures Repeated(p2, weft) == Tiled(p, width, 0, weft)
  {
    var r := Repeated(p2, weft);
    var t := Tiled(p, width, 0, weft);
    forall i | 0 <= i < weft ensures r[i] == t[i] {
      assert |r[i]| == 0;
    }
  }

  lemma PositiveWarpTiles(p: Grid, width: nat, warp: nat, p2: Grid, weft: nat)
    requires |p| > 0 && width > 0 && Rectangular(p, width) && weft > 0 && warp > 0
    requires |p2| == Min(|p|, weft) && forall j | 0 <= j < |p2| :: p2[j] == p[j][..Min(width, warp)]
    ensures var w1 := Min(width, warp);
            var extra := if w1 < warp then warp - w1 else 0;
            Repeated(PaddedRows(p2, extra), weft) == Tiled(p, width, warp, weft)
  {
    var h := |p|;
    var h2 := |p2|;
    var w1 := Min(width, warp);
    var extra := if w1 < warp then warp - w1 else 0;
    var p3 := PaddedRows(p2, extra);
    var r := Repeated(p3, weft);
    var t := Tiled(p, width, warp, weft);
    forall i | 0 <= i < weft ensures r[i] == t[i] {
      var j := i % h;
      if weft < h {
        ModSmall(i, h2);
        ModSmall(i, h);
      }
      assert i % h2 == j;
      RowPadsToCycle(p[j], warp);
      assert r[i] == p3[j] == Cycle(p[j], warp);
    }
  }

  /** A row of the pattern, cut to `warp` and then padded back up to `warp`,
      is the row repeated and cut at `warp`. */
  lemma RowPadsToCycle(row: Row, warp: nat)
    requires |row| > 0 && warp > 0
    ensures var w1 := Min(|row|, warp);
            Padded(row[..w1], if w1 < warp then warp - w1 else 0) == Cycle(row, warp)
  {
    var w1 := Min(|row|, warp);
    var r := Padded(row[..w1], if w1 < warp then warp - w1 else 0);
    var cy := Cycle(row, warp);
    forall c | 0 <= c < warp ensures r[c] == cy[c] {
      if w1 < |row| {
        ModSmall(c, w1);
        ModSmall(c, |row|);
      }
    }
  }

  /** A pattern already `weftSize` rows of `warpSize` (positive) columns
      comes back unchanged. */
  lemma PatternToSizeKeepsFitting(p: Grid, warp: nat, weft: nat)
    requires |p| == weft > 0 && warp > 0 && Rectangular(p, warp)
    ensures PatternToSize(p, warp, weft) == Ok(p)
  {
    PatternToSizeTiles(p, warp, warp, weft);
    var t := Tiled(p, warp, warp, weft);
    forall i, c | 0 <= i < weft && 0 <= c < warp ensures t[i][c] == p[i][c] {
      ModSmall(i, weft);
      ModSmall(c, warp);
    }
    GridsEqual(t, p);
  }

  /** The cut depends on row 0 alone: a second row wider than `warpSize`
      survives uncut when row 0 is not wider. */
  lemma RaggedRowsKeepTheirWidth(a: bool, b: bool, c: bool)
    ensures PatternToSize([[a], [a, b, c]], 2, 2) == Ok([[a, a], [a, b, c, a]])
  {
    var p := [[a], [a, b, c]];
    assert TruncateColumns(p, 2) == p;
    assert TruncateLoop(p, 2) == p;
    var q := PadPass(p, 0);
    assert q[0] == [a, a] && q[1] == [a, b, c, a];
    assert q == [[a, a], [a, b, c, a]];
    assert PadColumnsLoop(p, 2, 0) == PadColumnsLoop(q, 2, 1);
    assert PadColumnsLoop(q, 2, 1) == Ok(q);
    assert PadRowsLoop(q, 2, 0) == q;
  }
}
