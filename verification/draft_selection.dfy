/** `updateSelection`: a stamp grid applied, tiled, over a rectangle of
    visible rows, copied, inverted, masked with what is there, or mirrored
    along either axis. */
module DraftSelection {
  import opened Outcomes
  import opened Grids
  import opened Drafts

  datatype Point = Point(i: int, j: int)

  /** Two corner cells and the size of the rectangle in pixels. */
  datatype Selection = Selection(start: Point, end: Point, width: nat, height: nat)

  /** `"original"` stands for every value that is not one of the other four. */
  datatype Transform = Original | Invert | Mask | MirrorX | MirrorY

  /** Pixels per cell in a selection's width and height. */
  const CellSize: nat := 20

  /** Everything the loops read besides the drawdown: the visible rows, the
      top-left cell (`si`, `sj`), the number of rows the outer loop runs
      (`h`) and of columns the inner one runs (`w`), the selection's height
      in cells that `mirrorX` reflects across, the stamp and the transform.
      A whole selection runs `h == height` rows. */
  datatype Job = Job(visibleRows: seq<int>, top: int, left: int, h: nat, w: nat,
                     height: nat, stamp: Grid, kind: Transform)

  function JobOf(d: Draft, sel: Selection, stamp: Grid, kind: Transform): Job
  {
    Job(d.visibleRows, Min(sel.start.i, sel.end.i), Min(sel.start.j, sel.end.j),
        sel.height / CellSize, sel.width / CellSize, sel.height / CellSize, stamp, kind)
  }

  /** Every row of a non-empty `g` is at least as wide as row 0: the
      columns `j % |g[0]|` the loops read exist in every row. */
  predicate CoversFirstRow(g: Grid)
    requires |g| > 0
  {
    forall r | 0 <= r < |g| :: |g[r]| >= |g[0]|
  }

  /** The stamp has rows, all at least as wide as row 0, and columns whenever a
      column is visited; the rows run lie inside the selection. */
  predicate StampReady(job: Job)
  {
    |job.stamp| > 0 && CoversFirstRow(job.stamp)
    && (job.w > 0 ==> |job.stamp[0]| > 0) && job.h <= job.height
  }

  /** The physical row visited by iteration `i`, or -1 when `si + i` is past
      the visible rows (the source then reads `undefined`). */
  function Target(job: Job, i: int): int
  {
    if 0 <= job.top + i < |job.visibleRows| then job.visibleRows[job.top + i] else -1
  }

  /** Every row the loop visits names an existing physical row. */
  predicate TargetsExist(job: Job, g: Grid)
  {
    forall i | 0 <= i < job.h :: 0 <= Target(job, i) < |g|
  }

  /** Every visited row is wide enough for the visited columns. */
  predicate ColumnsFit(job: Job, g: Grid)
  {
    forall i | 0 <= i < job.h && 0 <= Target(job, i) < |g| && job.w > 0 ::
      0 <= job.left && job.left + job.w <= |g[Target(job, i)]|
  }

  predicate Paintable(job: Job, g: Grid)
  {
    StampReady(job) && (job.w > 0 ==> TargetsExist(job, g) && ColumnsFit(job, g))
  }

  lemma PaintableKept(job: Job, g: Grid, g': Grid)
    requires Paintable(job, g) && SameShape(g, g')
    ensures Paintable(job, g')
  {
    if job.w > 0 {
      forall i | 0 <= i < job.h ensures 0 <= Target(job, i) < |g'| {
        assert 0 <= Target(job, i) < |g|;
      }
    }
  }

  /** `temp` as written at offset (i, j): the stamp tiled by `%`, read at the
      mirrored row under `mirrorX` and the mirrored column under `mirrorY`. */
  function Sample(job: Job, i: int, j: int): bool
    requires StampReady(job) && 0 <= i < job.h && 0 <= j < job.w
  {
    var (rows, cols) := (|job.stamp|, |job.stamp[0]|);
    match job.kind
    case MirrorX => job.stamp[(job.height - i - 1) % rows][j % cols]
    case MirrorY => job.stamp[i % rows][(job.w - j - 1) % cols]
    case _ => job.stamp[i % rows][j % cols]
  }

  /** The value stored from `temp` and the cell's previous value. */
  function Written(kind: Transform, temp: bool, prev: bool): bool
  {
    match kind
    case Invert => !temp
    case Mask => temp && prev
    case _ => temp
  }

  /** The inner loop: offsets (i, j), (i, j + 1), ... of row `i`. */
  function PaintCells(job: Job, g: Grid, i: int, j: int): (r: Grid)
    requires Paintable(job, g) && 0 <= i < job.h && 0 <= j <= job.w
    ensures SameShape(g, r)
    decreases job.w - j
  {
    if j == job.w then g
    else
      var row := Target(job, i);
      var c := job.left + j;
      var g' := g[row := g[row][c := Written(job.kind, Sample(job, i, j), g[row][c])]];
      PaintableKept(job, g, g');
      PaintCells(job, g', i, j + 1)
  }

  /** The outer loop: rows i, i + 1, ... of the rectangle. */
  function PaintRows(job: Job, g: Grid, i: int): (r: Grid)
    requires Paintable(job, g) && 0 <= i <= job.h
    ensures SameShape(g, r)
    decreases job.h - i
  {
    if i == job.h then g
    else
      var g' := PaintCells(job, g, i, 0);
      PaintableKept(job, g, g');
      PaintRows(job, g', i + 1)
  }

  /** No iteration from `i0` on writes physical row `row`. */
  predicate Untouched(job: Job, row: int, i0: int)
  {
    forall i | i0 <= i < job.h && 0 <= i :: Target(job, i) != row
  }

  /** One row of the rectangle changes nothing outside that row's visited
      columns. */
  lemma {:induction false} PaintCellsFrame(job: Job, g: Grid, i: int, j0: int, row: int, c: int)
    requires Paintable(job, g) && 0 <= i < job.h && 0 <= j0 <= job.w
    requires 0 <= row < |g| && 0 <= c < |g[row]|
    requires row != Target(job, i) || !(job.left + j0 <= c < job.left + job.w)
    ensures PaintCells(job, g, i, j0)[row][c] == g[row][c]
    decreases job.w - j0
  {
    if j0 < job.w {
      var t := Target(job, i);
      var c0 := job.left + j0;
      var g' := g[t := g[t][c0 := Written(job.kind, Sample(job, i, j0), g[t][c0])]];
      PaintableKept(job, g, g');
      PaintCellsFrame(job, g', i, j0 + 1, row, c);
    }
  }

  /** One row of the rectangle: a visited column gets the transform of its
      sample and its own previous value. */
  lemma {:induction false} PaintCellsWrites(job: Job, g: Grid, i: int, j0: int, c: int)
    requires Paintable(job, g) && 0 <= i < job.h && 0 <= j0 <= job.w
    requires job.left + j0 <= c < job.left + job.w
    ensures && 0 <= Target(job, i) < |g| && 0 <= c < |g[Target(job, i)]|
            && PaintCells(job, g, i, j0)[Target(job, i)][c]
               == Written(job.kind, Sample(job, i, c - job.left), g[Target(job, i)][c])
    decreases job.w - j0
  {
    var t := Target(job, i);
    assert 0 <= t < |g| && 0 <= job.left && job.left + job.w <= |g[t]|;
    var c0 := job.left + j0;
    var g' := g[t := g[t][c0 := Written(job.kind, Sample(job, i, j0), g[t][c0])]];
    PaintableKept(job, g, g');
    assert PaintCells(job, g, i, j0) == PaintCells(job, g', i, j0 + 1);
    if c == c0 {
      PaintCellsFrame(job, g', i, j0 + 1, t, c);
      assert c - job.left == j0;
      assert PaintCells(job, g', i, j0 + 1)[t][c] == g'[t][c];
    } else {
      PaintCellsWrites(job, g', i, j0 + 1, c);
    }
  }

  /** Rows from `i0` on change nothing outside the visited columns of the
      visited rows. */
  lemma {:induction false} PaintRowsFrame(job: Job, g: Grid, i0: int, row: int, c: int)
    requires Paintable(job, g) && 0 <= i0 <= job.h
    requires 0 <= row < |g| && 0 <= c < |g[row]|
    requires Untouched(job, row, i0) || !(job.left <= c < job.left + job.w)
    ensures PaintRows(job, g, i0)[row][c] == g[row][c]
    decreases job.h - i0
  {
    if i0 < job.h {
      var g1 := PaintCells(job, g, i0, 0);
      PaintableKept(job, g, g1);
      PaintCellsFrame(job, g, i0, 0, row, c);
      PaintRowsFrame(job, g1, i0 + 1, row, c);
    }
  }

  /** The first row painted from `i0` on keeps what its own pass wrote,
      when the visited rows are distinct. */
  lemma PaintRowsWritesFirst(job: Job, g: Grid, i0: int, c: int)
    requires Paintable(job, g) && 0 <= i0 < job.h
    requires forall a, b | 0 <= a < b < job.h :: Target(job, a) != Target(job, b)
    requires job.left <= c < job.left + job.w
    ensures && 0 <= Target(job, i0) < |g| && 0 <= c < |g[Target(job, i0)]|
            && PaintRows(job, g, i0)[Target(job, i0)][c]
               == Written(job.kind, Sample(job, i0, c - job.left), g[Target(job, i0)][c])
  {
    var t := Target(job, i0);
    assert 0 <= t < |g| && 0 <= job.left && job.left + job.w <= |g[t]|;
    var g1 := PaintCells(job, g, i0, 0);
    PaintableKept(job, g, g1);
    assert PaintRows(job, g, i0) == PaintRows(job, g1, i0 + 1);
    PaintCellsWrites(job, g, i0, 0, c);
    assert Untouched(job, t, i0 + 1) by {
      forall i | i0 + 1 <= i < job.h ensures Target(job, i) != t {
      }
    }
    PaintRowsFrame(job, g1, i0 + 1, t, c);
  }

  /** Rows from `i0` on, when the visited rows are distinct: a visited cell
      gets the transform of its sample and its own previous value. */
  lemma {:induction false} PaintRowsWrites(job: Job, g: Grid, i0: int, i: int, c: int)
    requires Paintable(job, g) && 0 <= i0 <= i < job.h
    requires forall a, b | 0 <= a < b < job.h :: Target(job, a) != Target(job, b)
    requires job.left <= c < job.left + job.w
    ensures && 0 <= Target(job, i) < |g| && 0 <= c < |g[Target(job, i)]|
            && PaintRows(job, g, i0)[Target(job, i)][c]
               == Written(job.kind, Sample(job, i, c - job.left), g[Target(job, i)][c])
    decreases job.h - i0
  {
    if i == i0 {
      PaintRowsWritesFirst(job, g, i0, c);
    } else {
      var t := Target(job, i);
      assert 0 <= t < |g| && 0 <= job.left && job.left + job.w <= |g[t]|;
      var g1 := PaintCells(job, g, i0, 0);
      PaintableKept(job, g, g1);
      assert PaintRows(job, g, i0) == PaintRows(job, g1, i0 + 1);
      PaintRowsWrites(job, g1, i0 + 1, i, c);
      assert t != Target(job, i0);
      PaintCellsFrame(job, g, i0, 0, t, c);
      assert g1[t][c] == g[t][c];
    }
  }

  /** With no visited column nothing is written. */
  lemma {:induction false} PaintRowsNarrow(job: Job, g: Grid, i0: int)
    requires Paintable(job, g) && 0 <= i0 <= job.h && job.w == 0
    ensures PaintRows(job, g, i0) == g
    decreases job.h - i0
  {
    if i0 < job.h {
      PaintRowsNarrow(job, g, i0 + 1);
    }
  }

  /** Every visited cell of `r` holds the transform of the stamp over `g`. */
  predicate Stamped(job: Job, g: Grid, r: Grid)
  {
    forall i, c | 0 <= i < job.h && job.left <= c < job.left + job.w ::
      && StampReady(job) && |r| == |g| && 0 <= Target(job, i) < |g|
      && 0 <= c < |g[Target(job, i)]| == |r[Target(job, i)]|
      && r[Target(job, i)][c] == Written(job.kind, Sample(job, i, c - job.left), g[Target(job, i)][c])
  }

  /** `r` has the shape of `g`, every row no iteration visits is as in `g`,
      and so is every cell outside the visited columns. */
  predicate Kept(job: Job, g: Grid, r: Grid)
  {
    && SameShape(g, r)
    && (forall row | 0 <= row < |g| && Untouched(job, row, 0) :: r[row] == g[row])
    && (forall row, c | 0 <= row < |g| && 0 <= c < |g[row]| && !(job.left <= c < job.left + job.w) ::
          r[row][c] == g[row][c])
  }

  /** `updateSelection(selection, pattern, type)`. An empty stamp raises on
      reading its row 0, and so does a visited visible row that names no
      row of the drawdown. Otherwise only the drawdown changes, and only in
      the visited cells; with distinct visible rows each visited cell holds
      the transform of the tiled stamp. */
  function UpdateSelection(d: Draft, sel: Selection, stamp: Grid, kind: Transform): (r: Result<Draft>)
    requires sel.width % CellSize == 0 && sel.height % CellSize == 0
    requires |stamp| > 0 ==> CoversFirstRow(stamp) && (sel.width > 0 ==> |stamp[0]| > 0)
    requires ColumnsFit(JobOf(d, sel, stamp, kind), d.pattern)
    ensures var job := JobOf(d, sel, stamp, kind);
            r.Fail? <==> |stamp| == 0 || (job.w > 0 && !TargetsExist(job, d.pattern))
    ensures r.Ok? ==> && r.value.(pattern := d.pattern) == d
                      && Kept(JobOf(d, sel, stamp, kind), d.pattern, r.value.pattern)
    ensures r.Ok? && Distinct(d.visibleRows) ==>
              Stamped(JobOf(d, sel, stamp, kind), d.pattern, r.value.pattern)
  {
    var job := JobOf(d, sel, stamp, kind);
    if |stamp| == 0 then Fail(TypeError)
    else if job.w > 0 && !TargetsExist(job, d.pattern) then Fail(TypeError)
    else
      PaintKept(job, d.pattern);
      if Distinct(d.visibleRows) then
        PaintStamped(job, d.pattern);
        Ok(d.(pattern := PaintRows(job, d.pattern, 0)))
      else
        Ok(d.(pattern := PaintRows(job, d.pattern, 0)))
  }

  /** The first iteration from `i` on whose visible row names no row of
      `g`, or `job.h` when there is none. */
  function FirstMissing(job: Job, g: Grid, i: nat): (k: nat)
    requires i <= job.h
    ensures i <= k <= job.h
    ensures forall t | i <= t < k :: 0 <= Target(job, t) < |g|
    ensures k < job.h ==> !(0 <= Target(job, k) < |g|)
    decreases job.h - i
  {
    if i == job.h || !(0 <= Target(job, i) < |g|) then i else FirstMissing(job, g, i + 1)
  }

  /** The rows the loops finish before any fault: all of them, unless a
      column is visited and some visited row is missing, in which case the
      rows before the first missing one. */
  function Finished(job: Job, g: Grid): (done: Job)
    ensures done == job.(h := done.h) && done.h <= job.h
    ensures job.w > 0 ==> forall t | 0 <= t < done.h :: 0 <= Target(job, t) < |g|
    ensures job.w > 0 && !TargetsExist(job, g) ==> done.h < job.h && !(0 <= Target(job, done.h) < |g|)
    ensures job.w == 0 || TargetsExist(job, g) ==> done == job
  {
    if job.w > 0 then job.(h := FirstMissing(job, g, 0)) else job
  }

  /** The finished rows are visited exactly as in the whole rectangle, and
      they can all be painted. */
  lemma FinishedPaintable(job: Job, g: Grid)
    requires StampReady(job) && ColumnsFit(job, g)
    ensures Paintable(Finished(job, g), g)
    ensures forall i :: Target(Finished(job, g), i) == Target(job, i)
    ensures forall i, j | 0 <= i < Finished(job, g).h && 0 <= j < job.w ::
              Sample(Finished(job, g), i, j) == Sample(job, i, j)
  {
    var done := Finished(job, g);
    forall i ensures Target(done, i) == Target(job, i) {
    }
  }

  /** The draft as `updateSelection` leaves it, whether or not it raises.
      The cells are written in place, row after row, so a missing visited
      row raises only after every row visited before it has been painted;
      an empty stamp raises before anything is written. */
  function SelectionLeaves(d: Draft, sel: Selection, stamp: Grid, kind: Transform): (r: Draft)
    requires sel.width % CellSize == 0 && sel.height % CellSize == 0
    requires |stamp| > 0 ==> CoversFirstRow(stamp) && (sel.width > 0 ==> |stamp[0]| > 0)
    requires ColumnsFit(JobOf(d, sel, stamp, kind), d.pattern)
    ensures r.(pattern := d.pattern) == d
    ensures |stamp| == 0 ==> r == d
    ensures UpdateSelection(d, sel, stamp, kind).Ok? ==> UpdateSelection(d, sel, stamp, kind) == Ok(r)
    ensures |stamp| > 0 ==>
              var done := Finished(JobOf(d, sel, stamp, kind), d.pattern);
              && Kept(done, d.pattern, r.pattern)
              && (Distinct(d.visibleRows) ==> Stamped(done, d.pattern, r.pattern))
  {
    if |stamp| == 0 then d
    else
      var done := Finished(JobOf(d, sel, stamp, kind), d.pattern);
      FinishedPaintable(JobOf(d, sel, stamp, kind), d.pattern);
      PaintKept(done, d.pattern);
      if Distinct(d.visibleRows) then
        PaintStamped(done, d.pattern);
        d.(pattern := PaintRows(done, d.pattern, 0))
      else
        d.(pattern := PaintRows(done, d.pattern, 0))
  }

  /** `r` is `g` after the rows before iteration `k` have been painted and
      the loops stopped at `k` on a missing row: every visited cell of an
      earlier row holds the transform of the stamp, and any row no earlier
      iteration visits, the missing one included, is as in `g`. */
  predicate StoppedAt(job: Job, g: Grid, r: Grid, k: int)
  {
    && 0 <= k < job.h && !(0 <= Target(job, k) < |g|) && StampReady(job) && |r| == |g|
    && (forall i, c | 0 <= i < k && job.left <= c < job.left + job.w ::
          && 0 <= Target(job, i) < |g| && 0 <= c < |g[Target(job, i)]| == |r[Target(job, i)]|
          && r[Target(job, i)][c] == Written(job.kind, Sample(job, i, c - job.left), g[Target(job, i)][c]))
    && (forall row | 0 <= row < |g| && (forall i | 0 <= i < k :: Target(job, i) != row) :: r[row] == g[row])
  }

  /** The rows finished before a fault hold the stamp. */
  lemma FinishedWrites(job: Job, g: Grid, r: Grid)
    requires StampReady(job) && ColumnsFit(job, g) && Distinct(job.visibleRows)
    requires Paintable(Finished(job, g), g) && r == PaintRows(Finished(job, g), g, 0)
    ensures forall i, c | 0 <= i < Finished(job, g).h && job.left <= c < job.left + job.w ::
              && 0 <= Target(job, i) < |g| && 0 <= c < |g[Target(job, i)]| == |r[Target(job, i)]|
              && r[Target(job, i)][c] == Written(job.kind, Sample(job, i, c - job.left), g[Target(job, i)][c])
  {
    var done := Finished(job, g);
    FinishedPaintable(job, g);
    PaintStamped(done, g);
    forall i, c | 0 <= i < done.h && job.left <= c < job.left + job.w
      ensures && 0 <= Target(job, i) < |g| && 0 <= c < |g[Target(job, i)]| == |r[Target(job, i)]|
              && r[Target(job, i)][c] == Written(job.kind, Sample(job, i, c - job.left), g[Target(job, i)][c])
    {
      assert Target(done, i) == Target(job, i);
    }
  }

  /** Rows no finished iteration visits are left alone. */
  lemma FinishedKeeps(job: Job, g: Grid, r: Grid)
    requires Paintable(Finished(job, g), g) && r == PaintRows(Finished(job, g), g, 0)
    ensures |r| == |g|
    ensures forall row | 0 <= row < |g| && (forall i | 0 <= i < Finished(job, g).h :: Target(job, i) != row) ::
              r[row] == g[row]
  {
    var done := Finished(job, g);
    PaintKept(done, g);
    forall row | 0 <= row < |g| && (forall i | 0 <= i < done.h :: Target(job, i) != row)
      ensures r[row] == g[row]
    {
      UntouchedBefore(job, done, row);
    }
  }

  lemma UntouchedBefore(job: Job, done: Job, row: int)
    requires done == job.(h := done.h)
    requires forall i | 0 <= i < done.h :: Target(job, i) != row
    ensures Untouched(done, row, 0)
  {
    forall i | 0 <= i < done.h ensures Target(done, i) != row {
      assert Target(done, i) == Target(job, i);
    }
  }

  /** Loops that reach a missing row have by then painted exactly the rows
      before it. */
  lemma FaultPaintsPrefix(job: Job, g: Grid)
    requires StampReady(job) && ColumnsFit(job, g) && Distinct(job.visibleRows)
    requires job.w > 0 && !TargetsExist(job, g)
    ensures Paintable(Finished(job, g), g)
    ensures StoppedAt(job, g, PaintRows(Finished(job, g), g, 0), Finished(job, g).h)
  {
    FinishedPaintable(job, g);
    var r := PaintRows(Finished(job, g), g, 0);
    FinishedWrites(job, g, r);
    FinishedKeeps(job, g, r);
  }

  /** A selection that raises on a missing row has painted exactly the
      rows visited before it. */
  lemma FaultLeavesEarlierRowsPainted(d: Draft, sel: Selection, stamp: Grid, kind: Transform)
    requires sel.width % CellSize == 0 && sel.height % CellSize == 0
    requires |stamp| > 0 && CoversFirstRow(stamp) && (sel.width > 0 ==> |stamp[0]| > 0)
    requires ColumnsFit(JobOf(d, sel, stamp, kind), d.pattern)
    requires Distinct(d.visibleRows)
    requires UpdateSelection(d, sel, stamp, kind).Fail?
    ensures exists k :: StoppedAt(JobOf(d, sel, stamp, kind), d.pattern, SelectionLeaves(d, sel, stamp, kind).pattern, k)
  {
    var job := JobOf(d, sel, stamp, kind);
    FaultPaintsPrefix(job, d.pattern);
    assert SelectionLeaves(d, sel, stamp, kind).pattern == PaintRows(Finished(job, d.pattern), d.pattern, 0);
  }

  lemma PaintKept(job: Job, g: Grid)
    requires Paintable(job, g)
    ensures Kept(job, g, PaintRows(job, g, 0))
  {
    var r := PaintRows(job, g, 0);
    forall row, c | 0 <= row < |g| && 0 <= c < |g[row]| && !(job.left <= c < job.left + job.w)
      ensures r[row][c] == g[row][c]
    {
      PaintRowsFrame(job, g, 0, row, c);
    }
    forall row | 0 <= row < |g| && Untouched(job, row, 0)
      ensures r[row] == g[row]
    {
      forall c | 0 <= c < |g[row]| ensures r[row][c] == g[row][c] {
        PaintRowsFrame(job, g, 0, row, c);
      }
    }
  }

  lemma PaintStamped(job: Job, g: Grid)
    requires Paintable(job, g) && Distinct(job.visibleRows)
    ensures Stamped(job, g, PaintRows(job, g, 0))
  {
    if job.w > 0 {
      DistinctTargets(job, g);
      var r := PaintRows(job, g, 0);
      forall i, c | 0 <= i < job.h && job.left <= c < job.left + job.w
        ensures && 0 <= Target(job, i) < |g| && 0 <= c < |g[Target(job, i)]| == |r[Target(job, i)]|
                && r[Target(job, i)][c] == Written(job.kind, Sample(job, i, c - job.left), g[Target(job, i)][c])
      {
        PaintRowsWrites(job, g, 0, i, c);
      }
    }
  }

  /** Distinct visible rows give distinct visited rows. */
  lemma DistinctTargets(job: Job, g: Grid)
    requires TargetsExist(job, g) && Distinct(job.visibleRows)
    ensures forall a, b | 0 <= a < b < job.h :: Target(job, a) != Target(job, b)
  {
    forall a, b | 0 <= a < b < job.h ensures Target(job, a) != Target(job, b) {
      assert 0 <= Target(job, a) < |g| && 0 <= Target(job, b) < |g|;
    }
  }

  // ---- properties of the operation ----------------------------------------

  lemma ColumnsFitKept(job: Job, g: Grid, g': Grid)
    requires ColumnsFit(job, g) && SameShape(g, g')
    ensures ColumnsFit(job, g')
  {
  }

  /** Painting a selection keeps a well-formed draft well formed. */
  lemma SelectionKeepsWellFormed(d: Draft, sel: Selection, stamp: Grid, kind: Transform)
    requires WellFormed(d)
    requires sel.width % CellSize == 0 && sel.height % CellSize == 0
    requires |stamp| > 0 ==> CoversFirstRow(stamp) && (sel.width > 0 ==> |stamp[0]| > 0)
    requires ColumnsFit(JobOf(d, sel, stamp, kind), d.pattern)
    ensures UpdateSelection(d, sel, stamp, kind).Ok? ==> WellFormed(UpdateSelection(d, sel, stamp, kind).value)
  {
  }

  /** A selection less than a cell tall or wide writes nothing. */
  lemma EmptySelectionChangesNothing(d: Draft, sel: Selection, stamp: Grid, kind: Transform)
    requires sel.width % CellSize == 0 && sel.height % CellSize == 0
    requires |stamp| > 0 && CoversFirstRow(stamp) && (sel.width > 0 ==> |stamp[0]| > 0)
    requires sel.width == 0 || sel.height == 0
    ensures UpdateSelection(d, sel, stamp, kind) == Ok(d)
  {
    var r := UpdateSelection(d, sel, stamp, kind);
    GridsEqual(r.value.pattern, d.pattern);
  }

  /** `a` has `b`'s shape and is nowhere set where `b` is clear. */
  predicate Below(a: Grid, b: Grid)
  {
    SameShape(a, b) && forall row, c | 0 <= row < |a| && 0 <= c < |a[row]| :: a[row][c] ==> b[row][c]
  }

  lemma {:induction false} PaintCellsMaskBelow(job: Job, g: Grid, i: int, j0: int)
    requires Paintable(job, g) && 0 <= i < job.h && 0 <= j0 <= job.w && job.kind == Mask
    ensures Below(PaintCells(job, g, i, j0), g)
    decreases job.w - j0
  {
    if j0 < job.w {
      var t := Target(job, i);
      var c := job.left + j0;
      var g' := g[t := g[t][c := Written(job.kind, Sample(job, i, j0), g[t][c])]];
      PaintableKept(job, g, g');
      PaintCellsMaskBelow(job, g', i, j0 + 1);
      assert Below(g', g);
    }
  }

  lemma {:induction false} PaintRowsMaskBelow(job: Job, g: Grid, i0: int)
    requires Paintable(job, g) && 0 <= i0 <= job.h && job.kind == Mask
    ensures Below(PaintRows(job, g, i0), g)
    decreases job.h - i0
  {
    if i0 < job.h {
      var g1 := PaintCells(job, g, i0, 0);
      PaintableKept(job, g, g1);
      PaintCellsMaskBelow(job, g, i0, 0);
      PaintRowsMaskBelow(job, g1, i0 + 1);
    }
  }

  /** A mask only ever clears cells, whatever the visible rows. */
  lemma MaskOnlyClears(d: Draft, sel: Selection, stamp: Grid)
    requires sel.width % CellSize == 0 && sel.height % CellSize == 0
    requires |stamp| > 0 ==> CoversFirstRow(stamp) && (sel.width > 0 ==> |stamp[0]| > 0)
    requires ColumnsFit(JobOf(d, sel, stamp, Mask), d.pattern)
    ensures UpdateSelection(d, sel, stamp, Mask).Ok? ==>
              Below(UpdateSelection(d, sel, stamp, Mask).value.pattern, d.pattern)
  {
    if UpdateSelection(d, sel, stamp, Mask).Ok? {
      PaintRowsMaskBelow(JobOf(d, sel, stamp, Mask), d.pattern, 0);
    }
  }

  /** Over distinct rows, painting a second time leaves the grid as the
      first painting left it. */
  lemma PaintTwice(job: Job, g: Grid)
    requires Paintable(job, g) && Distinct(job.visibleRows)
    ensures && Paintable(job, PaintRows(job, g, 0))
            && PaintRows(job, PaintRows(job, g, 0), 0) == PaintRows(job, g, 0)
  {
    var g1 := PaintRows(job, g, 0);
    PaintableKept(job, g, g1);
    var g2 := PaintRows(job, g1, 0);
    forall row, c | 0 <= row < |g1| && 0 <= c < |g1[row]|
      ensures g2[row][c] == g1[row][c]
    {
      if !Untouched(job, row, 0) && job.left <= c < job.left + job.w {
        var i :| 0 <= i < job.h && Target(job, i) == row;
        DistinctTargets(job, g);
        PaintRowsWrites(job, g, 0, i, c);
        PaintRowsWrites(job, g1, 0, i, c);
      } else {
        PaintRowsFrame(job, g1, 0, row, c);
      }
    }
    GridsEqual(g2, g1);
  }

  /** Over distinct visible rows every transform is idempotent: painting the
      same selection again changes nothing. */
  lemma SelectionIdempotent(d: Draft, sel: Selection, stamp: Grid, kind: Transform)
    requires sel.width % CellSize == 0 && sel.height % CellSize == 0
    requires |stamp| > 0 ==> CoversFirstRow(stamp) && (sel.width > 0 ==> |stamp[0]| > 0)
    requires ColumnsFit(JobOf(d, sel, stamp, kind), d.pattern)
    requires Distinct(d.visibleRows)
    ensures var r := UpdateSelection(d, sel, stamp, kind);
            r.Ok? ==> && ColumnsFit(JobOf(r.value, sel, stamp, kind), r.value.pattern)
                      && UpdateSelection(r.value, sel, stamp, kind) == r
  {
    var r := UpdateSelection(d, sel, stamp, kind);
    if r.Ok? {
      var job := JobOf(d, sel, stamp, kind);
      assert JobOf(r.value, sel, stamp, kind) == job;
      ColumnsFitKept(job, d.pattern, r.value.pattern);
      PaintTwice(job, d.pattern);
    }
  }

  predicate CheckerJob(job: Job, g: Grid)
  {
    && job == Job([0, 1, 2, 3], 0, 0, 2, 2, 2, [[true, false], [false, true]], Original)
    && g == [[false, false, false, false], [false, false, false, false],
             [false, false, false, false], [false, false, false, false]]
  }

  lemma CheckerTop(job: Job, g: Grid)
    requires CheckerJob(job, g)
    ensures && Paintable(job, g) && |PaintRows(job, g, 0)| == 4
            && PaintRows(job, g, 0)[0] == [true, false, false, false]
            && PaintRows(job, g, 0)[1] == [false, true, false, false]
  {
    assert Target(job, 0) == 0 && Target(job, 1) == 1;
    assert Paintable(job, g);
    PaintRowsFrame(job, g, 0, 0, 2);
    PaintRowsFrame(job, g, 0, 0, 3);
    PaintRowsFrame(job, g, 0, 1, 2);
    PaintRowsFrame(job, g, 0, 1, 3);
    PaintRowsWrites(job, g, 0, 0, 0);
    PaintRowsWrites(job, g, 0, 0, 1);
    PaintRowsWrites(job, g, 0, 1, 0);
    PaintRowsWrites(job, g, 0, 1, 1);
  }

  lemma CheckerBottom(job: Job, g: Grid)
    requires CheckerJob(job, g)
    ensures && Paintable(job, g) && |PaintRows(job, g, 0)| == 4
            && PaintRows(job, g, 0)[2] == g[2]
            && PaintRows(job, g, 0)[3] == g[3]
  {
    assert Target(job, 0) == 0 && Target(job, 1) == 1;
    assert Paintable(job, g);
    assert Untouched(job, 2, 0) && Untouched(job, 3, 0);
    forall row, c | 2 <= row < 4 && 0 <= c < 4
      ensures PaintRows(job, g, 0)[row][c] == g[row][c]
    {
      PaintRowsFrame(job, g, 0, row, c);
    }
  }

  /** A 2 x 2 checker stamped over the top-left corner of a blank 4 x 4
      drawdown, the corners given bottom-right first: only the drawdown
      changes, to the checker in the corner and blank elsewhere. */
  lemma CheckerExample(d: Draft, sel: Selection, stamp: Grid)
    requires d.visibleRows == [0, 1, 2, 3]
    requires d.pattern == [[false, false, false, false], [false, false, false, false],
                           [false, false, false, false], [false, false, false, false]]
    requires sel == Selection(Point(1, 1), Point(0, 0), 40, 40)
    requires stamp == [[true, false], [false, true]]
    ensures UpdateSelection(d, sel, stamp, Original)
            == Ok(d.(pattern := [[true, false, false, false], [false, true, false, false],
                                 [false, false, false, false], [false, false, false, false]]))
  {
    var job := JobOf(d, sel, stamp, Original);
    assert CheckerJob(job, d.pattern);
    CheckerTop(job, d.pattern);
    CheckerBottom(job, d.pattern);
    var r := PaintRows(job, d.pattern, 0);
    assert r == [r[0], r[1], r[2], r[3]];
  }
}
