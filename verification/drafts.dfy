/** The draft: a boolean drawdown `pattern[wefts][warps]`, the shuttles
    (weft yarn carriers), the row-to-shuttle mapping, the rows currently
    shown, inter-component connections and labels. This module holds the
    state, its construction, its read queries and the visibility
    recomputation. */
module Drafts {
  import opened Outcomes
  import opened Grids
  import opened Patterns

  /** A weft yarn carrier. `thickness` 0.0 stands for "not set"; `image`
      is the picture a new shuttle may bring with it. */
  datatype Shuttle = Shuttle(
    id: int,
    name: string,
    color: string,
    thickness: real,
    visible: bool,
    image: Option<Grid>)

  /** An endpoint of a connection; `y` is the row it is attached to. */
  datatype Endpoint = Endpoint(x: int, y: int)

  datatype Connection = Connection(start: Endpoint, end: Endpoint)

  datatype Label = Label(row: int, text: string)

  datatype Draft = Draft(
    pattern: Grid,
    patterns: seq<SubPattern<bool>>,
    shuttles: seq<Shuttle>,
    rowShuttleMapping: seq<int>,
    visibleRows: seq<int>,
    connections: seq<Connection>,
    labels: seq<Label>,
    wefts: int,
    warps: int,
    epi: real)

  /** A previously captured draft, as handed to the "update" constructor;
      the sub-patterns are plain grids and the drawdown may be absent. */
  datatype Snapshot = Snapshot(
    pattern: Option<Grid>,
    patterns: seq<Grid>,
    shuttles: seq<Shuttle>,
    rowShuttleMapping: seq<int>,
    visibleRows: seq<int>,
    connections: seq<Connection>,
    labels: seq<Label>,
    wefts: int,
    warps: int,
    epi: real)

  // ---- visibility --------------------------------------------------------

  /** Row mapped to shuttle `id` is shown: the id names a shuttle and that
      shuttle is visible (an id past the end reads `undefined`, which is
      falsy). */
  predicate Shown(shuttles: seq<Shuttle>, id: int)
  {
    0 <= id < |shuttles| && shuttles[id].visible
  }

  predicate StrictlyAscending(s: seq<int>)
  {
    forall a, b | 0 <= a < b < |s| :: s[a] < s[b]
  }

  /** The rows `updateVisible` keeps, built by the same left-to-right scan:
      exactly the rows whose shuttle is shown, in ascending order. */
  function VisibleRowsOf(shuttles: seq<Shuttle>, mapping: seq<int>): (v: seq<int>)
    ensures StrictlyAscending(v)
    ensures forall k :: k in v <==> 0 <= k < |mapping| && Shown(shuttles, mapping[k])
    ensures |v| <= |mapping|
    decreases |mapping|
  {
    if |mapping| == 0 then []
    else
      var n := |mapping| - 1;
      var front := VisibleRowsOf(shuttles, mapping[..n]);
      assert forall k | 0 <= k < n :: mapping[..n][k] == mapping[k];
      assert forall k | 0 <= k < |front| :: front[k] < n by {
        forall k | 0 <= k < |front| ensures front[k] < n {
          assert front[k] in front;
        }
      }
      front + (if Shown(shuttles, mapping[n]) then [n] else [])
  }

  /** When every row's shuttle is shown, every row is visible, in order. */
  lemma {:induction false} AllShownAllVisible(shuttles: seq<Shuttle>, mapping: seq<int>)
    requires forall k | 0 <= k < |mapping| :: Shown(shuttles, mapping[k])
    ensures VisibleRowsOf(shuttles, mapping) == seq(|mapping|, k => k)
    decreases |mapping|
  {
    if |mapping| > 0 {
      var n := |mapping| - 1;
      assert forall k | 0 <= k < n :: mapping[..n][k] == mapping[k];
      AllShownAllVisible(shuttles, mapping[..n]);
      VisibleRowsStep(shuttles, mapping);
      IdentityGrows(n);
    }
  }

  /** `updateVisible()` */
  function UpdateVisible(d: Draft): (r: Draft)
    ensures StrictlyAscending(r.visibleRows)
    ensures forall k :: k in r.visibleRows <==>
              0 <= k < |d.rowShuttleMapping| && Shown(d.shuttles, d.rowShuttleMapping[k])
    ensures r.(visibleRows := d.visibleRows) == d
  {
    d.(visibleRows := VisibleRowsOf(d.shuttles, d.rowShuttleMapping))
  }

  /** One more row: the scan's last step. */
  lemma VisibleRowsStep(shuttles: seq<Shuttle>, mapping: seq<int>)
    requires |mapping| > 0
    ensures var n := |mapping| - 1;
            VisibleRowsOf(shuttles, mapping)
            == VisibleRowsOf(shuttles, mapping[..n]) + (if Shown(shuttles, mapping[n]) then [n] else [])
  {
  }

  lemma IdentityGrows(n: nat)
    ensures seq(n, k => k) + [n] == seq(n + 1, k => k)
  {
  }

  /** Recomputing visibility twice is recomputing it once. */
  lemma UpdateVisibleIdempotent(d: Draft)
    ensures UpdateVisible(UpdateVisible(d)) == UpdateVisible(d)
  {
  }

  // ---- the invariant the editing operations keep --------------------------

  /** Every shuttle's id is its position in the list. */
  predicate IdsArePositions(shuttles: seq<Shuttle>)
  {
    forall k | 0 <= k < |shuttles| :: shuttles[k].id == k
  }

  /** `wefts` rows of `warps` cells, one mapping entry per row naming an
      existing shuttle, shuttle ids equal to positions, and `visibleRows`
      up to date. */
  predicate WellFormed(d: Draft)
  {
    && |d.pattern| == d.wefts
    && d.warps >= 0
    && Rectangular(d.pattern, d.warps)
    && |d.rowShuttleMapping| == d.wefts
    && (forall k | 0 <= k < |d.rowShuttleMapping| :: 0 <= d.rowShuttleMapping[k] < |d.shuttles|)
    && IdsArePositions(d.shuttles)
    && d.visibleRows == VisibleRowsOf(d.shuttles, d.rowShuttleMapping)
  }

  /** In a well-formed draft the visible rows are distinct physical rows. */
  lemma VisibleRowsInRange(d: Draft)
    requires WellFormed(d)
    ensures forall k | 0 <= k < |d.visibleRows| :: 0 <= d.visibleRows[k] < d.wefts
    ensures Distinct(d.visibleRows)
  {
    forall k | 0 <= k < |d.visibleRows|
      ensures 0 <= d.visibleRows[k] < d.wefts
    {
      assert d.visibleRows[k] in d.visibleRows;
    }
  }

  // ---- construction ------------------------------------------------------

  /** The shuttle every new draft starts with. */
  function DefaultShuttle(epi: real): Shuttle
  {
    Shuttle(0, "Weft System 1", "#3d3d3d", epi, true, None)
  }

  /** The "new" constructor: one default shuttle, every row mapped to it and
      visible, and an all-false drawdown unless one is given. */
  function NewDraft(wefts: nat, warps: nat, epi: real, pattern: Option<Grid>): (d: Draft)
    ensures d.wefts == wefts && d.warps == warps && d.epi == epi
    ensures d.shuttles == [DefaultShuttle(epi)]
    ensures |d.rowShuttleMapping| == wefts
    ensures forall k | 0 <= k < wefts :: d.rowShuttleMapping[k] == 0
    ensures |d.visibleRows| == wefts
    ensures forall k | 0 <= k < wefts :: d.visibleRows[k] == k
    ensures pattern.None? ==>
              && |d.pattern| == wefts && Rectangular(d.pattern, warps)
              && forall r, c | 0 <= r < wefts && 0 <= c < warps :: !d.pattern[r][c]
    ensures pattern.Some? ==> d.pattern == pattern.value
    ensures d.patterns == [] && d.connections == [] && d.labels == []
    ensures (pattern.None? || (|pattern.value| == wefts && Rectangular(pattern.value, warps)))
              ==> WellFormed(d)
  {
    var shuttles := [DefaultShuttle(epi)];
    var mapping := seq(wefts, _ => 0);
    AllShownAllVisible(shuttles, mapping);
    Draft(
      if pattern.Some? then pattern.value else FalseGrid(wefts, warps),
      [], shuttles, mapping, seq(wefts, k => k), [], [], wefts, warps, epi)
  }

  /** The drawdown the constructor falls back to when none was captured. */
  function DrawdownOf(s: Snapshot): Grid
  {
    if s.pattern.Some? then s.pattern.value else FalseGrid(Count(s.wefts), Count(s.warps))
  }

  /** The "update" constructor as written: each captured sub-pattern is
      rebuilt with `new Pattern()`, whose missing options object is read
      immediately, so any snapshot holding a sub-pattern raises. */
  function ReloadAsWritten(s: Snapshot): (r: Result<Draft>)
    ensures r.Fail? <==> |s.patterns| > 0
    ensures r.Ok? ==> r.value == Reload(s)
  {
    if |s.patterns| > 0 then
      var blank := NewPattern<bool>(None);
      assert blank.Fail?;
      Fail(blank.fault)
    else
      Ok(Draft(DrawdownOf(s), [], s.shuttles, s.rowShuttleMapping, s.visibleRows,
               s.connections, s.labels, s.wefts, s.warps, s.epi))
  }

  /** Any snapshot that carries a sub-pattern exhibits the fault. */
  lemma ReloadAsWrittenRejectsPatterns(s: Snapshot)
    requires s.patterns == [[[true]]]
    ensures ReloadAsWritten(s) == Fail(TypeError)
  {
  }

  /** The blank pattern `new Pattern({})` builds. */
  function BlankPattern(): (p: SubPattern<bool>)
    ensures p.height == 0 && p.width == 0 && p.grid == []
    ensures !p.favorite && p.id == -1 && p.name == "unnamed"
  {
    var spec: PatternSpec<bool> := PatternSpec(None, None, None, None);
    var made := NewPattern(Some(spec));
    assert made.Ok?;
    SetPattern(made.value, [])
  }

  /** The "update" constructor with each sub-pattern rebuilt from a blank
      pattern and `setPattern`: every field is copied from the snapshot,
      `visibleRows` is taken as captured rather than recomputed, and a
      missing drawdown becomes an all-false `wefts x warps` grid. */
  function Reload(s: Snapshot): (d: Draft)
    ensures |d.patterns| == |s.patterns|
    ensures forall k | 0 <= k < |s.patterns| ::
              && d.patterns[k].grid == s.patterns[k]
              && d.patterns[k].height == |s.patterns[k]|
              && (|s.patterns[k]| > 0 ==> d.patterns[k].width == |s.patterns[k][0]|)
              && (|s.patterns[k]| == 0 ==> d.patterns[k].width == 0)
              && !d.patterns[k].favorite && d.patterns[k].id == -1
              && d.patterns[k].name == "unnamed"
    ensures d.shuttles == s.shuttles && d.rowShuttleMapping == s.rowShuttleMapping
    ensures d.visibleRows == s.visibleRows
    ensures d.connections == s.connections && d.labels == s.labels
    ensures d.wefts == s.wefts && d.warps == s.warps && d.epi == s.epi
    ensures s.pattern.Some? ==> d.pattern == s.pattern.value
    ensures s.pattern.None? ==>
              && |d.pattern| == Count(s.wefts) && Rectangular(d.pattern, Count(s.warps))
              && forall r, c | 0 <= r < |d.pattern| && 0 <= c < Count(s.warps) :: !d.pattern[r][c]
  {
    Draft(DrawdownOf(s), seq(|s.patterns|, k requires 0 <= k < |s.patterns| => SetPattern(BlankPattern(), s.patterns[k])),
          s.shuttles, s.rowShuttleMapping, s.visibleRows, s.connections, s.labels,
          s.wefts, s.warps, s.epi)
  }

  /** Capturing a well-formed draft and reloading it gives it back. */
  function Capture(d: Draft): Snapshot
  {
    Snapshot(Some(d.pattern), seq(|d.patterns|, k requires 0 <= k < |d.patterns| => d.patterns[k].grid),
             d.shuttles, d.rowShuttleMapping, d.visibleRows, d.connections, d.labels,
             d.wefts, d.warps, d.epi)
  }

  /** Sub-patterns are stored as `setPattern` leaves a blank pattern. */
  predicate BlankRebuilt(d: Draft)
  {
    forall k | 0 <= k < |d.patterns| :: d.patterns[k] == SetPattern(BlankPattern(), d.patterns[k].grid)
  }

  lemma {:induction false} ReloadCaptureRoundTrip(d: Draft)
    requires BlankRebuilt(d)
    ensures Reload(Capture(d)) == d
    ensures WellFormed(d) ==> WellFormed(Reload(Capture(d)))
  {
    var r := Reload(Capture(d));
    forall k | 0 <= k < |d.patterns| ensures r.patterns[k] == d.patterns[k] {
    }
    assert r.patterns == d.patterns;
  }

  // ---- queries -----------------------------------------------------------

  /** `isUp(i, j)`: the cell of visible row `i`, column `j`; any index out of
      range (column range taken from row 0) reads as false, never raises. */
  function IsUp(d: Draft, i: int, j: int): (r: bool)
    ensures r ==> 0 <= i < |d.visibleRows| && 0 <= d.visibleRows[i] < |d.pattern|
    ensures r ==> 0 <= j < |d.pattern[0]| && j < |d.pattern[d.visibleRows[i]]|
    ensures r ==> d.pattern[d.visibleRows[i]][j]
    ensures && 0 <= i < |d.visibleRows| && 0 <= d.visibleRows[i] < |d.pattern|
            && 0 <= j < |d.pattern[0]| && j < |d.pattern[d.visibleRows[i]]|
            ==> r == d.pattern[d.visibleRows[i]][j]
  {
    if 0 <= i < |d.visibleRows| then
      var row := d.visibleRows[i];
      if 0 <= row < |d.pattern| && 0 <= j < |d.pattern[0]| then
        // a cell past a short row reads `undefined`, which is falsy
        j < |d.pattern[row]| && d.pattern[row][j]
      else false
    else false
  }

  /** In a well-formed draft `isUp` is exactly the drawdown seen through
      `visibleRows`, and false everywhere else. */
  lemma IsUpReadsVisibleRow(d: Draft, i: int, j: int)
    requires WellFormed(d)
    ensures 0 <= i < |d.visibleRows| ==> 0 <= d.visibleRows[i] < |d.pattern|
    ensures 0 <= i < |d.visibleRows| && 0 <= j < d.warps ==>
              IsUp(d, i, j) == d.pattern[d.visibleRows[i]][j]
    ensures !(0 <= i < |d.visibleRows| && 0 <= j < d.warps) ==> !IsUp(d, i, j)
  {
    VisibleRowsInRange(d);
  }

  /** `rowToShuttle(row)`: `undefined` (here `None`) past the mapping. */
  function RowToShuttle(d: Draft, row: int): (r: Option<int>)
    ensures r.Some? <==> 0 <= row < |d.rowShuttleMapping|
    ensures r.Some? ==> r.value == d.rowShuttleMapping[row]
  {
    if 0 <= row < |d.rowShuttleMapping| then Some(d.rowShuttleMapping[row]) else None
  }

  /** `setHeddle(i, j, v)`: writes the cell of visible row `i`. A visible
      index or row that does not exist raises. */
  function SetHeddle(d: Draft, i: int, j: int, v: bool): (r: Result<Draft>)
    requires 0 <= i < |d.visibleRows| && 0 <= d.visibleRows[i] < |d.pattern| ==>
               0 <= j < |d.pattern[d.visibleRows[i]]|
    ensures r.Ok? <==> 0 <= i < |d.visibleRows| && 0 <= d.visibleRows[i] < |d.pattern|
    ensures r.Ok? ==> SameShape(r.value.pattern, d.pattern)
    ensures r.Ok? ==> r.value.pattern[d.visibleRows[i]][j] == v
    ensures r.Ok? ==> forall row, c | 0 <= row < |d.pattern| && 0 <= c < |d.pattern[row]| ::
              (row, c) != (d.visibleRows[i], j) ==> r.value.pattern[row][c] == d.pattern[row][c]
    ensures r.Ok? ==> r.value.(pattern := d.pattern) == d
  {
    if 0 <= i < |d.visibleRows| && 0 <= d.visibleRows[i] < |d.pattern| then
      var row := d.visibleRows[i];
      Ok(d.(pattern := d.pattern[row := d.pattern[row][j := v]]))
    else Fail(TypeError)
  }

  /** Writing a cell and reading it back through `isUp` agree, and the
      write keeps the draft well formed. */
  lemma SetHeddleThenIsUp(d: Draft, i: int, j: int, v: bool)
    requires WellFormed(d)
    requires 0 <= i < |d.visibleRows| && 0 <= j < d.warps
    ensures && SetHeddle(d, i, j, v).Ok?
            && WellFormed(SetHeddle(d, i, j, v).value)
            && IsUp(SetHeddle(d, i, j, v).value, i, j) == v
  {
    VisibleRowsInRange(d);
    var r := SetHeddle(d, i, j, v).value;
    assert WellFormed(r);
    IsUpReadsVisibleRow(r, i, j);
  }

  /** `getColor(index)`: colour of the shuttle of visible row `index`. A miss
      in any of the three lookups ends in reading `color` of `undefined`,
      which raises. */
  function GetColor(d: Draft, index: int): (r: Result<string>)
    ensures r.Ok? <==> && 0 <= index < |d.visibleRows|
                       && RowToShuttle(d, d.visibleRows[index]).Some?
                       && 0 <= RowToShuttle(d, d.visibleRows[index]).value < |d.shuttles|
    ensures r.Ok? ==> r.value == d.shuttles[RowToShuttle(d, d.visibleRows[index]).value].color
    ensures r.Fail? ==> r.fault == TypeError
  {
    if 0 <= index < |d.visibleRows| && 0 <= d.visibleRows[index] < |d.rowShuttleMapping|
       && 0 <= d.rowShuttleMapping[d.visibleRows[index]] < |d.shuttles|
    then Ok(d.shuttles[d.rowShuttleMapping[d.visibleRows[index]]].color)
    else Fail(TypeError)
  }

  /** In a well-formed draft every visible row has a colour, and it is the
      colour of a visible shuttle; every other index raises. */
  lemma GetColorOfVisibleShuttle(d: Draft, index: int)
    requires WellFormed(d)
    ensures GetColor(d, index).Ok? <==> 0 <= index < |d.visibleRows|
    ensures GetColor(d, index).Ok? ==>
              exists k | 0 <= k < |d.shuttles| :: d.shuttles[k].visible && d.shuttles[k].color == GetColor(d, index).value
  {
    VisibleRowsInRange(d);
    if 0 <= index < |d.visibleRows| {
      var row := d.visibleRows[index];
      assert row in d.visibleRows;
      var k := d.rowShuttleMapping[row];
      assert d.shuttles[k].visible;
    }
  }
}
