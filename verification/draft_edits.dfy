/** Structural edits of a draft: rows inserted, cloned and deleted in step
    across the drawdown and the row-to-shuttle mapping, connection
    endpoints shifted after such an edit, and shuttles added, possibly with
    an image whose rows are spliced in. */
module DraftEdits {
  import opened Outcomes
  import opened Grids
  import opened Drafts
  import opened ImageSplice

  // ---- rows --------------------------------------------------------------

  /** `insertRow(i, shuttleId)`: an all-false row of `warps` cells and a
      mapping entry spliced in at `i`, `wefts` incremented, visibility
      recomputed. */
  function InsertRow(d: Draft, i: int, shuttleId: int): (r: Draft)
    ensures r.wefts == d.wefts + 1
    ensures r.pattern == InsertAt(d.pattern, i, Falses(Count(d.warps)))
    ensures r.rowShuttleMapping == InsertAt(d.rowShuttleMapping, i, shuttleId)
    ensures r.visibleRows == VisibleRowsOf(r.shuttles, r.rowShuttleMapping)
    ensures r.(pattern := d.pattern, rowShuttleMapping := d.rowShuttleMapping,
               visibleRows := d.visibleRows, wefts := d.wefts) == d
  {
    var col := Falses(Count(d.warps));
    UpdateVisible(d.(wefts := d.wefts + 1,
                     rowShuttleMapping := InsertAt(d.rowShuttleMapping, i, shuttleId),
                     pattern := InsertAt(d.pattern, i, col)))
  }

  /** In a well-formed draft, `insertRow` at an index in `0..wefts` puts an
      all-false row mapped to `shuttleId` at that index, keeps the rows
      before it and moves the rows after it down by one, and leaves the
      draft well formed. */
  lemma InsertRowSpec(d: Draft, i: int, shuttleId: int)
    requires WellFormed(d)
    requires 0 <= i <= d.wefts
    requires 0 <= shuttleId < |d.shuttles|
    ensures var r := InsertRow(d, i, shuttleId);
            && WellFormed(r)
            && r.wefts == d.wefts + 1
            && RowToShuttle(r, i) == Some(shuttleId)
            && (forall c | 0 <= c < d.warps :: !r.pattern[i][c])
            && (forall k | 0 <= k < i :: r.pattern[k] == d.pattern[k] && r.rowShuttleMapping[k] == d.rowShuttleMapping[k])
            && (forall k | i < k <= d.wefts :: r.pattern[k] == d.pattern[k - 1] && r.rowShuttleMapping[k] == d.rowShuttleMapping[k - 1])
  {
  }

  /** `deleteRow(i)`: the row and its mapping entry spliced out at `i`,
      `wefts` decremented (even when `i` is past the end and nothing is
      removed), visibility recomputed. */
  function DeleteRow(d: Draft, i: int): (r: Draft)
    ensures r.wefts == d.wefts - 1
    ensures r.pattern == RemoveAt(d.pattern, i)
    ensures r.rowShuttleMapping == RemoveAt(d.rowShuttleMapping, i)
    ensures r.visibleRows == VisibleRowsOf(r.shuttles, r.rowShuttleMapping)
    ensures r.(pattern := d.pattern, rowShuttleMapping := d.rowShuttleMapping,
               visibleRows := d.visibleRows, wefts := d.wefts) == d
  {
    UpdateVisible(d.(wefts := d.wefts - 1,
                     rowShuttleMapping := RemoveAt(d.rowShuttleMapping, i),
                     pattern := RemoveAt(d.pattern, i)))
  }

  /** Deleting a row of a well-formed draft keeps it well formed and closes
      the gap. */
  lemma DeleteRowSpec(d: Draft, i: int)
    requires WellFormed(d)
    requires 0 <= i < d.wefts
    ensures var r := DeleteRow(d, i);
            && WellFormed(r)
            && (forall k | 0 <= k < i :: r.pattern[k] == d.pattern[k] && r.rowShuttleMapping[k] == d.rowShuttleMapping[k])
            && (forall k | i <= k < r.wefts :: r.pattern[k] == d.pattern[k + 1] && r.rowShuttleMapping[k] == d.rowShuttleMapping[k + 1])
  {
    var r := DeleteRow(d, i);
    forall k | 0 <= k < |r.rowShuttleMapping|
      ensures 0 <= r.rowShuttleMapping[k] < |r.shuttles|
    {
      if k >= i {
        assert r.rowShuttleMapping[k] == d.rowShuttleMapping[k + 1];
      }
    }
    forall k | 0 <= k < |r.pattern|
      ensures |r.pattern[k]| == r.warps
    {
      if k >= i {
        assert r.pattern[k] == d.pattern[k + 1];
      }
    }
  }

  /** `deleteRow(i)` undoes `insertRow(i, s)` whenever `i` lies inside both
      arrays: `wefts`, the drawdown and the mapping come back, and
      visibility is recomputed. A well-formed draft comes back unchanged. */
  lemma {:induction false} DeleteUndoesInsert(d: Draft, i: int, s: int)
    requires 0 <= i <= |d.pattern| && 0 <= i <= |d.rowShuttleMapping|
    ensures DeleteRow(InsertRow(d, i, s), i) == UpdateVisible(d)
    ensures WellFormed(d) ==> DeleteRow(InsertRow(d, i, s), i) == d
  {
    var col := Falses(Count(d.warps));
    var m1 := InsertAt(d.rowShuttleMapping, i, s);
    var p1 := InsertAt(d.pattern, i, col);
    var inserted := InsertRow(d, i, s);
    assert inserted == d.(wefts := d.wefts + 1, rowShuttleMapping := m1, pattern := p1,
                          visibleRows := VisibleRowsOf(d.shuttles, m1));
    RemoveInsert(d.pattern, i, col);
    RemoveInsert(d.rowShuttleMapping, i, s);
    assert DeleteRow(inserted, i)
           == inserted.(wefts := d.wefts, rowShuttleMapping := d.rowShuttleMapping, pattern := d.pattern,
                        visibleRows := VisibleRowsOf(d.shuttles, d.rowShuttleMapping));
  }

  /** `cloneRow(i, c, shuttleId)` as written: it looks up the physical row
      shown at visible index `c` but then copies `pattern[c]`, the physical
      row with that number. */
  function CloneRowAsWritten(d: Draft, i: int, c: int, shuttleId: int): (r: Draft)
    requires 0 <= c < |d.pattern|
    ensures r.wefts == d.wefts + 1
    ensures r.pattern == InsertAt(d.pattern, i, d.pattern[c])
    ensures r.rowShuttleMapping == InsertAt(d.rowShuttleMapping, i, shuttleId)
    ensures r.visibleRows == VisibleRowsOf(r.shuttles, r.rowShuttleMapping)
    ensures r.(pattern := d.pattern, rowShuttleMapping := d.rowShuttleMapping,
               visibleRows := d.visibleRows, wefts := d.wefts) == d
  {
    UpdateVisible(d.(wefts := d.wefts + 1,
                     rowShuttleMapping := InsertAt(d.rowShuttleMapping, i, shuttleId),
                     pattern := InsertAt(d.pattern, i, d.pattern[c])))
  }

  /** `cloneRow` copying the row shown at visible index `c`, the row its
      lookup of `visibleRows[c]` selects. */
  function CloneRow(d: Draft, i: int, c: int, shuttleId: int): (r: Draft)
    requires 0 <= c < |d.visibleRows| && 0 <= d.visibleRows[c] < |d.pattern|
    ensures r.wefts == d.wefts + 1
    ensures r.pattern == InsertAt(d.pattern, i, d.pattern[d.visibleRows[c]])
    ensures r.rowShuttleMapping == InsertAt(d.rowShuttleMapping, i, shuttleId)
    ensures r.visibleRows == VisibleRowsOf(r.shuttles, r.rowShuttleMapping)
    ensures r.(pattern := d.pattern, rowShuttleMapping := d.rowShuttleMapping,
               visibleRows := d.visibleRows, wefts := d.wefts) == d
  {
    var row := d.visibleRows[c];
    UpdateVisible(d.(wefts := d.wefts + 1,
                     rowShuttleMapping := InsertAt(d.rowShuttleMapping, i, shuttleId),
                     pattern := InsertAt(d.pattern, i, d.pattern[row])))
  }

  /** In a well-formed draft the cloned row reads, cell for cell, what
      `isUp` shows at visible row `c`, and the draft stays well formed. */
  lemma CloneRowCopiesVisibleRow(d: Draft, i: int, c: int, shuttleId: int)
    requires WellFormed(d)
    requires 0 <= i <= d.wefts && 0 <= c < |d.visibleRows|
    requires 0 <= shuttleId < |d.shuttles|
    ensures 0 <= d.visibleRows[c] < |d.pattern|
    ensures && WellFormed(CloneRow(d, i, c, shuttleId))
            && forall j | 0 <= j < d.warps :: CloneRow(d, i, c, shuttleId).pattern[i][j] == IsUp(d, c, j)
  {
    VisibleRowsInRange(d);
    var r := CloneRow(d, i, c, shuttleId);
    forall k | 0 <= k < |r.pattern|
      ensures |r.pattern[k]| == r.warps
    {
      if k < i {
        assert r.pattern[k] == d.pattern[k];
      } else if k > i {
        assert r.pattern[k] == d.pattern[k - 1];
      }
    }
    forall k | 0 <= k < |r.rowShuttleMapping|
      ensures 0 <= r.rowShuttleMapping[k] < |r.shuttles|
    {
      if k < i {
        assert r.rowShuttleMapping[k] == d.rowShuttleMapping[k];
      } else if k > i {
        assert r.rowShuttleMapping[k] == d.rowShuttleMapping[k - 1];
      }
    }
    forall j | 0 <= j < d.warps
      ensures r.pattern[i][j] == IsUp(d, c, j)
    {
      IsUpReadsVisibleRow(d, c, j);
    }
  }

  /** A two-row draft whose row 0 is woven with a hidden shuttle, so that
      visible row 0 is physical row 1. */
  function HiddenFirstRow(): Draft
  {
    var hidden := Shuttle(0, "ground", "#000000", 1.0, false, None);
    var shown := Shuttle(1, "figure", "#ffffff", 1.0, true, None);
    Draft([[false], [true]], [], [hidden, shown], [0, 1], [1], [], [], 2, 1, 1.0)
  }

  /** The clone as written copies physical row 0 although the row shown at
      visible index 0 (the one `isUp(0, ...)` reads) is physical row 1. */
  lemma CloneRowAsWrittenCopiesWrongRow()
    ensures var d := HiddenFirstRow();
            && WellFormed(d)
            && IsUp(d, 0, 0)
            && !CloneRowAsWritten(d, 0, 0, 1).pattern[0][0]
            && CloneRow(d, 0, 0, 1).pattern[0][0]
  {
    var d := HiddenFirstRow();
    HiddenFirstRowWellFormed();
    assert IsUp(d, 0, 0);
    assert CloneRowAsWritten(d, 0, 0, 1).pattern == InsertAt(d.pattern, 0, [false]);
    assert CloneRow(d, 0, 0, 1).pattern == InsertAt(d.pattern, 0, [true]);
  }

  lemma HiddenFirstRowWellFormed()
    ensures WellFormed(HiddenFirstRow())
  {
    var d := HiddenFirstRow();
    assert |d.pattern| == d.wefts && d.warps >= 0 && Rectangular(d.pattern, d.warps);
    assert |d.rowShuttleMapping| == d.wefts;
    assert forall k | 0 <= k < |d.rowShuttleMapping| :: 0 <= d.rowShuttleMapping[k] < |d.shuttles|;
    assert IdsArePositions(d.shuttles);
    VisibleRowsOfTwo(d.shuttles, 0, 1);
    assert d.visibleRows == VisibleRowsOf(d.shuttles, d.rowShuttleMapping);
  }

  /** The scan over a two-row mapping. */
  lemma VisibleRowsOfTwo(shuttles: seq<Shuttle>, a: int, b: int)
    ensures VisibleRowsOf(shuttles, [a, b])
            == (if Shown(shuttles, a) then [0] else []) + (if Shown(shuttles, b) then [1] else [])
  {
    var m := [a, b];
    assert m[..1] == [a] && [a][..0] == [];
    VisibleRowsStep(shuttles, [a]);
    VisibleRowsStep(shuttles, m);
  }

  // ---- connections -------------------------------------------------------

  /** One endpoint under `updateConnections(index, offset)`. */
  function ShiftEndpoint(e: Endpoint, index: int, offset: int): Endpoint
  {
    if e.y > index then e.(y := e.y + offset) else e
  }

  /** `updateConnections(index, offset)`: every endpoint whose row is
      greater than `index` moves by `offset`; the others, and the number of
      connections, stay. */
  function UpdateConnections(d: Draft, index: int, offset: int): (r: Draft)
    ensures |r.connections| == |d.connections|
    ensures forall k | 0 <= k < |d.connections| ::
              var (c, n) := (d.connections[k], r.connections[k]);
              && (c.start.y > index ==> n.start == c.start.(y := c.start.y + offset))
              && (c.start.y <= index ==> n.start == c.start)
              && (c.end.y > index ==> n.end == c.end.(y := c.end.y + offset))
              && (c.end.y <= index ==> n.end == c.end)
    ensures r.(connections := d.connections) == d
  {
    d.(connections := seq(|d.connections|, k requires 0 <= k < |d.connections| =>
         Connection(ShiftEndpoint(d.connections[k].start, index, offset),
                    ShiftEndpoint(d.connections[k].end, index, offset))))
  }

  /** A forward shift is undone by the backward shift of the rows it moved. */
  lemma ShiftBackRestores(d: Draft, index: int, offset: int)
    requires offset >= 0
    ensures UpdateConnections(UpdateConnections(d, index, offset), index + offset, -offset) == d
  {
    var r := UpdateConnections(UpdateConnections(d, index, offset), index + offset, -offset);
    assert r.connections == d.connections;
  }

  /** After `insertRow(i, s)` a caller shifts the endpoints past row `i - 1`
      by one; every endpoint on an existing row then still sits on the same
      row contents. */
  lemma ConnectionsFollowInsertedRow(d: Draft, i: int, s: int)
    requires WellFormed(d)
    requires 0 <= i <= d.wefts && 0 <= s < |d.shuttles|
    ensures var r := UpdateConnections(InsertRow(d, i, s), i - 1, 1);
            forall k | 0 <= k < |d.connections| ::
              && (0 <= d.connections[k].start.y < d.wefts ==>
                    0 <= r.connections[k].start.y < r.wefts &&
                    r.pattern[r.connections[k].start.y] == d.pattern[d.connections[k].start.y])
              && (0 <= d.connections[k].end.y < d.wefts ==>
                    0 <= r.connections[k].end.y < r.wefts &&
                    r.pattern[r.connections[k].end.y] == d.pattern[d.connections[k].end.y])
  {
    var r := UpdateConnections(InsertRow(d, i, s), i - 1, 1);
    forall k | 0 <= k < |d.connections|
      ensures 0 <= d.connections[k].start.y < d.wefts ==>
                0 <= r.connections[k].start.y < r.wefts &&
                r.pattern[r.connections[k].start.y] == d.pattern[d.connections[k].start.y]
      ensures 0 <= d.connections[k].end.y < d.wefts ==>
                0 <= r.connections[k].end.y < r.wefts &&
                r.pattern[r.connections[k].end.y] == d.pattern[d.connections[k].end.y]
    {
      EndpointFollowsInsertedRow(d, i, s, d.connections[k].start, r.connections[k].start);
      EndpointFollowsInsertedRow(d, i, s, d.connections[k].end, r.connections[k].end);
    }
  }

  lemma EndpointFollowsInsertedRow(d: Draft, i: int, s: int, e: Endpoint, n: Endpoint)
    requires WellFormed(d)
    requires 0 <= i <= d.wefts && 0 <= s < |d.shuttles|
    requires n == ShiftEndpoint(e, i - 1, 1)
    ensures 0 <= e.y < d.wefts ==>
              0 <= n.y < d.wefts + 1 && InsertRow(d, i, s).pattern[n.y] == d.pattern[e.y]
  {
    InsertRowSpec(d, i, s);
  }

  /** After `deleteRow(i)` a caller shifts the endpoints past row `i` back by
      one; every endpoint on a surviving row still sits on the same row
      contents. */
  lemma ConnectionsFollowDeletedRow(d: Draft, i: int)
    requires WellFormed(d)
    requires 0 <= i < d.wefts
    ensures var r := UpdateConnections(DeleteRow(d, i), i, -1);
            forall k | 0 <= k < |d.connections| ::
              && (0 <= d.connections[k].start.y < d.wefts && d.connections[k].start.y != i ==>
                    0 <= r.connections[k].start.y < r.wefts &&
                    r.pattern[r.connections[k].start.y] == d.pattern[d.connections[k].start.y])
              && (0 <= d.connections[k].end.y < d.wefts && d.connections[k].end.y != i ==>
                    0 <= r.connections[k].end.y < r.wefts &&
                    r.pattern[r.connections[k].end.y] == d.pattern[d.connections[k].end.y])
  {
    DeleteRowSpec(d, i);
    var r := UpdateConnections(DeleteRow(d, i), i, -1);
    forall k | 0 <= k < |d.connections|
      ensures 0 <= d.connections[k].start.y < d.wefts && d.connections[k].start.y != i ==>
                0 <= r.connections[k].start.y < r.wefts &&
                r.pattern[r.connections[k].start.y] == d.pattern[d.connections[k].start.y]
      ensures 0 <= d.connections[k].end.y < d.wefts && d.connections[k].end.y != i ==>
                0 <= r.connections[k].end.y < r.wefts &&
                r.pattern[r.connections[k].end.y] == d.pattern[d.connections[k].end.y]
    {
      EndpointFollowsDeletedRow(d, i, d.connections[k].start, r.connections[k].start);
      EndpointFollowsDeletedRow(d, i, d.connections[k].end, r.connections[k].end);
    }
  }

  lemma EndpointFollowsDeletedRow(d: Draft, i: int, e: Endpoint, n: Endpoint)
    requires WellFormed(d)
    requires 0 <= i < d.wefts
    requires n == ShiftEndpoint(e, i, -1)
    ensures 0 <= e.y < d.wefts && e.y != i ==>
              0 <= n.y < d.wefts - 1 && DeleteRow(d, i).pattern[n.y] == d.pattern[e.y]
  {
    DeleteRowSpec(d, i);
    var r := DeleteRow(d, i);
    if 0 <= e.y < d.wefts && e.y != i {
      if e.y > i {
        assert n.y == e.y - 1 && i <= n.y < r.wefts;
        assert r.pattern[n.y] == d.pattern[n.y + 1];
      } else {
        assert n == e;
        assert r.pattern[e.y] == d.pattern[e.y];
      }
    }
  }

  // ---- shuttles and images ----------------------------------------------

  /** `seq(n, _ => id)`: the mapping entries an image of `n` rows adds. */
  function Repeat(id: int, n: nat): (s: seq<int>)
    ensures |s| == n && forall k | 0 <= k < n :: s[k] == id
  {
    seq(n, _ => id)
  }

  /** The splice loop of `insertImage` for shuttle `id` and image `data`.
      `wefts` and `visibleRows` are left as they were. */
  function InsertImageRows(d: Draft, id: int, data: Grid): (r: Draft)
    ensures |r.rowShuttleMapping| == |d.rowShuttleMapping| + |data|
    ensures |r.pattern| == |d.pattern| + |data|
    ensures multiset(r.rowShuttleMapping) == multiset(d.rowShuttleMapping) + multiset(Repeat(id, |data|))
    ensures multiset(r.pattern) == multiset(d.pattern) + multiset(data)
    ensures r.rowShuttleMapping == Weave(d.rowShuttleMapping, Repeat(id, |data|))
    ensures |d.pattern| == |d.rowShuttleMapping| ==> r.pattern == Weave(d.pattern, data)
    ensures r.(pattern := d.pattern, rowShuttleMapping := d.rowShuttleMapping) == d
  {
    var max := |d.rowShuttleMapping|;
    var ids := Repeat(id, |data|);
    assert ids[..|ids|] == ids && data[..|data|] == data;
    StepsWeave(d.rowShuttleMapping, ids);
    StepsWeave(d.pattern, data);
    StepsMultiset(d.rowShuttleMapping, ids, max, |data|);
    StepsMultiset(d.pattern, data, max, |data|);
    d.(rowShuttleMapping := Steps(d.rowShuttleMapping, ids, max, |data|),
       pattern := Steps(d.pattern, data, max, |data|))
  }

  /** `insertImage(shuttle)`: a shuttle without an image raises on
      `image.length`. */
  function InsertImage(d: Draft, s: Shuttle): (r: Result<Draft>)
    ensures r.Fail? <==> s.image.None?
    ensures r.Ok? ==> r.value == InsertImageRows(d, s.id, s.image.value)
    ensures r.Ok? ==> r.value.wefts == d.wefts && r.value.visibleRows == d.visibleRows
  {
    if s.image.None? then Fail(TypeError) else Ok(InsertImageRows(d, s.id, s.image.value))
  }

  /** Where the image rows land: image row `t` is placed after existing
      row `t` while existing rows last, and the remaining image rows follow
      the last paired row. The existing rows keep their order. */
  lemma InsertImagePlacement(d: Draft, id: int, data: Grid)
    requires |d.pattern| == |d.rowShuttleMapping|
    ensures WovenFrom(InsertImageRows(d, id, data).pattern, d.pattern, data)
    ensures WovenFrom(InsertImageRows(d, id, data).rowShuttleMapping, d.rowShuttleMapping, Repeat(id, |data|))
  {
    WeaveIndex(d.pattern, data);
    WeaveIndex(d.rowShuttleMapping, Repeat(id, |data|));
  }

  /** With a mapping longer than the drawdown the splice positions,
      counted against the mapping, all fall past the drawdown's end: two
      image rows spliced into an empty drawdown under a two-row mapping
      come out in reverse order, not as `Weave` places them. */
  lemma ShortDrawdownReversesImage(d: Draft, id: int)
    requires d.pattern == [] && d.rowShuttleMapping == [0, 0]
    ensures InsertImageRows(d, id, [[true], [false]]).pattern == [[false], [true]]
    ensures InsertImageRows(d, id, [[true], [false]]).pattern != Weave(d.pattern, [[true], [false]])
  {
    var data: Grid := [[true], [false]];
    assert Steps(d.pattern, data, 2, 2) == Steps(InsertAt([], 2, data[1]), data, 2, 1);
    assert InsertAt([], 2, data[1]) == [data[1]];
    assert Steps([data[1]], data, 2, 1) == Steps(InsertAt([data[1]], 1, data[0]), data, 2, 0);
    assert InsertAt([data[1]], 1, data[0]) == [data[1], data[0]];
    assert Weave(d.pattern, data) == data;
  }

  /** Into a draft with no rows the image arrives in order, every row on
      the new shuttle. */
  lemma InsertImageIntoEmpty(d: Draft, id: int, data: Grid)
    requires d.pattern == [] && d.rowShuttleMapping == []
    ensures InsertImageRows(d, id, data).pattern == data
    ensures InsertImageRows(d, id, data).rowShuttleMapping == Repeat(id, |data|)
  {
    assert Weave(d.pattern, data) == data;
    assert Weave(d.rowShuttleMapping, Repeat(id, |data|)) == Repeat(id, |data|);
  }

  /** The shuttle as `addShuttle` stores it: its id is the next position,
      it is visible, and a thickness left unset takes the draft's epi. */
  function Registered(d: Draft, s: Shuttle): Shuttle
  {
    s.(id := |d.shuttles|, visible := true,
       thickness := if s.thickness == 0.0 then d.epi else s.thickness)
  }

  /** `addShuttle(shuttle)`: appends the shuttle and, when it brings an
      image, splices the image rows in. Neither `wefts` nor `visibleRows`
      is updated. */
  function AddShuttle(d: Draft, s: Shuttle): (r: Draft)
    ensures |r.shuttles| == |d.shuttles| + 1
    ensures r.shuttles[..|d.shuttles|] == d.shuttles
    ensures var n := r.shuttles[|d.shuttles|];
            && n.id == |d.shuttles| && n.visible
            && n.name == s.name && n.color == s.color && n.image == s.image
            && (s.thickness == 0.0 ==> n.thickness == d.epi)
            && (s.thickness != 0.0 ==> n.thickness == s.thickness)
    ensures r.wefts == d.wefts && r.warps == d.warps && r.visibleRows == d.visibleRows
    ensures r.connections == d.connections && r.labels == d.labels && r.patterns == d.patterns
    ensures s.image.None? ==> r.pattern == d.pattern && r.rowShuttleMapping == d.rowShuttleMapping
    ensures s.image.Some? ==>
              && |r.pattern| == |d.pattern| + |s.image.value|
              && |r.rowShuttleMapping| == |d.rowShuttleMapping| + |s.image.value|
              && multiset(r.rowShuttleMapping)
                 == multiset(d.rowShuttleMapping) + multiset(Repeat(|d.shuttles|, |s.image.value|))
    ensures s.image.Some? ==> r == InsertImageRows(d.(shuttles := r.shuttles), |d.shuttles|, s.image.value)
    ensures s.image.Some? && |d.pattern| == |d.rowShuttleMapping| ==>
              && r.pattern == Weave(d.pattern, s.image.value)
              && r.rowShuttleMapping == Weave(d.rowShuttleMapping, Repeat(|d.shuttles|, |s.image.value|))
    ensures r.epi == d.epi
  {
    var added := Registered(d, s);
    var d' := d.(shuttles := d.shuttles + [added]);
    assert d'.shuttles[..|d.shuttles|] == d.shuttles;
    if s.image.Some? then InsertImageRows(d', added.id, s.image.value) else d'
  }

  /** Ids stay equal to positions under `addShuttle`. */
  lemma AddShuttleKeepsIds(d: Draft, s: Shuttle)
    requires IdsArePositions(d.shuttles)
    ensures IdsArePositions(AddShuttle(d, s).shuttles)
  {
    var r := AddShuttle(d, s);
    forall k | 0 <= k < |r.shuttles|
      ensures r.shuttles[k].id == k
    {
      if k < |d.shuttles| {
        assert r.shuttles[k] == r.shuttles[..|d.shuttles|][k];
      }
    }
  }

  /** Visibility depends only on whether each row's shuttle is shown. */
  lemma {:induction false} VisibleRowsAgree(a: seq<Shuttle>, b: seq<Shuttle>, mapping: seq<int>)
    requires forall k | 0 <= k < |mapping| :: Shown(a, mapping[k]) == Shown(b, mapping[k])
    ensures VisibleRowsOf(a, mapping) == VisibleRowsOf(b, mapping)
    decreases |mapping|
  {
    if |mapping| > 0 {
      var n := |mapping| - 1;
      VisibleRowsAgree(a, b, mapping[..n]);
    }
  }

  /** A shuttle without an image keeps a well-formed draft well formed. */
  lemma AddPlainShuttleKeepsWellFormed(d: Draft, s: Shuttle)
    requires WellFormed(d)
    requires s.image.None?
    ensures WellFormed(AddShuttle(d, s))
  {
    var r := AddShuttle(d, s);
    AddShuttleKeepsIds(d, s);
    forall k | 0 <= k < |d.rowShuttleMapping|
      ensures Shown(r.shuttles, d.rowShuttleMapping[k]) == Shown(d.shuttles, d.rowShuttleMapping[k])
    {
      var id := d.rowShuttleMapping[k];
      assert r.shuttles[id] == r.shuttles[..|d.shuttles|][id];
    }
    VisibleRowsAgree(r.shuttles, d.shuttles, d.rowShuttleMapping);
  }

  /** A shuttle with a non-empty image leaves `wefts` behind the drawdown. */
  lemma AddImageShuttleOutgrowsWefts(d: Draft, s: Shuttle)
    requires WellFormed(d)
    requires s.image.Some? && |s.image.value| > 0
    ensures |AddShuttle(d, s).pattern| == AddShuttle(d, s).wefts + |s.image.value|
    ensures !WellFormed(AddShuttle(d, s))
  {
  }

  // ---- worked examples ---------------------------------------------------

  /** `insertRow(1, 0)` on a new two-row draft. */
  lemma InsertRowExample(warps: nat)
    ensures var r := InsertRow(NewDraft(2, warps, 1.0, None), 1, 0);
            && r.wefts == 3 && |r.rowShuttleMapping| == 3 && r.rowShuttleMapping[1] == 0
            && |r.pattern[1]| == warps && forall c | 0 <= c < warps :: !r.pattern[1][c]
  {
    InsertRowSpec(NewDraft(2, warps, 1.0, None), 1, 0);
  }

  /** `updateConnections(1, +1)` on a connection from row 2 to row 0. */
  lemma UpdateConnectionsExample(d: Draft)
    requires d.connections == [Connection(Endpoint(0, 2), Endpoint(0, 0))]
    ensures UpdateConnections(d, 1, 1).connections == [Connection(Endpoint(0, 3), Endpoint(0, 0))]
  {
  }
}
