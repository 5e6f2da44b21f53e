/** A reusable, named, favouritable stamp: a rectangular grid with its
    dimensions kept alongside it. */
module Patterns {
  import opened Outcomes
  import opened Cells
  import opened Grids

  datatype SubPattern<T> = SubPattern(
    height: nat,
    width: nat,
    grid: seq<seq<T>>,
    favorite: bool,
    id: int,
    name: string)

  /** The options object given to the constructor; an absent field is
      `None`. */
  datatype PatternSpec<U> = PatternSpec(
    favorite: Option<bool>,
    id: Option<int>,
    name: Option<string>,
    pattern: Option<seq<seq<U>>>)

  /** `height` rows of `width` entries each. */
  predicate WellShaped<T>(p: SubPattern<T>)
  {
    |p.grid| == p.height && Rectangular(p.grid, p.width)
  }

  /** `new Pattern(obj)`. With no options object at all (`None`) the first
      field read raises; so does a given but empty grid, whose row 0 is
      read for the width. The cells are built by `new Cell(x)`, and the
      cell constructor takes no argument, so every cell is a default cell
      whatever the input held. */
  function NewPattern<U>(obj: Option<PatternSpec<U>>): (r: Result<SubPattern<Cell>>)
    ensures r.Fail? <==> obj.None? || (obj.value.pattern.Some? && |obj.value.pattern.value| == 0)
    ensures r.Ok? ==> WellShaped(r.value)
    ensures r.Ok? ==>
              && (obj.value.favorite.None? ==> !r.value.favorite)
              && (obj.value.favorite.Some? ==> r.value.favorite == obj.value.favorite.value)
              && (obj.value.id.None? ==> r.value.id == -1)
              && (obj.value.id.Some? ==> r.value.id == obj.value.id.value)
              && (obj.value.name.None? ==> r.value.name == "unnamed")
              && (obj.value.name.Some? ==> r.value.name == obj.value.name.value)
    ensures r.Ok? && obj.value.pattern.Some? ==>
              var g := obj.value.pattern.value;
              && r.value.height == |g|
              && r.value.width == |g[0]|
              && forall i, j | 0 <= i < r.value.height && 0 <= j < r.value.width ::
                   r.value.grid[i][j] == NewCell()
    ensures r.Ok? && obj.value.pattern.None? ==>
              r.value.height == 0 && r.value.width == 0 && r.value.grid == []
  {
    match obj
    case None => Fail(TypeError)
    case Some(spec) =>
      var favorite := if spec.favorite.Some? then spec.favorite.value else false;
      var id := if spec.id.Some? then spec.id.value else -1;
      var name := if spec.name.Some? then spec.name.value else "unnamed";
      match spec.pattern
      case None => Ok(SubPattern(0, 0, [], favorite, id, name))
      case Some(g) =>
        if |g| == 0 then Fail(TypeError)
        else
          var width := |g[0]|;
          Ok(SubPattern(|g|, width, seq(|g|, _ => seq(width, _ => NewCell())), favorite, id, name))
  }

  /** `setPattern(g)`: replaces the grid and recomputes the dimensions from
      it, row 0 giving the width; the result is the same pattern, so its
      name, id and favourite flag stay. */
  function SetPattern<T, U>(p: SubPattern<T>, g: seq<seq<U>>): (r: SubPattern<U>)
    ensures r.grid == g && r.height == |g|
    ensures |g| > 0 ==> r.width == |g[0]|
    ensures |g| == 0 ==> r.width == 0
    ensures r.favorite == p.favorite && r.id == p.id && r.name == p.name
  {
    SubPattern(|g|, if |g| > 0 then |g[0]| else 0, g, p.favorite, p.id, p.name)
  }

  /** For a rectangular grid the recomputed dimensions describe it. */
  lemma SetPatternWellShaped<T, U>(p: SubPattern<T>, g: seq<seq<U>>)
    requires forall i | 0 <= i < |g| :: |g[i]| == |g[0]|
    ensures WellShaped(SetPattern(p, g))
  {
  }

  /** Setting the grid a pattern already has changes nothing. */
  lemma SetPatternOwnGrid<T>(p: SubPattern<T>)
    requires WellShaped(p)
    requires p.height == 0 ==> p.width == 0
    ensures SetPattern(p, p.grid) == p
  {
  }

  function ToggleFavorite<T>(p: SubPattern<T>): (r: SubPattern<T>)
    ensures r.favorite == !p.favorite
    ensures r.(favorite := p.favorite) == p
  {
    p.(favorite := !p.favorite)
  }

  lemma ToggleFavoriteTwice<T>(p: SubPattern<T>)
    ensures ToggleFavorite(ToggleFavorite(p)) == p
  {
  }
}
