/** Boolean drawdown grids and the JavaScript array primitives the draft
    code is written with (`splice` with its index normalisation). */
module Grids {

  type Row = seq<bool>
  type Grid = seq<seq<bool>>

  /** Number of iterations of `for (k = 0; k < n; k++)`. */
  function Count(n: int): nat
  {
    if n < 0 then 0 else n
  }

  function Min(a: int, b: int): int
  {
    if a < b then a else b
  }

  /** Every row of `g` has exactly `width` entries. */
  predicate Rectangular<T>(g: seq<seq<T>>, width: int)
  {
    forall r | 0 <= r < |g| :: |g[r]| == width
  }

  /** No entry of `s` occurs twice. */
  predicate Distinct<T(==)>(s: seq<T>)
  {
    forall a, b | 0 <= a < b < |s| :: s[a] != s[b]
  }

  /** Same number of rows, and row by row the same length. */
  predicate SameShape<T>(a: seq<seq<T>>, b: seq<seq<T>>)
  {
    |a| == |b| && forall r | 0 <= r < |a| :: |a[r]| == |b[r]|
  }

  /** Grids of the same shape that agree cell by cell are equal. */
  lemma GridsEqual<T>(a: seq<seq<T>>, b: seq<seq<T>>)
    requires SameShape(a, b)
    requires forall r, c | 0 <= r < |a| && 0 <= c < |a[r]| :: a[r][c] == b[r][c]
    ensures a == b
  {
    forall r | 0 <= r < |a| ensures a[r] == b[r] {
    }
  }

  function Falses(n: nat): (row: Row)
    ensures |row| == n
    ensures forall c | 0 <= c < n :: !row[c]
  {
    seq(n, _ => false)
  }

  function FalseGrid(height: nat, width: nat): (g: Grid)
    ensures |g| == height && Rectangular(g, width)
    ensures forall r, c | 0 <= r < height && 0 <= c < width :: !g[r][c]
  {
    seq(height, _ => Falses(width))
  }

  /** Where `Array.prototype.splice(start, ...)` acts on an array of length
      `len`: a negative start counts back from the end, and both ends clamp. */
  function SpliceStart(start: int, len: nat): (k: nat)
    ensures k <= len
    ensures 0 <= start <= len ==> k == start
    ensures start > len ==> k == len
  {
    if start < 0 then Count(len + start) else if start > len then len else start
  }

  /** `s.splice(start, 0, x)`: `x` lands at the normalised start and the
      entries from there on move up by one. */
  function InsertAt<T>(s: seq<T>, start: int, x: T): (r: seq<T>)
    ensures |r| == |s| + 1
    ensures r[SpliceStart(start, |s|)] == x
    ensures forall k | 0 <= k < SpliceStart(start, |s|) :: r[k] == s[k]
    ensures forall k | SpliceStart(start, |s|) < k < |r| :: r[k] == s[k - 1]
  {
    var k := SpliceStart(start, |s|);
    assert s == s[..k] + s[k..];
    s[..k] + [x] + s[k..]
  }

  /** Inserting adds exactly one entry, whatever the position. */
  lemma InsertAtMultiset<T>(s: seq<T>, start: int, x: T)
    ensures multiset(InsertAt(s, start, x)) == multiset(s) + multiset{x}
  {
    var k := SpliceStart(start, |s|);
    assert s == s[..k] + s[k..];
  }

  /** `s.splice(start, 1)`: removes the entry at the normalised start, and
      nothing when that start is the end of the array. */
  function RemoveAt<T>(s: seq<T>, start: int): (r: seq<T>)
    ensures SpliceStart(start, |s|) == |s| ==> r == s
    ensures SpliceStart(start, |s|) < |s| ==> |r| == |s| - 1
    ensures forall k | 0 <= k < SpliceStart(start, |s|) && k < |r| :: r[k] == s[k]
    ensures SpliceStart(start, |s|) < |s| ==>
              forall k | SpliceStart(start, |s|) <= k < |r| :: r[k] == s[k + 1]
  {
    var k := SpliceStart(start, |s|);
    if k < |s| then s[..k] + s[k + 1..] else s
  }

  /** Removing at the index just inserted at gives the array back. */
  lemma RemoveInsert<T>(s: seq<T>, i: int, x: T)
    requires 0 <= i <= |s|
    ensures RemoveAt(InsertAt(s, i, x), i) == s
  {
    var t := InsertAt(s, i, x);
    assert SpliceStart(i, |t|) == i;
    var r := RemoveAt(t, i);
    assert |r| == |s|;
    forall k | 0 <= k < |s|
      ensures r[k] == s[k]
    {
      if k >= i {
        assert r[k] == t[k + 1];
      }
    }
  }
}
