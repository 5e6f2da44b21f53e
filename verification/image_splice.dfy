/** The splice loop of `insertImage`, on one array: for i = n down to 1 it
    inserts `b[i-1]` at `min(max, i)`, where `max` is the mapping length
    read before the loop. When the array starts with `max` entries the
    result is `Weave`: the first image rows alternate with the first
    existing rows, and the rest of the image precedes the rest of the
    array. */
module ImageSplice {
  import opened Grids

  /** `a[0], b[0], a[1], b[1], ...` */
  function Interleave<T>(a: seq<T>, b: seq<T>): (r: seq<T>)
    requires |a| == |b|
    ensures |r| == |a| + |b|
    decreases |a|
  {
    if |a| == 0 then [] else [a[0], b[0]] + Interleave(a[1..], b[1..])
  }

  lemma {:induction false} InterleaveIndex<T>(a: seq<T>, b: seq<T>, t: nat)
    requires |a| == |b| && t < |a|
    ensures Interleave(a, b)[2 * t] == a[t] && Interleave(a, b)[2 * t + 1] == b[t]
    decreases t
  {
    if t > 0 {
      InterleaveIndex(a[1..], b[1..], t - 1);
    }
  }

  function Weave<T>(a: seq<T>, b: seq<T>): seq<T>
  {
    var k := Min(|a|, |b|);
    Interleave(a[..k], b[..k]) + b[k..] + a[k..]
  }

  /** `w` holds `a` and `b` placed as `Weave` places them: `b[t]` right
      after `a[t]` while both last, then the rest of `b`, then the rest
      of `a`. */
  ghost predicate WovenFrom<T>(w: seq<T>, a: seq<T>, b: seq<T>)
  {
    var k := Min(|a|, |b|);
    && |w| == |a| + |b|
    && (forall t | 0 <= t < k :: w[2 * t] == a[t] && w[2 * t + 1] == b[t])
    && (forall t | k <= t < |b| :: w[|a| + t] == b[t])
    && (forall t | k <= t < |a| :: w[|b| + t] == a[t])
  }

  lemma WeaveIndex<T>(a: seq<T>, b: seq<T>)
    ensures WovenFrom(Weave(a, b), a, b)
  {
    var k := Min(|a|, |b|);
    var z := Interleave(a[..k], b[..k]);
    assert Weave(a, b) == z + b[k..] + a[k..];
    forall t | 0 <= t < k
      ensures Weave(a, b)[2 * t] == a[t] && Weave(a, b)[2 * t + 1] == b[t]
    {
      InterleaveIndex(a[..k], b[..k], t);
      assert a[..k][t] == a[t] && b[..k][t] == b[t];
    }
  }

  /** The state after the loop has spliced `b[i..]`. */
  function Partial<T>(a: seq<T>, b: seq<T>, i: nat): seq<T>
    requires i <= |b|
  {
    var k := Min(|a|, |b|);
    var j := Min(i, k);
    a[..j] + Interleave(a[j..k], b[j..k]) + b[if i < k then k else i..] + a[k..]
  }

  /** The loop from iteration `i` down to 1. What it computes is stated
      by `StepsMultiset` (exactly `b`'s entries are added), and by
      `StepsFromPartial` and `StepsWeave` (on `max` existing entries the
      result is `Weave`). */
  function Steps<T>(s: seq<T>, b: seq<T>, max: nat, i: nat): (r: seq<T>)
    requires i <= |b|
    ensures |r| == |s| + i
    decreases i
  {
    if i == 0 then s
    else Steps(InsertAt(s, Min(max, i), b[i - 1]), b, max, i - 1)
  }

  /** The loop adds exactly the image's entries, wherever it puts them. */
  lemma {:induction false} StepsMultiset<T>(s: seq<T>, b: seq<T>, max: nat, i: nat)
    requires i <= |b|
    ensures multiset(Steps(s, b, max, i)) == multiset(s) + multiset(b[..i])
    decreases i
  {
    if i > 0 {
      assert b[..i] == b[..i - 1] + [b[i - 1]];
      InsertAtMultiset(s, Min(max, i), b[i - 1]);
      assert multiset(InsertAt(s, Min(max, i), b[i - 1])) == multiset(s) + multiset{b[i - 1]};
      StepsMultiset(InsertAt(s, Min(max, i), b[i - 1]), b, max, i - 1);
    }
  }

  lemma InsertAtInRange<T>(s: seq<T>, k: int, x: T)
    requires 0 <= k <= |s|
    ensures InsertAt(s, k, x) == s[..k] + [x] + s[k..]
  {
  }

  /** An iteration past the existing entries inserts at their end. */
  lemma PartialStepAfter<T>(a: seq<T>, b: seq<T>, i: nat)
    requires Min(|a|, |b|) < i <= |b|
    ensures InsertAt(Partial(a, b, i), Min(|a|, i), b[i - 1]) == Partial(a, b, i - 1)
  {
    var p := Partial(a, b, i);
    assert Min(|a|, |b|) == |a|;
    assert p == a + b[i..];
    assert Partial(a, b, i - 1) == a + b[i - 1..];
    assert b[i - 1..] == [b[i - 1]] + b[i..];
    InsertAtInRange(p, |a|, b[i - 1]);
    assert p[..|a|] == a && p[|a|..] == b[i..];
  }

  lemma InterleaveFrom<T>(a: seq<T>, b: seq<T>, i: nat, k: nat)
    requires 1 <= i <= k <= |a| && k <= |b|
    ensures Interleave(a[i - 1..k], b[i - 1..k]) == [a[i - 1], b[i - 1]] + Interleave(a[i..k], b[i..k])
  {
    assert a[i - 1..k][1..] == a[i..k];
    assert b[i - 1..k][1..] == b[i..k];
  }

  /** `Partial(a, b, i)` for `i` among the existing entries, split at `i`. */
  lemma PartialAmong<T>(a: seq<T>, b: seq<T>, i: nat)
    requires i <= Min(|a|, |b|)
    ensures var k := Min(|a|, |b|);
            Partial(a, b, i) == a[..i] + (Interleave(a[i..k], b[i..k]) + b[k..] + a[k..])
  {
  }

  lemma InsertAfterPair<T>(pre: seq<T>, last: T, tail: seq<T>, x: T)
    ensures InsertAt(pre + [last] + tail, |pre| + 1, x) == pre + ([last, x] + tail)
  {
    var s := pre + [last] + tail;
    InsertAtInRange(s, |pre| + 1, x);
    assert s[..|pre| + 1] == pre + [last];
    assert s[|pre| + 1..] == tail;
  }

  /** An iteration among the existing entries pairs `a[i-1]` with `b[i-1]`. */
  lemma PartialStepAmong<T>(a: seq<T>, b: seq<T>, i: nat)
    requires 1 <= i <= Min(|a|, |b|)
    ensures InsertAt(Partial(a, b, i), Min(|a|, i), b[i - 1]) == Partial(a, b, i - 1)
  {
    var k := Min(|a|, |b|);
    var tail := Interleave(a[i..k], b[i..k]) + b[k..] + a[k..];
    var pre := a[..i - 1];
    PartialAmong(a, b, i);
    assert a[..i] == pre + [a[i - 1]];
    assert Partial(a, b, i) == pre + [a[i - 1]] + tail;
    InsertAfterPair(pre, a[i - 1], tail, b[i - 1]);
    PartialBefore(a, b, i);
  }

  /** `Partial(a, b, i - 1)` for `i` among the existing entries: the pair
      `a[i-1], b[i-1]` in front of what `Partial(a, b, i)` has after `a[..i]`. */
  lemma PartialBefore<T>(a: seq<T>, b: seq<T>, i: nat)
    requires 1 <= i <= Min(|a|, |b|)
    ensures var k := Min(|a|, |b|);
            Partial(a, b, i - 1)
            == a[..i - 1] + ([a[i - 1], b[i - 1]] + (Interleave(a[i..k], b[i..k]) + b[k..] + a[k..]))
  {
    var k := Min(|a|, |b|);
    PartialAmong(a, b, i - 1);
    InterleaveFrom(a, b, i, k);
  }

  lemma PartialZero<T>(a: seq<T>, b: seq<T>)
    ensures Partial(a, b, 0) == Weave(a, b)
  {
    var k := Min(|a|, |b|);
    assert a[..0] == [] && a[0..k] == a[..k] && b[0..k] == b[..k];
  }

  lemma {:induction false} StepsFromPartial<T>(a: seq<T>, b: seq<T>, i: nat)
    requires i <= |b|
    ensures Steps(Partial(a, b, i), b, |a|, i) == Weave(a, b)
    decreases i
  {
    if i == 0 {
      PartialZero(a, b);
    } else {
      var p := Partial(a, b, i);
      var q := InsertAt(p, Min(|a|, i), b[i - 1]);
      if i > Min(|a|, |b|) {
        PartialStepAfter(a, b, i);
      } else {
        PartialStepAmong(a, b, i);
      }
      assert q == Partial(a, b, i - 1);
      assert Steps(p, b, |a|, i) == Steps(q, b, |a|, i - 1);
      StepsFromPartial(a, b, i - 1);
    }
  }

  /** Run on an array of exactly `max` entries, the loop computes `Weave`. */
  lemma StepsWeave<T>(a: seq<T>, b: seq<T>)
    ensures Steps(a, b, |a|, |b|) == Weave(a, b)
  {
    var k := Min(|a|, |b|);
    assert Partial(a, b, |b|) == a by {
      assert Interleave(a[k..k], b[k..k]) == [];
      assert b[|b|..] == [];
      assert a[..k] + a[k..] == a;
    }
    StepsFromPartial(a, b, |b|);
  }
}
