/** faim_native/index/deterministic_ann.py: how far `_median` lets the tree lean right. */
module VPBalance {
  import opened Ordering
  import opened Vectors
  import opened VPTree

  function CountAbove(values: seq<real>, t: real): nat {
    if values == [] then 0 else (if values[0] > t then 1 else 0) + CountAbove(values[1..], t)
  }

  lemma {:induction false} CountAboveConcat(a: seq<real>, b: seq<real>, t: real)
    ensures CountAbove(a + b, t) == CountAbove(a, t) + CountAbove(b, t)
  {
    if a == [] {
      assert a + b == b;
    } else {
      CountAboveConcat(a[1..], b, t);
      assert (a + b)[1..] == a[1..] + b;
    }
  }

  lemma {:induction false} CountAboveInsert(x: real, s: seq<real>, t: real)
    ensures CountAbove(Insert(RealLe, x, s), t) == (if x > t then 1 else 0) + CountAbove(s, t)
  {
    if s != [] && !RealLe(x, s[0]) { CountAboveInsert(x, s[1..], t); }
  }

  lemma {:induction false} CountAboveSort(s: seq<real>, t: real)
    ensures CountAbove(Sort(RealLe, s), t) == CountAbove(s, t)
  {
    if s != [] {
      CountAboveSort(s[1..], t);
      CountAboveInsert(s[0], Sort(RealLe, s[1..]), t);
    }
  }

  lemma {:induction false} CountAboveBounds(s: seq<real>, t: real)
    ensures CountAbove(s, t) <= |s|
    ensures (forall x :: x in s ==> x <= t) ==> CountAbove(s, t) == 0
  {
    if s != [] {
      CountAboveBounds(s[1..], t);
      assert s[0] in s && forall x :: x in s[1..] ==> x in s;
    }
  }

  lemma CountAboveSorted(s: seq<real>, j: nat, t: real)
    requires Sorted(RealLe, s) && j < |s| && s[j] <= t
    ensures CountAbove(s, t) <= |s| - j - 1
  {
    var lo, hi := s[..j + 1], s[j + 1..];
    assert s == lo + hi;
    CountAboveConcat(lo, hi, t);
    forall x | x in lo ensures x <= t {
      var i :| 0 <= i < j + 1 && lo[i] == x;
      assert i == j || RealLe(s[i], s[j]);
    }
    CountAboveBounds(lo, t);
    CountAboveBounds(hi, t);
  }

  /** At most half of the values lie strictly above their median. */
  lemma MedianHalves(values: seq<real>)
    ensures CountAbove(values, Median(values)) <= |values| / 2
  {
    if values != [] {
      var s, m := Sort(RealLe, values), Median(values);
      SortPermutes(RealLe, values);
      SortSorted(RealLe, values);
      CountAboveSort(values, m);
      MiddleHalves(s);
    }
  }

  function CountBelow(values: seq<real>, t: real): nat {
    if values == [] then 0 else (if values[0] < t then 1 else 0) + CountBelow(values[1..], t)
  }

  function Negated(values: seq<real>): (r: seq<real>)
    ensures |r| == |values|
  {
    Map((x: real) => -x, values)
  }

  lemma {:induction false} BelowIsNegatedAbove(values: seq<real>, t: real)
    ensures CountBelow(values, t) == CountAbove(Negated(values), -t)
  {
    if values != [] {
      BelowIsNegatedAbove(values[1..], t);
      assert Negated(values)[1..] == Negated(values[1..]);
    }
  }

  lemma ReversedSorted(values: seq<real>, s: seq<real>, r: seq<real>)
    requires s == Sort(RealLe, values) && |r| == |s| && forall i | 0 <= i < |r| :: r[i] == -s[|r| - 1 - i]
    ensures Sort(RealLe, Negated(values)) == r
  {
    SortPermutes(RealLe, values);
    SortSorted(RealLe, values);
    forall i, j | 0 <= i < j < |r| ensures RealLe(r[i], r[j]) {
      assert RealLe(s[|r| - 1 - j], s[|r| - 1 - i]);
    }
    MapPermutes((x: real) => -x, s, values);
    ReversePermutes(Negated(s), r);
    SortIs(RealLe, Negated(values), r);
  }

  lemma {:induction false} ReversePermutes(s: seq<real>, r: seq<real>)
    requires |r| == |s| && forall i | 0 <= i < |r| :: r[i] == s[|r| - 1 - i]
    ensures multiset(r) == multiset(s)
  {
    if s != [] {
      var n := |s| - 1;
      assert s == [s[0]] + s[1..] && r == r[..n] + [r[n]];
      ReversePermutes(s[1..], r[..n]);
    }
  }

  lemma MiddleMirrors(s: seq<real>, r: seq<real>)
    requires s != [] && |r| == |s| && forall i | 0 <= i < |r| :: r[i] == -s[|r| - 1 - i]
    ensures Middle(r) == -Middle(s)
  {}

  /** The median mirrors with its values: it is the exact middle, not just some separator. */
  lemma MedianMirrors(values: seq<real>)
    ensures Median(Negated(values)) == -Median(values)
  {
    var s := Sort(RealLe, values);
    SortPermutes(RealLe, values);
    if values != [] {
      var r := seq(|s|, i requires 0 <= i < |s| => -s[|s| - 1 - i]);
      ReversedSorted(values, s, r);
      MiddleMirrors(s, r);
    }
  }

  /** At most half of the values lie strictly below their median. */
  lemma MedianHalvesBelow(values: seq<real>)
    ensures CountBelow(values, Median(values)) <= |values| / 2
  {
    MedianMirrors(values);
    MedianHalves(Negated(values));
    MirrorCounts(values, Median(values), Median(Negated(values)));
  }

  lemma MirrorCounts(values: seq<real>, m: real, mirrored: real)
    requires mirrored == -m && CountAbove(Negated(values), mirrored) <= |values| / 2
    ensures CountBelow(values, m) <= |values| / 2
  {
    BelowIsNegatedAbove(values, m);
  }

  lemma MiddleHalves(s: seq<real>)
    requires s != [] && Sorted(RealLe, s)
    ensures CountAbove(s, Middle(s)) <= |s| / 2
  {
    var mid := |s| / 2;
    if |s| % 2 == 1 {
      CountAboveSorted(s, mid, s[mid]);
    } else {
      assert RealLe(s[mid - 1], s[mid]);
      CountAboveSorted(s, mid - 1, (s[mid - 1] + s[mid]) / 2.0);
    }
  }

  lemma {:induction false} FarCount(gap: Metric, pivot: Point, t: real, points: seq<Point>)
    ensures |Far(gap, pivot, t, points)| == CountAbove(Map(p => gap(pivot, p), points), t)
  {
    if points != [] {
      FarCount(gap, pivot, t, points[1..]);
      var all := Map(p => gap(pivot, p), points);
      assert all[1..] == Map(p => gap(pivot, p), points[1..]);
    }
  }

  lemma {:induction false} NearAndFarCount(gap: Metric, pivot: Point, t: real, points: seq<Point>)
    ensures |Near(gap, pivot, t, points)| + |Far(gap, pivot, t, points)| == |points|
  {
    if points != [] { NearAndFarCount(gap, pivot, t, points[1..]); }
  }

  /** The pivot leaves both sides, and at most half of what remains goes right. */
  lemma CutSizes(gap: Metric, ps: seq<Point>)
    requires ps != []
    ensures var c := CutOf(gap, ps);
            |c.near| + |c.far| <= |ps| - 1 && 2 * |c.far| <= |ps| - 1
  {
    var c := CutOf(gap, ps);
    var others := Others(c.pivot, ps);
    FilterShrinks((p: Point) => p.id != c.pivot.id, ps, c.pivot);
    NearAndFarCount(gap, c.pivot, c.threshold, others);
    FarCount(gap, c.pivot, c.threshold, others);
    MedianHalves(Map(p => gap(c.pivot, p), others));
  }

  /** The most right turns on any path from the root to a leaf. */
  function RightTurns(t: Tree): nat {
    match t
    case Empty => 0
    case Node(_, _, l, r) =>
      var viaRight := if r.Empty? then 0 else 1 + RightTurns(r);
      if RightTurns(l) >= viaRight then RightTurns(l) else viaRight
  }

  function PowerOfTwo(n: nat): nat {
    if n == 0 then 1 else 2 * PowerOfTwo(n - 1)
  }

  /** Node counts bound right turns through one more level. */
  lemma TurnsOfNode(p: Point, t: real, l: Tree, r: Tree, n: nat)
    requires PowerOfTwo(RightTurns(l)) <= n
    requires r.Empty? || 2 * PowerOfTwo(RightTurns(r)) <= n
    ensures PowerOfTwo(RightTurns(Node(p, t, l, r))) <= n
  {}

  /** A path over n points takes at most log2(n) right turns, duplicate ids or not. */
  lemma {:induction false} RightTurnsAreLogarithmic(sqrt: real -> real, points: seq<Point>)
    requires points != []
    ensures PowerOfTwo(RightTurns(Build(sqrt, points))) <= |points|
    decreases |points|
  {
    var ps := PrepareAll(sqrt, points);
    if |ps| > 1 {
      var c := CutOf(Gap(sqrt), ps);
      CutSizes(Gap(sqrt), ps);
      if c.near != [] { RightTurnsAreLogarithmic(sqrt, c.near); }
      if c.far != [] { RightTurnsAreLogarithmic(sqrt, c.far); }
      TurnsOfNode(c.pivot, c.threshold, Build(sqrt, c.near), Build(sqrt, c.far), |ps|);
    }
  }
}
