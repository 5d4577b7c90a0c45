/** faim_native/index/deterministic_ann.py: the vantage-point tree, its branch-and-bound
    search, and the brute-force ranking it must reproduce. */
module VPTree {
  import opened Ordering
  import opened Ranking
  import opened Vectors

  datatype Point = Point(id: Id, vector: Vec, unit: Vec)

  datatype Tree = Empty | Node(point: Point, threshold: real, left: Tree, right: Tree)

  /** `point.unit_vector or _normalize_vector(point.vector)` */
  function UnitOf(sqrt: real -> real, p: Point): Vec {
    if p.unit != [] then p.unit else Normalize(sqrt, p.vector)
  }

  function EnsureUnit(sqrt: real -> real, p: Point): Point {
    p.(unit := UnitOf(sqrt, p))
  }

  function PrepareAll(sqrt: real -> real, points: seq<Point>): (r: seq<Point>)
    ensures |r| == |points|
    ensures forall i | 0 <= i < |r| :: r[i] == EnsureUnit(sqrt, points[i])
  {
    Map(p => EnsureUnit(sqrt, p), points)
  }

  predicate RealLe(x: real, y: real) { x <= y }

  predicate IdLe(p: Point, q: Point) { p.id <= q.id }

  function Median(values: seq<real>): real {
    if values == [] then 0.0
    else
      var ordered := Sort(RealLe, values);
      SortPermutes(RealLe, values);
      Middle(ordered)
  }

  function Middle(ordered: seq<real>): real
    requires ordered != []
  {
    var mid := |ordered| / 2;
    if |ordered| % 2 == 1 then ordered[mid] else (ordered[mid - 1] + ordered[mid]) / 2.0
  }

  function ChoosePivot(points: seq<Point>): (p: Point)
    requires points != []
    ensures p in points
  {
    SortPermutes(IdLe, points);
    var p := Sort(IdLe, points)[0];
    assert p in multiset(points);
    p
  }

  function Others(pivot: Point, points: seq<Point>): seq<Point> {
    Filter((p: Point) => p.id != pivot.id, points)
  }

  type Metric = (Point, Point) -> real

  /** `_euclidean_distance` between the unit vectors of two prepared points. */
  function Gap(sqrt: real -> real): Metric {
    (p: Point, q: Point) => Euclidean(sqrt, p.unit, q.unit)
  }

  function Near(gap: Metric, pivot: Point, threshold: real, points: seq<Point>): seq<Point> {
    Filter(p => gap(pivot, p) <= threshold, points)
  }

  function Far(gap: Metric, pivot: Point, threshold: real, points: seq<Point>): seq<Point> {
    Filter(p => gap(pivot, p) > threshold, points)
  }

  datatype Cut = Cut(pivot: Point, threshold: real, near: seq<Point>, far: seq<Point>)

  function CutAround(gap: Metric, pivot: Point, points: seq<Point>): Cut {
    var others := Others(pivot, points);
    var threshold := Median(Map(p => gap(pivot, p), others));
    Cut(pivot, threshold, Near(gap, pivot, threshold, others), Far(gap, pivot, threshold, others))
  }

  function CutOf(gap: Metric, points: seq<Point>): (c: Cut)
    requires points != []
    ensures c.pivot in points && |c.near| < |points| && |c.far| < |points|
  {
    var pivot := ChoosePivot(points);
    FilterShrinks((p: Point) => p.id != pivot.id, points, pivot);
    CutAround(gap, pivot, points)
  }

  function Build(sqrt: real -> real, points: seq<Point>): Tree
    decreases |points|
  {
    if points == [] then Empty
    else
      var ps := PrepareAll(sqrt, points);
      if |ps| == 1 then Node(ps[0], 0.0, Empty, Empty)
      else
        var c := CutOf(Gap(sqrt), ps);
        Node(c.pivot, c.threshold, Build(sqrt, c.near), Build(sqrt, c.far))
  }

  // ---- the brute-force ranking

  function Score(sqrt: real -> real, query: Vec, p: Point): Scored {
    Scored(p.id, Cosine(sqrt, query, UnitOf(sqrt, p)))
  }

  function Scores(sqrt: real -> real, unit: Vec, points: seq<Point>): (r: seq<Scored>)
    ensures |r| == |points| && forall i | 0 <= i < |r| :: r[i] == Score(sqrt, unit, points[i])
  {
    Map(p => Score(sqrt, unit, p), points)
  }

  function ExactTopK(sqrt: real -> real, points: seq<Point>, query: Vec, k: int): seq<Scored> {
    Prefix(Sort(ScoredLe, Scores(sqrt, Normalize(sqrt, query), points)), k)
  }

  // ---- what the build guarantees

  /** Unit vectors of one dimension: a stored one has squared length 1, or 0 for a zero vector. */
  ghost predicate WellFormed(sqrt: real -> real, dim: nat, points: seq<Point>) {
    forall p :: p in points ==> |UnitOf(sqrt, p)| == dim && (p.unit == [] || UnitOrZero(p.unit))
  }

  ghost predicate DistinctIds(points: seq<Point>) {
    forall i, j | 0 <= i < j < |points| :: points[i].id != points[j].id
  }

  /** Rows that repeat an id repeat the whole point. */
  ghost predicate OnePointPerId(points: seq<Point>) {
    forall x, y :: x in points && y in points && x.id == y.id ==> x == y
  }

  function PointsOf(t: Tree): seq<Point> {
    match t
    case Empty => []
    case Node(p, _, l, r) => [p] + PointsOf(l) + PointsOf(r)
  }

  ghost predicate Within(gap: Metric, p: Point, threshold: real, s: seq<Point>) {
    forall x :: x in s ==> gap(p, x) <= threshold
  }

  ghost predicate Outside(gap: Metric, p: Point, threshold: real, s: seq<Point>) {
    forall x :: x in s ==> gap(p, x) > threshold
  }

  /** Left subtrees lie within the threshold of the pivot, right subtrees beyond it. */
  ghost predicate Separated(gap: Metric, t: Tree) {
    match t
    case Empty => true
    case Node(p, threshold, l, r) =>
      && Within(gap, p, threshold, PointsOf(l)) && Outside(gap, p, threshold, PointsOf(r))
      && Separated(gap, l) && Separated(gap, r)
  }

  lemma PrepareIdempotent(sqrt: real -> real, points: seq<Point>)
    ensures PrepareAll(sqrt, PrepareAll(sqrt, points)) == PrepareAll(sqrt, points)
  {
    forall i | 0 <= i < |points|
      ensures EnsureUnit(sqrt, EnsureUnit(sqrt, points[i])) == EnsureUnit(sqrt, points[i])
    {}
  }

  lemma PreparedSubset(sqrt: real -> real, points: seq<Point>, some: seq<Point>)
    requires PrepareAll(sqrt, points) == points && forall x :: x in some ==> x in points
    ensures PrepareAll(sqrt, some) == some
  {
    forall i | 0 <= i < |some| ensures EnsureUnit(sqrt, some[i]) == some[i] {
      assert some[i] in points;
      var j :| 0 <= j < |points| && points[j] == some[i];
      assert PrepareAll(sqrt, points)[j] == EnsureUnit(sqrt, points[j]);
    }
  }

  ghost predicate HasId(points: seq<Point>, id: Id) {
    exists x :: x in points && x.id == id
  }

  ghost predicate Among(some: seq<Point>, points: seq<Point>) {
    forall x :: x in some ==> x in points
  }

  /** A point for every id. */
  ghost predicate Covers(some: seq<Point>, points: seq<Point>) {
    forall p :: p in points ==> HasId(some, p.id)
  }

  /** A cut deals the points out to pivot, near and far, and drops other copies of the pivot's id. */
  ghost predicate Deals(gap: Metric, ps: seq<Point>, c: Cut) {
    && c.pivot in ps
    && (forall x :: x in c.near || x in c.far ==> x in ps && x.id != c.pivot.id)
    && (forall x :: x in ps ==> x.id == c.pivot.id || x in c.near || x in c.far)
    && Within(gap, c.pivot, c.threshold, c.near) && Outside(gap, c.pivot, c.threshold, c.far)
  }

  lemma CutDeals(gap: Metric, ps: seq<Point>)
    requires ps != []
    ensures Deals(gap, ps, CutOf(gap, ps))
  {}

  /** The tree is separated and holds no point twice, only points given, and some point for
      every id given. */
  ghost predicate Holds(gap: Metric, t: Tree, ps: seq<Point>) {
    Separated(gap, t) && Distinct(PointsOf(t)) && Among(PointsOf(t), ps) && Covers(PointsOf(t), ps)
  }

  lemma DistinctConcat(a: seq<Point>, b: seq<Point>)
    requires Distinct(a) && Distinct(b) && forall x :: x in a ==> x !in b
    ensures Distinct(a + b)
  {
    forall i, j | 0 <= i < j < |a + b| ensures (a + b)[i] != (a + b)[j] {
      if i < |a| && j >= |a| { assert a[i] in a && b[j - |a|] in b; }
    }
  }

  lemma SidesCover(gap: Metric, ps: seq<Point>, c: Cut, l: seq<Point>, r: seq<Point>)
    requires Deals(gap, ps, c) && Covers(l, c.near) && Covers(r, c.far)
    ensures Covers([c.pivot] + l + r, ps)
  {
    var all := [c.pivot] + l + r;
    assert forall x :: x in all <==> x == c.pivot || x in l || x in r;
    forall p | p in ps ensures HasId(all, p.id) {
      if p.id == c.pivot.id {
        assert c.pivot in all;
      } else if p in c.near {
        assert HasId(l, p.id);
      } else {
        assert HasId(r, p.id);
      }
    }
  }

  lemma SidesDistinct(gap: Metric, ps: seq<Point>, c: Cut, l: seq<Point>, r: seq<Point>)
    requires Deals(gap, ps, c) && Among(l, c.near) && Among(r, c.far) && Distinct(l) && Distinct(r)
    ensures Within(gap, c.pivot, c.threshold, l) && Outside(gap, c.pivot, c.threshold, r)
    ensures Distinct([c.pivot] + l + r) && Among([c.pivot] + l + r, ps)
  {
    DistinctConcat([c.pivot], l);
    DistinctConcat([c.pivot] + l, r);
  }

  lemma Assemble(gap: Metric, ps: seq<Point>, c: Cut, l: Tree, r: Tree)
    requires Deals(gap, ps, c) && Holds(gap, l, c.near) && Holds(gap, r, c.far)
    ensures Holds(gap, Node(c.pivot, c.threshold, l, r), ps)
  {
    SidesCover(gap, ps, c, PointsOf(l), PointsOf(r));
    SidesDistinct(gap, ps, c, PointsOf(l), PointsOf(r));
  }

  /** What the tree holds, repeated ids or not. */
  lemma {:induction false} BuildHolds(sqrt: real -> real, points: seq<Point>)
    ensures Holds(Gap(sqrt), Build(sqrt, points), PrepareAll(sqrt, points))
    decreases |points|
  {
    var ps := PrepareAll(sqrt, points);
    if |ps| == 1 {
      assert PointsOf(Build(sqrt, points)) == ps;
    } else if |ps| > 1 {
      var c := CutOf(Gap(sqrt), ps);
      CutDeals(Gap(sqrt), ps);
      PrepareIdempotent(sqrt, points);
      PreparedSubset(sqrt, ps, c.near);
      PreparedSubset(sqrt, ps, c.far);
      BuildHolds(sqrt, c.near);
      BuildHolds(sqrt, c.far);
      Assemble(Gap(sqrt), ps, c, Build(sqrt, c.near), Build(sqrt, c.far));
    }
  }

  lemma PreparedDistinct(sqrt: real -> real, points: seq<Point>)
    requires DistinctIds(points)
    ensures Distinct(PrepareAll(sqrt, points))
  {
    var ps := PrepareAll(sqrt, points);
    forall i, j | 0 <= i < j < |ps| ensures ps[i] != ps[j] {
      assert ps[i].id == points[i].id && ps[j].id == points[j].id;
    }
  }

  lemma PreparedOnePerId(sqrt: real -> real, points: seq<Point>)
    requires OnePointPerId(points)
    ensures OnePointPerId(PrepareAll(sqrt, points))
  {
    var ps := PrepareAll(sqrt, points);
    forall x, y | x in ps && y in ps && x.id == y.id ensures x == y {
      var i :| 0 <= i < |ps| && ps[i] == x;
      var j :| 0 <= j < |ps| && ps[j] == y;
      assert points[i] in points && points[j] in points;
    }
  }

  lemma DistinctIdsOnePointPerId(points: seq<Point>)
    requires DistinctIds(points)
    ensures OnePointPerId(points)
  {
    forall x, y | x in points && y in points && x.id == y.id ensures x == y {
      var i :| 0 <= i < |points| && points[i] == x;
      var j :| 0 <= j < |points| && points[j] == y;
    }
  }

  /** The tree keeps every point, exactly once, when rows that repeat an id repeat the point. */
  lemma BuildKeepsPoints(sqrt: real -> real, points: seq<Point>)
    requires OnePointPerId(points)
    ensures forall x :: x in PointsOf(Build(sqrt, points)) <==> x in PrepareAll(sqrt, points)
    ensures DistinctIds(points) ==> multiset(PointsOf(Build(sqrt, points))) == multiset(PrepareAll(sqrt, points))
  {
    var held, ps := PointsOf(Build(sqrt, points)), PrepareAll(sqrt, points);
    BuildHolds(sqrt, points);
    PreparedOnePerId(sqrt, points);
    forall x | x in ps ensures x in held {
      assert HasId(held, x.id);
      var y :| y in held && y.id == x.id;
      assert y in ps;
    }
    if DistinctIds(points) {
      PreparedDistinct(sqrt, points);
      DistinctMembers(held, ps);
    }
  }

  // ---- the tree does not depend on the order of its input

  lemma PivotIgnoresOrder(p: seq<Point>, q: seq<Point>)
    requires p != [] && q != [] && multiset(p) == multiset(q) && OnePointPerId(p)
    ensures ChoosePivot(p) == ChoosePivot(q)
  {
    var a, b := ChoosePivot(p), ChoosePivot(q);
    PivotIsLeast(p);
    PivotIsLeast(q);
    SameMembers(p, q);
    assert a.id == b.id;
  }

  lemma PivotIsLeast(p: seq<Point>)
    requires p != []
    ensures forall x :: x in p ==> ChoosePivot(p).id <= x.id
  {
    var s := Sort(IdLe, p);
    SortPermutes(IdLe, p);
    SortSorted(IdLe, p);
    SameMembers(s, p);
    forall x | x in p ensures s[0].id <= x.id {
      var i :| 0 <= i < |s| && s[i] == x;
      assert i == 0 || IdLe(s[0], s[i]);
    }
  }

  lemma ThresholdIgnoresOrder(gap: Metric, pivot: Point, o: seq<Point>, r: seq<Point>)
    requires multiset(o) == multiset(r)
    ensures Median(Map(p => gap(pivot, p), o)) == Median(Map(p => gap(pivot, p), r))
  {
    var distance := (x: Point) => gap(pivot, x);
    MapPermutes(distance, o, r);
    SortCanonical(RealLe, Map(distance, o), Map(distance, r));
    MedianIgnoresOrder(Map(distance, o), Map(distance, r));
    assert Map(p => gap(pivot, p), o) == Map(distance, o);
    assert Map(p => gap(pivot, p), r) == Map(distance, r);
  }

  lemma MedianIgnoresOrder(a: seq<real>, b: seq<real>)
    requires multiset(a) == multiset(b)
    ensures Median(a) == Median(b)
  {
    SameLength(a, b);
    SortCanonical(RealLe, a, b);
  }

  lemma SidesIgnoreOrder(gap: Metric, pivot: Point, threshold: real, o: seq<Point>, r: seq<Point>)
    requires multiset(o) == multiset(r)
    ensures multiset(Near(gap, pivot, threshold, o)) == multiset(Near(gap, pivot, threshold, r))
    ensures multiset(Far(gap, pivot, threshold, o)) == multiset(Far(gap, pivot, threshold, r))
  {
    FilterPermutes((x: Point) => gap(pivot, x) <= threshold, o, r);
    FilterPermutes((x: Point) => gap(pivot, x) > threshold, o, r);
  }

  ghost predicate SameCut(c: Cut, d: Cut) {
    && c.pivot == d.pivot && c.threshold == d.threshold
    && multiset(c.near) == multiset(d.near) && multiset(c.far) == multiset(d.far)
  }

  lemma CutAroundIgnoresOrder(gap: Metric, pivot: Point, p: seq<Point>, q: seq<Point>)
    requires multiset(p) == multiset(q)
    ensures SameCut(CutAround(gap, pivot, p), CutAround(gap, pivot, q))
  {
    FilterPermutes((x: Point) => x.id != pivot.id, p, q);
    var o, r := Others(pivot, p), Others(pivot, q);
    ThresholdIgnoresOrder(gap, pivot, o, r);
    SidesIgnoreOrder(gap, pivot, CutAround(gap, pivot, p).threshold, o, r);
  }

  lemma CutIgnoresOrder(gap: Metric, p: seq<Point>, q: seq<Point>)
    requires p != [] && q != [] && multiset(p) == multiset(q) && OnePointPerId(p)
    ensures SameCut(CutOf(gap, p), CutOf(gap, q))
  {
    PivotIgnoresOrder(p, q);
    CutAroundIgnoresOrder(gap, ChoosePivot(p), p, q);
  }

  /** The build is deterministic: the same points in any order give the same tree, when rows
      that repeat an id repeat the point. */
  lemma {:induction false} BuildIgnoresOrder(sqrt: real -> real, p: seq<Point>, q: seq<Point>)
    requires multiset(p) == multiset(q) && OnePointPerId(p)
    ensures Build(sqrt, p) == Build(sqrt, q)
    decreases |p|
  {
    SameLength(p, q);
    var ps, qs := PrepareAll(sqrt, p), PrepareAll(sqrt, q);
    assert multiset(ps) == multiset(qs) by {
      MapPermutes((x: Point) => EnsureUnit(sqrt, x), p, q);
    }
    if |p| == 1 {
      SameMembers(ps, qs);
      assert ps[0] in qs;
    } else if |p| > 1 {
      PreparedOnePerId(sqrt, p);
      CutIgnoresOrder(Gap(sqrt), ps, qs);
      CutDeals(Gap(sqrt), ps);
      BuildIgnoresOrder(sqrt, CutOf(Gap(sqrt), ps).near, CutOf(Gap(sqrt), qs).near);
      BuildIgnoresOrder(sqrt, CutOf(Gap(sqrt), ps).far, CutOf(Gap(sqrt), qs).far);
    }
  }
}
