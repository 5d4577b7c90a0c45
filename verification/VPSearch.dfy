/** faim_native/index/deterministic_ann.py: `search_vptree` against `exact_top_k`. */
module VPSearch {
  import opened Ordering
  import opened Ranking
  import opened Vectors
  import opened VPTree

  datatype Candidate = Candidate(distance: real, id: Id)

  predicate CandidateLe(a: Candidate, b: Candidate) {
    a.distance < b.distance || (a.distance == b.distance && a.id <= b.id)
  }

  /** `worst_distance()`: infinite until k candidates are held. */
  datatype Bound = Infinite | Finite(distance: real)

  function CandidateOf(sqrt: real -> real, query: Vec, p: Point): Candidate {
    Candidate(SimilarityToDistance(sqrt, Cosine(sqrt, query, UnitOf(sqrt, p))), p.id)
  }

  function CandidatesOf(sqrt: real -> real, query: Vec, points: seq<Point>): seq<Candidate> {
    Map(p => CandidateOf(sqrt, query, p), points)
  }

  function Report(c: Candidate): Scored {
    Scored(c.id, DistanceToSimilarity(c.distance))
  }

  /** `max(best, key=lambda item: (item[0], str(item[1])))` */
  function Worst(best: seq<Candidate>): (w: Candidate)
    requires best != []
    ensures w in best && forall c :: c in best ==> CandidateLe(c, w)
  {
    if |best| == 1 then best[0]
    else
      var w := Worst(best[1..]);
      assert forall c :: c in best ==> c == best[0] || c in best[1..];
      if CandidateLe(best[0], w) then w else best[0]
  }

  /** `best.remove(c)`: drops the first occurrence. */
  function Remove(s: seq<Candidate>, c: Candidate): (r: seq<Candidate>)
    requires c in s
    ensures multiset(r) == multiset(s) - multiset{c} && |r| == |s| - 1
  {
    if s[0] == c then
      assert s == [s[0]] + s[1..];
      s[1..]
    else
      assert s == [s[0]] + s[1..];
      [s[0]] + Remove(s[1..], c)
  }

  /** `best` holds the k nearest of everything met; `dropped` is the rest of it. */
  ghost predicate Nearest(k: int, best: seq<Candidate>, dropped: seq<Candidate>) {
    && |best| <= k
    && (dropped != [] ==> |best| == k)
    && AllBefore(CandidateLe, best, dropped)
  }

  lemma DropAllWorse(k: int, best: seq<Candidate>, dropped: seq<Candidate>, more: seq<Candidate>)
    requires Nearest(k, best, dropped) && |best| == k > 0
    requires forall c :: c in more ==> CandidateLe(Worst(best), c)
    ensures Nearest(k, best, dropped + more)
  {
    forall x, y | x in best && y in dropped + more ensures CandidateLe(x, y) {
      assert CandidateLe(x, Worst(best));
    }
  }

  lemma ReplaceWorst(k: int, best: seq<Candidate>, dropped: seq<Candidate>, c: Candidate)
    requires Nearest(k, best, dropped) && |best| == k > 0
    requires CandidateLe(c, Worst(best))
    ensures Nearest(k, Remove(best, Worst(best)) + [c], dropped + [Worst(best)])
  {
    var w := Worst(best);
    var rest := Remove(best, w);
    RemovedAmong(best, w);
    WorstSplits(rest + [c], dropped + [w], w);
  }

  lemma RemovedAmong(s: seq<Candidate>, c: Candidate)
    requires c in s
    ensures forall x :: x in Remove(s, c) ==> x in s
  {
    forall x | x in Remove(s, c) ensures x in s {
      assert x in multiset(Remove(s, c)) && x in multiset(s);
    }
  }

  /** Whatever a candidate lies between, it separates. */
  lemma WorstSplits(lo: seq<Candidate>, hi: seq<Candidate>, w: Candidate)
    requires (forall x :: x in lo ==> CandidateLe(x, w)) && forall y :: y in hi ==> CandidateLe(w, y)
    ensures AllBefore(CandidateLe, lo, hi)
  {}

  class Searcher {
    const sqrt: real -> real
    const query: Vec
    const k: int
    var best: seq<Candidate>
    ghost var dropped: seq<Candidate>

    ghost predicate Valid()
      reads this
    {
      k > 0 && Nearest(k, best, dropped)
    }

    /** Every candidate pushed or pruned so far. */
    ghost function Met(): multiset<Candidate>
      reads this
    {
      multiset(best) + multiset(dropped)
    }

    constructor (sqrt: real -> real, query: Vec, k: int)
      requires k > 0
      ensures Valid() && Met() == multiset{}
      ensures this.sqrt == sqrt && this.query == query && this.k == k
    {
      this.sqrt, this.query, this.k := sqrt, query, k;
      best, dropped := [], [];
    }

    function WorstDistance(): Bound
      reads this
      requires Valid()
    {
      if |best| < k then Infinite else Finite(Worst(best).distance)
    }

    method Push(point: Point)
      requires Valid()
      modifies this
      ensures Valid()
      ensures Met() == old(Met()) + multiset{CandidateOf(sqrt, query, point)}
    {
      var candidate := CandidateOf(sqrt, query, point);
      if |best| < k {
        best := best + [candidate];
        return;
      }
      var worst := Worst(best);
      if candidate.distance < worst.distance || (candidate.distance == worst.distance && candidate.id < worst.id) {
        ReplaceWorst(k, best, dropped, candidate);
        best := Remove(best, worst) + [candidate];
        dropped := dropped + [worst];
      } else {
        DropAllWorse(k, best, dropped, [candidate]);
        dropped := dropped + [candidate];
      }
    }

    /** The branch-and-bound recursion meets every point of the subtree: a pruned side holds
        only candidates strictly worse than the k already held. */
    method Search(node: Tree)
      requires Valid() && Searchable(sqrt, query, node)
      modifies this
      ensures Valid()
      ensures Met() == old(Met()) + CandidatesIn(sqrt, query, node)
      decreases node
    {
      if node.Empty? { return; }
      SearchableParts(sqrt, query, node);
      CandidatesParts(sqrt, query, node, Met());
      var pivot := node.point;
      var queryDistance := Euclidean(sqrt, query, UnitOf(sqrt, pivot));
      Push(pivot);
      if queryDistance < node.threshold {
        Search(node.left);
        var tau := WorstDistance();
        if tau.Infinite? || queryDistance + tau.distance >= node.threshold {
          Search(node.right);
        } else {
          PruneRight(sqrt, query, node, tau.distance);
          Skip(node.right, tau.distance);
        }
      } else {
        Search(node.right);
        var tau := WorstDistance();
        if tau.Infinite? || queryDistance - tau.distance <= node.threshold {
          Search(node.left);
        } else {
          PruneLeft(sqrt, query, node, tau.distance);
          Skip(node.left, tau.distance);
        }
      }
    }

    ghost method Skip(pruned: Tree, tau: real)
      requires Valid() && WorstDistance() == Finite(tau)
      requires Beyond(sqrt, query, pruned, tau)
      modifies `dropped
      ensures Valid()
      ensures Met() == old(Met()) + CandidatesIn(sqrt, query, pruned)
    {
      var more := CandidatesOf(sqrt, query, PointsOf(pruned));
      DropAllWorse(k, best, dropped, more);
      dropped := dropped + more;
    }
  }

  ghost function CandidatesIn(sqrt: real -> real, query: Vec, t: Tree): multiset<Candidate> {
    multiset(CandidatesOf(sqrt, query, PointsOf(t)))
  }

  /** Every candidate of the subtree is strictly farther than tau. */
  ghost predicate Beyond(sqrt: real -> real, query: Vec, t: Tree, tau: real) {
    forall c :: c in CandidatesOf(sqrt, query, PointsOf(t)) ==> c.distance > tau
  }

  /** Normalised query and points of one dimension, in a separated tree. */
  ghost predicate Searchable(sqrt: real -> real, query: Vec, t: Tree) {
    && IsSqrt(sqrt)
    && UnitOrZero(query)
    && (forall p :: p in PointsOf(t) ==> Comparable(sqrt, query, p))
    && Separated(Gap(sqrt), t)
  }

  ghost predicate Comparable(sqrt: real -> real, query: Vec, p: Point) {
    && p.unit == UnitOf(sqrt, p)
    && UnitOrZero(p.unit)
    && |p.unit| == |query|
  }

  lemma SearchableParts(sqrt: real -> real, query: Vec, t: Tree)
    requires t.Node? && Searchable(sqrt, query, t)
    ensures Searchable(sqrt, query, t.left) && Searchable(sqrt, query, t.right)
    ensures UnitOf(sqrt, t.point) == t.point.unit
  {
    var l, r := PointsOf(t.left), PointsOf(t.right);
    assert forall p :: p in l || p in r || p == t.point ==> p in PointsOf(t);
    assert Comparable(sqrt, query, t.point);
  }

  lemma CandidatesConcat(sqrt: real -> real, query: Vec, a: seq<Point>, b: seq<Point>)
    ensures CandidatesOf(sqrt, query, a + b) == CandidatesOf(sqrt, query, a) + CandidatesOf(sqrt, query, b)
  {}

  /** The pivot's candidate and both sides', in either order, make up the node's. */
  lemma CandidatesParts(sqrt: real -> real, query: Vec, t: Tree, met: multiset<Candidate>)
    requires t.Node?
    ensures var c := CandidateOf(sqrt, query, t.point);
            var l, r := CandidatesIn(sqrt, query, t.left), CandidatesIn(sqrt, query, t.right);
            && met + CandidatesIn(sqrt, query, t) == met + multiset{c} + l + r
            && met + CandidatesIn(sqrt, query, t) == met + multiset{c} + r + l
  {
    var c, l, r := CandidateOf(sqrt, query, t.point), PointsOf(t.left), PointsOf(t.right);
    var cl, cr := CandidatesOf(sqrt, query, l), CandidatesOf(sqrt, query, r);
    CandidatesConcat(sqrt, query, [t.point], l);
    CandidatesConcat(sqrt, query, [t.point] + l, r);
    assert CandidatesOf(sqrt, query, [t.point]) == [c];
    assert multiset(([c] + cl) + cr) == multiset{c} + multiset(cl) + multiset(cr);
    EitherOrder(met, multiset{c}, multiset(cl), multiset(cr));
  }

  lemma EitherOrder(met: multiset<Candidate>, c: multiset<Candidate>, l: multiset<Candidate>, r: multiset<Candidate>)
    ensures met + (c + (l + r)) == met + c + l + r
    ensures met + (c + (l + r)) == met + c + r + l
  {}

  /** A point's ranking distance from the query, bounded below through the pivot. */
  lemma TriangleBound(sqrt: real -> real, query: Vec, pivot: Point, p: Point)
    requires IsSqrt(sqrt) && UnitOrZero(query) && Comparable(sqrt, query, pivot) && Comparable(sqrt, query, p)
    ensures var d := Euclidean(sqrt, query, pivot.unit);
            var c := CandidateOf(sqrt, query, p).distance;
            Gap(sqrt)(pivot, p) - d <= c && d - Gap(sqrt)(pivot, p) <= c
  {
    RankDominates(sqrt, query, p.unit);
    TriangleInequality(sqrt, pivot.unit, query, p.unit);
    TriangleInequality(sqrt, query, p.unit, pivot.unit);
    SquaredDistanceSymmetric(pivot.unit, query);
    SquaredDistanceSymmetric(p.unit, pivot.unit);
  }

  lemma PruneRight(sqrt: real -> real, query: Vec, t: Tree, tau: real)
    requires t.Node? && Searchable(sqrt, query, t)
    requires Euclidean(sqrt, query, t.point.unit) + tau < t.threshold
    ensures Beyond(sqrt, query, t.right, tau)
  {
    forall c | c in CandidatesOf(sqrt, query, PointsOf(t.right)) ensures c.distance > tau {
      var i :| 0 <= i < |PointsOf(t.right)| && c == CandidateOf(sqrt, query, PointsOf(t.right)[i]);
      var p := PointsOf(t.right)[i];
      assert p in PointsOf(t) && t.point in PointsOf(t);
      TriangleBound(sqrt, query, t.point, p);
    }
  }

  lemma PruneLeft(sqrt: real -> real, query: Vec, t: Tree, tau: real)
    requires t.Node? && Searchable(sqrt, query, t)
    requires Euclidean(sqrt, query, t.point.unit) - tau > t.threshold
    ensures Beyond(sqrt, query, t.left, tau)
  {
    forall c | c in CandidatesOf(sqrt, query, PointsOf(t.left)) ensures c.distance > tau {
      var i :| 0 <= i < |PointsOf(t.left)| && c == CandidateOf(sqrt, query, PointsOf(t.left)[i]);
      var p := PointsOf(t.left)[i];
      assert p in PointsOf(t) && t.point in PointsOf(t);
      TriangleBound(sqrt, query, t.point, p);
    }
  }

  // ---- the search returns the brute-force list

  lemma ReportKeepsOrder(best: seq<Candidate>, dropped: seq<Candidate>)
    requires AllBefore(CandidateLe, best, dropped)
    requires forall c :: c in best || c in dropped ==> c.distance >= 0.0
    ensures AllBefore(ScoredLe, Map(Report, best), Map(Report, dropped))
  {
    forall x, y | x in Map(Report, best) && y in Map(Report, dropped) ensures ScoredLe(x, y) {
      var i :| 0 <= i < |best| && x == Report(best[i]);
      var j :| 0 <= j < |dropped| && y == Report(dropped[j]);
      assert best[i] in best && dropped[j] in dropped;
      RankAntitone(best[i].distance, dropped[j].distance);
    }
  }

  lemma CandidatesReported(sqrt: real -> real, unit: Vec, points: seq<Point>)
    requires IsSqrt(sqrt) && UnitOrZero(unit)
    requires forall p :: p in points ==> UnitOrZero(UnitOf(sqrt, p))
    ensures Map(Report, CandidatesOf(sqrt, unit, points)) == Scores(sqrt, unit, points)
    ensures forall c :: c in CandidatesOf(sqrt, unit, points) ==> c.distance >= 0.0
  {
    forall i | 0 <= i < |points|
      ensures Report(CandidateOf(sqrt, unit, points[i])) == Score(sqrt, unit, points[i])
      ensures CandidateOf(sqrt, unit, points[i]).distance >= 0.0
    {
      assert points[i] in points;
      CosineOfUnits(sqrt, unit, UnitOf(sqrt, points[i]));
      RankRoundTrip(sqrt, Cosine(sqrt, unit, UnitOf(sqrt, points[i])));
    }
  }

  lemma ReportSplits(cands: seq<Candidate>, best: seq<Candidate>, dropped: seq<Candidate>)
    requires multiset(best) + multiset(dropped) == multiset(cands)
    ensures multiset(Map(Report, cands)) == multiset(Map(Report, best)) + multiset(Map(Report, dropped))
  {
    MapPermutes(Report, best + dropped, cands);
    assert Map(Report, best + dropped) == Map(Report, best) + Map(Report, dropped);
  }

  /** The reports of the k nearest are the first k of the sorted reports of all. */
  lemma NearestReportFirst(cands: seq<Candidate>, k: int, best: seq<Candidate>, dropped: seq<Candidate>)
    requires k > 0 && Nearest(k, best, dropped)
    requires multiset(best) + multiset(dropped) == multiset(cands)
    requires forall c :: c in cands ==> c.distance >= 0.0
    ensures Prefix(Sort(ScoredLe, Map(Report, best)), k) == Prefix(Sort(ScoredLe, Map(Report, cands)), k)
  {
    forall c | c in best || c in dropped ensures c.distance >= 0.0 {
      assert c in multiset(cands);
    }
    ReportKeepsOrder(best, dropped);
    ReportSplits(cands, best, dropped);
    ScoredLeTotal();
    SortSplit(ScoredLe, Map(Report, cands), Map(Report, best), Map(Report, dropped));
    SortPermutes(ScoredLe, Map(Report, dropped));
  }

  /** Whatever holds the k nearest of all the points' candidates reports the exact ranking. */
  lemma NearestIsExact(sqrt: real -> real, unit: Vec, points: seq<Point>, k: int,
                       best: seq<Candidate>, dropped: seq<Candidate>)
    requires IsSqrt(sqrt) && UnitOrZero(unit) && k > 0 && Nearest(k, best, dropped)
    requires forall p :: p in points ==> UnitOrZero(UnitOf(sqrt, p))
    requires multiset(best) + multiset(dropped) == multiset(CandidatesOf(sqrt, unit, points))
    ensures Prefix(Sort(ScoredLe, Map(Report, best)), k) == Prefix(Sort(ScoredLe, Scores(sqrt, unit, points)), k)
  {
    CandidatesReported(sqrt, unit, points);
    NearestReportFirst(CandidatesOf(sqrt, unit, points), k, best, dropped);
  }

  lemma WellFormedIsUnitOrZero(sqrt: real -> real, dim: nat, points: seq<Point>)
    requires IsSqrt(sqrt) && WellFormed(sqrt, dim, points)
    ensures forall p :: p in points ==> UnitOrZero(UnitOf(sqrt, p)) && |UnitOf(sqrt, p)| == dim
  {
    forall p | p in points ensures UnitOrZero(UnitOf(sqrt, p)) && |UnitOf(sqrt, p)| == dim {
      NormalizeIsUnitOrZero(sqrt, p.vector);
    }
  }

  lemma HeldArePrepared(sqrt: real -> real, points: seq<Point>, x: Point) returns (p: Point)
    requires x in PointsOf(Build(sqrt, points))
    ensures p in points && x == EnsureUnit(sqrt, p)
  {
    BuildHolds(sqrt, points);
    var i :| 0 <= i < |points| && x == EnsureUnit(sqrt, points[i]);
    p := points[i];
  }

  lemma BuildIsSearchable(sqrt: real -> real, dim: nat, points: seq<Point>, unit: Vec)
    requires IsSqrt(sqrt) && WellFormed(sqrt, dim, points)
    requires UnitOrZero(unit) && |unit| == dim
    ensures Searchable(sqrt, unit, Build(sqrt, points))
  {
    BuildHolds(sqrt, points);
    WellFormedIsUnitOrZero(sqrt, dim, points);
    forall x | x in PointsOf(Build(sqrt, points)) ensures Comparable(sqrt, unit, x) {
      var p := HeldArePrepared(sqrt, points, x);
    }
  }

  /** A point and its prepared copy score the same. */
  lemma PreparedScores(sqrt: real -> real, unit: Vec, points: seq<Point>)
    ensures Scores(sqrt, unit, PrepareAll(sqrt, points)) == Scores(sqrt, unit, points)
  {}

  lemma RankingOfPrepared(sqrt: real -> real, points: seq<Point>, query: Vec, k: int, held: seq<Point>)
    requires multiset(held) == multiset(PrepareAll(sqrt, points))
    ensures ExactTopK(sqrt, held, query, k) == ExactTopK(sqrt, points, query, k)
  {
    var unit := Normalize(sqrt, query);
    PreparedScores(sqrt, unit, points);
    MapPermutes(p => Score(sqrt, unit, p), held, PrepareAll(sqrt, points));
    ScoredLeTotal();
    SortCanonical(ScoredLe, Scores(sqrt, unit, held), Scores(sqrt, unit, points));
  }

  lemma RankingLength(sqrt: real -> real, points: seq<Point>, query: Vec, k: int)
    ensures |ExactTopK(sqrt, points, query, k)|
         == if k >= |points| then |points| else if k >= 0 then k else if |points| + k > 0 then |points| + k else 0
  {
    SortPermutes(ScoredLe, Scores(sqrt, Normalize(sqrt, query), points));
  }

  /** The points that the tree holds rank like all of them, at every cut, exactly when the build
      dropped none; rows that repeat an id are dropped when one of them becomes a pivot. */
  lemma HeldRankIffAllHeld(sqrt: real -> real, points: seq<Point>, query: Vec)
    ensures (forall k :: k > 0 ==>
               ExactTopK(sqrt, PointsOf(Build(sqrt, points)), query, k) == ExactTopK(sqrt, points, query, k))
       <==> |PointsOf(Build(sqrt, points))| == |points|
  {
    var held, ps := PointsOf(Build(sqrt, points)), PrepareAll(sqrt, points);
    BuildHolds(sqrt, points);
    if |held| == |points| {
      DistinctFills(held, ps);
      forall k | k > 0 ensures ExactTopK(sqrt, held, query, k) == ExactTopK(sqrt, points, query, k) {
        RankingOfPrepared(sqrt, points, query, k, held);
      }
    } else {
      var k := |held| + |points|;
      RankingLength(sqrt, held, query, k);
      RankingLength(sqrt, points, query, k);
      assert ExactTopK(sqrt, held, query, k) != ExactTopK(sqrt, points, query, k);
    }
  }

  /** A list without repeats that draws on another of the same length is a permutation of it. */
  lemma {:induction false} DistinctFills(some: seq<Point>, all: seq<Point>)
    requires Distinct(some) && Among(some, all) && |some| == |all|
    ensures multiset(some) == multiset(all)
  {
    if some != [] {
      assert some[0] in some;
      var i :| 0 <= i < |all| && all[i] == some[0];
      var rest := all[..i] + all[i + 1..];
      assert all == all[..i] + [all[i]] + all[i + 1..];
      forall x | x in some[1..] ensures x in rest {
        var j :| 1 <= j < |some| && some[j] == x;
        assert x in all && x != all[i];
      }
      DistinctFills(some[1..], rest);
      MultisetHead(some);
      assert multiset(all) == multiset{all[i]} + multiset(rest);
    }
  }

  // ---- what the ranking means

  /** The vector a point is scored by, as given. */
  function Raw(p: Point): Vec {
    if p.unit == [] then p.vector else p.unit
  }

  /** The result for one point: its id and its cosine with the query. */
  ghost predicate ScoresPoint(sqrt: real -> real, query: Vec, r: Scored, p: Point) {
    r.id == p.id && |query| == |Raw(p)| && r.score == CosineByIndex(sqrt, query, Raw(p))
  }

  /** Higher cosine first, equal cosines by smaller id. */
  ghost predicate Ahead(a: Scored, b: Scored) {
    a.score > b.score || (a.score == b.score && a.id < b.id)
  }

  /** Some point explains the result. */
  ghost predicate Explained(sqrt: real -> real, points: seq<Point>, query: Vec, r: Scored) {
    exists p :: p in points && ScoresPoint(sqrt, query, r, p)
  }

  /** The point's result is listed, or behind all that are. */
  ghost predicate Placed(sqrt: real -> real, query: Vec, ranked: seq<Scored>, p: Point) {
    exists x :: ScoresPoint(sqrt, query, x, p) && (x in ranked || forall r :: r in ranked ==> Ahead(r, x))
  }

  /** The k best points: as many as there are, each result one point's cosine, in order, and
      every point left out behind all of them. */
  ghost predicate BestMatches(sqrt: real -> real, points: seq<Point>, query: Vec, k: nat, ranked: seq<Scored>) {
    && |ranked| == (if k < |points| then k else |points|)
    && (forall r :: r in ranked ==> Explained(sqrt, points, query, r))
    && (forall i, j | 0 <= i < j < |ranked| :: Ahead(ranked[i], ranked[j]))
    && forall p :: p in points ==> Placed(sqrt, query, ranked, p)
  }

  lemma ScoreIsCosine(sqrt: real -> real, query: Vec, p: Point)
    requires IsSqrt(sqrt) && |UnitOf(sqrt, p)| == |query| && (p.unit == [] || UnitOrZero(p.unit))
    ensures ScoresPoint(sqrt, query, Score(sqrt, Normalize(sqrt, query), p), p)
  {
    if p.unit == [] { CosineOfNormalized(sqrt, query, p.vector); } else { CosineOfStored(sqrt, query, p.unit); }
  }

  lemma DistinctScores(sqrt: real -> real, unit: Vec, points: seq<Point>, k: nat)
    requires DistinctIds(points)
    ensures var r := Prefix(Sort(ScoredLe, Scores(sqrt, unit, points)), k);
            forall i, j | 0 <= i < j < |r| :: r[i].id != r[j].id
  {
    var scores := Scores(sqrt, unit, points);
    var all := Sort(ScoredLe, scores);
    SortPermutes(ScoredLe, scores);
    SameMembers(all, scores);
    assert Distinct(scores) by {
      assert forall i | 0 <= i < |points| :: scores[i].id == points[i].id;
    }
    DistinctPermuted(scores, all);
    forall i, j | 0 <= i < j < |all| ensures all[i].id != all[j].id {
      assert all[i] in scores && all[j] in scores;
      var m :| 0 <= m < |scores| && scores[m] == all[i];
      var n :| 0 <= n < |scores| && scores[n] == all[j];
      assert m != n && scores[m].id == points[m].id && scores[n].id == points[n].id;
      assert if m < n then points[m].id != points[n].id else points[n].id != points[m].id;
    }
  }

  lemma RankedInOrder(sqrt: real -> real, unit: Vec, points: seq<Point>, k: nat)
    requires DistinctIds(points)
    ensures var r := Prefix(Sort(ScoredLe, Scores(sqrt, unit, points)), k);
            && |r| == (if k < |points| then k else |points|)
            && forall i, j | 0 <= i < j < |r| :: Ahead(r[i], r[j])
  {
    TopMeaning(Scores(sqrt, unit, points), k);
    DistinctScores(sqrt, unit, points, k);
  }

  lemma RankedExplained(sqrt: real -> real, points: seq<Point>, query: Vec, k: nat, r: Scored)
    requires IsSqrt(sqrt) && WellFormed(sqrt, |query|, points) && r in ExactTopK(sqrt, points, query, k)
    ensures Explained(sqrt, points, query, r)
  {
    var scores := Scores(sqrt, Normalize(sqrt, query), points);
    TopMeaning(scores, k);
    var i :| 0 <= i < |scores| && scores[i] == r;
    assert points[i] in points;
    ScoreIsCosine(sqrt, query, points[i]);
  }

  lemma PointPlaced(sqrt: real -> real, points: seq<Point>, query: Vec, k: nat, p: Point)
    requires IsSqrt(sqrt) && WellFormed(sqrt, |query|, points) && DistinctIds(points) && p in points
    ensures Placed(sqrt, query, ExactTopK(sqrt, points, query, k), p)
  {
    var unit := Normalize(sqrt, query);
    var i :| 0 <= i < |points| && points[i] == p;
    ScoreIsCosine(sqrt, query, p);
    LeftOutIsBehind(sqrt, unit, points, k, i);
    assert ScoresPoint(sqrt, query, Scores(sqrt, unit, points)[i], p);
  }

  /** The brute-force list is the list of best matches. */
  lemma ExactTopKMeaning(sqrt: real -> real, points: seq<Point>, query: Vec, k: nat)
    requires IsSqrt(sqrt) && WellFormed(sqrt, |query|, points) && DistinctIds(points)
    ensures BestMatches(sqrt, points, query, k, ExactTopK(sqrt, points, query, k))
  {
    var ranked := ExactTopK(sqrt, points, query, k);
    RankedInOrder(sqrt, Normalize(sqrt, query), points, k);
    forall r | r in ranked ensures Explained(sqrt, points, query, r) { RankedExplained(sqrt, points, query, k, r); }
    forall p | p in points ensures Placed(sqrt, query, ranked, p) { PointPlaced(sqrt, points, query, k, p); }
  }

  lemma LeftOutIsBehind(sqrt: real -> real, unit: Vec, points: seq<Point>, k: nat, i: nat)
    requires DistinctIds(points) && i < |points|
    ensures var scores := Scores(sqrt, unit, points);
            var ranked := Prefix(Sort(ScoredLe, scores), k);
            scores[i] in ranked || forall r :: r in ranked ==> Ahead(r, scores[i])
  {
    var scores := Scores(sqrt, unit, points);
    var ranked := Prefix(Sort(ScoredLe, scores), k);
    TopMeaning(scores, k);
    assert scores[i] in scores;
    if scores[i] !in ranked {
      forall r | r in ranked ensures Ahead(r, scores[i]) {
        var j :| 0 <= j < |scores| && scores[j] == r;
        assert j != i;
        assert if i < j then points[i].id != points[j].id else points[j].id != points[i].id;
      }
    }
  }

  /** `search_vptree` over a built tree is `exact_top_k` over the points that the tree holds,
      ties included, for every k that is not negative, and over all the points when their ids
      are distinct: the best matches by cosine. A negative k is no result here but a Python slice from the end there, so
      the two then agree only when that slice is empty. */
  method SearchVPTree(sqrt: real -> real, root: Tree, query: Vec, k: int, ghost points: seq<Point>)
    returns (ranked: seq<Scored>)
    requires IsSqrt(sqrt) && WellFormed(sqrt, |query|, points)
    requires root == Build(sqrt, points)
    ensures ranked == if k > 0 then ExactTopK(sqrt, PointsOf(root), query, k) else []
    ensures DistinctIds(points) ==> ranked == if k > 0 then ExactTopK(sqrt, points, query, k) else []
    ensures DistinctIds(points) && k > 0 ==> BestMatches(sqrt, points, query, k, ranked)
    ensures DistinctIds(points) ==>
              (ranked == ExactTopK(sqrt, points, query, k) <==> k >= 0 || |points| + k <= 0)
  {
    RankingLength(sqrt, points, query, k);
    if DistinctIds(points) {
      DistinctIdsOnePointPerId(points);
      BuildKeepsPoints(sqrt, points);
      RankingOfPrepared(sqrt, points, query, k, PointsOf(root));
      if k > 0 { ExactTopKMeaning(sqrt, points, query, k); }
    }
    if root.Empty? || k <= 0 { return []; }
    NormalizeIsUnitOrZero(sqrt, query);
    BuildIsSearchable(sqrt, |query|, points, Normalize(sqrt, query));
    ranked := SearchTree(sqrt, root, query, k);
  }

  method SearchTree(sqrt: real -> real, root: Tree, query: Vec, k: int) returns (ranked: seq<Scored>)
    requires Searchable(sqrt, Normalize(sqrt, query), root) && k > 0
    ensures ranked == ExactTopK(sqrt, PointsOf(root), query, k)
  {
    ghost var unit := Normalize(sqrt, query);
    forall p | p in PointsOf(root) ensures UnitOrZero(UnitOf(sqrt, p)) {
      assert Comparable(sqrt, unit, p);
    }
    var searcher := new Searcher(sqrt, Normalize(sqrt, query), k);
    searcher.Search(root);
    NearestIsExact(sqrt, unit, PointsOf(root), k, searcher.best, searcher.dropped);
    ranked := Prefix(Sort(ScoredLe, Map(Report, searcher.best)), k);
  }

  /** Two points and k = -1: the brute-force slice keeps one, the search returns nothing. */
  lemma NegativeCutDiffers(sqrt: real -> real, p: Point, q: Point, query: Vec)
    ensures |ExactTopK(sqrt, [p, q], query, -1)| == 1
  {
    RankingLength(sqrt, [p, q], query, -1);
  }

  lemma NoSidesForOneId(gap: Metric, ps: seq<Point>, id: Id)
    requires ps != [] && forall x :: x in ps ==> x.id == id
    ensures CutOf(gap, ps).near == [] && CutOf(gap, ps).far == []
  {
    var c := CutOf(gap, ps);
    CutDeals(gap, ps);
    assert forall x :: x !in c.near && x !in c.far;
    assert multiset(c.near) == multiset{} && multiset(c.far) == multiset{};
    assert |c.near| == |multiset(c.near)| && |c.far| == |multiset(c.far)|;
  }

  /** Two rows with one id and different points: the tree holds one of them. */
  lemma RepeatedIdIsDropped(sqrt: real -> real, p: Point, q: Point)
    requires p.id == q.id
    ensures |PointsOf(Build(sqrt, [p, q]))| == 1
  {
    var ps := PrepareAll(sqrt, [p, q]);
    forall x | x in ps ensures x.id == p.id {
      var i :| 0 <= i < 2 && ps[i] == x;
    }
    NoSidesForOneId(Gap(sqrt), ps, p.id);
    assert Build(sqrt, [p, q]) == Node(CutOf(Gap(sqrt), ps).pivot, CutOf(Gap(sqrt), ps).threshold, Empty, Empty);
  }
}
