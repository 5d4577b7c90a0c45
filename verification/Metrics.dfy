/** faim_native/benchmarks/metrics.py: retrieval metrics. `1 / log2(i + 2)` is a parameter of
    which only its sign and its decrease are used. */
module Metrics {
  import opened Ordering

  type Doc = string

  type Discount = nat -> real

  ghost predicate PositiveDecreasing(d: Discount) {
    (forall i :: d(i) > 0.0) && forall i, j :: i < j ==> d(i) > d(j)
  }

  function Hits(retrieved: seq<Doc>, relevant: set<Doc>): nat {
    if retrieved == [] then 0
    else Hits(retrieved[..|retrieved| - 1], relevant) + (if retrieved[|retrieved| - 1] in relevant then 1 else 0)
  }

  /** The sum of precision@rank over the ranks of relevant documents. */
  function PrecisionSum(retrieved: seq<Doc>, relevant: set<Doc>): real {
    if retrieved == [] then 0.0
    else
      PrecisionSum(retrieved[..|retrieved| - 1], relevant)
      + if retrieved[|retrieved| - 1] in relevant then Hits(retrieved, relevant) as real / |retrieved| as real else 0.0
  }

  function AP(retrieved: seq<Doc>, relevant: set<Doc>): real {
    if relevant == {} || Hits(retrieved, relevant) == 0 then 0.0
    else PrecisionSum(retrieved, relevant) / |relevant| as real
  }

  /** Discounted gain of a whole list. */
  function Gain(d: Discount, retrieved: seq<Doc>, relevant: set<Doc>): real {
    if retrieved == [] then 0.0
    else
      Gain(d, retrieved[..|retrieved| - 1], relevant)
      + (if retrieved[|retrieved| - 1] in relevant then d(|retrieved| - 1) else 0.0)
  }

  /** `sum(discount(i) for i in range(n))` */
  function Ideal(d: Discount, n: nat): real {
    if n == 0 then 0.0 else Ideal(d, n - 1) + d(n - 1)
  }

  function DCG(d: Discount, retrieved: seq<Doc>, relevant: set<Doc>, k: int): real {
    Gain(d, Prefix(retrieved, k), relevant)
  }

  function NDCG(d: Discount, retrieved: seq<Doc>, relevant: set<Doc>, k: int): real {
    var idealHits := if |relevant| < k then |relevant| else k;
    if idealHits == 0 then 0.0
    else
      var idcg := Ideal(d, if idealHits > 0 then idealHits else 0);
      if idcg == 0.0 then 0.0 else DCG(d, retrieved, relevant, k) / idcg
  }

  function Recall(retrieved: seq<Doc>, relevant: set<Doc>, k: int): real {
    if relevant == {} then 0.0 else Hits(Prefix(retrieved, k), relevant) as real / |relevant| as real
  }

  function Precision(retrieved: seq<Doc>, relevant: set<Doc>, k: int): real {
    if k == 0 then 0.0 else Hits(Prefix(retrieved, k), relevant) as real / k as real
  }

  /** The rank of the first relevant document, or 0. */
  function FirstRank(retrieved: seq<Doc>, relevant: set<Doc>): (r: nat)
    ensures r <= |retrieved|
    ensures r == 0 <==> forall i | 0 <= i < |retrieved| :: retrieved[i] !in relevant
    ensures r > 0 ==> retrieved[r - 1] in relevant && forall i | 0 <= i < r - 1 :: retrieved[i] !in relevant
  {
    if retrieved == [] then 0
    else if retrieved[0] in relevant then 1
    else
      var r := FirstRank(retrieved[1..], relevant);
      assert forall i | 1 <= i < |retrieved| :: retrieved[i] == retrieved[1..][i - 1];
      if r == 0 then 0 else r + 1
  }

  function RR(retrieved: seq<Doc>, relevant: set<Doc>): real {
    var r := FirstRank(retrieved, relevant);
    if r == 0 then 0.0 else 1.0 / r as real
  }

  // ---- the source's loops

  method AveragePrecision(retrieved: seq<Doc>, relevant: set<Doc>) returns (ap: real)
    ensures ap == AP(retrieved, relevant)
  {
    if relevant == {} { return 0.0; }
    var hits, sumPrecision := 0, 0.0;
    for i := 0 to |retrieved|
      invariant hits == Hits(retrieved[..i], relevant)
      invariant sumPrecision == PrecisionSum(retrieved[..i], relevant)
    {
      assert retrieved[..i + 1][..i] == retrieved[..i];
      if retrieved[i] in relevant {
        hits := hits + 1;
        sumPrecision := sumPrecision + hits as real / (i + 1) as real;
      }
    }
    assert retrieved[..|retrieved|] == retrieved;
    if hits == 0 { return 0.0; }
    ap := sumPrecision / |relevant| as real;
  }

  method ReciprocalRank(retrieved: seq<Doc>, relevant: set<Doc>) returns (rr: real)
    ensures rr == RR(retrieved, relevant)
  {
    for i := 0 to |retrieved|
      invariant forall j | 0 <= j < i :: retrieved[j] !in relevant
    {
      if retrieved[i] in relevant { return 1.0 / (i + 1) as real; }
    }
    rr := 0.0;
  }

  method DcgAtK(d: Discount, retrieved: seq<Doc>, relevant: set<Doc>, k: int) returns (dcg: real)
    ensures dcg == DCG(d, retrieved, relevant, k)
  {
    var top := Prefix(retrieved, k);
    dcg := 0.0;
    for i := 0 to |top|
      invariant dcg == Gain(d, top[..i], relevant)
    {
      assert top[..i + 1][..i] == top[..i];
      if top[i] in relevant { dcg := dcg + d(i); }
    }
    assert top[..|top|] == top;
  }

  // ---- counting hits

  /** The relevant documents retrieved are ranked before all others. */
  ghost predicate RelevantFirst(retrieved: seq<Doc>, relevant: set<Doc>) {
    forall i | 0 <= i < |retrieved| && i < Hits(retrieved, relevant) :: retrieved[i] in relevant
  }

  lemma {:induction false} HitsBounds(retrieved: seq<Doc>, relevant: set<Doc>)
    ensures Hits(retrieved, relevant) <= |retrieved|
    ensures Hits(retrieved, relevant) == |retrieved| <==> forall i | 0 <= i < |retrieved| :: retrieved[i] in relevant
    decreases |retrieved|
  {
    if retrieved != [] { HitsBounds(retrieved[..|retrieved| - 1], relevant); }
  }

  lemma {:induction false} HitsConcat(a: seq<Doc>, b: seq<Doc>, relevant: set<Doc>)
    ensures Hits(a + b, relevant) == Hits(a, relevant) + Hits(b, relevant)
    decreases |b|
  {
    if b == [] {
      assert a + b == a;
    } else {
      assert (a + b)[..|a + b| - 1] == a + b[..|b| - 1];
      HitsConcat(a, b[..|b| - 1], relevant);
    }
  }

  /** Without repeats, hits cannot outnumber the relevant documents. */
  lemma {:induction false} HitsAtMostRelevant(retrieved: seq<Doc>, relevant: set<Doc>)
    requires Distinct(retrieved)
    ensures Hits(retrieved, relevant) <= |relevant|
    decreases |retrieved|
  {
    if retrieved != [] {
      var front, last := retrieved[..|retrieved| - 1], retrieved[|retrieved| - 1];
      if last in relevant {
        HitsAtMostRelevant(front, relevant - {last});
        SameHits(front, relevant, relevant - {last});
      } else {
        HitsAtMostRelevant(front, relevant);
      }
    }
  }

  lemma {:induction false} SameHits(retrieved: seq<Doc>, r: set<Doc>, s: set<Doc>)
    requires forall i | 0 <= i < |retrieved| :: retrieved[i] in r <==> retrieved[i] in s
    ensures Hits(retrieved, r) == Hits(retrieved, s)
    decreases |retrieved|
  {
    if retrieved != [] { SameHits(retrieved[..|retrieved| - 1], r, s); }
  }

  /** One more relevant document at the end keeps the relevant ones first only if all are. */
  lemma RelevantFirstStep(retrieved: seq<Doc>, relevant: set<Doc>)
    requires retrieved != []
    ensures var front := retrieved[..|retrieved| - 1];
            RelevantFirst(retrieved, relevant) <==>
              RelevantFirst(front, relevant)
              && (retrieved[|retrieved| - 1] in relevant ==> Hits(front, relevant) == |front|)
  {
    var front, last := retrieved[..|retrieved| - 1], retrieved[|retrieved| - 1];
    HitsBounds(front, relevant);
    if RelevantFirst(retrieved, relevant) && last in relevant && Hits(front, relevant) < |front| {
      var h := Hits(retrieved, relevant);
      assert front == front[..h] + front[h..];
      HitsConcat(front[..h], front[h..], relevant);
      HitsBounds(front[..h], relevant);
    }
  }

  // ---- average precision

  lemma Grows(x: real, y: real, b: real)
    requires x < y && b > 0.0
    ensures x * b < y * b
  {
    assert (y - x) * b > 0.0;
  }

  lemma RatioOf(q: real, a: real, b: real)
    requires 0.0 <= a <= b && b > 0.0 && q * b == a
    ensures 0.0 <= q <= 1.0 && (q == 1.0 <==> a == b)
  {
    if q < 0.0 { Grows(q, 0.0, b); }
    if q < 1.0 { Grows(q, 1.0, b); }
    if q > 1.0 { Grows(1.0, q, b); }
  }

  lemma Ratio(a: real, b: real)
    requires 0.0 <= a <= b && b > 0.0
    ensures 0.0 <= a / b <= 1.0 && (a / b == 1.0 <==> a == b)
  {
    RatioOf(a / b, a, b);
  }

  lemma {:induction false} PrecisionSumAtMostHits(retrieved: seq<Doc>, relevant: set<Doc>)
    ensures 0.0 <= PrecisionSum(retrieved, relevant) <= Hits(retrieved, relevant) as real
    ensures PrecisionSum(retrieved, relevant) == Hits(retrieved, relevant) as real
       <==> RelevantFirst(retrieved, relevant)
    decreases |retrieved|
  {
    if retrieved != [] {
      var front := retrieved[..|retrieved| - 1];
      PrecisionSumAtMostHits(front, relevant);
      HitsBounds(front, relevant);
      HitsBounds(retrieved, relevant);
      RelevantFirstStep(retrieved, relevant);
      Ratio(Hits(retrieved, relevant) as real, |retrieved| as real);
    }
  }

  /** AP of a ranking without repeats is a score in [0, 1], and 1 exactly when a non-empty
      relevant set fills the first positions. */
  lemma AveragePrecisionRange(retrieved: seq<Doc>, relevant: set<Doc>)
    requires Distinct(retrieved)
    ensures 0.0 <= AP(retrieved, relevant) <= 1.0
    ensures AP(retrieved, relevant) == 1.0 <==>
              relevant != {} && |relevant| <= |retrieved| && forall i | 0 <= i < |relevant| :: retrieved[i] in relevant
  {
    var n, h := |relevant|, Hits(retrieved, relevant);
    PrecisionSumAtMostHits(retrieved, relevant);
    HitsAtMostRelevant(retrieved, relevant);
    HitsBounds(retrieved, relevant);
    if relevant != {} {
      Ratio(PrecisionSum(retrieved, relevant), n as real);
      if n <= |retrieved| && forall i | 0 <= i < n :: retrieved[i] in relevant {
        assert retrieved == retrieved[..n] + retrieved[n..];
        HitsConcat(retrieved[..n], retrieved[n..], relevant);
        HitsBounds(retrieved[..n], relevant);
      }
    }
  }

  ghost function Members(s: seq<Doc>): set<Doc> {
    set d | d in s
  }

  lemma {:induction false} MembersCount(s: seq<Doc>)
    ensures |Members(s)| <= |s|
    ensures |Members(s)| == |s| <==> Distinct(s)
  {
    if s != [] {
      MembersCount(s[1..]);
      assert Members(s) == {s[0]} + Members(s[1..]);
      if s[0] in s[1..] {
        var i :| 0 <= i < |s[1..]| && s[1..][i] == s[0];
        assert s[0] == s[i + 1];
        assert Members(s) == Members(s[1..]);
      } else {
        assert Distinct(s) <==> Distinct(s[1..]) by {
          if Distinct(s[1..]) { PrependDistinct(s); }
        }
      }
    }
  }

  lemma PrependDistinct(s: seq<Doc>)
    requires s != [] && Distinct(s[1..]) && s[0] !in s[1..]
    ensures Distinct(s)
  {
    forall i, j | 0 <= i < j < |s| ensures s[i] != s[j] {
      assert s[j] == s[1..][j - 1] && s[j] in s[1..];
      if i > 0 { assert s[i] == s[1..][i - 1]; }
    }
  }

  /** A ranking judged against exactly its own documents hits at every rank. */
  lemma AllHits(s: seq<Doc>)
    ensures Hits(s, Members(s)) == |s| && RelevantFirst(s, Members(s))
  {
    HitsBounds(s, Members(s));
  }

  lemma MoreThanWhole(a: real, b: real)
    requires a > b > 0.0
    ensures a / b > 1.0
  {
    var q := a / b;
    assert (q - 1.0) * b == a - b;
    PositiveFactor(q - 1.0, b);
  }

  /** AP is a score whatever the relevant documents are exactly for rankings without repeats. */
  lemma AveragePrecisionIsScoreIffDistinct(retrieved: seq<Doc>)
    ensures (forall relevant :: AP(retrieved, relevant) <= 1.0) <==> Distinct(retrieved)
  {
    if Distinct(retrieved) {
      forall relevant ensures AP(retrieved, relevant) <= 1.0 { AveragePrecisionRange(retrieved, relevant); }
    } else {
      var relevant := Members(retrieved);
      MembersCount(retrieved);
      AllHits(retrieved);
      PrecisionSumAtMostHits(retrieved, relevant);
      assert retrieved[0] in relevant;
      MoreThanWhole(|retrieved| as real, |relevant| as real);
      assert AP(retrieved, relevant) > 1.0;
    }
  }

  /** With repeats AP can exceed 1. */
  lemma RepeatsBreakAveragePrecision()
    ensures AP(["d", "d"], {"d"}) == 2.0
  {
    var one, two := ["d"], ["d", "d"];
    assert two[..1] == one && one[..0] == [];
    assert Hits(one, {"d"}) == 1 && Hits(two, {"d"}) == 2;
    assert PrecisionSum(one, {"d"}) == 1.0 && PrecisionSum(two, {"d"}) == 2.0;
    assert |{"d"}| == 1;
  }

  // ---- discounted gain

  lemma {:induction false} GainAtMostIdeal(d: Discount, retrieved: seq<Doc>, relevant: set<Doc>)
    requires PositiveDecreasing(d)
    ensures 0.0 <= Gain(d, retrieved, relevant) <= Ideal(d, Hits(retrieved, relevant))
    ensures Gain(d, retrieved, relevant) == Ideal(d, Hits(retrieved, relevant)) <==> RelevantFirst(retrieved, relevant)
    decreases |retrieved|
  {
    if retrieved != [] {
      var front := retrieved[..|retrieved| - 1];
      GainAtMostIdeal(d, front, relevant);
      HitsBounds(front, relevant);
      RelevantFirstStep(retrieved, relevant);
      assert Hits(front, relevant) < |front| ==> d(Hits(front, relevant)) > d(|front|);
    }
  }

  lemma {:induction false} IdealMonotone(d: Discount, m: nat, n: nat)
    requires PositiveDecreasing(d) && m <= n
    ensures 0.0 <= Ideal(d, m) <= Ideal(d, n) && (m < n ==> Ideal(d, m) < Ideal(d, n))
    decreases n
  {
    if m < n {
      IdealMonotone(d, m, n - 1);
    } else if m > 0 {
      IdealMonotone(d, m - 1, m - 1);
    }
  }

  lemma PrefixDistinct(retrieved: seq<Doc>, k: int)
    requires Distinct(retrieved)
    ensures Distinct(Prefix(retrieved, k))
  {}

  /** DCG never exceeds the ideal, nDCG lies in [0, 1], and it is 1 exactly when as many
      relevant documents as can fit fill the first positions. */
  lemma NdcgRange(d: Discount, retrieved: seq<Doc>, relevant: set<Doc>, k: int)
    requires PositiveDecreasing(d) && Distinct(retrieved)
    ensures var best := if |relevant| < k then |relevant| else k;
            && (k >= 0 ==> DCG(d, retrieved, relevant, k) <= Ideal(d, best))
            && 0.0 <= NDCG(d, retrieved, relevant, k) <= 1.0
            && (NDCG(d, retrieved, relevant, k) == 1.0 <==>
                best > 0 && best <= |retrieved| && forall i | 0 <= i < best :: retrieved[i] in relevant)
  {
    var best := if |relevant| < k then |relevant| else k;
    if k >= 0 {
      var top := Prefix(retrieved, k);
      var h := Hits(top, relevant);
      PrefixDistinct(retrieved, k);
      HitsAtMostRelevant(top, relevant);
      HitsBounds(top, relevant);
      GainAtMostIdeal(d, top, relevant);
      IdealMonotone(d, h, best);
      if best > 0 {
        IdealMonotone(d, 0, best);
        Ratio(Gain(d, top, relevant), Ideal(d, best));
        TopFilled(retrieved, relevant, k, best);
      }
    }
  }

  lemma TopFilled(retrieved: seq<Doc>, relevant: set<Doc>, k: int, best: nat)
    requires k >= 0 && best <= k && Hits(Prefix(retrieved, k), relevant) <= best
    ensures (RelevantFirst(Prefix(retrieved, k), relevant) && Hits(Prefix(retrieved, k), relevant) == best)
       <==> (best <= |retrieved| && forall i | 0 <= i < best :: retrieved[i] in relevant)
  {
    var top := Prefix(retrieved, k);
    HitsBounds(top, relevant);
    if best <= |retrieved| && forall i | 0 <= i < best :: retrieved[i] in relevant {
      assert top == top[..best] + top[best..];
      HitsConcat(top[..best], top[best..], relevant);
      HitsBounds(top[..best], relevant);
    }
  }

  /** nDCG is a score for all relevant documents and cuts exactly for rankings without repeats. */
  lemma NdcgIsScoreIffDistinct(d: Discount, retrieved: seq<Doc>)
    requires PositiveDecreasing(d)
    ensures (forall relevant, k :: NDCG(d, retrieved, relevant, k) <= 1.0) <==> Distinct(retrieved)
  {
    if Distinct(retrieved) {
      forall relevant, k ensures NDCG(d, retrieved, relevant, k) <= 1.0 { NdcgRange(d, retrieved, relevant, k); }
    } else {
      var relevant, k := Members(retrieved), |retrieved|;
      MembersCount(retrieved);
      AllHits(retrieved);
      GainAtMostIdeal(d, retrieved, relevant);
      assert retrieved[0] in relevant;
      IdealMonotone(d, 0, |relevant|);
      IdealMonotone(d, |relevant|, k);
      MoreThanWhole(Ideal(d, k), Ideal(d, |relevant|));
      assert NDCG(d, retrieved, relevant, k) > 1.0;
    }
  }

  // ---- recall and precision

  lemma MembersOneMore(front: seq<Doc>, last: Doc)
    ensures Members(front + [last]) == Members(front) + {last}
  {}

  lemma IntersectOneMore(a: set<Doc>, d: Doc, r: set<Doc>)
    requires d !in a
    ensures |(a + {d}) * r| == |a * r| + if d in r then 1 else 0
  {
    if d in r {
      assert (a + {d}) * r == a * r + {d};
    } else {
      assert (a + {d}) * r == a * r;
    }
  }

  /** Without repeats the hits are the relevant documents that were retrieved. */
  lemma {:induction false} HitsAreMembers(retrieved: seq<Doc>, relevant: set<Doc>)
    requires Distinct(retrieved)
    ensures Hits(retrieved, relevant) == |Members(retrieved) * relevant|
    decreases |retrieved|
  {
    if retrieved != [] {
      var front, last := retrieved[..|retrieved| - 1], retrieved[|retrieved| - 1];
      assert retrieved == front + [last];
      HitsAreMembers(front, relevant);
      MembersOneMore(front, last);
      IntersectOneMore(Members(front), last, relevant);
    }
  }

  lemma FullIntersection(a: set<Doc>, b: set<Doc>)
    ensures |a * b| == |b| <==> forall d :: d in b ==> d in a
  {
    assert b == a * b + (b - a);
    if forall d :: d in b ==> d in a { assert a * b == b; }
  }

  /** Recall of a ranking without repeats is a score in [0, 1], and 1 exactly when there are
      relevant documents and the cut holds them all. */
  lemma RecallRange(retrieved: seq<Doc>, relevant: set<Doc>, k: int)
    requires Distinct(retrieved)
    ensures 0.0 <= Recall(retrieved, relevant, k) <= 1.0
    ensures Recall(retrieved, relevant, k) == 1.0 <==>
              relevant != {} && forall d :: d in relevant ==> d in Prefix(retrieved, k)
  {
    var top := Prefix(retrieved, k);
    PrefixDistinct(retrieved, k);
    HitsAtMostRelevant(top, relevant);
    HitsAreMembers(top, relevant);
    FullIntersection(Members(top), relevant);
    if relevant != {} { Ratio(Hits(top, relevant) as real, |relevant| as real); }
  }

  /** Recall is a score for all relevant documents and cuts exactly for rankings without repeats. */
  lemma RecallIsScoreIffDistinct(retrieved: seq<Doc>)
    ensures (forall relevant, k :: Recall(retrieved, relevant, k) <= 1.0) <==> Distinct(retrieved)
  {
    if Distinct(retrieved) {
      forall relevant, k ensures Recall(retrieved, relevant, k) <= 1.0 { RecallRange(retrieved, relevant, k); }
    } else {
      var relevant := Members(retrieved);
      MembersCount(retrieved);
      AllHits(retrieved);
      assert retrieved[0] in relevant;
      MoreThanWhole(|retrieved| as real, |relevant| as real);
      assert Recall(retrieved, relevant, |retrieved|) > 1.0;
    }
  }

  /** Precision is a score exactly for k that is not negative, or when the slice a negative k
      leaves has no hits. */
  lemma PrecisionRange(retrieved: seq<Doc>, relevant: set<Doc>, k: int)
    ensures 0.0 <= Precision(retrieved, relevant, k) <= 1.0
       <==> k >= 0 || Hits(Prefix(retrieved, k), relevant) == 0
  {
    var h := Hits(Prefix(retrieved, k), relevant);
    HitsBounds(Prefix(retrieved, k), relevant);
    if k > 0 {
      Ratio(h as real, k as real);
    } else if k < 0 {
      var p := h as real / k as real;
      assert p * -(k as real) == -(h as real);
      if p > 0.0 { Grows(0.0, p, -(k as real)); }
    }
  }

  /** A negative k with a hit in the slice it leaves. */
  lemma NegativeCutBreaksPrecision()
    ensures Precision(["d", "e"], {"d"}, -1) == -1.0
  {
    var one, two := ["d"], ["d", "e"];
    assert two[..1] == one && one[..0] == [];
    assert Hits(one, {"d"}) == 1;
  }

  // ---- promoting a relevant document

  lemma SplitLast(a: seq<Doc>, x: Doc, relevant: set<Doc>)
    ensures Hits(a + [x], relevant) == Hits(a, relevant) + (if x in relevant then 1 else 0)
    ensures PrecisionSum(a + [x], relevant)
         == PrecisionSum(a, relevant)
            + if x in relevant then (Hits(a, relevant) + 1) as real / (|a| + 1) as real else 0.0
    ensures forall d: Discount ::
              Gain(d, a + [x], relevant) == Gain(d, a, relevant) + if x in relevant then d(|a|) else 0.0
  {
    assert (a + [x])[..|a|] == a;
  }

  /** What follows two equally long lists with equally many hits adds the same to both. */
  lemma {:induction false} SameTail(p: seq<Doc>, q: seq<Doc>, b: seq<Doc>, relevant: set<Doc>, d: Discount)
    requires |p| == |q| && Hits(p, relevant) == Hits(q, relevant)
    ensures PrecisionSum(p + b, relevant) - PrecisionSum(p, relevant)
         == PrecisionSum(q + b, relevant) - PrecisionSum(q, relevant)
    ensures Gain(d, p + b, relevant) - Gain(d, p, relevant) == Gain(d, q + b, relevant) - Gain(d, q, relevant)
    decreases |b|
  {
    if b == [] {
      assert p + b == p && q + b == q;
    } else {
      var b', x := b[..|b| - 1], b[|b| - 1];
      assert p + b == (p + b') + [x] && q + b == (q + b') + [x];
      SameTail(p, q, b', relevant, d);
      SplitLast(p + b', x, relevant);
      SplitLast(q + b', x, relevant);
      HitsConcat(p, b', relevant);
      HitsConcat(q, b', relevant);
    }
  }

  lemma SwapPair(a: seq<Doc>, x: Doc, y: Doc, relevant: set<Doc>, d: Discount)
    requires x !in relevant && y in relevant && PositiveDecreasing(d)
    ensures Hits(a + [y, x], relevant) == Hits(a + [x, y], relevant)
    ensures PrecisionSum(a + [y, x], relevant) > PrecisionSum(a + [x, y], relevant)
    ensures Gain(d, a + [y, x], relevant) > Gain(d, a + [x, y], relevant)
  {
    assert a + [x, y] == (a + [x]) + [y] && a + [y, x] == (a + [y]) + [x];
    SplitLast(a, x, relevant);
    SplitLast(a + [x], y, relevant);
    SplitLast(a, y, relevant);
    SplitLast(a + [y], x, relevant);
    LargerShare((Hits(a, relevant) + 1) as real, |a| + 1);
  }

  lemma PositiveFactor(x: real, n: real)
    requires n > 0.0 && x * n > 0.0
    ensures x > 0.0
  {}

  lemma SmallerReciprocal(x: real, y: real)
    requires 0.0 < x < y
    ensures 1.0 / x > 1.0 / y
  {
    var p, q := 1.0 / x, 1.0 / y;
    assert p * x == 1.0 && q * y == 1.0;
    PositiveFactor(q, y);
    Grows(x, y, q);
    assert (p - q) * x == 1.0 - x * q;
    PositiveFactor(p - q, x);
  }

  lemma LargerShare(h: real, n: nat)
    requires h > 0.0 && n > 0
    ensures h / n as real > h / (n + 1) as real
  {
    var p, q := h / n as real, h / (n + 1) as real;
    assert p * n as real == h && q * (n + 1) as real == h;
    PositiveFactor(q, (n + 1) as real);
    assert (p - q) * n as real == q;
    PositiveFactor(p - q, n as real);
  }

  lemma PromotionRaisesSum(a: seq<Doc>, x: Doc, y: Doc, b: seq<Doc>, relevant: set<Doc>)
    requires x !in relevant && y in relevant
    ensures PrecisionSum(a + [y, x] + b, relevant) > PrecisionSum(a + [x, y] + b, relevant)
    ensures Hits(a + [y, x] + b, relevant) == Hits(a + [x, y] + b, relevant)
  {
    var d: Discount := (i: nat) => 1.0 / (i + 1) as real;
    HarmonicDiscount(d);
    SwapPair(a, x, y, relevant, d);
    SameTail(a + [y, x], a + [x, y], b, relevant, d);
    HitsConcat(a + [y, x], b, relevant);
    HitsConcat(a + [x, y], b, relevant);
  }

  /** Moving a relevant document one place up past an irrelevant one raises AP. */
  lemma PromotionRaisesAP(a: seq<Doc>, x: Doc, y: Doc, b: seq<Doc>, relevant: set<Doc>)
    requires x !in relevant && y in relevant
    ensures AP(a + [y, x] + b, relevant) > AP(a + [x, y] + b, relevant)
  {
    var before, after := a + [x, y] + b, a + [y, x] + b;
    PromotionRaisesSum(a, x, y, b, relevant);
    assert Hits(after, relevant) > 0 by {
      assert after == (a + [y]) + ([x] + b);
      HitsConcat(a + [y], [x] + b, relevant);
      SplitLast(a, y, relevant);
    }
    Grows(PrecisionSum(before, relevant), PrecisionSum(after, relevant), 1.0 / |relevant| as real);
  }

  lemma HarmonicDiscount(d: Discount)
    requires forall i: nat :: d(i) == 1.0 / (i + 1) as real
    ensures PositiveDecreasing(d)
  {
    forall i: nat, j: nat | i < j ensures d(i) > d(j) {
      SmallerReciprocal((i + 1) as real, (j + 1) as real);
    }
  }

  /** ... never lowers DCG at any cut, and raises it exactly when the cut falls behind the
      upper place. */
  lemma PromotionNeverLowersDCG(a: seq<Doc>, x: Doc, y: Doc, b: seq<Doc>, relevant: set<Doc>, d: Discount, k: int)
    requires x !in relevant && y in relevant && PositiveDecreasing(d)
    ensures var before, after := a + [x, y] + b, a + [y, x] + b;
            && DCG(d, after, relevant, k) >= DCG(d, before, relevant, k)
            && (DCG(d, after, relevant, k) > DCG(d, before, relevant, k) <==> |Prefix(before, k)| > |a|)
  {
    var before, after := a + [x, y] + b, a + [y, x] + b;
    var n := |Prefix(before, k)|;
    assert Prefix(before, k) == before[..n] && Prefix(after, k) == after[..n];
    if n <= |a| {
      assert before[..n] == a[..n] == after[..n];
    } else if n == |a| + 1 {
      assert before[..n] == a + [x] && after[..n] == a + [y];
      SplitLast(a, x, relevant);
      SplitLast(a, y, relevant);
    } else {
      var m := n - |a| - 2;
      assert before[..n] == a + [x, y] + b[..m] && after[..n] == a + [y, x] + b[..m];
      SwapPair(a, x, y, relevant, d);
      SameTail(a + [y, x], a + [x, y], b[..m], relevant, d);
    }
  }

  lemma LargerReciprocal(s: nat, r: nat)
    requires 0 < s <= r
    ensures 1.0 / s as real >= 1.0 / r as real
  {
    if s < r { SmallerReciprocal(s as real, r as real); }
  }

  /** ... and never lowers the reciprocal rank. */
  lemma PromotionNeverLowersRR(a: seq<Doc>, x: Doc, y: Doc, b: seq<Doc>, relevant: set<Doc>)
    requires x !in relevant && y in relevant
    ensures RR(a + [y, x] + b, relevant) >= RR(a + [x, y] + b, relevant)
  {
    var before, after := a + [x, y] + b, a + [y, x] + b;
    var r, s := FirstRank(before, relevant), FirstRank(after, relevant);
    assert before[|a| + 1] == y && after[|a|] == y;
    assert forall i | 0 <= i < |a| :: before[i] == after[i] == a[i];
    assert before[|a|] == x;
    assert 0 < s <= r;
    LargerReciprocal(s, r);
  }

  // ---- the metrics by index

  /** f(0) + ... + f(n-1) */
  ghost function Total(f: nat -> real, n: nat): real {
    if n == 0 then 0.0 else Total(f, n - 1) + f(n - 1)
  }

  /** The places below n that hold a relevant document. */
  ghost function HitPlaces(retrieved: seq<Doc>, relevant: set<Doc>, n: nat): set<nat> {
    set i: nat | i < n && i < |retrieved| && retrieved[i] in relevant
  }

  lemma {:induction false} HitsByIndex(retrieved: seq<Doc>, relevant: set<Doc>, n: nat)
    requires n <= |retrieved|
    ensures Hits(retrieved[..n], relevant) == |HitPlaces(retrieved, relevant, n)|
  {
    if n == 0 {
      assert HitPlaces(retrieved, relevant, 0) == {};
    } else {
      HitsByIndex(retrieved, relevant, n - 1);
      assert retrieved[..n][..n - 1] == retrieved[..n - 1];
      if retrieved[n - 1] in relevant {
        assert HitPlaces(retrieved, relevant, n) == HitPlaces(retrieved, relevant, n - 1) + {n - 1};
      } else {
        assert HitPlaces(retrieved, relevant, n) == HitPlaces(retrieved, relevant, n - 1);
      }
    }
  }

  /** The share of relevant documents among the first i + 1, where the i-th is relevant. */
  ghost function PrecisionAt(retrieved: seq<Doc>, relevant: set<Doc>, i: nat): real {
    if i < |retrieved| && retrieved[i] in relevant then
      |HitPlaces(retrieved, relevant, i + 1)| as real / (i + 1) as real
    else 0.0
  }

  ghost function PrecisionTerms(retrieved: seq<Doc>, relevant: set<Doc>): nat -> real {
    (i: nat) => PrecisionAt(retrieved, relevant, i)
  }

  ghost function GainTerms(d: Discount, retrieved: seq<Doc>, relevant: set<Doc>): nat -> real {
    (i: nat) => if i < |retrieved| && retrieved[i] in relevant then d(i) else 0.0
  }

  lemma {:induction false} PrecisionSumByIndex(retrieved: seq<Doc>, relevant: set<Doc>, n: nat)
    requires n <= |retrieved|
    ensures PrecisionSum(retrieved[..n], relevant) == Total(PrecisionTerms(retrieved, relevant), n)
  {
    if n > 0 {
      PrecisionSumByIndex(retrieved, relevant, n - 1);
      HitsByIndex(retrieved, relevant, n);
      assert retrieved[..n][..n - 1] == retrieved[..n - 1];
    }
  }

  lemma {:induction false} GainByIndex(d: Discount, retrieved: seq<Doc>, relevant: set<Doc>, n: nat)
    requires n <= |retrieved|
    ensures Gain(d, retrieved[..n], relevant)
         == Total(GainTerms(d, retrieved, relevant), n)
  {
    if n > 0 {
      GainByIndex(d, retrieved, relevant, n - 1);
      assert retrieved[..n][..n - 1] == retrieved[..n - 1];
    }
  }

  lemma {:induction false} IdealByIndex(d: Discount, n: nat)
    ensures Ideal(d, n) == Total(d, n)
  {
    if n > 0 { IdealByIndex(d, n - 1); }
  }

  /** How many places a cut at k looks at: Python counts a negative k from the end. */
  ghost function CutAt(n: nat, k: int): nat {
    if k >= n then n else if k >= 0 then k else if n + k > 0 then n + k else 0
  }

  lemma Shared(x: real, n: nat, y: real)
    requires n > 0 && x == y / n as real
    ensures x * n as real == y
  {}

  /** AP times the number of relevant documents is the precision summed over the relevant
      ranks; without relevant documents it is 0. */
  lemma AveragePrecisionMeaning(retrieved: seq<Doc>, relevant: set<Doc>)
    ensures AP(retrieved, relevant) * |relevant| as real
         == if relevant == {} then 0.0 else Total(PrecisionTerms(retrieved, relevant), |retrieved|)
    ensures relevant == {} ==> AP(retrieved, relevant) == 0.0
  {
    assert retrieved[..|retrieved|] == retrieved;
    PrecisionSumByIndex(retrieved, relevant, |retrieved|);
    if relevant != {} {
      if Hits(retrieved, relevant) == 0 {
        PrecisionSumAtMostHits(retrieved, relevant);
      } else {
        Shared(AP(retrieved, relevant), |relevant|, PrecisionSum(retrieved, relevant));
      }
    }
  }

  /** The reciprocal rank inverts the rank of the first relevant document. */
  lemma ReciprocalRankMeaning(retrieved: seq<Doc>, relevant: set<Doc>, i: nat)
    requires i <= |retrieved| && forall j | 0 <= j < i :: retrieved[j] !in relevant
    requires i < |retrieved| ==> retrieved[i] in relevant
    ensures i < |retrieved| ==> RR(retrieved, relevant) * (i + 1) as real == 1.0
    ensures i == |retrieved| ==> RR(retrieved, relevant) == 0.0
  {
    if i < |retrieved| {
      assert FirstRank(retrieved, relevant) == i + 1;
      Shared(RR(retrieved, relevant), i + 1, 1.0);
    }
  }

  /** DCG sums the discounts of the relevant places of the cut, and the ideal the first ones. */
  lemma DcgMeaning(d: Discount, retrieved: seq<Doc>, relevant: set<Doc>, k: int)
    ensures DCG(d, retrieved, relevant, k)
         == Total(GainTerms(d, retrieved, relevant), CutAt(|retrieved|, k))
  {
    GainByIndex(d, retrieved, relevant, CutAt(|retrieved|, k));
    assert Prefix(retrieved, k) == retrieved[..CutAt(|retrieved|, k)];
  }

  /** nDCG times the ideal gain of as many documents as are relevant and fit is DCG. */
  lemma NdcgMeaning(d: Discount, retrieved: seq<Doc>, relevant: set<Doc>, k: nat)
    requires PositiveDecreasing(d)
    ensures relevant != {} && k > 0 ==>
              NDCG(d, retrieved, relevant, k) * Total(d, if |relevant| < k then |relevant| else k)
              == DCG(d, retrieved, relevant, k)
    ensures relevant == {} || k == 0 ==> NDCG(d, retrieved, relevant, k) == 0.0
  {
    var best := if |relevant| < k then |relevant| else k;
    if relevant != {} && k > 0 {
      IdealByIndex(d, best);
      IdealMonotone(d, 0, best);
      SignedQuotient(DCG(d, retrieved, relevant, k), Ideal(d, best));
    }
  }

  /** Recall and precision share out the relevant places of the cut. */
  lemma RecallAndPrecisionMeaning(retrieved: seq<Doc>, relevant: set<Doc>, k: int)
    ensures var hits := |HitPlaces(retrieved, relevant, CutAt(|retrieved|, k))|;
            && (relevant == {} ==> Recall(retrieved, relevant, k) == 0.0)
            && (relevant != {} ==> Recall(retrieved, relevant, k) * |relevant| as real == hits as real)
            && (k == 0 ==> Precision(retrieved, relevant, k) == 0.0)
            && (k != 0 ==> Precision(retrieved, relevant, k) * k as real == hits as real)
  {
    var n := CutAt(|retrieved|, k);
    HitsByIndex(retrieved, relevant, n);
    assert Prefix(retrieved, k) == retrieved[..n];
    var hits := Hits(Prefix(retrieved, k), relevant);
    if relevant != {} { Shared(Recall(retrieved, relevant, k), |relevant|, hits as real); }
    if k != 0 { SignedQuotient(hits as real, k as real); }
  }

  lemma SignedQuotient(x: real, y: real)
    requires y != 0.0
    ensures (x / y) * y == x
  {}
}
