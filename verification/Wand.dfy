/** faim_native/index/wand.py: the shortlist against `InvertedIndex.top_k`. */
module Wand {
  import opened Ordering
  import opened Ranking
  import opened Text
  import opened InvertedIndex

  /** One channel's statistics; an absent channel has no documents. */
  datatype Stats = Stats(docCount: int, df: map<string, int>)

  /** Term statistics, and the rounding of a bound to six places. */
  datatype Statistics = Statistics(channels: map<Channel, Stats>, round: real -> real) {
    function DocCount(c: Channel): int {
      if c in channels && channels[c].docCount > 1 then channels[c].docCount else 1
    }

    function DocFrequency(c: Channel, t: string): int {
      if c in channels && t in channels[c].df && channels[c].df[t] > 0 then channels[c].df[t] else 0
    }

    function Idf(c: Channel, t: string): real {
      var n, df := DocCount(c), DocFrequency(c, t);
      if df <= 0 then 1.0 else AtMostOne(0.1 + (n - df) as real / n as real)
    }

    function Bound(c: Channel, t: string, postings: seq<Posting>): real
      requires postings != []
    {
      round(Weigh(Idf(c, t), MaxTf(postings)))
    }
  }

  function AtMostOne(x: real): real { if x < 1.0 then x else 1.0 }

  function Weigh(idf: real, tf: int): real {
    AtMostOne(idf * TfBound(tf))
  }

  function TfBound(tf: int): real {
    AtMostOne(tf as real / (if tf > 1 then tf else 1) as real)
  }

  function MaxTf(postings: seq<Posting>): int
    requires postings != []
  {
    if |postings| == 1 then postings[0].tf
    else if postings[0].tf > MaxTf(postings[1..]) then postings[0].tf else MaxTf(postings[1..])
  }

  lemma SignOfProduct(x: real, n: real)
    requires n > 0.0
    ensures x >= 0.0 <==> x * n >= 0.0
  {
    if x < 0.0 { assert x * n < 0.0; }
  }

  lemma QuotientSign(q: real, n: real, d: real)
    requires n > 0.0 && q * n == d
    ensures q >= -0.1 <==> 10.0 * d >= -n
  {
    assert (q + 0.1) * n == d + 0.1 * n;
    SignOfProduct(q + 0.1, n);
  }

  /** The idf bound lies in [0, 1] exactly while the document frequency stays within 1.1
      times the document count. */
  lemma IdfInUnitInterval(s: Statistics, c: Channel, t: string)
    ensures 0.0 <= s.Idf(c, t) <= 1.0 <==> 10 * s.DocFrequency(c, t) <= 11 * s.DocCount(c)
  {
    var n, df := s.DocCount(c), s.DocFrequency(c, t);
    QuotientSign((n - df) as real / n as real, n as real, (n - df) as real);
  }

  /** A missing channel counts as one document without the term. */
  lemma CountsMeaning(s: Statistics, c: Channel, t: string)
    ensures c !in s.channels ==> s.DocCount(c) == 1 && s.DocFrequency(c, t) == 0
    ensures c in s.channels && s.channels[c].docCount >= 1 ==> s.DocCount(c) == s.channels[c].docCount
    ensures c in s.channels && s.channels[c].docCount < 1 ==> s.DocCount(c) == 1
    ensures c in s.channels && t in s.channels[c].df && s.channels[c].df[t] >= 0 ==>
              s.DocFrequency(c, t) == s.channels[c].df[t]
    ensures c in s.channels && (t !in s.channels[c].df || s.channels[c].df[t] < 0) ==> s.DocFrequency(c, t) == 0
  {}

  lemma TenthOf(n: int, df: int)
    requires n > 0
    ensures 0.1 + (n - df) as real / n as real >= 1.0 <==> 10 * df <= n
    ensures ((n - df) as real / n as real) * n as real == (n - df) as real
  {
    var q := (n - df) as real / n as real;
    assert q * n as real == (n - df) as real;
    assert (q - 0.9) * n as real == (n - df) as real - 0.9 * n as real;
    SignOfProduct(q - 0.9, n as real);
  }

  /** The idf bound is 1 for a term in at most a tenth of the documents, and falls by the share
      of documents beyond that. */
  lemma IdfMeaning(s: Statistics, c: Channel, t: string)
    ensures var n, df := s.DocCount(c), s.DocFrequency(c, t);
            && (10 * df <= n ==> s.Idf(c, t) == 1.0)
            && (10 * df > n ==> (s.Idf(c, t) - 0.1) * n as real == (n - df) as real)
  {
    TenthOf(s.DocCount(c), s.DocFrequency(c, t));
  }

  lemma {:induction false} MaxTfMeaning(postings: seq<Posting>)
    requires postings != []
    ensures exists x :: x in postings && x.tf == MaxTf(postings)
    ensures forall x :: x in postings ==> x.tf <= MaxTf(postings)
  {
    if |postings| > 1 {
      MaxTfMeaning(postings[1..]);
      assert forall x :: x in postings <==> x == postings[0] || x in postings[1..];
      if postings[0].tf > MaxTf(postings[1..]) {
        assert postings[0] in postings;
      } else {
        var x :| x in postings[1..] && x.tf == MaxTf(postings[1..]);
        assert x in postings;
      }
    } else {
      assert postings[0] in postings;
    }
  }

  lemma TfBoundMeaning(tf: int)
    ensures tf >= 1 ==> TfBound(tf) == 1.0
    ensures tf < 1 ==> TfBound(tf) == tf as real
  {}

  lemma TimesOne(x: real, y: real)
    requires y == 1.0
    ensures x * y == x
  {}

  lemma WeighMeaning(idf: real, tf: int)
    ensures Weigh(idf, tf) == AtMostOne(if tf >= 1 then idf else idf * tf as real)
  {
    TfBoundMeaning(tf);
    var share := TfBound(tf);
    if tf >= 1 { TimesOne(idf, share); }
  }

  /** A term posted with a frequency of at least 1 anywhere is bounded by its idf; otherwise the
      idf is scaled by the largest frequency m. */
  lemma BoundMeaning(s: Statistics, c: Channel, t: string, postings: seq<Posting>, m: int) returns (bound: real)
    requires (exists x :: x in postings && x.tf == m) && forall x :: x in postings ==> x.tf <= m
    ensures s.Bound(c, t, postings) == s.round(bound) && bound <= 1.0
    ensures bound < 1.0 ==> bound == if m >= 1 then s.Idf(c, t) else s.Idf(c, t) * m as real
    ensures bound == 1.0 ==> 1.0 <= if m >= 1 then s.Idf(c, t) else s.Idf(c, t) * m as real
  {
    MaxTfMeaning(postings);
    assert MaxTf(postings) == m;
    WeighMeaning(s.Idf(c, t), m);
    bound := if m >= 1 then s.Idf(c, t) else s.Idf(c, t) * m as real;
    if bound > 1.0 { bound := 1.0; }
    assert bound == Weigh(s.Idf(c, t), MaxTf(postings));
    assert s.Bound(c, t, postings) == s.round(Weigh(s.Idf(c, t), MaxTf(postings)));
  }

  /** Statistics of a term in two documents out of one take the bound out of [0, 1]. */
  lemma InflatedFrequencyBreaksIdf(round: real -> real)
    ensures Statistics(map[Word := Stats(1, map["t" := 2])], round).Idf(Word, "t") < 0.0
  {}

  datatype TermBound = TermBound(channel: Channel, term: string, bound: real)

  ghost predicate IsBound(index: Index, stats: Statistics, b: TermBound) {
    && index.PostingsFor(b.channel, b.term) != []
    && b.bound == stats.Bound(b.channel, b.term, index.PostingsFor(b.channel, b.term))
  }

  /** Channels in their fixed order, then terms in string order, each pair once. */
  predicate BoundBefore(a: TermBound, b: TermBound) {
    || Rank(a.channel) < Rank(b.channel)
    || (a.channel == b.channel && a.term != b.term && LexLe(a.term, b.term))
  }

  ghost predicate BoundsAscend(bounds: seq<TermBound>) {
    forall i, j | 0 <= i < j < |bounds| :: BoundBefore(bounds[i], bounds[j])
  }

  /** All bounds of the channels before the i-th, and of the i-th one's first j terms. */
  ghost predicate BoundsUpTo(index: Index, q: Representation, stats: Statistics, bounds: seq<TermBound>, i: nat, j: nat)
    requires i < |CHANNELS| && j <= |q.QueryTerms(CHANNELS[i])|
  {
    && BoundsAscend(bounds)
    && forall b :: b in bounds <==>
         && IsBound(index, stats, b)
         && ((Rank(b.channel) < i && q.Has(b.channel, b.term))
             || (b.channel == CHANNELS[i] && b.term in q.QueryTerms(CHANNELS[i])[..j]))
  }

  lemma AscendMore(bounds: seq<TermBound>, last: TermBound)
    requires BoundsAscend(bounds) && forall b :: b in bounds ==> BoundBefore(b, last)
    ensures BoundsAscend(bounds + [last])
  {
    assert forall k | 0 <= k < |bounds| :: bounds[k] in bounds;
  }

  /** The next bound comes after all before it. */
  lemma NextBoundIsLater(index: Index, q: Representation, stats: Statistics, bounds: seq<TermBound>, i: nat, j: nat,
                         last: TermBound)
    requires i < |CHANNELS| && j < |q.QueryTerms(CHANNELS[i])|
    requires BoundsUpTo(index, q, stats, bounds, i, j)
    requires last.channel == CHANNELS[i] && last.term == q.QueryTerms(CHANNELS[i])[j]
    ensures forall b :: b in bounds ==> BoundBefore(b, last)
  {
    var terms := q.QueryTerms(CHANNELS[i]);
    RankOfChannel(i);
    QueryTermsAscend(q, CHANNELS[i]);
    forall b | b in bounds ensures BoundBefore(b, last) {
      if b.channel == CHANNELS[i] { var k :| 0 <= k < j && terms[k] == b.term; }
    }
  }

  lemma BoundOneMore(index: Index, q: Representation, stats: Statistics, bounds: seq<TermBound>, i: nat, j: nat)
    requires i < |CHANNELS| && j < |q.QueryTerms(CHANNELS[i])|
    requires BoundsUpTo(index, q, stats, bounds, i, j)
    ensures var c, t := CHANNELS[i], q.QueryTerms(CHANNELS[i])[j];
            var postings := index.PostingsFor(c, t);
            && (postings == [] ==> BoundsUpTo(index, q, stats, bounds, i, j + 1))
            && (postings != [] ==>
                BoundsUpTo(index, q, stats, bounds + [TermBound(c, t, stats.Bound(c, t, postings))], i, j + 1))
  {
    var c, t := CHANNELS[i], q.QueryTerms(CHANNELS[i])[j];
    TakeMore(q.QueryTerms(c), j);
    if index.PostingsFor(c, t) != [] {
      var last := TermBound(c, t, stats.Bound(c, t, index.PostingsFor(c, t)));
      NextBoundIsLater(index, q, stats, bounds, i, j, last);
      AscendMore(bounds, last);
    }
  }

  /** The dictionary of bounds in insertion order: one entry per posted query term. */
  method EstimateTermUpperBounds(index: Index, q: Representation, stats: Statistics)
    returns (bounds: seq<TermBound>)
    ensures forall b :: b in bounds <==> q.Has(b.channel, b.term) && IsBound(index, stats, b)
    ensures BoundsAscend(bounds)
  {
    bounds := [];
    for i := 0 to |CHANNELS|
      invariant BoundsAscend(bounds)
      invariant forall b :: b in bounds <==> Rank(b.channel) < i && q.Has(b.channel, b.term) && IsBound(index, stats, b)
    {
      RankOfChannel(i);
      var channel := CHANNELS[i];
      var terms := q.QueryTerms(channel);
      for j := 0 to |terms|
        invariant BoundsUpTo(index, q, stats, bounds, i, j)
      {
        BoundOneMore(index, q, stats, bounds, i, j);
        var postings := index.PostingsFor(channel, terms[j]);
        if postings == [] { continue; }
        bounds := bounds + [TermBound(channel, terms[j], stats.Bound(channel, terms[j], postings))];
      }
      assert terms[..|terms|] == terms;
      assert forall c :: Rank(c) == i ==> c == channel;
    }
  }

  function SumOfBounds(bounds: seq<TermBound>): real {
    if bounds == [] then 0.0 else bounds[0].bound + SumOfBounds(bounds[1..])
  }

  /** No bound of a posted query term is negative. */
  ghost predicate NonNegativeBounds(index: Index, q: Representation, stats: Statistics) {
    forall b: TermBound :: q.Has(b.channel, b.term) && IsBound(index, stats, b) ==> b.bound >= 0.0
  }

  lemma {:induction false} SumNonNegative(bounds: seq<TermBound>)
    requires forall b :: b in bounds ==> b.bound >= 0.0
    ensures SumOfBounds(bounds) >= 0.0
  {
    if bounds != [] {
      assert bounds[0] in bounds && forall b :: b in bounds[1..] ==> b in bounds;
      SumNonNegative(bounds[1..]);
    }
  }

  // ---- the common bound does not reorder

  datatype Bounded = Bounded(id: Id, score: real, bound: real)

  predicate BoundedLe(a: Bounded, b: Bounded) {
    a.bound > b.bound || (a.bound == b.bound && (a.score > b.score || (a.score == b.score && a.id <= b.id)))
  }

  function Clip(budget: real, s: Scored): Bounded {
    Bounded(s.id, AtMostOne(s.score), AtMostOne(s.score + 0.05 * budget))
  }

  function Unbound(b: Bounded): Scored {
    Scored(b.id, b.score)
  }

  ghost predicate AtMostOnes(scores: seq<Scored>) {
    forall s :: s in scores ==> s.score <= 1.0
  }

  /** The scores the shortlist reports. */
  function Clamped(scores: seq<Scored>): seq<Scored> {
    Map((s: Scored) => Scored(s.id, AtMostOne(s.score)), scores)
  }

  lemma ClampedAtMostOnes(scores: seq<Scored>)
    requires AtMostOnes(scores)
    ensures Clamped(scores) == scores
  {
    forall i | 0 <= i < |scores| ensures Clamped(scores)[i] == scores[i] {
      assert scores[i] in scores;
    }
  }

  /** For a budget that is not negative, or scores of at most 1 and any budget, sorting by
      clamped bound, then clamped score, then id is sorting by clamped score. */
  lemma BoundKeepsOrder(scores: seq<Scored>, budget: real)
    requires budget >= 0.0 || AtMostOnes(scores)
    ensures Map(Unbound, Sort(BoundedLe, Map(s => Clip(budget, s), scores))) == Sort(ScoredLe, Clamped(scores))
  {
    var clipped := Map(s => Clip(budget, s), scores);
    forall x, y | x in clipped && y in clipped && BoundedLe(x, y) ensures ScoredLe(Unbound(x), Unbound(y)) {
      var i :| 0 <= i < |scores| && clipped[i] == x;
      var j :| 0 <= j < |scores| && clipped[j] == y;
      assert scores[i] in scores && scores[j] in scores;
    }
    ScoredLeTotal();
    SortThroughMap(BoundedLe, ScoredLe, Unbound, clipped);
    assert Map(Unbound, clipped) == Clamped(scores);
  }

  lemma PrefixSorted(scores: seq<Scored>, k: int)
    ensures Sort(ScoredLe, Prefix(Sort(ScoredLe, scores), k)) == Prefix(Sort(ScoredLe, scores), k)
  {
    ScoredLeTotal();
    SortSorted(ScoredLe, scores);
    SortIs(ScoredLe, Prefix(Sort(ScoredLe, scores), k), Prefix(Sort(ScoredLe, scores), k));
  }

  lemma MapPrefix<T, U>(f: T -> U, s: seq<T>, k: int)
    ensures Map(f, Prefix(s, k)) == Prefix(Map(f, s), k)
  {}

  /** What the shortlist cuts once, by bound, and sorts again by score. */
  function ByBound(touched: seq<Scored>, budget: real, maxCandidates: int): seq<Scored> {
    Sort(ScoredLe, Map(Unbound, Prefix(Sort(BoundedLe, Map(s => Clip(budget, s), touched)), maxCandidates)))
  }

  /** Cutting by bound and sorting again by score is cutting the ranking by clamped score. */
  lemma ShortlistRanks(touched: seq<Scored>, scan: seq<Scored>, budget: real, maxCandidates: int)
    requires multiset(touched) == multiset(scan) && (budget >= 0.0 || AtMostOnes(scan))
    ensures ByBound(touched, budget, maxCandidates) == Prefix(Sort(ScoredLe, Clamped(scan)), maxCandidates)
  {
    SameMembers(touched, scan);
    BoundKeepsOrder(touched, budget);
    MapPrefix(Unbound, Sort(BoundedLe, Map(s => Clip(budget, s), touched)), maxCandidates);
    PrefixSorted(Clamped(touched), maxCandidates);
    ScoredLeTotal();
    MapPermutes((s: Scored) => Scored(s.id, AtMostOne(s.score)), touched, scan);
    SortCanonical(ScoredLe, Clamped(touched), Clamped(scan));
  }

  /** Cutting at m first changes a cut at k only when k reaches past m and so does the list. */
  lemma PrefixTwice(scan: seq<Scored>, m: int, k: int)
    ensures k >= 0 && m >= 0 ==>
              (Prefix(Prefix(Sort(ScoredLe, scan), m), k) == Prefix(Sort(ScoredLe, scan), k) <==> k <= m || |scan| <= m)
  {
    SortPermutes(ScoredLe, scan);
    var l := Sort(ScoredLe, scan);
    if k >= 0 && m >= 0 {
      assert |Prefix(Prefix(l, m), k)| == if |l| < m then (if |l| < k then |l| else k) else (if m < k then m else k);
    }
  }

  lemma NoBoundsNoMatches(index: Index, rows: seq<Row>, q: Representation, stats: Statistics, score: Scorer,
                          bounds: seq<TermBound>)
    requires index.Indexes(rows)
    requires forall b :: b in bounds <==> q.Has(b.channel, b.term) && IsBound(index, stats, b)
    ensures bounds == [] ==> FullScan(rows, q, score) == []
  {
    var scan := FullScan(rows, q, score);
    if scan != [] {
      assert scan[0] in scan;
      MatchIsScanned(index, rows, q, score, scan[0]);
      var c, t :| q.Has(c, t) && Hit(index, c, t, scan[0].id);
      var x :| x in index.PostingsFor(c, t) && x.id == scan[0].id;
      assert TermBound(c, t, stats.Bound(c, t, index.PostingsFor(c, t))) in bounds;
    }
  }

  /** The shortlist is the ranking by clamped score, cut once at `maxCandidates` and again at
      k, as long as no bound is negative or no score exceeds 1. While scores stay at most 1 it
      is `top_k` for k up to `maxCandidates`, and for no other nonnegative k unless the
      candidates run out first. */
  method BlockMaxWandShortlist(index: Index, q: Representation, stats: Statistics, score: Scorer,
                               k: int, maxCandidates: int, ghost rows: seq<Row>)
    returns (shortlist: seq<Scored>)
    requires index.Indexes(rows)
    ensures NonNegativeBounds(index, q, stats) || AtMostOnes(FullScan(rows, q, score)) ==>
              shortlist == Prefix(Prefix(Sort(ScoredLe, Clamped(FullScan(rows, q, score))), maxCandidates), k)
    ensures AtMostOnes(FullScan(rows, q, score)) && k >= 0 && maxCandidates >= 0 ==>
              (shortlist == Prefix(Sort(ScoredLe, FullScan(rows, q, score)), k)
               <==> k <= maxCandidates || |FullScan(rows, q, score)| <= maxCandidates)
  {
    ghost var scan := FullScan(rows, q, score);
    PrefixTwice(scan, maxCandidates, k);
    if AtMostOnes(scan) { ClampedAtMostOnes(scan); }
    var bounds := EstimateTermUpperBounds(index, q, stats);
    NoBoundsNoMatches(index, rows, q, stats, score, bounds);
    if bounds == [] { return []; }
    var touched := ScoreMatching(index, q, score, rows);
    SameLength(touched, scan);
    if touched == [] { return []; }
    var budget := SumOfBounds(bounds);
    if NonNegativeBounds(index, q, stats) { SumNonNegative(bounds); }
    if budget >= 0.0 || AtMostOnes(scan) { ShortlistRanks(touched, scan, budget, maxCandidates); }
    shortlist := Prefix(ByBound(touched, budget, maxCandidates), k);
  }
}
