/** faim_native/domain/semantic_memory.py: the pair loop and the choice of groups in
    `learn_semantic_memory_bundles`. */
module SemanticMemory {
  import opened Ordering
  import opened UnionFind

  const SIMILARITY_THRESHOLD := 0.72

  predicate NatLe(x: nat, y: nat) { x <= y }

  /** How a pair of ranked terms is scored: a mined alias overrides the similarity. */
  datatype Scoring = Scoring(alias: map<Pair, real>, similarity: (Term, Term) -> real) {
    function Score(left: Term, right: Term): real {
      var pair := if left < right then (left, right) else (right, left);
      if pair in alias then (if alias[pair] > 0.9 then alias[pair] else 0.9) else similarity(left, right)
    }

    predicate Above(left: Term, right: Term) {
      Score(left, right) >= SIMILARITY_THRESHOLD
    }

    /** The pairs the double loop has united before reaching (i, j). */
    ghost function PairsBefore(ranked: seq<Term>, i: nat, j: nat): set<Pair> {
      set a, b | 0 <= a < b < |ranked| && (a < i || (a == i && b < j)) && Above(ranked[a], ranked[b])
        :: (ranked[a], ranked[b])
    }

    ghost function SimilarPairs(ranked: seq<Term>): set<Pair> {
      PairsBefore(ranked, |ranked|, 0)
    }
  }

  ghost predicate Ascending(s: seq<Term>) {
    forall i, j | 0 <= i < j < |s| :: s[i] < s[j]
  }

  /** g is the whole component of its smallest term, in order. */
  ghost predicate Component(terms: set<Term>, pairs: set<Pair>, g: seq<Term>) {
    && |g| >= 2 && Ascending(g)
    && forall y :: y in g <==> y in terms && Connected(pairs, g[0], y)
  }

  ghost predicate FirstsAscend(all: seq<seq<Term>>) {
    forall i, j | 0 <= i < j < |all| :: |all[i]| > 0 && |all[j]| > 0 && all[i][0] < all[j][0]
  }

  /** `all` lists every component of two or more terms once, by smallest term. */
  ghost predicate Bundles(terms: set<Term>, pairs: set<Pair>, all: seq<seq<Term>>) {
    && (forall g :: g in all ==> Component(terms, pairs, g))
    && FirstsAscend(all)
    && (forall x, y :: x in terms && y in terms && x != y && Connected(pairs, x, y) ==> exists g :: g in all && x in g)
  }

  // ---- the selection is determined by the pairs

  lemma SameComponent(terms: set<Term>, pairs: set<Pair>, g: seq<Term>, h: seq<Term>, x: Term)
    requires Component(terms, pairs, g) && Component(terms, pairs, h) && x in g && x in h
    ensures g == h
  {
    ConnectedSymmetric(pairs, h[0], x);
    ConnectedTransitive(pairs, g[0], x, h[0]);
    forall y ensures y in g <==> y in h {
      if y in g {
        ConnectedSymmetric(pairs, g[0], x);
        ConnectedTransitive(pairs, h[0], x, g[0]);
        ConnectedTransitive(pairs, h[0], g[0], y);
      }
      if y in h { ConnectedTransitive(pairs, g[0], h[0], y); }
    }
    AscendingUnique(g, h);
  }

  lemma {:induction false} AscendingUnique(g: seq<Term>, h: seq<Term>)
    requires Ascending(g) && Ascending(h) && forall y :: y in g <==> y in h
    ensures g == h
  {
    assert h == [] || h[0] in h;
    if g != [] {
      assert g[0] in h && h[0] in g;
      assert g[0] == h[0];
      forall y ensures y in g[1..] <==> y in h[1..] {
        assert y in g[1..] <==> y in g && y != g[0];
        assert y in h[1..] <==> y in h && y != h[0];
      }
      AscendingUnique(g[1..], h[1..]);
      assert g == [g[0]] + g[1..] && h == [h[0]] + h[1..];
    }
  }

  /** Distinct groups share no term. */
  lemma BundlesDisjoint(terms: set<Term>, pairs: set<Pair>, all: seq<seq<Term>>, i: nat, j: nat, x: Term)
    requires Bundles(terms, pairs, all) && i < |all| && j < |all| && x in all[i] && x in all[j]
    ensures i == j
  {
    assert all[i] in all && all[j] in all;
    SameComponent(terms, pairs, all[i], all[j], x);
  }

  lemma BundleFound(terms: set<Term>, pairs: set<Pair>, all: seq<seq<Term>>, g: seq<Term>)
    requires Bundles(terms, pairs, all) && Component(terms, pairs, g)
    ensures g in all
  {
    assert g[0] in g && g[1] in g;
    ConnectedReflexive(pairs, g[0]);
    var h :| h in all && g[0] in h;
    SameComponent(terms, pairs, g, h, g[0]);
  }

  function Firsts(all: seq<seq<Term>>): (r: seq<Term>)
    requires forall g :: g in all ==> |g| > 0
    ensures |r| == |all| && forall i | 0 <= i < |all| :: r[i] == all[i][0]
  {
    seq(|all|, i requires 0 <= i < |all| => assert all[i] in all; all[i][0])
  }

  /** The list of groups is fixed by the terms and the set of similar pairs, so no order
      of processing pairs can change it. */
  lemma BundlesUnique(terms: set<Term>, pairs: set<Pair>, a: seq<seq<Term>>, b: seq<seq<Term>>)
    requires Bundles(terms, pairs, a) && Bundles(terms, pairs, b)
    ensures a == b
  {
    forall g ensures g in a <==> g in b {
      if g in a { BundleFound(terms, pairs, b, g); }
      if g in b { BundleFound(terms, pairs, a, g); }
    }
    var fa, fb := Firsts(a), Firsts(b);
    forall y ensures y in fa <==> y in fb {
      if y in fa { var i :| 0 <= i < |a| && fa[i] == y; assert a[i] in b; }
      if y in fb { var i :| 0 <= i < |b| && fb[i] == y; assert b[i] in a; }
    }
    AscendingUnique(fa, fb);
    forall i | 0 <= i < |a| ensures a[i] == b[i] {
      assert a[i] in a && b[i] in b && a[i][0] == fa[i] == fb[i] == b[i][0];
      assert a[i][0] in a[i] && b[i][0] in b[i];
      SameComponent(terms, pairs, a[i], b[i], a[i][0]);
    }
  }

  // ---- the source's loops

  /** The list kept for root r holds its terms once each. */
  ghost predicate Collected(root: map<Term, Term>, done: seq<Term>, grouped: map<Term, seq<Term>>, r: Term) {
    && r in grouped && Distinct(grouped[r]) && grouped[r] != []
    && forall t :: t in grouped[r] <==> t in done && t in root && root[t] == r
  }

  ghost predicate Filed(root: map<Term, Term>, grouped: map<Term, seq<Term>>, t: Term) {
    t in root && root[t] in grouped
  }

  /** `grouped` after the terms in `done`, with its keys in insertion order. */
  ghost predicate Grouped(root: map<Term, Term>, done: seq<Term>, roots: seq<Term>, grouped: map<Term, seq<Term>>) {
    && Distinct(roots)
    && (forall r :: r in roots <==> r in grouped)
    && (forall t {:trigger Filed(root, grouped, t)} :: t in done ==> Filed(root, grouped, t))
    && (forall r {:trigger Collected(root, done, grouped, r)} :: r in grouped ==> Collected(root, done, grouped, r))
  }

  lemma GroupOne(root: map<Term, Term>, done: seq<Term>, roots: seq<Term>, grouped: map<Term, seq<Term>>, t: Term)
    requires Grouped(root, done, roots, grouped) && t in root && t !in done
    ensures var r := root[t];
            Grouped(root, done + [t], if r in grouped then roots else roots + [r],
                    grouped[r := (if r in grouped then grouped[r] else []) + [t]])
  {
    var r := root[t];
    var grouped' := grouped[r := (if r in grouped then grouped[r] else []) + [t]];
    forall x {:trigger Filed(root, grouped', x)} | x in done + [t] ensures Filed(root, grouped', x) {
      assert x == t || Filed(root, grouped, x);
    }
    forall q {:trigger Collected(root, done + [t], grouped', q)} | q in grouped'
      ensures Collected(root, done + [t], grouped', q)
    {
      if q in grouped {
        assert Collected(root, done, grouped, q);
      } else {
        forall x | x in done && x in root ensures root[x] != r { assert Filed(root, grouped, x); }
      }
    }
  }

  lemma SortedDistinctAscends(s: seq<Term>)
    requires Distinct(s)
    ensures Ascending(Sort(NatLe, s)) && forall y :: y in Sort(NatLe, s) <==> y in s
    ensures |Sort(NatLe, s)| == |s|
  {
    SortDistinct(NatLe, s);
  }

  /** The members kept for root r, sorted, are its component. */
  lemma GroupIsComponent(parent: map<Term, Term>, root: map<Term, Term>, pairs: set<Pair>, ranked: seq<Term>,
                         roots: seq<Term>, grouped: map<Term, seq<Term>>, r: Term)
    requires RootMap(parent, root) && Represents(root, pairs) && parent.Keys == Terms(ranked)
    requires Grouped(root, ranked, roots, grouped) && r in grouped
    ensures var g := Sort(NatLe, grouped[r]);
            && g != [] && g[0] == r
            && (|g| >= 2 ==> Component(parent.Keys, pairs, g))
            && (|g| < 2 ==> forall y :: y in parent && Connected(pairs, r, y) ==> y == r)
  {
    assert Collected(root, ranked, grouped, r);
    var g := Sort(NatLe, grouped[r]);
    SortedDistinctAscends(grouped[r]);
    var t := grouped[r][0];
    assert t in grouped[r];
    assert Ends(parent, root, t) && Ends(parent, root, r);
    assert r in grouped[r] && r in g && g[0] in g;
    assert Ends(parent, root, g[0]);
    var i :| 0 <= i < |g| && g[i] == r;
    assert g[0] == r;
    forall y ensures y in g <==> y in parent && Connected(pairs, r, y) {
      if y in parent { assert Agrees(root, pairs, r, y); }
    }
    if |g| < 2 { assert g == [r]; }
  }

  /** The inner loop: ranked[i] against every later term. */
  method UniteWithLater(ranked: seq<Term>, scoring: Scoring, i: nat, uf: UnionFind)
    requires i < |ranked| && uf.Valid() && uf.parent.Keys == Terms(ranked)
    requires uf.pairs == scoring.PairsBefore(ranked, i, 0)
    modifies uf
    ensures uf.Valid() && uf.parent.Keys == Terms(ranked)
    ensures uf.pairs == scoring.PairsBefore(ranked, i + 1, 0)
  {
    PairsStart(scoring, ranked, i);
    for j := i + 1 to |ranked|
      invariant uf.Valid() && uf.parent.Keys == Terms(ranked)
      invariant uf.pairs == scoring.PairsBefore(ranked, i, j)
    {
      PairsStep(scoring, ranked, i, j);
      if scoring.Score(ranked[i], ranked[j]) < SIMILARITY_THRESHOLD { continue; }
      uf.Union(ranked[i], ranked[j]);
    }
    PairsEnd(scoring, ranked, i);
  }

  /** The double loop over ranked terms unites exactly the pairs at or above the threshold. */
  method UniteSimilar(ranked: seq<Term>, scoring: Scoring) returns (uf: UnionFind)
    ensures fresh(uf) && uf.Valid()
    ensures uf.parent.Keys == Terms(ranked) && uf.pairs == scoring.SimilarPairs(ranked)
  {
    uf := new UnionFind(ranked);
    for i := 0 to |ranked|
      invariant uf.Valid() && uf.parent.Keys == Terms(ranked)
      invariant uf.pairs == scoring.PairsBefore(ranked, i, 0)
    {
      UniteWithLater(ranked, scoring, i, uf);
    }
  }

  lemma PairsStart(scoring: Scoring, ranked: seq<Term>, i: nat)
    ensures scoring.PairsBefore(ranked, i, 0) == scoring.PairsBefore(ranked, i, i + 1)
  {}

  lemma PairsEnd(scoring: Scoring, ranked: seq<Term>, i: nat)
    ensures scoring.PairsBefore(ranked, i, |ranked|) == scoring.PairsBefore(ranked, i + 1, 0)
  {}

  lemma PairsStep(scoring: Scoring, ranked: seq<Term>, i: nat, j: nat)
    requires i < j < |ranked|
    ensures scoring.PairsBefore(ranked, i, j + 1)
         == scoring.PairsBefore(ranked, i, j)
            + (if scoring.Above(ranked[i], ranked[j]) then {(ranked[i], ranked[j])} else {})
  {}

  /** `[sorted(set(members)) for _root, members in ... if len(set(members)) >= 2]`; the
      members of a group are distinct, so `set` drops nothing. */
  function Select(order: seq<Term>, grouped: map<Term, seq<Term>>): seq<seq<Term>>
    requires forall r :: r in order ==> r in grouped
  {
    if order == [] then []
    else
      var g := Sort(NatLe, grouped[order[0]]);
      (if |g| >= 2 then [g] else []) + Select(order[1..], grouped)
  }

  ghost predicate Headed(order: seq<Term>, grouped: map<Term, seq<Term>>) {
    forall r :: r in order ==> r in grouped && Sort(NatLe, grouped[r]) != [] && Sort(NatLe, grouped[r])[0] == r
  }

  lemma {:induction false} SelectMembers(order: seq<Term>, grouped: map<Term, seq<Term>>)
    requires Headed(order, grouped)
    ensures forall g :: g in Select(order, grouped) <==>
              |g| >= 2 && g[0] in order && g == Sort(NatLe, grouped[g[0]])
  {
    if order != [] {
      var g, rest := Sort(NatLe, grouped[order[0]]), Select(order[1..], grouped);
      SelectMembers(order[1..], grouped);
      forall h ensures h in Select(order, grouped) <==> |h| >= 2 && h[0] in order && h == Sort(NatLe, grouped[h[0]]) {
        assert h in Select(order, grouped) <==> (h == g && |g| >= 2) || h in rest;
        assert |h| >= 2 ==> (h[0] in order <==> h[0] == order[0] || h[0] in order[1..]);
      }
    }
  }

  lemma {:induction false} SelectAscends(order: seq<Term>, grouped: map<Term, seq<Term>>)
    requires Ascending(order) && Headed(order, grouped)
    ensures FirstsAscend(Select(order, grouped))
  {
    if order != [] {
      var g, rest := Sort(NatLe, grouped[order[0]]), Select(order[1..], grouped);
      SelectAscends(order[1..], grouped);
      RestIsLater(order, grouped);
      if |g| >= 2 { PrependAscends(g, rest); }
    }
  }

  lemma RestIsLater(order: seq<Term>, grouped: map<Term, seq<Term>>)
    requires order != [] && Ascending(order) && Headed(order, grouped)
    ensures forall h :: h in Select(order[1..], grouped) ==> |h| > 0 && order[0] < h[0]
  {
    SelectMembers(order[1..], grouped);
    forall h | h in Select(order[1..], grouped) ensures |h| > 0 && order[0] < h[0] {
      var k :| 0 <= k < |order[1..]| && order[1..][k] == h[0];
      assert order[0] < order[k + 1];
    }
  }

  lemma PrependAscends(g: seq<Term>, rest: seq<seq<Term>>)
    requires |g| > 0 && FirstsAscend(rest) && forall h :: h in rest ==> |h| > 0 && g[0] < h[0]
    ensures FirstsAscend([g] + rest)
  {}

  lemma SelectIsBundles(parent: map<Term, Term>, root: map<Term, Term>, pairs: set<Pair>, ranked: seq<Term>,
                        roots: seq<Term>, grouped: map<Term, seq<Term>>, order: seq<Term>)
    requires RootMap(parent, root) && Represents(root, pairs) && parent.Keys == Terms(ranked)
    requires Grouped(root, ranked, roots, grouped)
    requires Ascending(order) && forall r :: r in order <==> r in grouped
    ensures Bundles(Terms(ranked), pairs, Select(order, grouped))
  {
    forall r | r in order ensures Sort(NatLe, grouped[r]) != [] && Sort(NatLe, grouped[r])[0] == r {
      GroupIsComponent(parent, root, pairs, ranked, roots, grouped, r);
    }
    SelectMembers(order, grouped);
    SelectAscends(order, grouped);
    var all := Select(order, grouped);
    forall g | g in all ensures Component(Terms(ranked), pairs, g) {
      GroupIsComponent(parent, root, pairs, ranked, roots, grouped, g[0]);
    }
    forall x, y | x in Terms(ranked) && y in Terms(ranked) && x != y && Connected(pairs, x, y)
      ensures exists g :: g in all && x in g
    {
      var r := root[x];
      assert Ends(parent, root, x) && x in ranked;
      assert Agrees(root, pairs, x, y) && Ends(parent, root, y);
      assert Filed(root, grouped, x) && Collected(root, ranked, grouped, r);
      SortedDistinctAscends(grouped[r]);
      var g := Sort(NatLe, grouped[r]);
      assert x in g && y in g;
      assert |g| >= 2;
      assert g in all && x in g;
    }
  }

  /** What `grouped` and its insertion order hold after the first i terms. */
  ghost predicate Grouping(uf: UnionFind, root: map<Term, Term>, pairs: set<Pair>, ranked: seq<Term>, i: nat,
                           roots: seq<Term>, grouped: map<Term, seq<Term>>)
    reads uf
    requires i <= |ranked|
  {
    && RootMap(uf.parent, root) && uf.root == root && uf.pairs == pairs && Represents(root, pairs)
    && uf.parent.Keys == Terms(ranked)
    && Grouped(root, ranked[..i], roots, grouped)
  }

  /** `grouped[uf.find(term)].append(term)` */
  method FileTerm(uf: UnionFind, ghost pairs: set<Pair>, ranked: seq<Term>, i: nat,
                  roots: seq<Term>, grouped: map<Term, seq<Term>>)
    returns (roots': seq<Term>, grouped': map<Term, seq<Term>>)
    requires Distinct(ranked) && i < |ranked| && Grouping(uf, uf.root, pairs, ranked, i, roots, grouped)
    modifies uf`parent
    ensures Grouping(uf, uf.root, pairs, ranked, i + 1, roots', grouped')
  {
    assert ranked[i] !in ranked[..i];
    TakeMore(ranked, i);
    var top := uf.Find(ranked[i]);
    GroupOne(uf.root, ranked[..i], roots, grouped, ranked[i]);
    roots' := if top in grouped then roots else roots + [top];
    grouped' := grouped[top := (if top in grouped then grouped[top] else []) + [ranked[i]]];
  }

  method GroupByRoot(uf: UnionFind, ranked: seq<Term>) returns (roots: seq<Term>, grouped: map<Term, seq<Term>>)
    requires Distinct(ranked) && uf.Valid() && uf.parent.Keys == Terms(ranked)
    modifies uf`parent
    ensures Grouping(uf, uf.root, uf.pairs, ranked, |ranked|, roots, grouped)
  {
    roots, grouped := [], map[];
    for i := 0 to |ranked|
      invariant Grouping(uf, uf.root, uf.pairs, ranked, i, roots, grouped)
    {
      roots, grouped := FileTerm(uf, uf.pairs, ranked, i, roots, grouped);
    }
  }

  lemma OrderedGroupsAreBundles(uf: UnionFind, pairs: set<Pair>, ranked: seq<Term>,
                                roots: seq<Term>, grouped: map<Term, seq<Term>>)
    requires Grouping(uf, uf.root, pairs, ranked, |ranked|, roots, grouped)
    ensures forall r :: r in Sort(NatLe, roots) ==> r in grouped
    ensures Bundles(Terms(ranked), pairs, Select(Sort(NatLe, roots), grouped))
  {
    assert ranked[..|ranked|] == ranked;
    SortedDistinctAscends(roots);
    SelectIsBundles(uf.parent, uf.root, pairs, ranked, roots, grouped, Sort(NatLe, roots));
  }

  /** The first `maxBundles` of all components of two or more terms. */
  ghost predicate Selected(terms: set<Term>, pairs: set<Pair>, maxBundles: int, groups: seq<seq<Term>>) {
    exists all :: Bundles(terms, pairs, all) && groups == Prefix(all, maxBundles)
  }

  /** The groups are the first `maxBundles` components of two or more terms. */
  method SelectGroups(ranked: seq<Term>, scoring: Scoring, maxBundles: int) returns (groups: seq<seq<Term>>)
    requires Distinct(ranked)
    ensures Selected(Terms(ranked), scoring.SimilarPairs(ranked), maxBundles, groups)
  {
    if |ranked| < 2 {
      assert Bundles(Terms(ranked), scoring.SimilarPairs(ranked), []);
      return [];
    }
    var uf := UniteSimilar(ranked, scoring);
    var roots, grouped := GroupByRoot(uf, ranked);
    OrderedGroupsAreBundles(uf, scoring.SimilarPairs(ranked), ranked, roots, grouped);
    groups := Prefix(Select(Sort(NatLe, roots), grouped), maxBundles);
  }

  // ---- the order of the ranked terms does not matter

  /** The similarity of two terms does not depend on which comes first. */
  ghost predicate Symmetric(scoring: Scoring) {
    forall x, y :: scoring.similarity(x, y) == scoring.similarity(y, x)
  }

  /** Whichever way round a pair was united, its terms are ranked and similar. */
  lemma LinkedIffSimilar(ranked: seq<Term>, scoring: Scoring, x: Term, y: Term)
    requires Distinct(ranked) && Symmetric(scoring)
    ensures Linked(scoring.SimilarPairs(ranked), x, y) <==> x in ranked && y in ranked && x != y && scoring.Above(x, y)
  {
    var pairs := scoring.SimilarPairs(ranked);
    assert scoring.Above(x, y) == scoring.Above(y, x);
    if x in ranked && y in ranked && x != y && scoring.Above(x, y) {
      var i :| 0 <= i < |ranked| && ranked[i] == x;
      var j :| 0 <= j < |ranked| && ranked[j] == y;
      if i < j {
        assert (ranked[i], ranked[j]) in pairs;
      } else {
        assert (ranked[j], ranked[i]) in pairs;
      }
    }
  }

  lemma SameLinksSameBundles(terms: set<Term>, p: set<Pair>, q: set<Pair>, all: seq<seq<Term>>)
    requires forall x, y :: Linked(p, x, y) <==> Linked(q, x, y)
    requires Bundles(terms, p, all)
    ensures Bundles(terms, q, all)
  {
    forall x, y ensures Connected(p, x, y) <==> Connected(q, x, y) { SameLinksConnect(p, q, x, y); }
    forall g | g in all ensures Component(terms, q, g) {
      assert Component(terms, p, g);
    }
  }

  lemma SameLinksConnect(p: set<Pair>, q: set<Pair>, x: Term, y: Term)
    requires forall a, b :: Linked(p, a, b) <==> Linked(q, a, b)
    ensures Connected(p, x, y) <==> Connected(q, x, y)
  {
    if Connected(p, x, y) {
      var s :| Chain(p, s, x, y);
      assert Chain(q, s, x, y);
    }
    if Connected(q, x, y) {
      var s :| Chain(q, s, x, y);
      assert Chain(p, s, x, y);
    }
  }

  /** The pair was mined as aliases, under its terms in string order. */
  predicate Mined(scoring: Scoring, x: Term, y: Term) {
    (if x < y then (x, y) else (y, x)) in scoring.alias
  }

  /** A later term is united with an earlier one exactly when the two were mined as aliases, at
      whatever score, or are similar to at least 0.72 and were not. */
  lemma UnitedIff(ranked: seq<Term>, scoring: Scoring, i: nat, j: nat)
    requires Distinct(ranked) && i < j < |ranked|
    ensures Linked(scoring.SimilarPairs(ranked), ranked[i], ranked[j]) <==>
              Mined(scoring, ranked[i], ranked[j]) || scoring.similarity(ranked[i], ranked[j]) >= 0.72
  {
    var pairs := scoring.SimilarPairs(ranked);
    assert (ranked[j], ranked[i]) !in pairs by {
      assert forall a, b | 0 <= a < b < |ranked| :: (ranked[a], ranked[b]) != (ranked[j], ranked[i]);
    }
    if (ranked[i], ranked[j]) in pairs {
      var a, b :| 0 <= a < b < |ranked| && (ranked[a], ranked[b]) == (ranked[i], ranked[j])
                  && scoring.Above(ranked[a], ranked[b]);
    }
  }

  /** Terms that are not ranked are linked to nothing, and no term to itself. */
  lemma OnlyRankedLinked(ranked: seq<Term>, scoring: Scoring, x: Term, y: Term)
    requires Distinct(ranked) && Linked(scoring.SimilarPairs(ranked), x, y)
    ensures x in ranked && y in ranked && x != y
  {}

  /** Mined aliases are bundled together: some group of all that qualify holds both. */
  lemma AliasesShareAGroup(ranked: seq<Term>, scoring: Scoring, x: Term, y: Term, all: seq<seq<Term>>)
    requires Distinct(ranked) && x in ranked && y in ranked && x != y && Mined(scoring, x, y)
    requires Bundles(Terms(ranked), scoring.SimilarPairs(ranked), all)
    ensures exists g :: g in all && x in g && y in g
  {
    var pairs := scoring.SimilarPairs(ranked);
    var i :| 0 <= i < |ranked| && ranked[i] == x;
    var j :| 0 <= j < |ranked| && ranked[j] == y;
    if i < j { UnitedIff(ranked, scoring, i, j); } else { UnitedIff(ranked, scoring, j, i); }
    assert Chain(pairs, [x, y], x, y);
    assert Connected(pairs, x, y) && x in Terms(ranked) && y in Terms(ranked);
    var g :| g in all && x in g;
    assert Component(Terms(ranked), pairs, g);
    ConnectedTransitive(pairs, g[0], x, y);
  }

  /** With a symmetric similarity, any order of the ranked terms, and so any order and
      orientation of the pairs, selects the same groups. */
  lemma SelectionIgnoresOrder(ranked: seq<Term>, again: seq<Term>, scoring: Scoring, maxBundles: int,
                              groups: seq<seq<Term>>, groups': seq<seq<Term>>)
    requires Distinct(ranked) && multiset(again) == multiset(ranked) && Symmetric(scoring)
    requires Selected(Terms(ranked), scoring.SimilarPairs(ranked), maxBundles, groups)
    requires Selected(Terms(again), scoring.SimilarPairs(again), maxBundles, groups')
    ensures groups == groups'
  {
    var p, q := scoring.SimilarPairs(ranked), scoring.SimilarPairs(again);
    DistinctPermuted(ranked, again);
    SameMembers(ranked, again);
    assert Terms(ranked) == Terms(again);
    forall x, y ensures Linked(p, x, y) <==> Linked(q, x, y) {
      LinkedIffSimilar(ranked, scoring, x, y);
      LinkedIffSimilar(again, scoring, x, y);
    }
    var all :| Bundles(Terms(ranked), p, all) && groups == Prefix(all, maxBundles);
    var all' :| Bundles(Terms(again), q, all') && groups' == Prefix(all', maxBundles);
    SameLinksSameBundles(Terms(ranked), p, q, all);
    BundlesUnique(Terms(ranked), q, all, all');
  }
}
