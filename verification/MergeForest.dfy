/** The antisymmetric merges of one `write_atoms` call: faim_native/core/engine_native.py with
    faim_native/core/antisym.py. Similarity, hashes and what the node table lists at each
    step are parameters. */
module MergeForest {
  import opened Ordering
  import opened Ranking
  import opened Text

  datatype Engine = Engine(hash: Id -> string, similarity: (Id, Id) -> real, threshold: real) {

    /** `opposition_score` */
    function Opposition(a: Id, b: Id): real {
      if similarity(a, b) > 0.0 then similarity(a, b) else 0.0
    }

    function SelectWinner(a: Id, b: Id): (Id, Id) {
      if HashLess(a, b) then (a, b)
      else if HashLess(b, a) then (b, a)
      else if a < b then (a, b) else (b, a)
    }

    predicate HashLess(a: Id, b: Id) {
      LexLe(hash(a), hash(b)) && hash(a) != hash(b)
    }

    /** Strictly smaller by (hash, id). */
    predicate Beats(a: Id, b: Id) {
      HashLess(a, b) || (hash(a) == hash(b) && a < b)
    }

    predicate CandidateLe(a: Scored, b: Scored) {
      a.score > b.score || (a.score == b.score && LexLe(hash(a.id), hash(b.id)))
    }

    /** `_get_merge_candidates`: similar nodes not yet merged away, best five. */
    function MergeCandidates(listed: seq<Id>, target: Id, exclude: set<Id>): seq<Scored> {
      var close := Filter((n: Id) => n != target && n !in exclude && Opposition(target, n) >= threshold, listed);
      Prefix(Sort((a, b) => CandidateLe(a, b), Map(n => Scored(n, Opposition(target, n)), close)), 5)
    }
  }

  datatype Merge = Merge(winner: Id, loser: Id, score: real)

  function Losers(merges: seq<Merge>): set<Id> {
    set i | 0 <= i < |merges| :: merges[i].loser
  }

  lemma SelectsTheSmaller(g: Engine, a: Id, b: Id)
    requires a != b
    ensures var (w, l) := g.SelectWinner(a, b); {w, l} == {a, b} && g.Beats(w, l)
    ensures g.SelectWinner(a, b) == g.SelectWinner(b, a)
  {
    LexTotal(g.hash(a), g.hash(b));
    if LexLe(g.hash(a), g.hash(b)) && LexLe(g.hash(b), g.hash(a)) { LexAntisymmetric(g.hash(a), g.hash(b)); }
  }

  lemma BeatsTransitive(g: Engine, a: Id, b: Id, c: Id)
    requires g.Beats(a, b) && g.Beats(b, c)
    ensures g.Beats(a, c)
  {
    if g.HashLess(a, b) && g.HashLess(b, c) {
      LexTransitive(g.hash(a), g.hash(b), g.hash(c));
      if g.hash(a) == g.hash(c) { LexAntisymmetric(g.hash(a), g.hash(b)); }
    }
  }

  lemma BeatsIrreflexive(g: Engine, a: Id)
    ensures !g.Beats(a, a)
  {}

  /** Every candidate is another node, close enough, and not merged away. */
  lemma CandidatesAreOpen(g: Engine, listed: seq<Id>, target: Id, exclude: set<Id>)
    ensures forall c :: c in g.MergeCandidates(listed, target, exclude) ==>
              && c.id in listed && c.id != target && c.id !in exclude
              && c.score == g.Opposition(target, c.id) >= g.threshold
  {
    var close := Filter((n: Id) => n != target && n !in exclude && g.Opposition(target, n) >= g.threshold, listed);
    var scored := Map(n => Scored(n, g.Opposition(target, n)), close);
    var le := (a: Scored, b: Scored) => g.CandidateLe(a, b);
    SortPermutes(le, scored);
    SameMembers(Sort(le, scored), scored);
    forall c | c in g.MergeCandidates(listed, target, exclude)
      ensures c.id in listed && c.id != target && c.id !in exclude
      ensures c.score == g.Opposition(target, c.id) >= g.threshold
    {
      assert c in Sort(le, scored);
      var i :| 0 <= i < |scored| && scored[i] == c;
      assert close[i] in close;
    }
  }

  /** Each node is merged away at most once, into a strictly smaller node that was still
      standing, and only above the threshold. */
  ghost predicate Forest(g: Engine, merges: seq<Merge>) {
    && (forall i, j | 0 <= i < j < |merges| :: merges[i].loser != merges[j].loser)
    && (forall i | 0 <= i < |merges| :: g.Beats(merges[i].winner, merges[i].loser) && merges[i].score >= g.threshold)
    && forall i, j | 0 <= i < j < |merges| :: merges[i].loser != merges[j].winner
  }

  /** The merge one written node causes, if any: with its first candidate. */
  function StepMerge(g: Engine, listed: seq<Id>, node: Id, merged: set<Id>): seq<Merge> {
    if node in merged then []
    else
      var candidates := g.MergeCandidates(listed, node, merged);
      if candidates == [] then []
      else
        var (winner, loser) := g.SelectWinner(node, candidates[0].id);
        [Merge(winner, loser, candidates[0].score)]
  }

  function Scan(g: Engine, nodes: seq<Id>, listings: seq<seq<Id>>): seq<Merge>
    requires |listings| == |nodes|
  {
    if nodes == [] then []
    else
      var n := |nodes| - 1;
      var before := Scan(g, nodes[..n], listings[..n]);
      before + StepMerge(g, listings[n], nodes[n], Losers(before))
  }

  /** A node that could be merged with the target now. */
  predicate Eligible(g: Engine, listed: seq<Id>, target: Id, merged: set<Id>, n: Id) {
    n in listed && n != target && n !in merged && g.Opposition(target, n) >= g.threshold
  }

  /** A standing node merges exactly when some node is eligible, and then with the most
      similar one, the smaller hash first among equals; the smaller of the two survives. */
  lemma StepMergesBest(g: Engine, listed: seq<Id>, node: Id, merged: set<Id>)
    ensures StepMerge(g, listed, node, merged) == [] <==>
              node in merged || forall n :: !Eligible(g, listed, node, merged, n)
    ensures StepMerge(g, listed, node, merged) != [] ==>
              exists c ::
                && Eligible(g, listed, node, merged, c)
                && StepMerge(g, listed, node, merged)[0]
                   == Merge(g.SelectWinner(node, c).0, g.SelectWinner(node, c).1, g.Opposition(node, c))
                && forall n :: Eligible(g, listed, node, merged, n) ==>
                     g.CandidateLe(Scored(c, g.Opposition(node, c)), Scored(n, g.Opposition(node, n)))
  {
    if node !in merged {
      CandidatesSorted(g, listed, node, merged);
      CandidatesAreOpen(g, listed, node, merged);
      var candidates := g.MergeCandidates(listed, node, merged);
      if candidates != [] {
        var c := candidates[0].id;
        assert candidates[0] in candidates;
        assert Eligible(g, listed, node, merged, c);
      }
    }
  }

  lemma CandidateOrder(g: Engine)
    ensures TotalPreorder((a: Scored, b: Scored) => g.CandidateLe(a, b))
  {
    forall a: Scored, b: Scored ensures g.CandidateLe(a, b) || g.CandidateLe(b, a) {
      LexTotal(g.hash(a.id), g.hash(b.id));
    }
    forall a: Scored, b: Scored, c: Scored | g.CandidateLe(a, b) && g.CandidateLe(b, c) ensures g.CandidateLe(a, c) {
      if a.score == b.score == c.score { LexTransitive(g.hash(a.id), g.hash(b.id), g.hash(c.id)); }
    }
  }

  lemma CandidatesSorted(g: Engine, listed: seq<Id>, target: Id, merged: set<Id>)
    ensures var cs := g.MergeCandidates(listed, target, merged);
            && (cs == [] <==> forall n :: !Eligible(g, listed, target, merged, n))
            && forall n :: Eligible(g, listed, target, merged, n) ==>
                 cs != [] && g.CandidateLe(cs[0], Scored(n, g.Opposition(target, n)))
  {
    var close := Filter((n: Id) => n != target && n !in merged && g.Opposition(target, n) >= g.threshold, listed);
    var scored := Map(n => Scored(n, g.Opposition(target, n)), close);
    var le := (a: Scored, b: Scored) => g.CandidateLe(a, b);
    var sorted := Sort(le, scored);
    CandidateOrder(g);
    SortPermutes(le, scored);
    SortSorted(le, scored);
    SameMembers(sorted, scored);
    assert forall n :: n in close <==> Eligible(g, listed, target, merged, n);
    forall n | Eligible(g, listed, target, merged, n)
      ensures sorted != [] && g.CandidateLe(sorted[0], Scored(n, g.Opposition(target, n)))
    {
      var i :| 0 <= i < |close| && close[i] == n;
      assert scored[i] in sorted;
      var j :| 0 <= j < |sorted| && sorted[j] == scored[i];
      assert j == 0 || le(sorted[0], sorted[j]);
      LexTotal(g.hash(n), g.hash(n));
    }
    if sorted != [] {
      assert sorted[0] in scored;
      var i :| 0 <= i < |scored| && scored[i] == sorted[0];
      assert close[i] in close;
    }
  }

  lemma Extend(g: Engine, merges: seq<Merge>, m: Merge)
    requires Forest(g, merges) && m.loser !in Losers(merges) && m.winner !in Losers(merges)
    requires g.Beats(m.winner, m.loser) && m.score >= g.threshold
    ensures Forest(g, merges + [m])
  {
    var more := merges + [m];
    assert forall i | 0 <= i < |merges| :: more[i] == merges[i] && merges[i].loser in Losers(merges);
    assert more[|merges|] == m;
  }

  /** What the scan has kept after looking at `scanned` nodes. */
  ghost predicate Kept(g: Engine, merges: seq<Merge>, scanned: nat) {
    Forest(g, merges) && |merges| == |Losers(merges)| <= scanned
  }

  lemma StepKeeps(g: Engine, listed: seq<Id>, node: Id, merges: seq<Merge>, scanned: nat)
    requires Kept(g, merges, scanned)
    ensures Kept(g, merges + StepMerge(g, listed, node, Losers(merges)), scanned + 1)
  {
    var step := StepMerge(g, listed, node, Losers(merges));
    if step == [] {
      assert merges + step == merges;
    } else {
      var candidate := g.MergeCandidates(listed, node, Losers(merges))[0];
      CandidatesAreOpen(g, listed, node, Losers(merges));
      assert candidate in g.MergeCandidates(listed, node, Losers(merges));
      SelectsTheSmaller(g, node, candidate.id);
      Extend(g, merges, step[0]);
      LosersOfStep(merges, step[0]);
    }
  }

  /** What the scan over the first i nodes has written down. */
  ghost predicate Recorded(g: Engine, nodes: seq<Id>, listings: seq<seq<Id>>, i: nat,
                           merges: seq<Merge>, merged: set<Id>, count: int)
    requires i <= |nodes| == |listings|
  {
    && merges == Scan(g, nodes[..i], listings[..i])
    && Kept(g, merges, i) && merged == Losers(merges) && count == |merges|
  }

  lemma RecordStep(g: Engine, nodes: seq<Id>, listings: seq<seq<Id>>, i: nat,
                   merges: seq<Merge>, merged: set<Id>, count: int)
    requires i < |nodes| == |listings| && Recorded(g, nodes, listings, i, merges, merged, count)
    ensures var step := StepMerge(g, listings[i], nodes[i], merged);
            && (step == [] ==> Recorded(g, nodes, listings, i + 1, merges, merged, count))
            && (step != [] ==>
                Recorded(g, nodes, listings, i + 1, merges + [step[0]], merged + {step[0].loser}, count + 1))
  {
    var step := StepMerge(g, listings[i], nodes[i], merged);
    assert nodes[..i + 1][..i] == nodes[..i] && listings[..i + 1][..i] == listings[..i];
    StepKeeps(g, listings[i], nodes[i], merges, i);
    if step == [] {
      assert merges + step == merges;
    } else {
      assert step == [step[0]];
      LosersOfStep(merges, step[0]);
    }
  }

  /** The candidates tried for one node; the first already clears the threshold. */
  method MergeNode(g: Engine, listed: seq<Id>, node: Id, merged: set<Id>) returns (merge: seq<Merge>)
    ensures merge == StepMerge(g, listed, node, merged)
  {
    if node in merged { return []; }
    var candidates := g.MergeCandidates(listed, node, merged);
    CandidatesAreOpen(g, listed, node, merged);
    for j := 0 to |candidates|
      invariant j == 0
    {
      var candidate := candidates[j];
      assert candidate in candidates;
      if candidate.score >= g.threshold {
        var (winner, loser) := g.SelectWinner(node, candidate.id);
        return [Merge(winner, loser, candidate.score)];
      }
    }
    return [];
  }

  /** The antisym scan over the written nodes. */
  method WriteAtoms(g: Engine, nodes: seq<Id>, listings: seq<seq<Id>>)
    returns (merged: set<Id>, merges: seq<Merge>, count: nat)
    requires |listings| == |nodes|
    ensures merges == Scan(g, nodes, listings) && merged == Losers(merges)
    ensures Forest(g, merges)
    ensures count == |merges| == |merged| <= |nodes|
  {
    merged, merges, count := {}, [], 0;
    for i := 0 to |nodes|
      invariant Recorded(g, nodes, listings, i, merges, merged, count)
    {
      RecordStep(g, nodes, listings, i, merges, merged, count);
      var merge := MergeNode(g, listings[i], nodes[i], merged);
      if merge != [] {
        merged := merged + {merge[0].loser};
        merges := merges + [merge[0]];
        count := count + 1;
      }
    }
    assert nodes[..|nodes|] == nodes && listings[..|nodes|] == listings;
  }

  lemma LosersOfStep(merges: seq<Merge>, m: Merge)
    ensures Losers(merges + [m]) == Losers(merges) + {m.loser}
  {
    var more := merges + [m];
    assert forall i | 0 <= i < |merges| :: more[i] == merges[i];
    assert more[|merges|] == m;
  }

  // ---- following winners

  function IndexOf(merges: seq<Merge>, x: Id): (i: nat)
    requires x in Losers(merges)
    ensures i < |merges| && merges[i].loser == x
  {
    if merges[0].loser == x then 0
    else
      assert forall i | 1 <= i < |merges| :: merges[i] == merges[1..][i - 1];
      1 + IndexOf(merges[1..], x)
  }

  predicate Absorbed(merges: seq<Merge>, loser: Id, winner: Id) {
    exists i | 0 <= i < |merges| :: merges[i].loser == loser && merges[i].winner == winner
  }

  /** Every node on the way is beaten by every later one. */
  ghost predicate Descends(g: Engine, chain: seq<Id>) {
    forall i, j | 0 <= i < j < |chain| :: g.Beats(chain[j], chain[i])
  }

  lemma DescendsOneMore(g: Engine, x: Id, chain: seq<Id>)
    requires Descends(g, chain) && chain != [] && g.Beats(chain[0], x)
    ensures Descends(g, [x] + chain)
  {
    forall j | 1 <= j < |chain| ensures g.Beats(chain[j], x) {
      BeatsTransitive(g, chain[j], chain[0], x);
    }
  }

  /** Follows winners from x until a node that was not merged away: each node was absorbed by
      the next, and is beaten by all that follow. */
  function WinnerChain(g: Engine, merges: seq<Merge>, x: Id): (chain: seq<Id>)
    requires Forest(g, merges)
    ensures chain != [] && chain[0] == x && chain[|chain| - 1] !in Losers(merges)
    ensures forall i | 0 <= i < |chain| - 1 :: Absorbed(merges, chain[i], chain[i + 1])
    ensures Descends(g, chain)
    decreases if x in Losers(merges) then |merges| - IndexOf(merges, x) else 0
  {
    if x !in Losers(merges) then [x]
    else
      var i := IndexOf(merges, x);
      var w := merges[i].winner;
      assert w in Losers(merges) ==> IndexOf(merges, w) > i by { WinnerLosesLater(g, merges, i); }
      var rest := WinnerChain(g, merges, w);
      assert Descends(g, [x] + rest) by { DescendsOneMore(g, x, rest); }
      assert Absorbed(merges, x, w);
      [x] + rest
  }

  /** Where following winners from x ends. */
  function Survivor(g: Engine, merges: seq<Merge>, x: Id): (s: Id)
    requires Forest(g, merges)
    ensures s !in Losers(merges)
    ensures s == x || g.Beats(s, x)
  {
    var chain := WinnerChain(g, merges, x);
    assert |chain| > 1 ==> g.Beats(chain[|chain| - 1], chain[0]);
    chain[|chain| - 1]
  }

  lemma WinnerLosesLater(g: Engine, merges: seq<Merge>, i: nat)
    requires Forest(g, merges) && i < |merges|
    ensures merges[i].winner in Losers(merges) ==> IndexOf(merges, merges[i].winner) > i
  {
    if merges[i].winner in Losers(merges) {
      BeatsIrreflexive(g, merges[i].winner);
      var j := IndexOf(merges, merges[i].winner);
      assert j != i;
    }
  }

  // ---- candidates by similarity

  /** A similarity below zero counts as none. */
  ghost function Closeness(g: Engine, target: Id, n: Id): real {
    if g.similarity(target, n) < 0.0 then 0.0 else g.similarity(target, n)
  }

  /** The node may be merged with the target: listed, another, standing and close enough. */
  ghost predicate MayMerge(g: Engine, listed: seq<Id>, target: Id, merged: set<Id>, n: Id) {
    n in listed && n != target && n !in merged && Closeness(g, target, n) >= g.threshold
  }

  /** No other is closer, and none as close has a smaller hash. */
  ghost predicate Closest(g: Engine, listed: seq<Id>, target: Id, merged: set<Id>, c: Id) {
    && MayMerge(g, listed, target, merged, c)
    && forall n :: MayMerge(g, listed, target, merged, n) ==>
         Closeness(g, target, c) > Closeness(g, target, n)
         || (Closeness(g, target, c) == Closeness(g, target, n) && LexLe(g.hash(c), g.hash(n)))
  }

  /** A node that was merged away merges no more; a standing one merges with a closest node if
      there is any, and the winner, smaller by hash and then id, absorbs the other. */
  lemma StepMeaning(g: Engine, listed: seq<Id>, node: Id, merged: set<Id>)
    ensures var step := StepMerge(g, listed, node, merged);
            && |step| <= 1
            && (step == [] <==> node in merged || forall n :: !MayMerge(g, listed, node, merged, n))
            && (step != [] ==>
                exists c ::
                  && Closest(g, listed, node, merged, c) && step[0].score == Closeness(g, node, c)
                  && {step[0].winner, step[0].loser} == {node, c} && g.Beats(step[0].winner, step[0].loser))
  {
    StepMergesBest(g, listed, node, merged);
    forall n ensures MayMerge(g, listed, node, merged, n) <==> Eligible(g, listed, node, merged, n) {}
    var step := StepMerge(g, listed, node, merged);
    if step != [] {
      var c :| Eligible(g, listed, node, merged, c)
               && step[0] == Merge(g.SelectWinner(node, c).0, g.SelectWinner(node, c).1, g.Opposition(node, c))
               && forall n :: Eligible(g, listed, node, merged, n) ==>
                    g.CandidateLe(Scored(c, g.Opposition(node, c)), Scored(n, g.Opposition(node, n)));
      SelectsTheSmaller(g, node, c);
      assert Closest(g, listed, node, merged, c);
    }
  }

  /** The smaller hash wins, and between equal hashes the smaller id. */
  lemma BeatsMeaning(g: Engine, a: Id, b: Id)
    ensures g.Beats(a, b) <==>
              (g.hash(a) != g.hash(b) && exists i :: DecidedAt(g.hash(a), g.hash(b), i))
              || (g.hash(a) == g.hash(b) && a < b)
  {
    LexLeMeaning(g.hash(a), g.hash(b));
  }

  /** c is at least as close as n, with no larger hash between equals. */
  ghost predicate NoFurther(g: Engine, target: Id, c: Id, n: Id) {
    || Closeness(g, target, c) > Closeness(g, target, n)
    || (Closeness(g, target, c) == Closeness(g, target, n) && LexLe(g.hash(c), g.hash(n)))
  }

  /** A node left out of the candidates stands behind five of them. */
  lemma LeftOutCandidate(g: Engine, listed: seq<Id>, target: Id, merged: set<Id>, n: Id)
    requires MayMerge(g, listed, target, merged, n)
    requires Scored(n, Closeness(g, target, n)) !in g.MergeCandidates(listed, target, merged)
    ensures |g.MergeCandidates(listed, target, merged)| == 5
    ensures forall c :: c in g.MergeCandidates(listed, target, merged) ==>
              g.CandidateLe(c, Scored(n, Closeness(g, target, n)))
  {
    var close := Filter((n: Id) => n != target && n !in merged && g.Opposition(target, n) >= g.threshold, listed);
    var scored := Map(n => Scored(n, g.Opposition(target, n)), close);
    var le := (a: Scored, b: Scored) => g.CandidateLe(a, b);
    CandidateOrder(g);
    PrefixOfSorted(le, scored, 5);
    assert n in close;
    var i :| 0 <= i < |close| && close[i] == n;
    assert scored[i] in scored && scored[i] == Scored(n, Closeness(g, target, n));
    SortPermutes(le, scored);
    SameMembers(Sort(le, scored), scored);
    assert g.MergeCandidates(listed, target, merged) == Prefix(Sort(le, scored), 5);
  }

  /** The candidates are the five closest: each may be merged, and one left out is behind five
      that are. */
  lemma CandidatesMeaning(g: Engine, listed: seq<Id>, target: Id, merged: set<Id>)
    ensures var cs := g.MergeCandidates(listed, target, merged);
            && |cs| <= 5
            && (forall c :: c in cs ==>
                  MayMerge(g, listed, target, merged, c.id) && c.score == Closeness(g, target, c.id))
            && forall n :: MayMerge(g, listed, target, merged, n) && (forall c :: c in cs ==> c.id != n) ==>
                 |cs| == 5 && forall c :: c in cs ==> NoFurther(g, target, c.id, n)
  {
    var cs := g.MergeCandidates(listed, target, merged);
    CandidatesAreOpen(g, listed, target, merged);
    forall n | MayMerge(g, listed, target, merged, n) && (forall c :: c in cs ==> c.id != n)
      ensures |cs| == 5 && forall c :: c in cs ==> NoFurther(g, target, c.id, n)
    {
      assert Scored(n, Closeness(g, target, n)) !in cs;
      LeftOutCandidate(g, listed, target, merged, n);
    }
  }
}
