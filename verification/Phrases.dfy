/** faim_native/lexical/phrase_patterns.py: greedy matching of two-token phrases. */
module Phrases {
  import opened Ordering
  import opened Text

  type Patterns = map<seq<string>, string>

  /** `_SURFACE_TO_CANONICAL` */
  const PATTERNS: Patterns := map[
    ["lives", "in"] := "rel:located_in",
    ["live", "in"] := "rel:located_in",
    ["resides", "in"] := "rel:located_in",
    ["reside", "in"] := "rel:located_in",
    ["located", "in"] := "rel:located_in",
    ["based", "in"] := "rel:located_in",
    ["headquartered", "in"] := "rel:located_in",
    ["headquarter", "in"] := "rel:located_in",
    ["works", "for"] := "rel:employed_by",
    ["work", "for"] := "rel:employed_by",
    ["works", "at"] := "rel:employed_by",
    ["work", "at"] := "rel:employed_by",
    ["employed", "by"] := "rel:employed_by",
    ["born", "in"] := "rel:born_in",
    ["founded", "in"] := "rel:founded_in",
    ["focuses", "on"] := "rel:focus_on",
    ["focus", "on"] := "rel:focus_on",
    ["specializes", "in"] := "rel:focus_on",
    ["specialize", "in"] := "rel:focus_on"
  ]

  ghost predicate TwoTokens(patterns: Patterns) {
    forall p :: p in patterns ==> |p| == 2
  }

  lemma TableHasTwoTokens()
    ensures TwoTokens(PATTERNS)
  {}

  datatype PhraseMatch = PhraseMatch(start: nat, end: nat, surface: string, canonical: string)

  /** The match of `size` tokens at idx, when the table has that phrase. */
  function MatchOf(patterns: Patterns, tokens: seq<string>, idx: nat, size: nat): PhraseMatch
    requires idx + size <= |tokens| && tokens[idx..idx + size] in patterns
  {
    PhraseMatch(idx, idx + size, Join(tokens[idx..idx + size]), patterns[tokens[idx..idx + size]])
  }

  predicate MatchesAt(patterns: Patterns, tokens: seq<string>, idx: nat) {
    idx + 2 <= |tokens| && tokens[idx..idx + 2] in patterns
  }

  predicate MatchLe(a: PhraseMatch, b: PhraseMatch) {
    a.start < b.start
    || (a.start == b.start && (a.end > b.end || (a.end == b.end && LexLe(a.canonical, b.canonical))))
  }

  /** Leftmost first, skipping what overlaps. */
  function Greedy(patterns: Patterns, tokens: seq<string>, i: nat): seq<PhraseMatch>
    decreases |tokens| - i
  {
    if i + 2 > |tokens| then []
    else if MatchesAt(patterns, tokens, i) then [MatchOf(patterns, tokens, i, 2)] + Greedy(patterns, tokens, i + 2)
    else Greedy(patterns, tokens, i + 1)
  }

  // ---- the greedy choice is the largest

  /** Starts of pairwise disjoint matches at or after i. */
  ghost predicate DisjointMatches(patterns: Patterns, tokens: seq<string>, i: nat, starts: set<nat>) {
    && (forall s :: s in starts ==> i <= s && MatchesAt(patterns, tokens, s))
    && forall s, t :: s in starts && t in starts && s < t ==> s + 2 <= t
  }

  /** No disjoint choice of matches is larger than the greedy one. */
  lemma {:induction false} GreedyIsLargest(patterns: Patterns, tokens: seq<string>, i: nat, starts: set<nat>)
    requires DisjointMatches(patterns, tokens, i, starts)
    ensures |starts| <= |Greedy(patterns, tokens, i)|
    decreases |tokens| - i
  {
    if i + 2 > |tokens| {
      assert starts == {};
    } else if MatchesAt(patterns, tokens, i) {
      var rest := From(starts, i + 2);
      GreedyIsLargest(patterns, tokens, i + 2, rest);
      OneEarly(patterns, tokens, i, starts);
    } else {
      GreedyIsLargest(patterns, tokens, i + 1, starts);
    }
  }

  lemma GreedyIsLargestOfAll(patterns: Patterns, tokens: seq<string>)
    ensures forall starts :: DisjointMatches(patterns, tokens, 0, starts) ==> |starts| <= |Greedy(patterns, tokens, 0)|
  {
    forall starts | DisjointMatches(patterns, tokens, 0, starts) ensures |starts| <= |Greedy(patterns, tokens, 0)| {
      GreedyIsLargest(patterns, tokens, 0, starts);
    }
  }

  ghost function From(starts: set<nat>, i: nat): set<nat> {
    set s | s in starts && s >= i
  }

  /** Only one of the disjoint matches can start in the next two places. */
  lemma OneEarly(patterns: Patterns, tokens: seq<string>, i: nat, starts: set<nat>)
    requires DisjointMatches(patterns, tokens, i, starts)
    ensures |starts| <= 1 + |From(starts, i + 2)|
  {
    var early := set s | s in starts && s < i + 2;
    assert starts == early + From(starts, i + 2);
    AtMostOne(early);
  }

  lemma AtMostOne(s: set<nat>)
    requires forall x, y :: x in s && y in s ==> x == y
    ensures |s| <= 1
  {
    if s != {} {
      var x :| x in s;
      assert s == {x};
    }
  }

  /** The greedy choice is itself disjoint, in position order, and made of matches. */
  lemma {:induction false} GreedyIsDisjoint(patterns: Patterns, tokens: seq<string>, i: nat)
    ensures var g := Greedy(patterns, tokens, i);
            && (forall m :: m in g ==>
                  && i <= m.start && MatchesAt(patterns, tokens, m.start)
                  && m == MatchOf(patterns, tokens, m.start, 2))
            && forall a, b | 0 <= a < b < |g| :: g[a].end <= g[b].start
    decreases |tokens| - i
  {
    if i + 2 <= |tokens| {
      if MatchesAt(patterns, tokens, i) {
        GreedyIsDisjoint(patterns, tokens, i + 2);
      } else {
        GreedyIsDisjoint(patterns, tokens, i + 1);
      }
    }
  }

  lemma {:induction false} GreedySkips(patterns: Patterns, tokens: seq<string>, i: nat, j: nat)
    requires i <= j && forall s | i <= s < j :: !MatchesAt(patterns, tokens, s)
    requires j <= |tokens|
    ensures Greedy(patterns, tokens, i) == Greedy(patterns, tokens, j)
    decreases j - i
  {
    if i < j { GreedySkips(patterns, tokens, i + 1, j); }
  }

  // ---- the source's loops

  /** The matches of one phrase length, by position. */
  method FindMatches(patterns: Patterns, tokens: seq<string>, size: nat) returns (found: seq<PhraseMatch>)
    requires TwoTokens(patterns)
    ensures size != 2 ==> found == []
    ensures size == 2 ==> Listed(patterns, tokens, found)
  {
    found := [];
    if |tokens| < size { return; }
    var idx := 0;
    while idx + size <= |tokens|
      invariant idx + size <= |tokens| + 1
      invariant size != 2 ==> found == []
      invariant size == 2 ==> ListedBelow(patterns, tokens, found, idx)
    {
      var phrase := tokens[idx..idx + size];
      if phrase in patterns { found := found + [MatchOf(patterns, tokens, idx, size)]; }
      idx := idx + 1;
    }
  }

  /** Every match starting below idx, once, by position. */
  ghost predicate ListedBelow(patterns: Patterns, tokens: seq<string>, found: seq<PhraseMatch>, idx: nat) {
    && (forall m :: m in found <==>
          && m.start < idx && MatchesAt(patterns, tokens, m.start)
          && m == MatchOf(patterns, tokens, m.start, 2))
    && forall a, b | 0 <= a < b < |found| :: found[a].start < found[b].start
  }

  ghost predicate Listed(patterns: Patterns, tokens: seq<string>, found: seq<PhraseMatch>) {
    ListedBelow(patterns, tokens, found, |tokens|)
  }

  /** `set(range(start, end))` */
  function Range(start: nat, end: nat): (r: set<nat>)
    ensures forall i :: i in r <==> start <= i < end
    decreases end - start
  {
    if start < end then {start} + Range(start + 1, end) else {}
  }

  /** Positions below `at` are settled, and the two before it are taken if any are. */
  ghost predicate Settled(occupied: set<nat>, at: nat) {
    && (forall p :: p in occupied ==> p < at)
    && (at == 0 || (at >= 2 && at - 1 in occupied))
  }

  /** After k matches: everything before `at` is settled and the last match kept ends there. */
  ghost predicate Matched(patterns: Patterns, tokens: seq<string>, matches: seq<PhraseMatch>, k: nat,
                          occupied: set<nat>, at: nat, deduped: seq<PhraseMatch>) {
    && k <= |matches| && at <= |tokens| && Settled(occupied, at)
    && (forall j | 0 <= j < k :: matches[j].start < at)
    && (at > 0 ==> k > 0 && at - 2 <= matches[k - 1].start)
    && deduped + Greedy(patterns, tokens, at) == Greedy(patterns, tokens, 0)
  }

  lemma NextMatch(patterns: Patterns, tokens: seq<string>, matches: seq<PhraseMatch>, k: nat, at: nat)
    requires Listed(patterns, tokens, matches) && k < |matches|
    requires forall j | 0 <= j < k :: matches[j].start < at
    ensures forall s | at <= s && MatchesAt(patterns, tokens, s) :: matches[k].start <= s
  {
    forall s | at <= s && MatchesAt(patterns, tokens, s) ensures matches[k].start <= s {
      var m := MatchOf(patterns, tokens, s, 2);
      assert m.start == s && m in matches;
      var j :| 0 <= j < |matches| && matches[j] == m;
      assert j == k || matches[k].start < matches[j].start;
    }
  }

  lemma NoMoreMatches(patterns: Patterns, tokens: seq<string>, matches: seq<PhraseMatch>, at: nat)
    requires Listed(patterns, tokens, matches)
    requires forall j | 0 <= j < |matches| :: matches[j].start < at
    ensures forall s: nat | MatchesAt(patterns, tokens, s) :: s < at
  {
    forall s: nat | MatchesAt(patterns, tokens, s) ensures s < at {
      var m := MatchOf(patterns, tokens, s, 2);
      assert m.start == s && m in matches;
      var j :| 0 <= j < |matches| && matches[j] == m;
    }
  }

  /** A match is free of occupied positions exactly when it starts at or after `at`. */
  lemma FreeIffLater(patterns: Patterns, tokens: seq<string>, matches: seq<PhraseMatch>, k: nat,
                     occupied: set<nat>, at: nat, deduped: seq<PhraseMatch>)
    requires Listed(patterns, tokens, matches) && k < |matches|
    requires Matched(patterns, tokens, matches, k, occupied, at, deduped)
    ensures occupied * Range(matches[k].start, matches[k].end) == {} <==> matches[k].start >= at
  {
    var m := matches[k];
    assert m in matches;
    var span := Range(m.start, m.end);
    if m.start < at {
      assert k > 0 ==> matches[k - 1].start < matches[k].start;
      assert m.start == at - 1;
      assert at - 1 in occupied * span;
    }
  }

  lemma SkipMatch(patterns: Patterns, tokens: seq<string>, matches: seq<PhraseMatch>, k: nat,
                  occupied: set<nat>, at: nat, deduped: seq<PhraseMatch>)
    requires Listed(patterns, tokens, matches) && k < |matches| && matches[k].start < at
    requires Matched(patterns, tokens, matches, k, occupied, at, deduped)
    ensures Matched(patterns, tokens, matches, k + 1, occupied, at, deduped)
  {
    assert k > 0 ==> matches[k - 1].start < matches[k].start;
  }

  lemma TakeMatch(patterns: Patterns, tokens: seq<string>, matches: seq<PhraseMatch>, k: nat,
                  occupied: set<nat>, at: nat, deduped: seq<PhraseMatch>)
    requires Listed(patterns, tokens, matches) && k < |matches| && matches[k].start >= at
    requires Matched(patterns, tokens, matches, k, occupied, at, deduped)
    ensures var m := matches[k];
            Matched(patterns, tokens, matches, k + 1, occupied + Range(m.start, m.end), m.start + 2, deduped + [m])
  {
    var m := matches[k];
    assert m in matches;
    NextMatch(patterns, tokens, matches, k, at);
    GreedySkips(patterns, tokens, at, m.start);
    var rest := Greedy(patterns, tokens, m.start + 2);
    assert deduped + ([m] + rest) == (deduped + [m]) + rest;
    assert forall j | 0 <= j < k :: matches[j].start < matches[k].start;
  }

  /** The pass that drops overlapping matches. */
  method DropOverlaps(ghost patterns: Patterns, ghost tokens: seq<string>, matches: seq<PhraseMatch>)
    returns (deduped: seq<PhraseMatch>)
    requires Listed(patterns, tokens, matches)
    ensures deduped == Greedy(patterns, tokens, 0)
  {
    deduped := [];
    var occupied: set<nat> := {};
    ghost var at: nat := 0;
    for k := 0 to |matches|
      invariant Matched(patterns, tokens, matches, k, occupied, at, deduped)
    {
      var found := matches[k];
      var span := Range(found.start, found.end);
      FreeIffLater(patterns, tokens, matches, k, occupied, at, deduped);
      if occupied * span != {} {
        SkipMatch(patterns, tokens, matches, k, occupied, at, deduped);
      } else {
        TakeMatch(patterns, tokens, matches, k, occupied, at, deduped);
        occupied := occupied + span;
        deduped := deduped + [found];
        at := found.start + 2;
      }
    }
    NoMoreMatches(patterns, tokens, matches, at);
    GreedySkips(patterns, tokens, at, |tokens|);
  }

  /** The matcher returns the greedy choice, and no disjoint choice of matches is larger. */
  method MatchPhrasePatterns(patterns: Patterns, tokens: seq<string>) returns (deduped: seq<PhraseMatch>)
    requires TwoTokens(patterns)
    ensures deduped == Greedy(patterns, tokens, 0)
    ensures forall starts :: DisjointMatches(patterns, tokens, 0, starts) ==> |starts| <= |deduped|
  {
    GreedyIsLargestOfAll(patterns, tokens);
    if tokens == [] { return []; }
    var threes := FindMatches(patterns, tokens, 3);
    var twos := FindMatches(patterns, tokens, 2);
    assert threes + twos == twos;
    SortOfSorted(MatchLe, twos);
    deduped := DropOverlaps(patterns, tokens, Sort(MatchLe, threes + twos));
  }

  // ---- what a match says

  /** A match covers its two tokens, quotes them with a blank between, and names the relation
      the table gives for them. */
  lemma MatchMeaning(patterns: Patterns, tokens: seq<string>, i: nat)
    requires i + 2 <= |tokens| && [tokens[i], tokens[i + 1]] in patterns
    ensures MatchesAt(patterns, tokens, i)
    ensures MatchOf(patterns, tokens, i, 2)
         == PhraseMatch(i, i + 2, tokens[i] + " " + tokens[i + 1], patterns[[tokens[i], tokens[i + 1]]])
  {
    var pair := tokens[i..i + 2];
    assert pair == [tokens[i], tokens[i + 1]] && pair[1..] == [tokens[i + 1]];
    assert Join(pair[1..]) == tokens[i + 1];
    assert Join(pair) == tokens[i] + " " + tokens[i + 1];
  }

  /** A match is only found where the table has the two tokens. */
  lemma NoMatchMeaning(patterns: Patterns, tokens: seq<string>, i: nat)
    requires i + 2 <= |tokens| && [tokens[i], tokens[i + 1]] !in patterns
    ensures !MatchesAt(patterns, tokens, i)
  {
    assert tokens[i..i + 2] == [tokens[i], tokens[i + 1]];
  }

  /** The table gives this relation for the two tokens. */
  ghost predicate Names(verb: string, preposition: string, relation: string) {
    var pair := [verb, preposition];
    pair in PATTERNS && PATTERNS[pair] == relation
  }

  /** The table, by relation. */
  lemma LocationsMeaning()
    ensures Names("lives", "in", "rel:located_in") && Names("live", "in", "rel:located_in")
    ensures Names("resides", "in", "rel:located_in") && Names("reside", "in", "rel:located_in")
    ensures Names("located", "in", "rel:located_in") && Names("based", "in", "rel:located_in")
    ensures Names("headquartered", "in", "rel:located_in") && Names("headquarter", "in", "rel:located_in")
  {}

  lemma EmploymentMeaning()
    ensures Names("works", "for", "rel:employed_by") && Names("work", "for", "rel:employed_by")
    ensures Names("works", "at", "rel:employed_by") && Names("work", "at", "rel:employed_by")
    ensures Names("employed", "by", "rel:employed_by")
  {}

  lemma OriginsAndFocusMeaning()
    ensures Names("born", "in", "rel:born_in") && Names("founded", "in", "rel:founded_in")
    ensures Names("focuses", "on", "rel:focus_on") && Names("focus", "on", "rel:focus_on")
    ensures Names("specializes", "in", "rel:focus_on") && Names("specialize", "in", "rel:focus_on")
  {}
}
