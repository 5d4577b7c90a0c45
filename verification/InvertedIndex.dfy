/** faim_native/index/inverted_index.py: the sparse index and what it retrieves. The scorer
    of faim_native/core/query/lexical_scorer.py is a parameter. */
module InvertedIndex {
  import opened Ordering
  import opened Ranking
  import opened Text

  datatype Channel = Word | Phrase | Skip | Entity | Time | Layout

  const CHANNELS := [Word, Phrase, Skip, Entity, Time, Layout]

  /** Counts are dictionaries in insertion order; tokens are lists that may repeat. */
  datatype Representation = Representation(
    words: seq<(string, int)>, phrases: seq<(string, int)>, skips: seq<(string, int)>,
    entities: seq<string>, times: seq<string>, layouts: seq<string>) {

    /** What one channel posts: counted terms, or tokens with a frequency of 1. */
    function Entries(c: Channel): seq<(string, int)> {
      match c
      case Word => words
      case Phrase => phrases
      case Skip => skips
      case Entity => Map(t => (t, 1), entities)
      case Time => Map(t => (t, 1), times)
      case Layout => Map(t => (t, 1), layouts)
    }

    predicate Has(c: Channel, t: string) {
      exists i | 0 <= i < |Entries(c)| :: Entries(c)[i].0 == t
    }

    /** `sorted(set(terms))`, one list per channel. */
    function QueryTerms(c: Channel): (r: seq<string>)
      ensures forall t :: t in r <==> Has(c, t)
    {
      var terms := Map((e: (string, int)) => e.0, Entries(c));
      SortPermutes(LexLe, Dedup(terms));
      SameMembers(Sort(LexLe, Dedup(terms)), Dedup(terms));
      assert forall i | 0 <= i < |terms| :: terms[i] == Entries(c)[i].0;
      assert forall t :: t in terms <==> Has(c, t);
      Sort(LexLe, Dedup(terms))
    }
  }

  /** The query and the document have a term in common in some channel. */
  ghost predicate Shares(q: Representation, d: Representation) {
    exists c, t :: q.Has(c, t) && d.Has(c, t)
  }

  function Dedup(s: seq<string>): (r: seq<string>)
    ensures forall t :: t in r <==> t in s
  {
    if s == [] then [] else (if s[0] in s[1..] then [] else [s[0]]) + Dedup(s[1..])
  }

  datatype Row = Row(id: Id, representation: Representation)

  datatype Posting = Posting(id: Id, tf: int)

  predicate PostingLe(a: Posting, b: Posting) { a.id <= b.id }

  predicate IdLe(a: Id, b: Id) { a <= b }

  type Postings = map<(Channel, string), seq<Posting>>

  ghost predicate RowPosts(rows: seq<Row>, c: Channel, t: string, x: Posting) {
    exists r :: r in rows && r.id == x.id && (t, x.tf) in r.representation.Entries(c)
  }

  ghost predicate HasRow(rows: seq<Row>, id: Id) {
    exists r :: r in rows && r.id == id
  }

  /** No later row has the same id. */
  ghost predicate LastRow(rows: seq<Row>, i: nat)
    requires i < |rows|
  {
    forall j | i < j < |rows| :: rows[j].id != rows[i].id
  }

  datatype Index = Index(documents: map<Id, Representation>, postings: Postings) {
    function PostingsFor(c: Channel, t: string): seq<Posting> {
      if (c, t) in postings then postings[(c, t)] else []
    }

    /** The index of these rows: postings are exactly the rows' entries, documents the rows'
        last representations. */
    ghost predicate Indexes(rows: seq<Row>) {
      && (forall c, t, x :: x in PostingsFor(c, t) <==> RowPosts(rows, c, t, x))
      && (forall id :: id in documents <==> HasRow(rows, id))
      && forall i {:trigger LastRow(rows, i)} | 0 <= i < |rows| && LastRow(rows, i) ::
           rows[i].id in documents && documents[rows[i].id] == rows[i].representation
    }
  }

  lemma {:induction false} DedupDistinct(s: seq<string>)
    ensures Distinct(Dedup(s))
  {
    if s != [] { DedupDistinct(s[1..]); }
  }

  /** A channel's query terms are its terms, once each, in order. */
  lemma QueryTermsAscend(q: Representation, c: Channel)
    ensures Distinct(q.QueryTerms(c)) && Sorted(LexLe, q.QueryTerms(c))
  {
    LexLeTotal();
    var terms := Dedup(Map((e: (string, int)) => e.0, q.Entries(c)));
    DedupDistinct(Map((e: (string, int)) => e.0, q.Entries(c)));
    SortDistinct(LexLe, terms);
  }

  lemma LexLeTotal()
    ensures TotalOrder(LexLe)
  {
    forall a, b ensures LexLe(a, b) || LexLe(b, a) { LexTotal(a, b); }
    forall a, b | LexLe(a, b) && LexLe(b, a) ensures a == b { LexAntisymmetric(a, b); }
    forall a, b, c | LexLe(a, b) && LexLe(b, c) ensures LexLe(a, c) { LexTransitive(a, b, c); }
  }

  // ---- what is posted

  /** One document's postings of a term, one for each entry. */
  function EntryPosts(id: Id, entries: seq<(string, int)>, t: string): seq<Posting> {
    if entries == [] then []
    else
      var front, last := entries[..|entries| - 1], entries[|entries| - 1];
      EntryPosts(id, front, t) + (if last.0 == t then [Posting(id, last.1)] else [])
  }

  /** All postings of a term, in the order of the rows. */
  function PostedBy(rows: seq<Row>, c: Channel, t: string): seq<Posting> {
    if rows == [] then []
    else
      var front, last := rows[..|rows| - 1], rows[|rows| - 1];
      PostedBy(front, c, t) + EntryPosts(last.id, last.representation.Entries(c), t)
  }

  lemma {:induction false} EntryPostsMembers(id: Id, entries: seq<(string, int)>, t: string, x: Posting)
    ensures x in EntryPosts(id, entries, t) <==> x.id == id && (t, x.tf) in entries
    decreases |entries|
  {
    if entries != [] {
      var front, last := entries[..|entries| - 1], entries[|entries| - 1];
      EntryPostsMembers(id, front, t, x);
      assert (t, x.tf) in entries <==> (t, x.tf) in front || (t, x.tf) == last;
    }
  }

  lemma {:induction false} PostedByMembers(rows: seq<Row>, c: Channel, t: string, x: Posting)
    ensures x in PostedBy(rows, c, t) <==> RowPosts(rows, c, t, x)
    decreases |rows|
  {
    if rows != [] {
      var front, last := rows[..|rows| - 1], rows[|rows| - 1];
      PostedByMembers(front, c, t, x);
      EntryPostsMembers(last.id, last.representation.Entries(c), t, x);
      assert forall r :: r in rows <==> r in front || r == last;
    }
  }

  // ---- building

  function ListOf(postings: Postings, c: Channel, t: string): seq<Posting> {
    if (c, t) in postings then postings[(c, t)] else []
  }

  /** `r` is `postings` with these entries of one document and channel appended. */
  ghost predicate Appended(postings: Postings, r: Postings, id: Id, c: Channel, entries: seq<(string, int)>) {
    forall d, t :: ListOf(r, d, t) == ListOf(postings, d, t) + if d == c then EntryPosts(id, entries, t) else []
  }

  lemma AppendedMore(postings: Postings, r: Postings, next: Postings, id: Id, c: Channel,
                     entries: seq<(string, int)>, e: (string, int))
    requires Appended(postings, r, id, c, entries)
    requires next == r[(c, e.0) := ListOf(r, c, e.0) + [Posting(id, e.1)]]
    ensures Appended(postings, next, id, c, entries + [e])
  {
    forall d, t
      ensures ListOf(next, d, t) == ListOf(postings, d, t) + if d == c then EntryPosts(id, entries + [e], t) else []
    {
      var was := ListOf(postings, d, t);
      assert ListOf(r, d, t) == was + if d == c then EntryPosts(id, entries, t) else [];
      if d == c {
        EntryPostsMore(was, id, entries, e, t);
        if t != e.0 { assert ListOf(next, d, t) == ListOf(r, d, t); }
      }
    }
  }

  lemma EntryPostsMore(before: seq<Posting>, id: Id, entries: seq<(string, int)>, e: (string, int), t: string)
    ensures before + EntryPosts(id, entries + [e], t)
         == (before + EntryPosts(id, entries, t)) + if e.0 == t then [Posting(id, e.1)] else []
  {
    assert (entries + [e])[..|entries|] == entries;
  }

  /** `postings[channel].setdefault(term, []).append(Posting(id, tf))` for each entry. */
  method PostChannel(postings: Postings, id: Id, c: Channel, entries: seq<(string, int)>) returns (r: Postings)
    ensures Appended(postings, r, id, c, entries)
  {
    r := postings;
    for i := 0 to |entries|
      invariant Appended(postings, r, id, c, entries[..i])
    {
      var (term, tf) := entries[i];
      TakeMore(entries, i);
      ghost var before := r;
      r := r[(c, term) := (if (c, term) in r then r[(c, term)] else []) + [Posting(id, tf)]];
      AppendedMore(postings, before, r, id, c, entries[..i], entries[i]);
    }
    assert entries[..|entries|] == entries;
  }

  lemma AllChannels()
    ensures forall c: Channel :: c in CHANNELS
  {
    forall c: Channel ensures c in CHANNELS {
      match c
      case Word => assert CHANNELS[0] == c;
      case Phrase => assert CHANNELS[1] == c;
      case Skip => assert CHANNELS[2] == c;
      case Entity => assert CHANNELS[3] == c;
      case Time => assert CHANNELS[4] == c;
      case Layout => assert CHANNELS[5] == c;
    }
  }

  function Rank(c: Channel): nat {
    match c
    case Word => 0
    case Phrase => 1
    case Skip => 2
    case Entity => 3
    case Time => 4
    case Layout => 5
  }

  lemma RankOfChannel(i: nat)
    requires i < |CHANNELS|
    ensures Rank(CHANNELS[i]) == i
  {}

  method PostRow(postings: Postings, row: Row) returns (r: Postings)
    ensures forall c, t ::
              ListOf(r, c, t) == ListOf(postings, c, t) + EntryPosts(row.id, row.representation.Entries(c), t)
  {
    r := postings;
    for i := 0 to |CHANNELS|
      invariant forall c, t ::
                  ListOf(r, c, t)
                  == ListOf(postings, c, t)
                     + if Rank(c) < i then EntryPosts(row.id, row.representation.Entries(c), t) else []
    {
      RankOfChannel(i);
      assert forall c :: Rank(c) == i ==> c == CHANNELS[i];
      r := PostChannel(r, row.id, CHANNELS[i], row.representation.Entries(CHANNELS[i]));
    }
  }

  /** The document dictionary holds each id's last representation. */
  ghost predicate Documents(documents: map<Id, Representation>, rows: seq<Row>) {
    && (forall id :: id in documents <==> HasRow(rows, id))
    && forall i {:trigger LastRow(rows, i)} | 0 <= i < |rows| && LastRow(rows, i) ::
         rows[i].id in documents && documents[rows[i].id] == rows[i].representation
  }

  lemma OneMoreRow(documents: map<Id, Representation>, rows: seq<Row>, row: Row)
    requires Documents(documents, rows)
    ensures Documents(documents[row.id := row.representation], rows + [row])
  {
    var more, documents' := rows + [row], documents[row.id := row.representation];
    forall id ensures id in documents' <==> HasRow(more, id) {
      assert forall r :: r in more <==> r in rows || r == row;
      assert HasRow(more, id) <==> HasRow(rows, id) || id == row.id;
    }
    forall i {:trigger LastRow(more, i)} | 0 <= i < |more| && LastRow(more, i)
      ensures more[i].id in documents' && documents'[more[i].id] == more[i].representation
    {
      if i < |rows| {
        assert more[|rows|] == row;
        assert forall j | i < j < |rows| :: rows[j] == more[j];
        assert LastRow(rows, i);
      }
    }
  }

  /** Every posting list is what the rows post, repeats included, put in order of id. */
  method Build(rows: seq<Row>) returns (index: Index)
    ensures index.Indexes(rows)
    ensures forall c, t :: index.PostingsFor(c, t) == Sort(PostingLe, PostedBy(rows, c, t))
    ensures forall c, t :: Sorted(PostingLe, index.PostingsFor(c, t))
  {
    var documents: map<Id, Representation> := map[];
    var postings: Postings := map[];
    for i := 0 to |rows|
      invariant forall c, t :: ListOf(postings, c, t) == PostedBy(rows[..i], c, t)
      invariant Documents(documents, rows[..i])
    {
      TakeMore(rows, i);
      OneMoreRow(documents, rows[..i], rows[i]);
      documents := documents[rows[i].id := rows[i].representation];
      postings := PostRow(postings, rows[i]);
      assert rows[..i + 1][..i] == rows[..i];
    }
    assert rows[..|rows|] == rows;
    index := Index(documents, map key | key in postings :: Sort(PostingLe, postings[key]));
    forall c, t ensures index.PostingsFor(c, t) == Sort(PostingLe, PostedBy(rows, c, t)) {
      assert ListOf(postings, c, t) == PostedBy(rows, c, t);
    }
    SortedListsIndex(index, rows);
  }

  lemma SortedListsIndex(index: Index, rows: seq<Row>)
    requires Documents(index.documents, rows)
    requires forall c, t :: index.PostingsFor(c, t) == Sort(PostingLe, PostedBy(rows, c, t))
    ensures index.Indexes(rows)
    ensures forall c, t :: Sorted(PostingLe, index.PostingsFor(c, t))
  {
    forall c, t, x ensures x in index.PostingsFor(c, t) <==> RowPosts(rows, c, t, x) {
      SortPermutes(PostingLe, PostedBy(rows, c, t));
      SameMembers(index.PostingsFor(c, t), PostedBy(rows, c, t));
      PostedByMembers(rows, c, t, x);
    }
    forall c, t ensures Sorted(PostingLe, index.PostingsFor(c, t)) {
      SortSorted(PostingLe, PostedBy(rows, c, t));
    }
  }

  // ---- matching

  ghost predicate Ascending(ids: seq<Id>) {
    forall i, j | 0 <= i < j < |ids| :: ids[i] < ids[j]
  }

  /** Some posting of the term names this document. */
  ghost predicate Hit(index: Index, c: Channel, t: string, id: Id) {
    exists x :: x in index.PostingsFor(c, t) && x.id == id
  }

  ghost predicate Matches(index: Index, q: Representation, id: Id) {
    exists c, t :: q.Has(c, t) && Hit(index, c, t, id)
  }

  /** The innermost loop: new documents of one posting list join `matched`. */
  method MatchTerm(index: Index, c: Channel, t: string, seen: set<Id>, matched: seq<Id>)
    returns (seen': set<Id>, matched': seq<Id>)
    requires Distinct(matched) && forall id :: id in matched <==> id in seen
    ensures Distinct(matched') && forall id :: id in matched' <==> id in seen'
    ensures forall id :: id in seen' <==> id in seen || Hit(index, c, t, id)
  {
    var postings := index.PostingsFor(c, t);
    seen', matched' := seen, matched;
    for i := 0 to |postings|
      invariant Distinct(matched') && forall id :: id in matched' <==> id in seen'
      invariant forall id :: id in seen' <==> id in seen || exists x :: x in postings[..i] && x.id == id
    {
      var posting := postings[i];
      assert postings[..i + 1] == postings[..i] + [posting];
      if posting.id in seen' { continue; }
      seen' := seen' + {posting.id};
      matched' := matched' + [posting.id];
    }
    assert postings[..|postings|] == postings;
  }

  method MatchChannel(index: Index, c: Channel, terms: seq<string>, seen: set<Id>, matched: seq<Id>)
    returns (seen': set<Id>, matched': seq<Id>)
    requires Distinct(matched) && forall id :: id in matched <==> id in seen
    ensures Distinct(matched') && forall id :: id in matched' <==> id in seen'
    ensures forall id :: id in seen' <==> id in seen || exists t :: t in terms && Hit(index, c, t, id)
  {
    seen', matched' := seen, matched;
    for i := 0 to |terms|
      invariant Distinct(matched') && forall id :: id in matched' <==> id in seen'
      invariant forall id :: id in seen' <==> id in seen || exists t :: t in terms[..i] && Hit(index, c, t, id)
    {
      assert terms[..i + 1] == terms[..i] + [terms[i]];
      seen', matched' := MatchTerm(index, c, terms[i], seen', matched');
    }
    assert terms[..|terms|] == terms;
  }

  /** The matched ids are exactly the documents hit by a query term, each once, in order. */
  method MatchingNodeIds(index: Index, q: Representation) returns (matched: seq<Id>)
    ensures Ascending(matched)
    ensures forall id :: id in matched <==> Matches(index, q, id)
  {
    var seen: set<Id> := {};
    matched := [];
    for i := 0 to |CHANNELS|
      invariant Distinct(matched) && forall id :: id in matched <==> id in seen
      invariant forall id :: id in seen <==> exists c, t :: c in CHANNELS[..i] && q.Has(c, t) && Hit(index, c, t, id)
    {
      assert CHANNELS[..i + 1] == CHANNELS[..i] + [CHANNELS[i]];
      seen, matched := MatchChannel(index, CHANNELS[i], q.QueryTerms(CHANNELS[i]), seen, matched);
    }
    AllChannels();
    assert CHANNELS[..|CHANNELS|] == CHANNELS;
    SortDistinct(IdLe, matched);
    matched := Sort(IdLe, matched);
  }

  // ---- scoring against a full scan

  type Scorer = (Representation, Representation) -> real

  ghost predicate DistinctRows(rows: seq<Row>) {
    forall i, j | 0 <= i < j < |rows| :: rows[i].id != rows[j].id
  }

  function ScoreRow(q: Representation, score: Scorer, r: Row): Scored {
    Scored(r.id, score(q, r.representation))
  }

  /** Each id's last row, in order. */
  function Lasts(rows: seq<Row>): seq<Row> {
    if rows == [] then []
    else if exists i | 1 <= i < |rows| :: rows[i].id == rows[0].id then Lasts(rows[1..])
    else [rows[0]] + Lasts(rows[1..])
  }

  /** Some row of this document shares a term with the query. */
  ghost predicate Reaches(rows: seq<Row>, q: Representation, id: Id) {
    exists r :: r in rows && r.id == id && Shares(q, r.representation)
  }

  /** Every document one of whose rows shares a term with the query, with its last
      representation scored. */
  ghost function FullScan(rows: seq<Row>, q: Representation, score: Scorer): seq<Scored> {
    Map(r => ScoreRow(q, score, r), Filter((r: Row) => Reaches(rows, q, r.id), Lasts(rows)))
  }

  lemma {:induction false} LastsAreLast(rows: seq<Row>)
    ensures DistinctRows(Lasts(rows))
    ensures forall r :: r in Lasts(rows) <==> exists i :: 0 <= i < |rows| && LastRow(rows, i) && rows[i] == r
  {
    if rows != [] {
      var rest := rows[1..];
      LastsAreLast(rest);
      assert forall i | 0 <= i < |rest| :: rest[i] == rows[i + 1];
      assert forall i | 0 <= i < |rest| :: LastRow(rest, i) <==> LastRow(rows, i + 1);
      assert LastRow(rows, 0) <==> !exists i | 1 <= i < |rows| :: rows[i].id == rows[0].id;
      forall r ensures r in Lasts(rows) <==> exists i :: 0 <= i < |rows| && LastRow(rows, i) && rows[i] == r {
        if r in Lasts(rest) {
          var i :| 0 <= i < |rest| && LastRow(rest, i) && rest[i] == r;
          assert LastRow(rows, i + 1) && rows[i + 1] == r;
        }
        if i :| 0 <= i < |rows| && LastRow(rows, i) && rows[i] == r && i > 0 {
          assert LastRow(rest, i - 1) && rest[i - 1] == r;
        }
      }
      if LastRow(rows, 0) {
        forall y | y in Lasts(rest) ensures y.id != rows[0].id {
          var i :| 0 <= i < |rest| && LastRow(rest, i) && rest[i] == y;
        }
      }
    }
  }

  lemma {:induction false} LastsOfDistinct(rows: seq<Row>)
    requires DistinctRows(rows)
    ensures Lasts(rows) == rows
  {
    if rows != [] { LastsOfDistinct(rows[1..]); }
  }

  /** Over rows with distinct ids the full scan scores exactly the rows that share a term. */
  lemma FullScanOfDistinct(rows: seq<Row>, q: Representation, score: Scorer)
    requires DistinctRows(rows)
    ensures FullScan(rows, q, score)
         == Map(r => ScoreRow(q, score, r), Filter((r: Row) => Shares(q, r.representation), rows))
  {
    LastsOfDistinct(rows);
    forall r | r in rows ensures Reaches(rows, q, r.id) <==> Shares(q, r.representation) {
      var i :| 0 <= i < |rows| && rows[i] == r;
      if Reaches(rows, q, r.id) {
        var j :| 0 <= j < |rows| && rows[j].id == r.id && Shares(q, rows[j].representation);
        assert i == j;
      }
    }
    FilterSame((r: Row) => Reaches(rows, q, r.id), (r: Row) => Shares(q, r.representation), rows);
  }

  /** A document matches exactly when a row of it shares a term with the query. */
  lemma MatchesAreShared(index: Index, rows: seq<Row>, q: Representation, id: Id)
    requires index.Indexes(rows)
    ensures Matches(index, q, id) <==> Reaches(rows, q, id)
  {
    if Matches(index, q, id) {
      var c, t :| q.Has(c, t) && Hit(index, c, t, id);
      var x :| x in index.PostingsFor(c, t) && x.id == id;
      assert RowPosts(rows, c, t, x);
      var r :| r in rows && r.id == x.id && (t, x.tf) in r.representation.Entries(c);
      assert r.representation.Has(c, t);
      assert Shares(q, r.representation);
    }
    if Reaches(rows, q, id) {
      var r :| r in rows && r.id == id && Shares(q, r.representation);
      var c, t :| q.Has(c, t) && r.representation.Has(c, t);
      var i :| 0 <= i < |r.representation.Entries(c)| && r.representation.Entries(c)[i].0 == t;
      var x := Posting(id, r.representation.Entries(c)[i].1);
      assert (t, x.tf) in r.representation.Entries(c);
      assert RowPosts(rows, c, t, x);
      assert x in index.PostingsFor(c, t);
      assert Hit(index, c, t, id);
    }
  }

  lemma {:induction false} FilterDistinctRows(keep: Row -> bool, rows: seq<Row>)
    requires DistinctRows(rows)
    ensures DistinctRows(Filter(keep, rows))
  {
    if rows != [] {
      FilterDistinctRows(keep, rows[1..]);
      forall y | y in Filter(keep, rows[1..]) ensures y.id != rows[0].id {
        var j :| 1 <= j < |rows| && rows[j] == y;
      }
    }
  }

  // ---- the six fields by name

  ghost predicate HasCount(counts: seq<(string, int)>, t: string) {
    exists i :: 0 <= i < |counts| && counts[i].0 == t
  }

  /** A word, phrase, skip, entity, time or layout entry in common. */
  ghost predicate InCommon(q: Representation, d: Representation) {
    || (exists t :: HasCount(q.words, t) && HasCount(d.words, t))
    || (exists t :: HasCount(q.phrases, t) && HasCount(d.phrases, t))
    || (exists t :: HasCount(q.skips, t) && HasCount(d.skips, t))
    || (exists t :: t in q.entities && t in d.entities)
    || (exists t :: t in q.times && t in d.times)
    || (exists t :: t in q.layouts && t in d.layouts)
  }

  lemma HasIsCount(r: Representation, c: Channel, t: string)
    ensures r.Has(c, t) <==> HasCount(r.Entries(c), t)
  {}

  lemma TokensPosted(entries: seq<(string, int)>, tokens: seq<string>, t: string)
    requires |entries| == |tokens| && forall i | 0 <= i < |tokens| :: entries[i] == (tokens[i], 1)
    ensures HasCount(entries, t) <==> t in tokens
    ensures forall n :: (t, n) in entries <==> t in tokens && n == 1
  {
    if t in tokens {
      var i :| 0 <= i < |tokens| && tokens[i] == t;
      assert entries[i] == (t, 1);
    }
  }

  lemma HasByField(r: Representation, t: string)
    ensures r.Has(Word, t) <==> HasCount(r.words, t)
    ensures r.Has(Phrase, t) <==> HasCount(r.phrases, t)
    ensures r.Has(Skip, t) <==> HasCount(r.skips, t)
    ensures r.Has(Entity, t) <==> t in r.entities
    ensures r.Has(Time, t) <==> t in r.times
    ensures r.Has(Layout, t) <==> t in r.layouts
  {
    forall c ensures r.Has(c, t) <==> HasCount(r.Entries(c), t) { HasIsCount(r, c, t); }
    TokensPosted(r.Entries(Entity), r.entities, t);
    TokensPosted(r.Entries(Time), r.times, t);
    TokensPosted(r.Entries(Layout), r.layouts, t);
  }

  /** Sharing a term in some channel is having an entry of some field in common. */
  lemma SharesByField(q: Representation, d: Representation)
    ensures Shares(q, d) <==> InCommon(q, d)
  {
    if Shares(q, d) {
      var c, t :| q.Has(c, t) && d.Has(c, t);
      HasByField(q, t);
      HasByField(d, t);
    }
    if InCommon(q, d) { InCommonShares(q, d); }
  }

  lemma InCommonShares(q: Representation, d: Representation)
    requires InCommon(q, d)
    ensures Shares(q, d)
  {
    forall t ensures q.Has(Word, t) && d.Has(Word, t) <==> HasCount(q.words, t) && HasCount(d.words, t)
      ensures q.Has(Phrase, t) && d.Has(Phrase, t) <==> HasCount(q.phrases, t) && HasCount(d.phrases, t)
      ensures q.Has(Skip, t) && d.Has(Skip, t) <==> HasCount(q.skips, t) && HasCount(d.skips, t)
      ensures q.Has(Entity, t) && d.Has(Entity, t) <==> t in q.entities && t in d.entities
      ensures q.Has(Time, t) && d.Has(Time, t) <==> t in q.times && t in d.times
      ensures q.Has(Layout, t) && d.Has(Layout, t) <==> t in q.layouts && t in d.layouts
    {
      HasByField(q, t);
      HasByField(d, t);
    }
  }

  /** What one row posts: the stored counts of words, phrases and skips, and 1 for each token. */
  lemma PostedByField(index: Index, rows: seq<Row>, t: string, x: Posting)
    requires index.Indexes(rows)
    ensures x in index.PostingsFor(Word, t) <==>
              exists r :: r in rows && r.id == x.id && (t, x.tf) in r.representation.words
    ensures x in index.PostingsFor(Phrase, t) <==>
              exists r :: r in rows && r.id == x.id && (t, x.tf) in r.representation.phrases
    ensures x in index.PostingsFor(Skip, t) <==>
              exists r :: r in rows && r.id == x.id && (t, x.tf) in r.representation.skips
    ensures x in index.PostingsFor(Entity, t) <==>
              x.tf == 1 && exists r :: r in rows && r.id == x.id && t in r.representation.entities
    ensures x in index.PostingsFor(Time, t) <==>
              x.tf == 1 && exists r :: r in rows && r.id == x.id && t in r.representation.times
    ensures x in index.PostingsFor(Layout, t) <==>
              x.tf == 1 && exists r :: r in rows && r.id == x.id && t in r.representation.layouts
  {
    assert forall c :: x in index.PostingsFor(c, t) <==> RowPosts(rows, c, t, x);
    forall r: Row
      ensures (t, x.tf) in r.representation.Entries(Entity) <==> t in r.representation.entities && x.tf == 1
      ensures (t, x.tf) in r.representation.Entries(Time) <==> t in r.representation.times && x.tf == 1
      ensures (t, x.tf) in r.representation.Entries(Layout) <==> t in r.representation.layouts && x.tf == 1
    {
      TokensPosted(r.representation.Entries(Entity), r.representation.entities, t);
      TokensPosted(r.representation.Entries(Time), r.representation.times, t);
      TokensPosted(r.representation.Entries(Layout), r.representation.layouts, t);
    }
  }

  /** Some row of the document has an entry in common with the query. */
  ghost predicate Touches(rows: seq<Row>, q: Representation, id: Id) {
    exists r :: r in rows && r.id == id && InCommon(q, r.representation)
  }

  /** A document matches exactly when a row of it has an entry in common with the query. */
  lemma MatchesByField(index: Index, rows: seq<Row>, q: Representation, id: Id)
    requires index.Indexes(rows)
    ensures Matches(index, q, id) <==> Touches(rows, q, id)
  {
    MatchesAreShared(index, rows, q, id);
    forall r: Row ensures Shares(q, r.representation) <==> InCommon(q, r.representation) {
      SharesByField(q, r.representation);
    }
  }

  /** The documents are the last rows. */
  lemma DocumentsAreLasts(index: Index, rows: seq<Row>, id: Id)
    requires index.Indexes(rows) && HasRow(rows, id)
    ensures id in index.documents && Row(id, index.documents[id]) in Lasts(rows)
    ensures forall r :: r in Lasts(rows) && r.id == id ==> r.representation == index.documents[id]
  {
    LastsAreLast(rows);
    var i := LastOf(rows, id);
    assert LastRow(rows, i);
    assert rows[i] in Lasts(rows);
    forall r | r in Lasts(rows) && r.id == id ensures r.representation == index.documents[id] {
      var j :| 0 <= j < |rows| && LastRow(rows, j) && rows[j] == r;
    }
  }

  lemma LastOf(rows: seq<Row>, id: Id) returns (i: nat)
    requires HasRow(rows, id)
    ensures i < |rows| && LastRow(rows, i) && rows[i].id == id
  {
    i := |rows| - 1;
    while rows[i].id != id
      invariant i < |rows|
      invariant forall j | i < j < |rows| :: rows[j].id != id
      decreases i
    {
      assert exists j :: 0 <= j <= i && rows[j].id == id by {
        var r :| r in rows && r.id == id;
        var j :| 0 <= j < |rows| && rows[j] == r;
        assert j <= i;
      }
      i := i - 1;
    }
  }

  /** A scored match is in the full scan, and the other way round. */
  lemma MatchIsScanned(index: Index, rows: seq<Row>, q: Representation, score: Scorer, x: Scored)
    requires index.Indexes(rows)
    ensures x in FullScan(rows, q, score) <==>
              Matches(index, q, x.id) && x.id in index.documents && x.score == score(q, index.documents[x.id])
  {
    var kept, scan := Filter((r: Row) => Reaches(rows, q, r.id), Lasts(rows)), FullScan(rows, q, score);
    MatchesAreShared(index, rows, q, x.id);
    if x in scan {
      var i :| 0 <= i < |scan| && scan[i] == x;
      assert kept[i] in kept && kept[i].id == x.id;
      DocumentsAreLasts(index, rows, x.id);
    }
    if Matches(index, q, x.id) && x.id in index.documents && x.score == score(q, index.documents[x.id]) {
      DocumentsAreLasts(index, rows, x.id);
      var r := Row(x.id, index.documents[x.id]);
      assert r in kept;
      var i :| 0 <= i < |kept| && kept[i] == r;
      assert scan[i] == x;
    }
  }

  lemma FullScanDistinct(rows: seq<Row>, q: Representation, score: Scorer)
    ensures Distinct(FullScan(rows, q, score))
  {
    var kept, scan := Filter((r: Row) => Reaches(rows, q, r.id), Lasts(rows)), FullScan(rows, q, score);
    LastsAreLast(rows);
    FilterDistinctRows((r: Row) => Reaches(rows, q, r.id), Lasts(rows));
    forall i, j | 0 <= i < j < |scan| ensures scan[i] != scan[j] {
      assert kept[i].id != kept[j].id;
    }
  }

  /** The scores the loop collects for these ids. */
  ghost predicate ScoredBy(index: Index, q: Representation, score: Scorer, ids: seq<Id>, scores: seq<Scored>) {
    |scores| == |ids| && forall i | 0 <= i < |ids| ::
      ids[i] in index.documents && scores[i] == Scored(ids[i], score(q, index.documents[ids[i]]))
  }

  lemma ScoredMembers(index: Index, q: Representation, score: Scorer, ids: seq<Id>, scores: seq<Scored>, x: Scored)
    requires ScoredBy(index, q, score, ids, scores)
    ensures x in scores <==> x.id in ids && x.id in index.documents && x.score == score(q, index.documents[x.id])
  {
    if x in scores {
      var i :| 0 <= i < |scores| && scores[i] == x;
      assert ids[i] in ids;
    }
    if x.id in ids && x.id in index.documents && x.score == score(q, index.documents[x.id]) {
      var i :| 0 <= i < |ids| && ids[i] == x.id;
      assert scores[i] == x;
    }
  }

  /** Scoring the matched ids scores the full scan, in some order. */
  lemma MatchedIsFullScan(index: Index, rows: seq<Row>, q: Representation, score: Scorer,
                          ids: seq<Id>, scores: seq<Scored>)
    requires index.Indexes(rows)
    requires Ascending(ids) && forall id :: id in ids <==> Matches(index, q, id)
    requires ScoredBy(index, q, score, ids, scores)
    ensures multiset(scores) == multiset(FullScan(rows, q, score))
  {
    FullScanDistinct(rows, q, score);
    forall x ensures x in scores <==> x in FullScan(rows, q, score) {
      MatchIsScanned(index, rows, q, score, x);
      ScoredMembers(index, q, score, ids, scores, x);
    }
    DistinctMembers(scores, FullScan(rows, q, score));
  }

  /** `score_matching`: the score dictionary, in insertion order. */
  method ScoreMatching(index: Index, q: Representation, score: Scorer, ghost rows: seq<Row>)
    returns (scores: seq<Scored>)
    requires index.Indexes(rows)
    ensures multiset(scores) == multiset(FullScan(rows, q, score))
  {
    var ids := MatchingNodeIds(index, q);
    scores := [];
    for i := 0 to |ids|
      invariant ScoredBy(index, q, score, ids[..i], scores)
    {
      assert ids[i] in ids;
      TakeMore(ids, i);
      MatchesAreShared(index, rows, q, ids[i]);
      scores := scores + [Scored(ids[i], score(q, index.documents[ids[i]]))];
    }
    assert ids[..|ids|] == ids;
    MatchedIsFullScan(index, rows, q, score, ids, scores);
  }

  /** The last row of some document the query touches explains the result. */
  ghost predicate ScoresRow(rows: seq<Row>, q: Representation, score: Scorer, x: Scored) {
    Touches(rows, q, x.id)
    && exists i ::
         && 0 <= i < |rows| && LastRow(rows, i) && rows[i].id == x.id
         && x.score == score(q, rows[i].representation)
  }

  /** The full scan holds exactly the results of the touched documents. */
  lemma ScanMeaning(rows: seq<Row>, q: Representation, score: Scorer, x: Scored)
    ensures x in FullScan(rows, q, score) <==> ScoresRow(rows, q, score, x)
  {
    var kept, scan := Filter((r: Row) => Reaches(rows, q, r.id), Lasts(rows)), FullScan(rows, q, score);
    LastsAreLast(rows);
    assert Reaches(rows, q, x.id) <==> Touches(rows, q, x.id) by {
      forall r: Row ensures Shares(q, r.representation) <==> InCommon(q, r.representation) {
        SharesByField(q, r.representation);
      }
    }
    if x in scan {
      var j :| 0 <= j < |scan| && scan[j] == x;
      assert kept[j] in kept;
      var i :| 0 <= i < |rows| && LastRow(rows, i) && rows[i] == kept[j];
    }
    if ScoresRow(rows, q, score, x) {
      var i :| 0 <= i < |rows| && LastRow(rows, i) && rows[i].id == x.id && x.score == score(q, rows[i].representation);
      assert rows[i] in kept;
      var j :| 0 <= j < |kept| && kept[j] == rows[i];
      assert scan[j] == x;
    }
  }

  /** The k best of the documents the query touches: each explained by its last row, higher
      scores first and ties by id, and whatever is left out behind all of them. */
  ghost predicate BestDocuments(rows: seq<Row>, q: Representation, score: Scorer, k: nat, ranked: seq<Scored>) {
    && |ranked| <= k
    && (forall x :: x in ranked ==> ScoresRow(rows, q, score, x))
    && (forall i, j | 0 <= i < j < |ranked| ::
          ranked[i].score > ranked[j].score || (ranked[i].score == ranked[j].score && ranked[i].id < ranked[j].id))
    && forall x :: ScoresRow(rows, q, score, x) && x !in ranked ==>
         |ranked| == k && forall y :: y in ranked ==>
           y.score > x.score || (y.score == x.score && y.id < x.id)
  }

  lemma ScanIdsDistinct(rows: seq<Row>, q: Representation, score: Scorer)
    ensures var scan := FullScan(rows, q, score); forall i, j | 0 <= i < j < |scan| :: scan[i].id != scan[j].id
  {
    LastsAreLast(rows);
    FilterDistinctRows((r: Row) => Reaches(rows, q, r.id), Lasts(rows));
  }

  lemma TopOfScan(rows: seq<Row>, q: Representation, score: Scorer, k: nat)
    ensures BestDocuments(rows, q, score, k, Prefix(Sort(ScoredLe, FullScan(rows, q, score)), k))
  {
    var scan := FullScan(rows, q, score);
    var ranked := Prefix(Sort(ScoredLe, scan), k);
    TopMeaning(scan, k);
    ScanIdsDistinct(rows, q, score);
    TopDistinct(scan, k);
    forall x ensures x in scan <==> ScoresRow(rows, q, score, x) { ScanMeaning(rows, q, score, x); }
    if |ranked| < k { TopIsAll(scan, k); }
  }

  /** `top_k` through the index is the full scan's ranking, for every k. */
  method TopK(index: Index, q: Representation, score: Scorer, k: int, ghost rows: seq<Row>)
    returns (ranked: seq<Scored>)
    requires index.Indexes(rows)
    ensures ranked == Prefix(Sort(ScoredLe, FullScan(rows, q, score)), k)
    ensures k >= 0 ==> BestDocuments(rows, q, score, k, ranked)
  {
    if k >= 0 { TopOfScan(rows, q, score, k); }
    var scores := ScoreMatching(index, q, score, rows);
    ScoredLeTotal();
    SortCanonical(ScoredLe, scores, FullScan(rows, q, score));
    ranked := Prefix(Sort(ScoredLe, scores), k);
  }
}
