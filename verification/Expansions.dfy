/** faim_native/lexical/synonym_expander.py: `merge_weighted_expansions`. The tuples of
    sources and origins are only read into sets and written out sorted, so they are sets. */
module Expansions {
  import opened Options
  import opened Arrangement
  import opened Ordering
  import opened Text

  datatype Expansion = Expansion(term: string, weight: real, sources: set<string>, origins: set<string>)

  datatype Payload = Payload(weight: real, sources: set<string>, origins: set<string>)

  type Merged = map<string, Payload>

  function Clamp01(w: real): real {
    if w > 1.0 then 1.0 else if w < 0.0 then 0.0 else w
  }

  /** `set(_normalize_term(item) for item in origins if item)` */
  function CleanOrigins(origins: set<string>): set<string> {
    set o | o in origins && o != "" :: Normalize(o)
  }

  function PayloadOf(row: Expansion): Payload {
    Payload(Clamp01(row.weight), row.sources, CleanOrigins(row.origins))
  }

  function Absorb(p: Payload, q: Payload): Payload {
    Payload(if p.weight > q.weight then p.weight else q.weight, p.sources + q.sources, p.origins + q.origins)
  }

  function AddPayload(m: Merged, t: string, p: Payload): Merged {
    m[t := if t in m then Absorb(m[t], p) else p]
  }

  function AddRow(m: Merged, row: Expansion): Merged {
    var t := Normalize(row.term);
    if t == "" then m else AddPayload(m, t, PayloadOf(row))
  }

  /** What the rows add up to, one term at a time. */
  function MergeRows(rows: seq<Expansion>): Merged {
    if rows == [] then map[] else AddRow(MergeRows(rows[..|rows| - 1]), rows[|rows| - 1])
  }

  /** The rows that count for term t. */
  predicate For(row: Expansion, t: string) {
    Normalize(row.term) == t
  }

  /** What the rows for term t come to: the greatest weight, all sources, all clean origins. */
  ghost predicate Summarises(p: Payload, rows: seq<Expansion>, t: string) {
    && (forall row :: row in rows && For(row, t) ==> Clamp01(row.weight) <= p.weight)
    && (exists row :: row in rows && For(row, t) && Clamp01(row.weight) == p.weight)
    && (forall x :: x in p.sources <==> exists row :: row in rows && For(row, t) && x in row.sources)
    && (forall o :: o in p.origins <==> exists row :: row in rows && For(row, t) && o in CleanOrigins(row.origins))
  }

  /** Some row normalises to t, and t is not blank. */
  ghost predicate Mentioned(rows: seq<Expansion>, t: string) {
    t != "" && exists row :: row in rows && For(row, t)
  }

  lemma FirstSummary(rows: seq<Expansion>, row: Expansion, t: string)
    requires !(exists r :: r in rows && For(r, t)) && For(row, t)
    ensures Summarises(PayloadOf(row), rows + [row], t)
  {
    assert row in rows + [row];
  }

  lemma NextSummary(p: Payload, rows: seq<Expansion>, row: Expansion, t: string)
    requires Summarises(p, rows, t) && For(row, t)
    ensures Summarises(Absorb(p, PayloadOf(row)), rows + [row], t)
  {
    var all, q := rows + [row], Absorb(p, PayloadOf(row));
    assert row in all && forall r :: r in rows ==> r in all;
    forall x ensures x in q.sources <==> exists r :: r in all && For(r, t) && x in r.sources {}
    forall o ensures o in q.origins <==> exists r :: r in all && For(r, t) && o in CleanOrigins(r.origins) {}
  }

  lemma OtherSummary(p: Payload, rows: seq<Expansion>, row: Expansion, t: string)
    requires Summarises(p, rows, t) && !For(row, t)
    ensures Summarises(p, rows + [row], t)
  {
    var all := rows + [row];
    assert forall r :: r in all && For(r, t) <==> r in rows && For(r, t);
  }

  lemma MentionedStep(rows: seq<Expansion>, row: Expansion, t: string)
    ensures Mentioned(rows + [row], t) <==> Mentioned(rows, t) || (t != "" && For(row, t))
  {
    assert row in rows + [row] && forall r :: r in rows ==> r in rows + [row];
  }

  /** A term is merged when a row normalises to it, and its payload sums up those rows. */
  lemma {:induction false} MergedMeaning(rows: seq<Expansion>, t: string)
    ensures t in MergeRows(rows) <==> Mentioned(rows, t)
    ensures t in MergeRows(rows) ==> Summarises(MergeRows(rows)[t], rows, t)
    decreases |rows|
  {
    if rows != [] {
      var init, row := rows[..|rows| - 1], rows[|rows| - 1];
      assert rows == init + [row];
      MergedMeaning(init, t);
      MentionedStep(init, row, t);
      if t in MergeRows(init) {
        if For(row, t) { NextSummary(MergeRows(init)[t], init, row, t); }
        else { OtherSummary(MergeRows(init)[t], init, row, t); }
      } else if t != "" && For(row, t) {
        FirstSummary(init, row, t);
      }
    }
  }

  // ---- the sorted output

  /** The sort key; terms are distinct, so sources and origins never decide. */
  datatype Key = Key(weight: real, term: string)

  predicate KeyLe(a: Key, b: Key) {
    a.weight > b.weight || (a.weight == b.weight && LexLe(a.term, b.term))
  }

  lemma KeyLeTotal()
    ensures TotalOrder(KeyLe)
  {
    forall a: Key, b: Key ensures KeyLe(a, b) || KeyLe(b, a) { LexTotal(a.term, b.term); }
    forall a: Key, b: Key | KeyLe(a, b) && KeyLe(b, a) ensures a == b { LexAntisymmetric(a.term, b.term); }
    forall a: Key, b: Key, c: Key | KeyLe(a, b) && KeyLe(b, c) ensures KeyLe(a, c) {
      if a.weight == b.weight == c.weight { LexTransitive(a.term, b.term, c.term); }
    }
  }

  /** A finite set of keys, in output order. */
  ghost function Order(s: set<Key>): seq<Key> {
    Arrange(KeyLe, s)
  }

  ghost function Keys(m: Merged): set<Key> {
    set t | t in m :: Key(m[t].weight, t)
  }

  function Cap<T>(s: seq<T>, maxTotal: Option<int>): seq<T> {
    match maxTotal
    case None => s
    case Some(n) => Prefix(s, if n > 0 then n else 0)
  }

  function Attach(m: Merged, ks: seq<Key>): (r: seq<Expansion>)
    requires forall k :: k in ks ==> k.term in m
    ensures |r| == |ks|
    ensures forall i | 0 <= i < |ks| :: ks[i].term in m &&
              r[i] == Expansion(ks[i].term, ks[i].weight, m[ks[i].term].sources, m[ks[i].term].origins)
  {
    seq(|ks|, i requires 0 <= i < |ks| =>
      assert ks[i] in ks;
      Expansion(ks[i].term, ks[i].weight, m[ks[i].term].sources, m[ks[i].term].origins))
  }

  lemma CapMembers<T>(s: seq<T>, maxTotal: Option<int>)
    ensures forall x :: x in Cap(s, maxTotal) ==> x in s
  {}

  /** The merged rows, heaviest first, ties by term, cut at `maxTotal`. */
  ghost function MergeSpec(rows: seq<Expansion>, maxTotal: Option<int>): seq<Expansion> {
    var m := MergeRows(rows);
    ArrangeMembers(KeyLe, Keys(m));
    CapMembers(Order(Keys(m)), maxTotal);
    Attach(m, Cap(Order(Keys(m)), maxTotal))
  }

  lemma InsertionOrderForgotten(m: Merged, terms: seq<string>)
    requires forall i, j | 0 <= i < j < |terms| :: terms[i] != terms[j]
    requires forall t :: t in terms <==> t in m
    ensures Sort(KeyLe, Map((t: string) => if t in m then Key(m[t].weight, t) else Key(0.0, t), terms))
         == Order(Keys(m))
  {
    var ks := Map((t: string) => if t in m then Key(m[t].weight, t) else Key(0.0, t), terms);
    assert forall i | 0 <= i < |terms| :: terms[i] in terms;
    assert forall k :: k in ks <==> k in Keys(m) by {
      forall k | k in Keys(m) ensures k in ks {
        var i :| 0 <= i < |terms| && terms[i] == k.term;
        assert ks[i] == k;
      }
    }
    KeyLeTotal();
    SortIsArrange(KeyLe, ks, Keys(m));
  }

  /** The source's loop and sort compute the specification. */
  method MergeWeightedExpansions(rows: seq<Expansion>, maxTotal: Option<int>) returns (out: seq<Expansion>)
    ensures out == MergeSpec(rows, maxTotal)
  {
    var merged: Merged := map[];
    var terms: seq<string> := [];  // the dictionary's insertion order
    for i := 0 to |rows|
      invariant merged == MergeRows(rows[..i])
      invariant forall a, b | 0 <= a < b < |terms| :: terms[a] != terms[b]
      invariant forall t :: t in terms <==> t in merged
    {
      assert rows[..i + 1][..i] == rows[..i];
      var row := rows[i];
      var term := Normalize(row.term);
      if term == "" { continue; }
      if term !in merged {
        terms := terms + [term];
        merged := merged[term := PayloadOf(row)];
      } else {
        merged := merged[term := Absorb(merged[term], PayloadOf(row))];
      }
    }
    assert rows[..|rows|] == rows;
    var keyed := Map((t: string) => if t in merged then Key(merged[t].weight, t) else Key(0.0, t), terms);
    var ordered := Sort(KeyLe, keyed);
    InsertionOrderForgotten(merged, terms);
    ArrangeMembers(KeyLe, Keys(merged));
    CapMembers(ordered, maxTotal);
    out := Attach(merged, Cap(ordered, maxTotal));
  }

  // ---- what the rows come out as

  lemma ClampMeaning(w: real)
    ensures 0.0 <= w <= 1.0 ==> Clamp01(w) == w
    ensures w < 0.0 ==> Clamp01(w) == 0.0
    ensures w > 1.0 ==> Clamp01(w) == 1.0
  {}

  /** Origins are normalised; only the empty one is skipped, a blank one is not. */
  lemma CleanMeaning(origins: set<string>, o: string)
    ensures o in CleanOrigins(origins) <==> exists x :: x in origins && |x| > 0 && Normalize(x) == o
  {}

  /** Heavier rows first, equal weights by smaller term. */
  ghost predicate RowBefore(a: Expansion, b: Expansion) {
    a.weight > b.weight || (a.weight == b.weight && a.term != b.term && LexLe(a.term, b.term))
  }

  /** The row is the merged entry of its term. */
  ghost predicate EntryOf(m: Merged, e: Expansion) {
    e.term in m && m[e.term] == Payload(e.weight, e.sources, e.origins)
  }

  lemma OrderMeaning(m: Merged)
    ensures |Order(Keys(m))| == |m| && AllKeys(m, Order(Keys(m)))
  {
    var o := Order(Keys(m));
    KeyLeTotal();
    ArrangeSorted(KeyLe, Keys(m));
    KeysCount(m);
    SortedKeysAreAll(m, o);
  }

  lemma SortedKeysAreAll(m: Merged, o: seq<Key>)
    requires Sorted(KeyLe, o) && Distinct(o) && forall k :: k in o <==> k in Keys(m)
    ensures AllKeys(m, o)
  {
    forall i, j | 0 <= i < j < |o| ensures KeyLe(o[i], o[j]) && o[i].term != o[j].term {
      assert o[i] in o && o[j] in o && o[i] != o[j];
    }
  }

  lemma {:induction false} KeysCount(m: Merged)
    ensures |Keys(m)| == |m|
    decreases |m|
  {
    if m != map[] {
      var t :| t in m;
      var rest := m - {t};
      KeysCount(rest);
      assert forall u :: u in rest ==> rest[u] == m[u];
      forall k ensures k in Keys(m) <==> k in Keys(rest) + {Key(m[t].weight, t)} {
        assert k in Keys(m) <==> k.term in m && k.weight == m[k.term].weight;
        assert k in Keys(rest) <==> k.term in rest && k.weight == rest[k.term].weight;
      }
      assert Keys(m) == Keys(rest) + {Key(m[t].weight, t)} && Key(m[t].weight, t) !in Keys(rest);
      assert m.Keys == rest.Keys + {t} && |m| == |m.Keys| && |rest| == |rest.Keys|;
    }
  }

  /** The rows carry the first of these keys. */
  ghost predicate CarriesFirst(m: Merged, o: seq<Key>, out: seq<Expansion>) {
    |out| <= |o| && forall i | 0 <= i < |out| ::
      out[i].term == o[i].term && out[i].weight == o[i].weight && EntryOf(m, out[i])
  }

  /** All keys, in order, each term once. */
  ghost predicate AllKeys(m: Merged, o: seq<Key>) {
    && (forall i, j | 0 <= i < j < |o| :: KeyLe(o[i], o[j]) && o[i].term != o[j].term)
    && forall k :: k in o <==> k.term in m && k.weight == m[k.term].weight
  }

  lemma SpecCarries(rows: seq<Expansion>, maxTotal: Option<int>)
    ensures CarriesFirst(MergeRows(rows), Order(Keys(MergeRows(rows))), MergeSpec(rows, maxTotal))
  {
    var m := MergeRows(rows);
    ArrangeMembers(KeyLe, Keys(m));
    var o := Order(Keys(m));
    CapMembers(o, maxTotal);
    AttachCarries(m, o, Cap(o, maxTotal));
  }

  lemma AttachCarries(m: Merged, o: seq<Key>, ks: seq<Key>)
    requires (forall k :: k in o ==> k in Keys(m)) && ks <= o
    ensures (forall k :: k in ks ==> k.term in m) && CarriesFirst(m, o, Attach(m, ks))
  {
    assert forall k :: k in ks ==> k in o;
    forall i | 0 <= i < |ks| ensures ks[i] in Keys(m) {
      assert ks[i] in ks;
    }
  }

  lemma CarriedInOrder(m: Merged, o: seq<Key>, out: seq<Expansion>)
    requires AllKeys(m, o) && CarriesFirst(m, o, out)
    ensures forall i, j | 0 <= i < j < |out| :: RowBefore(out[i], out[j])
  {
    forall i, j | 0 <= i < j < |out| ensures RowBefore(out[i], out[j]) {
      assert KeyLe(o[i], o[j]) && o[i].term != o[j].term;
    }
  }

  lemma CutComesBehind(m: Merged, o: seq<Key>, out: seq<Expansion>, e: Expansion)
    requires AllKeys(m, o) && CarriesFirst(m, o, out) && EntryOf(m, e)
    ensures e in out || forall f :: f in out ==> RowBefore(f, e)
  {
    assert Key(e.weight, e.term) in o;
    var i :| 0 <= i < |o| && o[i] == Key(e.weight, e.term);
    if i < |out| {
      assert out[i] == e;
    } else {
      forall f | f in out ensures RowBefore(f, e) {
        var j :| 0 <= j < |out| && out[j] == f;
        assert KeyLe(o[j], o[i]) && o[j].term != o[i].term;
      }
    }
  }

  /** The output, in terms of the merged map: as many entries as the cap allows, each the
      entry of its term, heaviest first with ties by term, and what is cut comes behind. */
  lemma OutputMeaning(rows: seq<Expansion>, maxTotal: Option<int>)
    ensures var m, out := MergeRows(rows), MergeSpec(rows, maxTotal);
            && |out| == (if maxTotal.None? || maxTotal.value >= |m| then |m|
                         else if maxTotal.value > 0 then maxTotal.value else 0)
            && (forall e :: e in out ==> EntryOf(m, e))
            && (forall i, j | 0 <= i < j < |out| :: RowBefore(out[i], out[j]))
            && forall e: Expansion :: EntryOf(m, e) ==> e in out || forall f :: f in out ==> RowBefore(f, e)
  {
    var m, out := MergeRows(rows), MergeSpec(rows, maxTotal);
    OrderMeaning(m);
    SpecCarries(rows, maxTotal);
    CarriedInOrder(m, Order(Keys(m)), out);
    forall e: Expansion | EntryOf(m, e) ensures e in out || forall f :: f in out ==> RowBefore(f, e) {
      CutComesBehind(m, Order(Keys(m)), out, e);
    }
  }

  /** Two rows with terms that are not blank come out as one exactly when the terms have the
      same runs but for ASCII case. */
  lemma TwoRowsMergeIff(r: Expansion, words: seq<string>, gaps: seq<string>,
                        r': Expansion, words': seq<string>, gaps': seq<string>)
    requires Runs(r.term, words, gaps) && Runs(r'.term, words', gaps') && words != [] && words' != []
    ensures |MergeSpec([r, r'], None)| == 1 <==>
              |words| == |words'| && forall i | 0 <= i < |words| :: SameLetters(words[i], words'[i])
  {
    var rows := [r, r'];
    assert rows[..1] == [r] && [r][..0] == [];
    NormalizeAlikeIff(r.term, words, gaps, r'.term, words', gaps');
    NormalizeNotEmpty(r.term, words, gaps);
    NormalizeNotEmpty(r'.term, words', gaps');
    var t, t' := Normalize(r.term), Normalize(r'.term);
    assert MergeRows([r]) == map[t := PayloadOf(r)];
    var m := MergeRows(rows);
    assert m.Keys == {t, t'};
    OutputMeaning(rows, None);
    assert |m| == |m.Keys|;
    assert t != t' ==> |{t, t'}| == 2;
  }

  lemma NormalizeNotEmpty(s: string, words: seq<string>, gaps: seq<string>)
    requires Runs(s, words, gaps) && words != []
    ensures Normalize(s) != ""
  {
    NormalizeIsJoin(s, words, gaps);
    LoweredNonBlank(words);
    JoinedAreRuns(LowerAll(words));
  }
}
