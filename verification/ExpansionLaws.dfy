/** faim_native/lexical/synonym_expander.py: merging in two stages against merging at once. */
module ExpansionLaws {
  import opened Options
  import opened Arrangement
  import opened Ordering
  import opened Text
  import opened Expansions

  // ---- merging is a union of maps

  function Union(m: Merged, n: Merged): Merged {
    map t | t in m.Keys + n.Keys ::
      if t in m && t in n then Absorb(m[t], n[t]) else if t in m then m[t] else n[t]
  }

  lemma AbsorbAssociative(p: Payload, q: Payload, r: Payload)
    ensures Absorb(Absorb(p, q), r) == Absorb(p, Absorb(q, r))
  {}

  lemma UnionAddRow(m: Merged, n: Merged, row: Expansion)
    ensures AddRow(Union(m, n), row) == Union(m, AddRow(n, row))
  {
    var t, p := Normalize(row.term), PayloadOf(row);
    if t != "" {
      if t in m && t in n { AbsorbAssociative(m[t], n[t], p); }
      assert AddPayload(Union(m, n), t, p) == Union(m, AddPayload(n, t, p));
    }
  }

  lemma {:induction false} MergeConcat(a: seq<Expansion>, b: seq<Expansion>)
    ensures MergeRows(a + b) == Union(MergeRows(a), MergeRows(b))
    decreases |b|
  {
    if b == [] {
      assert a + b == a;
      assert Union(MergeRows(a), map[]) == MergeRows(a);
    } else {
      var b', row := b[..|b| - 1], b[|b| - 1];
      assert (a + b)[..|a + b| - 1] == a + b';
      MergeConcat(a, b');
      UnionAddRow(MergeRows(a), MergeRows(b'), row);
    }
  }

  // ---- merged maps are normal, and merging their output changes only blank origins

  ghost predicate Normal(t: string, p: Payload) {
    && t != "" && Normalize(t) == t
    && 0.0 <= p.weight <= 1.0
    && forall o :: o in p.origins ==> Normalize(o) == o
  }

  ghost predicate AllNormal(m: Merged) {
    forall t :: t in m ==> Normal(t, m[t])
  }

  lemma PayloadNormal(row: Expansion)
    requires Normalize(row.term) != ""
    ensures Normal(Normalize(row.term), PayloadOf(row))
  {
    NormalizeIdempotent(row.term);
    forall o | o in CleanOrigins(row.origins) ensures Normalize(o) == o {
      var x :| x in row.origins && x != "" && o == Normalize(x);
      NormalizeIdempotent(x);
    }
  }

  lemma {:induction false} MergeNormal(rows: seq<Expansion>)
    ensures AllNormal(MergeRows(rows))
    decreases |rows|
  {
    if rows != [] {
      var row := rows[|rows| - 1];
      MergeNormal(rows[..|rows| - 1]);
      if Normalize(row.term) != "" { PayloadNormal(row); }
    }
  }

  function Unblanked(p: Payload): Payload {
    p.(origins := p.origins - {""})
  }

  /** What merging the entries `ks` of a normal map again yields. */
  ghost function Restricted(m: Merged, ks: seq<Key>): Merged {
    map t | t in TermsOf(ks) && t in m :: Unblanked(m[t])
  }

  ghost function TermsOf(ks: seq<Key>): set<string> {
    set k | k in ks :: k.term
  }

  ghost predicate Entries(m: Merged, ks: seq<Key>) {
    && (forall k :: k in ks ==> k.term in m && k.weight == m[k.term].weight)
    && forall i, j | 0 <= i < j < |ks| :: ks[i].term != ks[j].term
  }

  lemma UnblankedOrigins(t: string, p: Payload)
    requires Normal(t, p)
    ensures CleanOrigins(p.origins) == p.origins - {""}
  {
    forall o ensures o in CleanOrigins(p.origins) <==> o in p.origins - {""} {
      if o in p.origins - {""} { assert Normalize(o) == o; }
      if o in CleanOrigins(p.origins) {
        var x :| x in p.origins && x != "" && o == Normalize(x);
      }
    }
  }

  lemma EntriesFront(m: Merged, ks: seq<Key>, front: seq<Key>, k: Key)
    requires Entries(m, ks) && ks == front + [k]
    ensures k.term in m && k.term !in TermsOf(front) && Entries(m, front)
  {
    assert ks[|front|] == k && k in ks;
    assert forall i | 0 <= i < |front| :: front[i] == ks[i] && ks[i] in ks;
  }

  lemma EntriesStep(m: Merged, ks: seq<Key>, front: seq<Key>, k: Key)
    requires AllNormal(m) && Entries(m, ks) && ks == front + [k]
    ensures k.term in m && k.term !in TermsOf(front) && Entries(m, front)
    ensures Attach(m, ks) == Attach(m, front) + [Expansion(k.term, k.weight, m[k.term].sources, m[k.term].origins)]
    ensures Restricted(m, ks) == Restricted(m, front)[k.term := Unblanked(m[k.term])]
  {
    EntriesFront(m, ks, front, k);
    RestrictedStep(m, ks, front, k);
  }

  lemma RestrictedStep(m: Merged, ks: seq<Key>, front: seq<Key>, k: Key)
    requires k.term in m && ks == front + [k]
    ensures Restricted(m, ks) == Restricted(m, front)[k.term := Unblanked(m[k.term])]
  {
    assert TermsOf(ks) == TermsOf(front) + {k.term};
  }

  lemma {:induction false} MergeAgain(m: Merged, ks: seq<Key>)
    requires AllNormal(m) && Entries(m, ks)
    ensures MergeRows(Attach(m, ks)) == Restricted(m, ks)
    decreases |ks|
  {
    if ks != [] {
      var front, k := ks[..|ks| - 1], ks[|ks| - 1];
      EntriesStep(m, ks, front, k);
      MergeAgain(m, front);
      UnblankedOrigins(k.term, m[k.term]);
      var last := Expansion(k.term, k.weight, m[k.term].sources, m[k.term].origins);
      MergeOneMore(Attach(m, front), last);
      assert Normal(k.term, m[k.term]);
      assert PayloadOf(last) == Unblanked(m[k.term]);
    }
  }

  lemma MergeOneMore(rows: seq<Expansion>, row: Expansion)
    ensures MergeRows(rows + [row]) == AddRow(MergeRows(rows), row)
  {
    assert (rows + [row])[..|rows|] == rows;
  }

  lemma OrderIsEntries(m: Merged, maxTotal: Option<int>)
    ensures Entries(m, Cap(Order(Keys(m)), maxTotal))
  {
    var o := Order(Keys(m));
    ArrangeMembers(KeyLe, Keys(m));
    ArrangeDistinct(KeyLe, Keys(m));
    DistinctKeysDistinctTerms(m, o);
    EntriesPrefix(m, o, maxTotal);
  }

  lemma EntriesPrefix(m: Merged, o: seq<Key>, maxTotal: Option<int>)
    requires Entries(m, o)
    ensures Entries(m, Cap(o, maxTotal))
  {
    CapMembers(o, maxTotal);
  }

  lemma DistinctKeysDistinctTerms(m: Merged, o: seq<Key>)
    requires Distinct(o) && forall k :: k in o ==> k.term in m && k == KeyIn(m, k.term)
    ensures Entries(m, o)
  {
    forall i, j | 0 <= i < j < |o| ensures o[i].term != o[j].term {
      assert o[i] in o && o[j] in o;
    }
  }

  // ---- capped merging composes

  lemma KeyLeTransitive(a: Key, b: Key, c: Key)
    requires KeyLe(a, b) && KeyLe(b, c)
    ensures KeyLe(a, c)
  {
    if a.weight == b.weight == c.weight { LexTransitive(a.term, b.term, c.term); }
  }

  lemma HeavierFirst(a: Key, b: Key)
    requires a.term == b.term && a.weight >= b.weight
    ensures KeyLe(a, b)
  {
    LexTotal(a.term, b.term);
  }

  /** What a cap drops from a sorted list comes after all it keeps, and then the cap is full. */
  lemma DroppedBehind<T>(le: (T, T) -> bool, o: seq<T>, maxTotal: Option<int>, k: T)
    requires Sorted(le, o) && k in o && k !in Cap(o, maxTotal)
    ensures forall x :: x in Cap(o, maxTotal) ==> le(x, k)
    ensures maxTotal.Some? && |Cap(o, maxTotal)| == if maxTotal.value > 0 then maxTotal.value else 0
  {
    var ks := Cap(o, maxTotal);
    assert forall i | 0 <= i < |ks| :: o[i] == ks[i];
    var j :| 0 <= j < |o| && o[j] == k;
    forall x | x in ks ensures le(x, k) {
      var i :| 0 <= i < |ks| && ks[i] == x;
    }
  }

  /** A key the cap dropped comes after all the keys it kept, and then the cap is full. */
  lemma DroppedIsLast(m: Merged, maxTotal: Option<int>, ks: seq<Key>, k: Key)
    requires ks == Cap(Order(Keys(m)), maxTotal) && k in Keys(m) && k !in ks
    ensures forall x :: x in ks ==> KeyLe(x, k)
    ensures maxTotal.Some? && |ks| == if maxTotal.value > 0 then maxTotal.value else 0
  {
    var o := Order(Keys(m));
    ArrangeMembers(KeyLe, Keys(m));
    KeyLeTotal();
    SortSorted(KeyLe, Listing(Keys(m)));
    DroppedBehind(KeyLe, o, maxTotal, k);
  }

  ghost function KeyIn(m: Merged, t: string): Key
    requires t in m
  {
    Key(m[t].weight, t)
  }

  /** The kept terms, as keys of the full merge. */
  ghost function KeptKeys(full: Merged, ks: seq<Key>): set<Key>
    requires forall k :: k in ks ==> k.term in full
  {
    set k | k in ks :: KeyIn(full, k.term)
  }

  lemma {:induction false} KeptKeysCount(full: Merged, ks: seq<Key>)
    requires forall k :: k in ks ==> k.term in full
    requires forall i, j | 0 <= i < j < |ks| :: ks[i].term != ks[j].term
    ensures |KeptKeys(full, ks)| == |ks|
  {
    if ks != [] {
      KeptKeysCount(full, ks[1..]);
      assert KeptKeys(full, ks) == {KeyIn(full, ks[0].term)} + KeptKeys(full, ks[1..]);
      assert forall k :: k in ks[1..] ==> k.term != ks[0].term;
    }
  }

  lemma StagesAgree(a: Merged, b: Merged, ks: seq<Key>, t: string)
    requires Entries(a, ks) && (t in TermsOf(ks) || t !in a)
    ensures var full, staged := Union(a, b), Union(Restricted(a, ks), b);
            && (t in full <==> t in staged)
            && (t in full ==> KeyIn(full, t) == KeyIn(staged, t))
  {}

  lemma StagesAgreeOn(a: Merged, b: Merged, ks: seq<Key>, t: string)
    requires t in a && t !in TermsOf(ks) && t in b && b[t].weight >= a[t].weight
    ensures var full, staged := Union(a, b), Union(Restricted(a, ks), b);
            t in full && t in staged && KeyIn(full, t) == KeyIn(staged, t)
  {}

  /** Where the staged and the full merge disagree about a key, the cap dropped its term. */
  lemma DisagreementWasDropped(a: Merged, b: Merged, ks: seq<Key>, d: Key)
    requires Entries(a, ks)
    requires var full, staged := Union(a, b), Union(Restricted(a, ks), b);
             (d in Keys(full) && d !in Keys(staged)) || (d in Keys(staged) && d !in Keys(full))
    ensures d.term in a && KeyIn(a, d.term) in Keys(a) && KeyIn(a, d.term) !in ks && KeyLe(KeyIn(a, d.term), d)
  {
    var t := d.term;
    if t in TermsOf(ks) || t !in a { StagesAgree(a, b, ks, t); }
    if t in b && b[t].weight >= a[t].weight { StagesAgreeOn(a, b, ks, t); }
    HeavierFirst(KeyIn(a, t), d);
  }

  /** The key comes after all that a full cap kept. */
  ghost predicate Behind(m: Option<int>, ks: seq<Key>, k: Key) {
    && (forall x :: x in ks ==> KeyLe(x, k))
    && m.Some? && |ks| == if m.value > 0 then m.value else 0
  }

  /** The cap kept these keys of a, and dropped only keys behind them. */
  ghost predicate Cut(a: Merged, m: Option<int>, ks: seq<Key>) {
    Entries(a, ks) && forall k {:trigger Behind(m, ks, k)} :: k in Keys(a) && k !in ks ==> Behind(m, ks, k)
  }

  lemma CapCuts(a: Merged, m: Option<int>)
    ensures Cut(a, m, Cap(Order(Keys(a)), m))
  {
    var ks := Cap(Order(Keys(a)), m);
    OrderIsEntries(a, m);
    forall k {:trigger Behind(m, ks, k)} | k in Keys(a) && k !in ks ensures Behind(m, ks, k) {
      DroppedIsLast(a, m, ks, k);
    }
  }

  /** Every kept key, at its full weight, is still ahead of such a key, and the cap is full. */
  lemma DisagreementIsBehind(a: Merged, b: Merged, m: Option<int>, ks: seq<Key>, d: Key)
    requires Cut(a, m, ks)
    requires var full, staged := Union(a, b), Union(Restricted(a, ks), b);
             (d in Keys(full) && d !in Keys(staged)) || (d in Keys(staged) && d !in Keys(full))
    ensures m.Some? && |ks| == if m.value > 0 then m.value else 0
    ensures forall k :: k in ks ==> k.term in Union(a, b) && KeyLe(KeyIn(Union(a, b), k.term), d)
  {
    DisagreementWasDropped(a, b, ks, d);
    var dropped := KeyIn(a, d.term);
    assert Behind(m, ks, dropped);
    forall k | k in ks ensures k.term in Union(a, b) && KeyLe(KeyIn(Union(a, b), k.term), d) {
      HeavierFirst(KeyIn(Union(a, b), k.term), k);
      KeyLeTransitive(KeyIn(Union(a, b), k.term), k, dropped);
      KeyLeTransitive(KeyIn(Union(a, b), k.term), dropped, d);
    }
  }

  /** The second cap asks for no more than the first one kept. */
  predicate Fits(n: Option<int>, m: Option<int>) {
    m.None? || (n.Some? && (n.value <= 0 || n.value <= m.value))
  }

  lemma SameTopKeys(full: set<Key>, staged: set<Key>, better: set<Key>, n: nat)
    requires better <= full && better <= staged && n <= |better|
    requires forall x, y :: x in better && y in Difference(full, staged) ==> KeyLe(x, y)
    ensures Prefix(Order(staged), n) == Prefix(Order(full), n)
  {
    KeyLeTotal();
    SameTop(KeyLe, full, staged, better, n);
  }

  /** The kept keys, at full weight, are in both merges. */
  lemma KeptInBoth(a: Merged, b: Merged, ks: seq<Key>)
    requires Entries(a, ks)
    ensures forall k :: k in ks ==> k.term in Union(a, b)
    ensures KeptKeys(Union(a, b), ks) <= Keys(Union(a, b))
    ensures KeptKeys(Union(a, b), ks) <= Keys(Union(Restricted(a, ks), b))
  {
    forall k | k in ks
      ensures KeyIn(Union(a, b), k.term) in Keys(Union(a, b))
      ensures KeyIn(Union(a, b), k.term) in Keys(Union(Restricted(a, ks), b))
    {
      assert k.term in TermsOf(ks);
      StagesAgree(a, b, ks, k.term);
    }
  }

  lemma KeptBeatDifference(a: Merged, b: Merged, m: Option<int>, ks: seq<Key>, y: Key)
    requires Cut(a, m, ks)
    requires y in Difference(Keys(Union(a, b)), Keys(Union(Restricted(a, ks), b)))
    ensures m.Some? && |ks| == if m.value > 0 then m.value else 0
    ensures forall k :: k in ks ==> k.term in Union(a, b)
    ensures forall x :: x in KeptKeys(Union(a, b), ks) ==> KeyLe(x, y)
  {
    DisagreementIsBehind(a, b, m, ks, y);
  }

  lemma StagedOrderSame(a: Merged, b: Merged, m: Option<int>, n: Option<int>, ks: seq<Key>)
    requires Fits(n, m) && ks == Cap(Order(Keys(a)), m)
    ensures Cap(Order(Keys(Union(Restricted(a, ks), b))), n) == Cap(Order(Keys(Union(a, b))), n)
  {
    CapCuts(a, m);
    var full, staged := Keys(Union(a, b)), Keys(Union(Restricted(a, ks), b));
    if Difference(full, staged) == {} {
      assert full - staged == {} && staged - full == {};
      assert full == staged;
    } else {
      KeptInBoth(a, b, ks);
      var better := KeptKeys(Union(a, b), ks);
      forall y | y in Difference(full, staged) ensures forall x :: x in better ==> KeyLe(x, y) {
        KeptBeatDifference(a, b, m, ks, y);
      }
      var d :| d in Difference(full, staged);
      KeptBeatDifference(a, b, m, ks, d);
      KeptKeysCount(Union(a, b), ks);
      SameTopKeys(full, staged, better, if n.value > 0 then n.value else 0);
    }
  }

  /** The terms and weights of a result, in order. */
  function Ranked(out: seq<Expansion>): seq<Key> {
    Map((e: Expansion) => Key(e.weight, e.term), out)
  }

  lemma StagedRows(a: seq<Expansion>, b: seq<Expansion>, m: Option<int>)
    ensures MergeRows(MergeSpec(a, m) + b)
         == Union(Restricted(MergeRows(a), Cap(Order(Keys(MergeRows(a))), m)), MergeRows(b))
  {
    MergeNormal(a);
    OrderIsEntries(MergeRows(a), m);
    MergeAgain(MergeRows(a), Cap(Order(Keys(MergeRows(a))), m));
    MergeConcat(MergeSpec(a, m), b);
  }

  lemma RankedSpec(rows: seq<Expansion>, n: Option<int>)
    ensures Ranked(MergeSpec(rows, n)) == Cap(Order(Keys(MergeRows(rows))), n)
  {}

  /** Merging A under cap m, then adding B under a cap n that fits it, ranks the same terms
      at the same weights in the same order as merging A and B at once under n. */
  lemma CappedMergeComposes(a: seq<Expansion>, b: seq<Expansion>, m: Option<int>, n: Option<int>)
    requires Fits(n, m)
    ensures Ranked(MergeSpec(MergeSpec(a, m) + b, n)) == Ranked(MergeSpec(a + b, n))
  {
    StagedRows(a, b, m);
    MergeConcat(a, b);
    StagedOrderSame(MergeRows(a), MergeRows(b), m, n, Cap(Order(Keys(MergeRows(a))), m));
    RankedSpec(a + b, n);
    RankedSpec(MergeSpec(a, m) + b, n);
  }

  // ---- sources and origins

  /** Some row for term t names an origin that is not empty but normalises to nothing. */
  ghost predicate HasBlank(rows: seq<Expansion>, t: string) {
    t != "" && exists row :: row in rows && Normalize(row.term) == t && "" in CleanOrigins(row.origins)
  }

  lemma {:induction false} BlankOrigins(rows: seq<Expansion>, t: string)
    ensures (t in MergeRows(rows) && "" in MergeRows(rows)[t].origins) == HasBlank(rows, t)
    decreases |rows|
  {
    if rows != [] {
      var front, last := rows[..|rows| - 1], rows[|rows| - 1];
      BlankOrigins(front, t);
      assert forall row :: row in rows <==> row in front || row == last;
    }
  }

  /** The output lists exactly the map. */
  ghost predicate Lists(out: seq<Expansion>, m: Merged) {
    forall e: Expansion :: e in out <==> e.term in m && m[e.term] == Payload(e.weight, e.sources, e.origins)
  }

  lemma SpecLists(rows: seq<Expansion>)
    ensures Lists(MergeSpec(rows, None), MergeRows(rows))
  {
    var m, out := MergeRows(rows), MergeSpec(rows, None);
    var ks := Order(Keys(m));
    ArrangeMembers(KeyLe, Keys(m));
    forall e: Expansion | e.term in m && m[e.term] == Payload(e.weight, e.sources, e.origins) ensures e in out {
      assert Key(e.weight, e.term) in ks;
      var i :| 0 <= i < |ks| && ks[i] == Key(e.weight, e.term);
      assert out[i] == e;
    }
    forall e | e in out ensures e.term in m && m[e.term] == Payload(e.weight, e.sources, e.origins) {
      var i :| 0 <= i < |out| && out[i] == e;
      assert ks[i] in Keys(m);
    }
  }

  lemma ListsDetermine(out: seq<Expansion>, m: Merged, n: Merged)
    requires Lists(out, m) && Lists(out, n)
    ensures m == n
  {
    forall t | t in m ensures t in n && n[t] == m[t] {
      assert Expansion(t, m[t].weight, m[t].sources, m[t].origins) in out;
    }
    forall t | t in n ensures t in m {
      assert Expansion(t, n[t].weight, n[t].sources, n[t].origins) in out;
    }
  }

  lemma SpecDetermines(x: seq<Expansion>, y: seq<Expansion>)
    ensures MergeSpec(x, None) == MergeSpec(y, None) <==> MergeRows(x) == MergeRows(y)
  {
    if MergeSpec(x, None) == MergeSpec(y, None) {
      SpecLists(x);
      SpecLists(y);
      ListsDetermine(MergeSpec(x, None), MergeRows(x), MergeRows(y));
    }
  }

  ghost predicate BlankIn(m: Merged, t: string) {
    t in m && "" in m[t].origins
  }

  /** Clearing blank origins before a union shows unless the union brings them back. */
  lemma UnblankedUnion(a: Merged, b: Merged, ks: seq<Key>)
    requires TermsOf(ks) == a.Keys
    ensures Union(Restricted(a, ks), b) == Union(a, b) <==> forall t :: BlankIn(a, t) ==> BlankIn(b, t)
  {
    var full, staged := Union(a, b), Union(Restricted(a, ks), b);
    assert full.Keys == staged.Keys;
    if forall t :: BlankIn(a, t) ==> BlankIn(b, t) {
      forall t | t in full ensures full[t] == staged[t] {
        assert BlankIn(a, t) ==> BlankIn(b, t);
        if t in a && t in b {
          assert a[t].origins - {""} + b[t].origins == a[t].origins + b[t].origins;
        } else if t in a {
          assert a[t].origins - {""} == a[t].origins;
        }
      }
    } else {
      var t :| BlankIn(a, t) && !BlankIn(b, t);
      assert "" in full[t].origins && "" !in staged[t].origins;
    }
  }

  lemma UncappedMapsAgree(a: seq<Expansion>, b: seq<Expansion>)
    ensures MergeRows(MergeSpec(a, None) + b) == MergeRows(a + b)
       <==> forall t :: BlankIn(MergeRows(a), t) ==> BlankIn(MergeRows(b), t)
  {
    var ma := MergeRows(a);
    var ks := Order(Keys(ma));
    assert TermsOf(ks) == ma.Keys by {
      ArrangeMembers(KeyLe, Keys(ma));
      forall t | t in ma ensures t in TermsOf(ks) { assert Key(ma[t].weight, t) in ks; }
    }
    UnblankedUnion(ma, MergeRows(b), ks);
    StagedRows(a, b, None);
    MergeConcat(a, b);
  }

  /** Uncapped, the two stages agree in everything exactly when every blank origin met for
      a term in A is met again for it in B: the second stage drops the ones already there. */
  lemma UncappedMergeComposes(a: seq<Expansion>, b: seq<Expansion>)
    ensures MergeSpec(MergeSpec(a, None) + b, None) == MergeSpec(a + b, None)
       <==> forall t :: HasBlank(a, t) ==> HasBlank(b, t)
  {
    SpecDetermines(MergeSpec(a, None) + b, a + b);
    UncappedMapsAgree(a, b);
    forall t ensures BlankIn(MergeRows(a), t) == HasBlank(a, t) && BlankIn(MergeRows(b), t) == HasBlank(b, t) {
      BlankOrigins(a, t);
      BlankOrigins(b, t);
    }
  }

  /** A row whose one origin is a blank: a second stage loses the origin. */
  lemma BlankOriginIsLost()
    ensures var a := [Expansion("x", 1.0, {}, {" "})];
            MergeSpec(MergeSpec(a, None) + [], None) != MergeSpec(a + [], None)
  {
    var row := Expansion("x", 1.0, {}, {" "});
    var a := [row];
    assert Lower("x") == "x" && Lower(" ") == " ";
    JoinedAreRuns(["x"]);
    assert " " in row.origins && Normalize(" ") == "";
    assert row in a && "" in CleanOrigins(row.origins) && Normalize(row.term) == "x";
    assert HasBlank(a, "x") && !HasBlank([], "x");
    UncappedMergeComposes(a, []);
  }
}
