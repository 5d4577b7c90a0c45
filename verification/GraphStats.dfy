/** faim_native/store/pg/repos/representation_repo.py: the term statistics that
    faim_native/index/wand.py reads, kept up to date document by document. */
module GraphStats {
  import opened Ordering
  import opened InvertedIndex
  import opened Wand

  /** `row.df_map` with one more document for each of these terms. */
  method CountTerms(df: map<string, int>, terms: seq<string>) returns (r: map<string, int>)
    requires Distinct(terms)
    ensures forall t :: Frequency(r, t) == Frequency(df, t) + if t in terms then 1 else 0
  {
    r := df;
    for i := 0 to |terms|
      invariant forall t :: Frequency(r, t) == Frequency(df, t) + if t in terms[..i] then 1 else 0
    {
      TakeMore(terms, i);
      assert terms[i] !in terms[..i];
      r := r[terms[i] := Frequency(r, terms[i]) + 1];
    }
    assert terms[..|terms|] == terms;
  }

  function Frequency(df: map<string, int>, t: string): int {
    if t in df then df[t] else 0
  }

  function RowOf(channels: map<Channel, Stats>, c: Channel): Stats {
    if c in channels then channels[c] else Stats(0, map[])
  }

  /** The documents that have the term in the channel. */
  function DocumentsWith(docs: seq<Representation>, c: Channel, t: string): nat {
    if docs == [] then 0
    else DocumentsWith(docs[..|docs| - 1], c, t) + if docs[|docs| - 1].Has(c, t) then 1 else 0
  }

  /** A channel's row counts these documents exactly. */
  ghost predicate Counts(row: Stats, docs: seq<Representation>, c: Channel) {
    row.docCount == |docs| && forall t :: Frequency(row.df, t) == DocumentsWith(docs, c, t)
  }

  ghost predicate AllCount(channels: map<Channel, Stats>, docs: seq<Representation>) {
    forall c :: Counts(RowOf(channels, c), docs, c)
  }

  lemma CountsOneMore(row: Stats, docs: seq<Representation>, d: Representation, c: Channel, df: map<string, int>)
    requires Counts(row, docs, c)
    requires forall t :: Frequency(df, t) == Frequency(row.df, t) + if t in d.QueryTerms(c) then 1 else 0
    ensures Counts(Stats(row.docCount + 1, df), docs + [d], c)
  {
    assert (docs + [d])[..|docs|] == docs;
  }

  class Statistician {
    var channels: map<Channel, Stats>
    ghost var docs: seq<Representation>

    ghost predicate Valid()
      reads this
    {
      AllCount(channels, docs)
    }

    constructor ()
      ensures Valid() && docs == []
    {
      channels, docs := map[], [];
    }

    /** `_incremental_update_graph_stats` */
    method Add(d: Representation)
      requires Valid()
      modifies this
      ensures Valid() && docs == old(docs) + [d]
    {
      for i := 0 to |CHANNELS|
        invariant docs == old(docs)
        invariant forall c :: Counts(RowOf(channels, c), if Rank(c) < i then docs + [d] else docs, c)
      {
        var c := CHANNELS[i];
        RankOfChannel(i);
        assert forall e :: Rank(e) == i ==> e == c;
        var row := RowOf(channels, c);
        QueryTermsAscend(d, c);
        var df := CountTerms(row.df, d.QueryTerms(c));
        CountsOneMore(row, docs, d, c, df);
        channels := channels[c := Stats(row.docCount + 1, df)];
      }
      docs := docs + [d];
    }

    /** `rebuild_graph_stats` */
    method Rebuild(all: seq<Representation>)
      modifies this
      ensures Valid() && docs == all
    {
      channels, docs := map[], [];
      for i := 0 to |all|
        invariant Valid() && docs == all[..i]
      {
        TakeMore(all, i);
        Add(all[i]);
      }
      assert all[..|all|] == all;
    }
  }

  lemma {:induction false} FewerThanAll(docs: seq<Representation>, c: Channel, t: string)
    ensures DocumentsWith(docs, c, t) <= |docs|
    decreases |docs|
  {
    if docs != [] { FewerThanAll(docs[..|docs| - 1], c, t); }
  }

  lemma TenthOrMore(n: int, df: int)
    requires 0 <= df <= n && n > 0
    ensures 0.1 + (n - df) as real / n as real >= 0.1
  {
    var q := (n - df) as real / n as real;
    assert q * n as real == (n - df) as real;
    SignOfProduct(q, n as real);
  }

  /** With the repository's own statistics a document frequency never exceeds the document
      count, so every idf bound lies in [0.1, 1]. */
  lemma RepositoryIdfInUnitInterval(channels: map<Channel, Stats>, docs: seq<Representation>, round: real -> real,
                                    c: Channel, t: string)
    requires AllCount(channels, docs)
    ensures 0.1 <= Statistics(channels, round).Idf(c, t) <= 1.0
  {
    var s := Statistics(channels, round);
    assert Counts(RowOf(channels, c), docs, c);
    FewerThanAll(docs, c, t);
    assert s.DocFrequency(c, t) == Frequency(RowOf(channels, c).df, t) <= s.DocCount(c);
    TenthOrMore(s.DocCount(c), s.DocFrequency(c, t));
  }
}
