/** Scored results, ordered as the source orders them: best score first, ties by id. */
module Ranking {
  import opened Ordering

  /** A node id, as its place in the order of `str(node_id)`: ids are only compared. */
  type Id = int

  datatype Scored = Scored(id: Id, score: real)

  predicate ScoredLe(a: Scored, b: Scored) {
    a.score > b.score || (a.score == b.score && a.id <= b.id)
  }

  lemma ScoredLeTotal()
    ensures TotalOrder(ScoredLe)
  {}

  lemma {:induction false} PrefixOfSorted<T(!new)>(le: (T, T) -> bool, s: seq<T>, k: nat)
    requires TotalPreorder(le)
    ensures var r := Prefix(Sort(le, s), k);
            && |r| == (if k < |s| then k else |s|)
            && Sorted(le, r)
            && (forall x :: x in r ==> x in s)
            && forall x, y :: x in s && x !in r && y in r ==> le(y, x)
  {
    var all := Sort(le, s);
    SortPermutes(le, s);
    SortSorted(le, s);
    SameMembers(all, s);
    var r := Prefix(all, k);
    assert forall l | 0 <= l < |r| :: all[l] == r[l] && r[l] in r;
    forall x, y | x in s && x !in r && y in r ensures le(y, x) {
      var i :| 0 <= i < |all| && all[i] == x;
      var j :| 0 <= j < |r| && r[j] == y;
      assert j == i || le(all[j], all[i]);
    }
  }

  /** The first k of a ranking: higher scores first, equal scores by smaller id, nothing better
      left behind. */
  lemma TopMeaning(scores: seq<Scored>, k: nat)
    ensures var r := Prefix(Sort(ScoredLe, scores), k);
            && |r| == (if k < |scores| then k else |scores|)
            && (forall i, j | 0 <= i < j < |r| ::
                  r[i].score > r[j].score || (r[i].score == r[j].score && r[i].id <= r[j].id))
            && (forall x :: x in r ==> x in scores)
            && forall x, y :: x in scores && x !in r && y in r ==>
                 y.score > x.score || (y.score == x.score && y.id <= x.id)
  {
    ScoredLeTotal();
    PrefixOfSorted(ScoredLe, scores, k);
    OrderSpelledOut(Prefix(Sort(ScoredLe, scores), k), scores);
  }

  lemma OrderSpelledOut(r: seq<Scored>, scores: seq<Scored>)
    requires Sorted(ScoredLe, r) && forall x, y :: x in scores && x !in r && y in r ==> ScoredLe(y, x)
    ensures forall i, j | 0 <= i < j < |r| ::
              r[i].score > r[j].score || (r[i].score == r[j].score && r[i].id <= r[j].id)
    ensures forall x, y :: x in scores && x !in r && y in r ==>
              y.score > x.score || (y.score == x.score && y.id <= x.id)
  {}

  ghost predicate IdsDistinct(s: seq<Scored>) {
    forall i, j | 0 <= i < j < |s| :: s[i].id != s[j].id
  }

  /** Results with distinct ids keep them distinct, and ties between members are strict. */
  lemma TopDistinct(scores: seq<Scored>, k: nat)
    requires IdsDistinct(scores)
    ensures IdsDistinct(Prefix(Sort(ScoredLe, scores), k))
    ensures forall x, y :: x in scores && y in scores && x.id == y.id ==> x == y
  {
    var all := Sort(ScoredLe, scores);
    SortPermutes(ScoredLe, scores);
    SameMembers(all, scores);
    DistinctPermuted(scores, all);
    forall x, y | x in scores && y in scores && x.id == y.id ensures x == y {
      var m :| 0 <= m < |scores| && scores[m] == x;
      var n :| 0 <= n < |scores| && scores[n] == y;
      assert !(m < n) && !(n < m);
    }
    forall i, j | 0 <= i < j < |all| ensures all[i].id != all[j].id {
      assert all[i] in scores && all[j] in scores && all[i] != all[j];
    }
  }

  /** A cut that is not filled holds everything. */
  lemma TopIsAll(scores: seq<Scored>, k: nat)
    requires |Prefix(Sort(ScoredLe, scores), k)| < k
    ensures forall x :: x in scores ==> x in Prefix(Sort(ScoredLe, scores), k)
  {
    SortPermutes(ScoredLe, scores);
    SameMembers(Sort(ScoredLe, scores), scores);
  }
}
