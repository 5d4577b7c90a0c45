/** Finite sets put in order, and how a cut of the order depends on the set. */
module Arrangement {
  import opened Ordering

  ghost function Listing<T(!new)>(s: set<T>): (r: seq<T>)
    ensures multiset(r) == multiset(s) && |r| == |s|
    ensures forall x :: x in r <==> x in s
  {
    if s == {} then []
    else
      var x :| x in s;
      assert multiset(s) == multiset{x} + multiset(s - {x});
      [x] + Listing(s - {x})
  }

  lemma ListingDistinct<T(!new)>(s: set<T>)
    ensures Distinct(Listing(s))
  {
    var r := Listing(s);
    forall i, j | 0 <= i < j < |r| ensures r[i] != r[j] {
      if r[i] == r[j] { RepeatCounts(r, i, j); }
    }
  }

  /** The members of a finite set, sorted. */
  ghost function Arrange<T(!new)>(le: (T, T) -> bool, s: set<T>): seq<T> {
    Sort(le, Listing(s))
  }

  lemma ArrangeMembers<T(!new)>(le: (T, T) -> bool, s: set<T>)
    ensures forall x :: x in Arrange(le, s) <==> x in s
    ensures |Arrange(le, s)| == |s| && multiset(Arrange(le, s)) == multiset(s)
  {
    SortPermutes(le, Listing(s));
    SameMembers(Arrange(le, s), Listing(s));
  }

  lemma ArrangeDistinct<T(!new)>(le: (T, T) -> bool, s: set<T>)
    ensures Distinct(Arrange(le, s))
  {
    ListingDistinct(s);
    SortPermutes(le, Listing(s));
    DistinctPermuted(Listing(s), Arrange(le, s));
  }

  lemma ArrangeSorted<T(!new)>(le: (T, T) -> bool, s: set<T>)
    requires TotalPreorder(le)
    ensures Sorted(le, Arrange(le, s)) && Distinct(Arrange(le, s)) && |Arrange(le, s)| == |s|
    ensures forall x :: x in Arrange(le, s) <==> x in s
  {
    ArrangeMembers(le, s);
    ArrangeDistinct(le, s);
    SortSorted(le, Listing(s));
  }

  /** Sorting any list of the set's members without repeats arranges the set. */
  lemma SortIsArrange<T(!new)>(le: (T, T) -> bool, l: seq<T>, s: set<T>)
    requires TotalOrder(le) && Distinct(l) && forall x :: x in l <==> x in s
    ensures Sort(le, l) == Arrange(le, s)
  {
    ListingDistinct(s);
    DistinctMembers(l, Listing(s));
    SortCanonical(le, l, Listing(s));
  }

  // ---- members ranked behind n others do not affect the first n

  ghost function FirstOf<T>(l: seq<T>, n: nat): set<T>
    requires n <= |l|
  {
    set i | 0 <= i < n :: l[i]
  }

  lemma FirstCount<T>(l: seq<T>, n: nat)
    requires n <= |l|
    ensures |FirstOf(l, n)| <= n
  {
    if n > 0 {
      FirstCount(l, n - 1);
      assert FirstOf(l, n) == FirstOf(l, n - 1) + {l[n - 1]};
    }
  }

  lemma SubsetCard<T>(a: set<T>, b: set<T>)
    requires a <= b
    ensures |a| <= |b|
  {
    assert b == a + (b - a);
  }

  /** Some member of a set of n or more sits at place n-1 or later. */
  lemma LateMember<T>(l: seq<T>, better: set<T>, n: nat) returns (j: nat)
    requires 0 < n <= |better| && n <= |l| && forall x :: x in better ==> x in l
    ensures n - 1 <= j < |l| && l[j] in better
  {
    var early := FirstOf(l, n - 1);
    FirstCount(l, n - 1);
    if better <= early { SubsetCard(better, early); }
    var y :| y in better && y !in early;
    j :| 0 <= j < |l| && l[j] == y;
  }

  lemma FirstBeatBehind<T(!new)>(le: (T, T) -> bool, s: set<T>, d: set<T>, better: set<T>, n: nat)
    requires TotalOrder(le) && better <= s && n <= |better| && n <= |Arrange(le, s)|
    requires forall x, y :: x in better && y in d ==> le(x, y)
    ensures AllBefore(le, Arrange(le, s)[..n], Arrange(le, s)[n..] + Listing(d))
  {
    var l := Arrange(le, s);
    ArrangeMembers(le, s);
    SortSorted(le, Listing(s));
    forall x, y | x in l[..n] && y in l[n..] + Listing(d) ensures le(x, y) {
      var i :| 0 <= i < n && l[i] == x;
      if y in l[n..] {
        var j :| n <= j < |l| && l[j] == y;
      } else {
        var j := LateMember(l, better, n);
        assert i == j || le(l[i], l[j]);
      }
    }
  }

  lemma DisjointUnion<T>(s: set<T>, d: set<T>)
    requires s !! d
    ensures multiset(s + d) == multiset(s) + multiset(d)
  {
    forall x ensures multiset(s + d)[x] == multiset(s)[x] + multiset(d)[x] {
      assert x in s + d <==> x in s || x in d;
    }
  }

  lemma ListingSplits<T(!new)>(le: (T, T) -> bool, s: set<T>, d: set<T>)
    requires s !! d
    ensures multiset(Listing(s + d)) == multiset(Arrange(le, s)) + multiset(Listing(d))
  {
    ArrangeMembers(le, s);
    DisjointUnion(s, d);
  }

  lemma TopIgnores<T(!new)>(le: (T, T) -> bool, s: set<T>, d: set<T>, better: set<T>, n: nat)
    requires TotalOrder(le) && s !! d && better <= s && n <= |better|
    requires forall x, y :: x in better && y in d ==> le(x, y)
    ensures Prefix(Arrange(le, s + d), n) == Prefix(Arrange(le, s), n)
  {
    ArrangeMembers(le, s);
    SubsetCard(better, s);
    FirstBeatBehind(le, s, d, better, n);
    ListingSplits(le, s, d);
    SortSorted(le, Listing(s));
    SortBehind(le, Listing(s + d), Arrange(le, s), n, Listing(d));
  }

  ghost function Difference<T>(a: set<T>, b: set<T>): set<T> {
    (a - b) + (b - a)
  }

  /** Two sets that share n members ahead of everything they differ in start the same. */
  lemma SameTop<T(!new)>(le: (T, T) -> bool, a: set<T>, b: set<T>, better: set<T>, n: nat)
    requires TotalOrder(le) && better <= a && better <= b && n <= |better|
    requires forall x, y :: x in better && y in Difference(a, b) ==> le(x, y)
    ensures Prefix(Arrange(le, a), n) == Prefix(Arrange(le, b), n)
  {
    TopIgnores(le, a * b, a - b, better, n);
    TopIgnores(le, a * b, b - a, better, n);
    assert a * b + (a - b) == a && a * b + (b - a) == b;
  }
}
