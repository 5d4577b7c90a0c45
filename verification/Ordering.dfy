/** Python's `sorted`, slices and `max`, shared by every component below. */
module Ordering {

  ghost predicate TotalPreorder<T(!new)>(le: (T, T) -> bool) {
    && (forall a, b :: le(a, b) || le(b, a))
    && (forall a, b, c :: le(a, b) && le(b, c) ==> le(a, c))
  }

  ghost predicate TotalOrder<T(!new)>(le: (T, T) -> bool) {
    && TotalPreorder(le)
    && (forall a, b :: le(a, b) && le(b, a) ==> a == b)
  }

  ghost predicate Sorted<T>(le: (T, T) -> bool, s: seq<T>) {
    forall i, j | 0 <= i < j < |s| :: le(s[i], s[j])
  }

  function Insert<T>(le: (T, T) -> bool, x: T, s: seq<T>): seq<T> {
    if s == [] || le(x, s[0]) then [x] + s else [s[0]] + Insert(le, x, s[1..])
  }

  /** `sorted(s)`: stable, because an element is placed before the later ones it ties with. */
  function Sort<T>(le: (T, T) -> bool, s: seq<T>): seq<T> {
    if s == [] then [] else Insert(le, s[0], Sort(le, s[1..]))
  }

  /** `s[:k]`, including Python's reading of a negative k as "all but the last -k". */
  function Prefix<T>(s: seq<T>, k: int): seq<T> {
    if k >= |s| then s else if k >= 0 then s[..k] else if |s| + k > 0 then s[..|s| + k] else []
  }

  lemma TakeMore<T>(s: seq<T>, i: nat)
    requires i < |s|
    ensures s[..i + 1] == s[..i] + [s[i]]
  {}

  lemma {:induction false} InsertPermutes<T>(le: (T, T) -> bool, x: T, s: seq<T>)
    ensures multiset(Insert(le, x, s)) == multiset{x} + multiset(s)
  {
    if s != [] && !le(x, s[0]) {
      InsertPermutes(le, x, s[1..]);
      assert s == [s[0]] + s[1..];
    }
  }

  lemma {:induction false} SortPermutes<T>(le: (T, T) -> bool, s: seq<T>)
    ensures multiset(Sort(le, s)) == multiset(s)
    ensures |Sort(le, s)| == |s|
  {
    if s != [] {
      SortPermutes(le, s[1..]);
      InsertPermutes(le, s[0], Sort(le, s[1..]));
      assert s == [s[0]] + s[1..];
    }
    assert |multiset(Sort(le, s))| == |multiset(s)|;
  }

  lemma {:induction false} InsertSorted<T(!new)>(le: (T, T) -> bool, x: T, s: seq<T>)
    requires TotalPreorder(le) && Sorted(le, s)
    ensures Sorted(le, Insert(le, x, s))
  {
    if s != [] && !le(x, s[0]) {
      InsertSorted(le, x, s[1..]);
      InsertPermutes(le, x, s[1..]);
      var r := Insert(le, x, s[1..]);
      forall y | y in r ensures le(s[0], y) {
        assert y in multiset(r);
        if y != x { assert y in s[1..]; }
      }
    }
  }

  lemma {:induction false} SortSorted<T(!new)>(le: (T, T) -> bool, s: seq<T>)
    requires TotalPreorder(le)
    ensures Sorted(le, Sort(le, s))
  {
    if s != [] {
      SortSorted(le, s[1..]);
      InsertSorted(le, s[0], Sort(le, s[1..]));
    }
  }

  lemma MultisetTail<T>(s: seq<T>)
    requires s != []
    ensures multiset(s[1..]) == multiset(s) - multiset{s[0]}
  {
    assert s == [s[0]] + s[1..];
  }

  lemma SameFirst<T(!new)>(le: (T, T) -> bool, a: seq<T>, b: seq<T>)
    requires TotalOrder(le) && Sorted(le, a) && Sorted(le, b) && a != [] && b != []
    requires multiset(a) == multiset(b)
    ensures a[0] == b[0]
  {
    assert a[0] in a && b[0] in b;
    SameMembers(a, b);
    var i :| 0 <= i < |b| && b[i] == a[0];
    var j :| 0 <= j < |a| && a[j] == b[0];
    assert i == 0 || le(b[0], b[i]);
    assert j == 0 || le(a[0], a[j]);
  }

  /** Two sorted arrangements of the same elements are the same list. */
  lemma {:induction false} SortedUnique<T(!new)>(le: (T, T) -> bool, a: seq<T>, b: seq<T>)
    requires TotalOrder(le) && Sorted(le, a) && Sorted(le, b)
    requires multiset(a) == multiset(b)
    ensures a == b
  {
    SameLength(a, b);
    if a != [] {
      SameFirst(le, a, b);
      MultisetTail(a);
      MultisetTail(b);
      SortedUnique(le, a[1..], b[1..]);
      assert a == [a[0]] + a[1..] && b == [b[0]] + b[1..];
    }
  }

  /** Sorting forgets the order of its input. */
  lemma SortCanonical<T(!new)>(le: (T, T) -> bool, a: seq<T>, b: seq<T>)
    requires TotalOrder(le) && multiset(a) == multiset(b)
    ensures Sort(le, a) == Sort(le, b)
  {
    SortPermutes(le, a);
    SortPermutes(le, b);
    SortSorted(le, a);
    SortSorted(le, b);
    SortedUnique(le, Sort(le, a), Sort(le, b));
  }

  /** Any sorted arrangement of a list is its sort. */
  lemma SortIs<T(!new)>(le: (T, T) -> bool, s: seq<T>, r: seq<T>)
    requires TotalOrder(le) && Sorted(le, r) && multiset(r) == multiset(s)
    ensures Sort(le, s) == r
  {
    SortPermutes(le, s);
    SortSorted(le, s);
    SortedUnique(le, Sort(le, s), r);
  }

  /** A stable sort leaves a sorted list alone. */
  lemma {:induction false} SortOfSorted<T>(le: (T, T) -> bool, s: seq<T>)
    requires Sorted(le, s)
    ensures Sort(le, s) == s
  {
    if s != [] {
      SortOfSorted(le, s[1..]);
      assert s == [s[0]] + s[1..];
    }
  }

  ghost predicate AllBefore<T>(le: (T, T) -> bool, lo: seq<T>, hi: seq<T>) {
    forall x, y :: x in lo && y in hi ==> le(x, y)
  }

  lemma ConcatSorted<T(!new)>(le: (T, T) -> bool, lo: seq<T>, hi: seq<T>)
    requires Sorted(le, lo) && Sorted(le, hi) && AllBefore(le, lo, hi)
    ensures Sorted(le, lo + hi)
  {
    forall i, j | 0 <= i < j < |lo + hi| ensures le((lo + hi)[i], (lo + hi)[j]) {
      if i < |lo| && j >= |lo| {
        assert lo[i] in lo && hi[j - |lo|] in hi;
      }
    }
  }

  lemma AllBeforePermuted<T(!new)>(le: (T, T) -> bool, lo: seq<T>, hi: seq<T>, lo': seq<T>, hi': seq<T>)
    requires AllBefore(le, lo, hi)
    requires multiset(lo') == multiset(lo) && multiset(hi') == multiset(hi)
    ensures AllBefore(le, lo', hi')
  {
    forall x, y | x in lo' && y in hi' ensures le(x, y) {
      assert x in multiset(lo') && y in multiset(hi');
    }
  }

  /** When everything in `lo` may precede everything in `hi`, the sorted whole is
      `lo` sorted followed by `hi` sorted. */
  lemma SortSplit<T(!new)>(le: (T, T) -> bool, all: seq<T>, lo: seq<T>, hi: seq<T>)
    requires TotalOrder(le) && AllBefore(le, lo, hi)
    requires multiset(all) == multiset(lo) + multiset(hi)
    ensures Sort(le, all) == Sort(le, lo) + Sort(le, hi)
    ensures |Sort(le, lo)| == |lo|
  {
    var l, h := Sort(le, lo), Sort(le, hi);
    SortPermutes(le, lo);
    SortPermutes(le, hi);
    SortSorted(le, lo);
    SortSorted(le, hi);
    AllBeforePermuted(le, lo, hi, l, h);
    ConcatSorted(le, l, h);
    SortIs(le, all, l + h);
  }

  /** Elements behind the first n of a sorted list leave those first n in place. */
  lemma SortBehind<T(!new)>(le: (T, T) -> bool, all: seq<T>, l: seq<T>, n: nat, behind: seq<T>)
    requires TotalOrder(le) && Sorted(le, l) && n <= |l|
    requires multiset(all) == multiset(l) + multiset(behind)
    requires AllBefore(le, l[..n], l[n..] + behind)
    ensures Prefix(Sort(le, all), n) == l[..n]
  {
    var lo, hi := l[..n], l[n..] + behind;
    assert l == lo + l[n..];
    SortSplit(le, all, lo, hi);
    SortIs(le, lo, lo);
  }

  function Map<T, U>(f: T -> U, s: seq<T>): (r: seq<U>)
    ensures |r| == |s|
    ensures forall i | 0 <= i < |s| :: r[i] == f(s[i])
  {
    seq(|s|, i requires 0 <= i < |s| => f(s[i]))
  }

  lemma MapConcat<T, U>(f: T -> U, a: seq<T>, b: seq<T>)
    ensures Map(f, a + b) == Map(f, a) + Map(f, b)
  {}

  lemma MapHead<T, U>(f: T -> U, s: seq<T>)
    requires s != []
    ensures multiset(Map(f, s)) == multiset{f(s[0])} + multiset(Map(f, s[1..]))
  {
    assert Map(f, s) == [f(s[0])] + Map(f, s[1..]);
    MultisetCons(f(s[0]), Map(f, s[1..]));
  }

  lemma MapRemoves<T, U>(f: T -> U, s: seq<T>, i: nat)
    requires i < |s|
    ensures multiset(Map(f, s)) == multiset{f(s[i])} + multiset(Map(f, s[..i] + s[i + 1..]))
  {
    var lo, rest := s[..i], s[i..];
    assert s == lo + rest && rest[1..] == s[i + 1..];
    MapConcat(f, lo, rest);
    MapHead(f, rest);
    MapConcat(f, lo, rest[1..]);
  }

  /** A map of a permutation is a permutation of the map. */
  lemma {:induction false} MapPermutes<T, U>(f: T -> U, a: seq<T>, b: seq<T>)
    requires multiset(a) == multiset(b)
    ensures multiset(Map(f, a)) == multiset(Map(f, b))
  {
    SameLength(a, b);
    if a == [] {
      assert Map(f, a) == Map(f, b);
    } else {
      assert a[0] in a;
      SameMembers(a, b);
      var i :| 0 <= i < |b| && b[i] == a[0];
      RemovePermutes(a, b, i);
      MapPermutes(f, a[1..], b[..i] + b[i + 1..]);
      MapRemoves(f, b, i);
      MapHead(f, a);
    }
  }

  lemma SameLength<T>(a: seq<T>, b: seq<T>)
    requires multiset(a) == multiset(b)
    ensures |a| == |b|
  {
    assert |a| == |multiset(a)| == |multiset(b)| == |b|;
  }

  lemma RemovePermutes<T>(a: seq<T>, b: seq<T>, i: nat)
    requires |a| > 0 && i < |b| && b[i] == a[0] && multiset(a) == multiset(b)
    ensures multiset(a[1..]) == multiset(b[..i] + b[i + 1..])
  {
    assert a == [a[0]] + a[1..];
    assert b == b[..i] + ([b[i]] + b[i + 1..]);
    calc {
      multiset(a[1..]);
      multiset(a) - multiset{a[0]};
      multiset(b[..i]) + multiset(b[i + 1..]);
      multiset(b[..i] + b[i + 1..]);
    }
  }

  /** The list comprehension `[x for x in s if keep(x)]`. */
  function Filter<T(!new)>(keep: T -> bool, s: seq<T>): (r: seq<T>)
    ensures |r| <= |s|
    ensures forall x :: x in r <==> x in s && keep(x)
  {
    if s == [] then [] else (if keep(s[0]) then [s[0]] else []) + Filter(keep, s[1..])
  }

  lemma {:induction false} FilterShrinks<T(!new)>(keep: T -> bool, s: seq<T>, x: T)
    requires x in s && !keep(x)
    ensures |Filter(keep, s)| < |s|
  {
    if s[0] != x { FilterShrinks(keep, s[1..], x); }
  }

  lemma MultisetCons<T>(x: T, s: seq<T>)
    ensures multiset([x] + s) == multiset{x} + multiset(s)
  {}

  lemma MultisetHead<T>(s: seq<T>)
    requires s != []
    ensures multiset(s) == multiset{s[0]} + multiset(s[1..])
  {
    assert s == [s[0]] + s[1..];
  }

  lemma FilterKeeps<T(!new)>(keep: T -> bool, s: seq<T>)
    requires s != [] && keep(s[0])
    ensures multiset(Filter(keep, s)) == multiset{s[0]} + multiset(Filter(keep, s[1..]))
  {
    MultisetCons(s[0], Filter(keep, s[1..]));
  }

  lemma FilterDrops<T(!new)>(keep: T -> bool, s: seq<T>)
    requires s != [] && !keep(s[0])
    ensures Filter(keep, s) == Filter(keep, s[1..])
  {
    assert [] + Filter(keep, s[1..]) == Filter(keep, s[1..]);
  }

  lemma {:induction false} FilterSplits<T(!new)>(keep: T -> bool, drop: T -> bool, s: seq<T>)
    requires forall x :: x in s ==> keep(x) != drop(x)
    ensures multiset(s) == multiset(Filter(keep, s)) + multiset(Filter(drop, s))
  {
    if s != [] {
      FilterSplits(keep, drop, s[1..]);
      MultisetHead(s);
      if keep(s[0]) {
        FilterKeeps(keep, s);
        FilterDrops(drop, s);
      } else {
        FilterDrops(keep, s);
        FilterKeeps(drop, s);
      }
    }
  }

  lemma {:induction false} FilterCounts<T(!new)>(keep: T -> bool, s: seq<T>, x: T)
    ensures multiset(Filter(keep, s))[x] == if keep(x) then multiset(s)[x] else 0
  {
    if s != [] {
      FilterCounts(keep, s[1..], x);
      MultisetHead(s);
      if keep(s[0]) { FilterKeeps(keep, s); } else { FilterDrops(keep, s); }
    }
  }

  /** Filtering a permutation permutes what is kept. */
  lemma FilterPermutes<T(!new)>(keep: T -> bool, a: seq<T>, b: seq<T>)
    requires multiset(a) == multiset(b)
    ensures multiset(Filter(keep, a)) == multiset(Filter(keep, b))
  {
    forall x ensures multiset(Filter(keep, a))[x] == multiset(Filter(keep, b))[x] {
      FilterCounts(keep, a, x);
      FilterCounts(keep, b, x);
    }
  }

  lemma {:induction false} FilterSame<T(!new)>(f: T -> bool, g: T -> bool, s: seq<T>)
    requires forall x :: x in s ==> f(x) == g(x)
    ensures Filter(f, s) == Filter(g, s)
  {
    if s != [] {
      assert s[0] in s && forall x :: x in s[1..] ==> x in s;
      FilterSame(f, g, s[1..]);
    }
  }

  lemma {:induction false} FilterAll<T(!new)>(keep: T -> bool, s: seq<T>)
    requires forall x :: x in s ==> keep(x)
    ensures Filter(keep, s) == s
  {
    if s != [] { FilterAll(keep, s[1..]); }
  }

  lemma SameMembers<T>(a: seq<T>, b: seq<T>)
    requires multiset(a) == multiset(b)
    ensures forall x :: x in a <==> x in b
  {
    forall x ensures x in a <==> x in b {
      assert x in a <==> x in multiset(a);
      assert x in b <==> x in multiset(b);
    }
  }

  ghost predicate Carries<T, U>(leT: (T, T) -> bool, leU: (U, U) -> bool, f: T -> U, s: seq<T>) {
    forall x, y :: x in s && y in s && leT(x, y) ==> leU(f(x), f(y))
  }

  /** Sorting by a finer key and then projecting is sorting the projections. */
  lemma SortThroughMap<T(!new), U(!new)>(leT: (T, T) -> bool, leU: (U, U) -> bool, f: T -> U, s: seq<T>)
    requires TotalPreorder(leT) && TotalOrder(leU) && Carries(leT, leU, f, s)
    ensures Map(f, Sort(leT, s)) == Sort(leU, Map(f, s))
  {
    var r := Sort(leT, s);
    SortPermutes(leT, s);
    SortSorted(leT, s);
    SameMembers(r, s);
    forall i, j | 0 <= i < j < |r| ensures leU(Map(f, r)[i], Map(f, r)[j]) {
      assert r[i] in s && r[j] in s;
    }
    MapPermutes(f, r, s);
    SortIs(leU, Map(f, s), Map(f, r));
  }

  ghost predicate Distinct<T>(s: seq<T>) {
    forall i, j | 0 <= i < j < |s| :: s[i] != s[j]
  }

  lemma {:induction false} DistinctCounts<T>(s: seq<T>)
    requires Distinct(s)
    ensures forall x :: multiset(s)[x] <= 1
  {
    if s != [] {
      DistinctCounts(s[1..]);
      assert s == [s[0]] + s[1..];
      assert s[0] !in s[1..];
    }
  }

  lemma RepeatCounts<T>(s: seq<T>, i: nat, j: nat)
    requires i < j < |s| && s[i] == s[j]
    ensures multiset(s)[s[i]] >= 2
  {
    assert s == s[..i] + [s[i]] + s[i + 1..j] + [s[j]] + s[j + 1..];
  }

  lemma DistinctPermuted<T>(s: seq<T>, r: seq<T>)
    requires Distinct(s) && multiset(r) == multiset(s)
    ensures Distinct(r)
  {
    DistinctCounts(s);
    forall i, j | 0 <= i < j < |r| ensures r[i] != r[j] {
      if r[i] == r[j] { RepeatCounts(r, i, j); }
    }
  }

  /** Sorting a list without repeats: the same members, still without repeats. */
  lemma SortDistinct<T(!new)>(le: (T, T) -> bool, s: seq<T>)
    requires Distinct(s) && TotalPreorder(le)
    ensures Distinct(Sort(le, s)) && Sorted(le, Sort(le, s)) && |Sort(le, s)| == |s|
    ensures forall x :: x in Sort(le, s) <==> x in s
  {
    SortPermutes(le, s);
    SortSorted(le, s);
    SameMembers(Sort(le, s), s);
    DistinctPermuted(s, Sort(le, s));
  }

  /** Two lists without repeats and with the same members are permutations. */
  lemma {:induction false} DistinctMembers<T>(a: seq<T>, b: seq<T>)
    requires Distinct(a) && Distinct(b) && forall x :: x in a <==> x in b
    ensures multiset(a) == multiset(b)
  {
    DistinctCounts(a);
    DistinctCounts(b);
    forall x ensures multiset(a)[x] == multiset(b)[x] {
      assert x in a <==> x in multiset(a);
      assert x in b <==> x in multiset(b);
    }
  }
}
