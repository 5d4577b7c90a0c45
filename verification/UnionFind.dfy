/** faim_native/domain/semantic_memory.py: `_UnionFind`, by path compression and linking
    to the smaller root. Terms are numbered by their place in string order, which is all
    the source uses of them. */
module UnionFind {

  type Term = nat

  type Pair = (Term, Term)

  // ---- connection by a set of pairs

  predicate Linked(pairs: set<Pair>, x: Term, y: Term) {
    (x, y) in pairs || (y, x) in pairs
  }

  ghost predicate Chain(pairs: set<Pair>, s: seq<Term>, x: Term, y: Term) {
    && s != [] && s[0] == x && s[|s| - 1] == y
    && forall i | 0 <= i < |s| - 1 :: Linked(pairs, s[i], s[i + 1])
  }

  ghost predicate Connected(pairs: set<Pair>, x: Term, y: Term) {
    exists s :: Chain(pairs, s, x, y)
  }

  lemma ConnectedReflexive(pairs: set<Pair>, x: Term)
    ensures Connected(pairs, x, x)
  {
    assert Chain(pairs, [x], x, x);
  }

  lemma ConnectedSymmetric(pairs: set<Pair>, x: Term, y: Term)
    requires Connected(pairs, x, y)
    ensures Connected(pairs, y, x)
  {
    var s :| Chain(pairs, s, x, y);
    var t := seq(|s|, i requires 0 <= i < |s| => s[|s| - 1 - i]);
    forall i | 0 <= i < |t| - 1 ensures Linked(pairs, t[i], t[i + 1]) {
      assert Linked(pairs, s[|s| - 2 - i], s[|s| - 2 - i + 1]);
    }
    assert Chain(pairs, t, y, x);
  }

  lemma ConnectedTransitive(pairs: set<Pair>, x: Term, y: Term, z: Term)
    requires Connected(pairs, x, y) && Connected(pairs, y, z)
    ensures Connected(pairs, x, z)
  {
    var s :| Chain(pairs, s, x, y);
    var t :| Chain(pairs, t, y, z);
    var u := s + t[1..];
    forall i | 0 <= i < |u| - 1 ensures Linked(pairs, u[i], u[i + 1]) {
      if i < |s| - 1 {
        assert Linked(pairs, s[i], s[i + 1]);
      } else {
        assert u[i] == t[i - |s| + 1] && u[i + 1] == t[i - |s| + 2];
        assert Linked(pairs, t[i - |s| + 1], t[i - |s| + 1 + 1]);
      }
    }
    assert Chain(pairs, u, x, z);
  }

  lemma ConnectedMonotone(few: set<Pair>, many: set<Pair>, x: Term, y: Term)
    requires few <= many && Connected(few, x, y)
    ensures Connected(many, x, y)
  {
    var s :| Chain(few, s, x, y);
    forall i | 0 <= i < |s| - 1 ensures Linked(many, s[i], s[i + 1]) {
      assert Linked(few, s[i], s[i + 1]);
    }
    assert Chain(many, s, x, y);
  }

  /** x and y are connected once (a, b) is added. */
  ghost predicate Joined(pairs: set<Pair>, a: Term, b: Term, x: Term, y: Term) {
    || Connected(pairs, x, y)
    || (Connected(pairs, x, a) && Connected(pairs, b, y))
    || (Connected(pairs, x, b) && Connected(pairs, a, y))
  }

  lemma {:induction false} ChainJoins(pairs: set<Pair>, a: Term, b: Term, s: seq<Term>, x: Term, y: Term)
    requires Chain(pairs + {(a, b)}, s, x, y)
    ensures Joined(pairs, a, b, x, y)
    decreases |s|
  {
    ConnectedReflexive(pairs, x);
    if |s| > 1 {
      var w := s[|s| - 2];
      var front := s[..|s| - 1];
      assert forall i | 0 <= i < |front| - 1 :: Linked(pairs + {(a, b)}, s[i], s[i + 1]);
      assert Chain(pairs + {(a, b)}, front, x, w);
      ChainJoins(pairs, a, b, front, x, w);
      assert Linked(pairs + {(a, b)}, s[|s| - 2], s[|s| - 2 + 1]);
      StepJoins(pairs, a, b, x, w, y);
    }
  }

  lemma StepJoins(pairs: set<Pair>, a: Term, b: Term, x: Term, w: Term, y: Term)
    requires Joined(pairs, a, b, x, w) && Linked(pairs + {(a, b)}, w, y)
    ensures Joined(pairs, a, b, x, y)
  {
    ConnectedReflexive(pairs, a);
    ConnectedReflexive(pairs, b);
    if Linked(pairs, w, y) {
      assert Chain(pairs, [w, y], w, y);
      if Connected(pairs, x, w) { ConnectedTransitive(pairs, x, w, y); }
      if Connected(pairs, b, w) { ConnectedTransitive(pairs, b, w, y); }
      if Connected(pairs, a, w) { ConnectedTransitive(pairs, a, w, y); }
    }
  }

  lemma JoinedConnects(pairs: set<Pair>, a: Term, b: Term, x: Term, y: Term)
    requires Joined(pairs, a, b, x, y)
    ensures Connected(pairs + {(a, b)}, x, y)
  {
    var more := pairs + {(a, b)};
    assert Chain(more, [a, b], a, b) && Chain(more, [b, a], b, a);
    if Connected(pairs, x, y) {
      ConnectedMonotone(pairs, more, x, y);
    } else if Connected(pairs, x, a) && Connected(pairs, b, y) {
      ConnectedMonotone(pairs, more, x, a);
      ConnectedMonotone(pairs, more, b, y);
      ConnectedTransitive(more, x, a, b);
      ConnectedTransitive(more, x, b, y);
    } else {
      ConnectedMonotone(pairs, more, x, b);
      ConnectedMonotone(pairs, more, a, y);
      ConnectedTransitive(more, x, b, a);
      ConnectedTransitive(more, x, a, y);
    }
  }

  lemma AddPair(pairs: set<Pair>, a: Term, b: Term, x: Term, y: Term)
    ensures Connected(pairs + {(a, b)}, x, y) <==> Joined(pairs, a, b, x, y)
  {
    if Connected(pairs + {(a, b)}, x, y) {
      var s :| Chain(pairs + {(a, b)}, s, x, y);
      ChainJoins(pairs, a, b, s, x, y);
    }
    if Joined(pairs, a, b, x, y) { JoinedConnects(pairs, a, b, x, y); }
  }

  // ---- parent maps

  ghost predicate Rises(parent: map<Term, Term>, x: Term) {
    x in parent && parent[x] in parent && parent[x] <= x
  }

  /** Parents never exceed their children, so chasing them terminates. */
  ghost predicate Forest(parent: map<Term, Term>) {
    forall x {:trigger Rises(parent, x)} :: x in parent ==> Rises(parent, x)
  }

  /** Where chasing parents from x ends. */
  ghost function Root(parent: map<Term, Term>, x: Term): (r: Term)
    requires Forest(parent) && x in parent
    ensures r in parent && parent[r] == r && r <= x
    decreases x
  {
    assert Rises(parent, x);
    if parent[x] == x then x else Root(parent, parent[x])
  }

  /** `root` gives x the root its parent has. */
  ghost predicate Ends(parent: map<Term, Term>, root: map<Term, Term>, x: Term) {
    && Rises(parent, x)
    && x in root && parent[x] in root && root[x] in parent
    && root[x] <= x && parent[root[x]] == root[x]
    && root[parent[x]] == root[x]
    && (parent[x] == x ==> root[x] == x)
  }

  /** `root` names the end of every parent chase, one step at a time. */
  ghost predicate RootMap(parent: map<Term, Term>, root: map<Term, Term>) {
    && parent.Keys == root.Keys
    && forall x {:trigger Ends(parent, root, x)} :: x in parent ==> Ends(parent, root, x)
  }

  lemma {:induction false} RootMapIsRoot(parent: map<Term, Term>, root: map<Term, Term>, x: Term)
    requires RootMap(parent, root) && x in parent
    ensures Forest(parent) && Root(parent, x) == root[x]
    decreases x
  {
    forall y {:trigger Rises(parent, y)} | y in parent ensures Rises(parent, y) {
      assert Ends(parent, root, y);
    }
    assert Ends(parent, root, x);
    if parent[x] != x { RootMapIsRoot(parent, root, parent[x]); }
  }

  /** Pointing a term straight at its root moves no root. */
  lemma CompressKeepsRoots(parent: map<Term, Term>, root: map<Term, Term>, item: Term)
    requires RootMap(parent, root) && item in parent
    ensures item in root && RootMap(parent[item := root[item]], root)
  {
    var after := parent[item := root[item]];
    assert Ends(parent, root, item);
    assert Ends(parent, root, root[item]);
    forall x {:trigger Ends(after, root, x)} | x in after ensures Ends(after, root, x) {
      assert Ends(parent, root, x);
      assert Ends(parent, root, root[x]);
    }
  }

  /** The terms met while chasing parents from x. */
  ghost function Path(parent: map<Term, Term>, root: map<Term, Term>, x: Term): (p: set<Term>)
    requires RootMap(parent, root) && x in parent
    ensures p <= parent.Keys && x in p && forall y :: y in p ==> y <= x
    decreases x
  {
    assert Ends(parent, root, x);
    if parent[x] == x then {x} else {x} + Path(parent, root, parent[x])
  }

  /** Everything on the path points at its root, and nothing else moves. */
  ghost function Compressed(parent: map<Term, Term>, root: map<Term, Term>, x: Term): map<Term, Term>
    requires RootMap(parent, root) && x in parent
  {
    map y | y in parent :: if y in Path(parent, root, x) then root[y] else parent[y]
  }

  ghost function Moved(root: map<Term, Term>, lo: Term, hi: Term): map<Term, Term> {
    map x | x in root :: if root[x] == hi then lo else root[x]
  }

  /** Linking one root below a smaller one moves exactly the larger root's class. */
  lemma LinkMovesRoots(parent: map<Term, Term>, root: map<Term, Term>, lo: Term, hi: Term)
    requires RootMap(parent, root) && lo in parent && hi in parent
    requires parent[lo] == lo && parent[hi] == hi && lo < hi
    ensures RootMap(parent[hi := lo], Moved(root, lo, hi))
  {
    var after, moved := parent[hi := lo], Moved(root, lo, hi);
    assert Ends(parent, root, lo) && Ends(parent, root, hi);
    forall x {:trigger Ends(after, moved, x)} | x in after ensures Ends(after, moved, x) {
      assert Ends(parent, root, x);
    }
  }

  ghost predicate Agrees(root: map<Term, Term>, pairs: set<Pair>, x: Term, y: Term) {
    x in root && y in root && (root[x] == root[y] <==> Connected(pairs, x, y))
  }

  /** Two terms share a root exactly when the pairs connect them. */
  ghost predicate Represents(root: map<Term, Term>, pairs: set<Pair>) {
    && (forall p :: p in pairs ==> p.0 in root && p.1 in root)
    && forall x, y {:trigger Agrees(root, pairs, x, y)} :: x in root && y in root ==> Agrees(root, pairs, x, y)
  }

  /** The root of a term is the smallest term it is connected to. */
  lemma RootIsLeast(parent: map<Term, Term>, root: map<Term, Term>, pairs: set<Pair>, x: Term)
    requires RootMap(parent, root) && Represents(root, pairs) && x in parent
    ensures Forest(parent) && Connected(pairs, x, Root(parent, x))
    ensures forall y :: y in parent && Connected(pairs, x, y) ==> Root(parent, x) <= y
  {
    RootMapIsRoot(parent, root, x);
    assert Ends(parent, root, x);
    assert Ends(parent, root, root[x]);
    assert Agrees(root, pairs, x, root[x]);
    forall y | y in parent && Connected(pairs, x, y) ensures root[x] <= y {
      assert Agrees(root, pairs, x, y);
      assert Ends(parent, root, y);
    }
  }

  /** Roots depend on the set of pairs alone: not on the order in which they were united,
      nor on which finds compressed which paths. */
  lemma RootsIgnoreOrder(p: map<Term, Term>, rp: map<Term, Term>, q: map<Term, Term>, rq: map<Term, Term>,
                         pairs: set<Pair>, x: Term)
    requires RootMap(p, rp) && Represents(rp, pairs) && RootMap(q, rq) && Represents(rq, pairs)
    requires p.Keys == q.Keys && x in p
    ensures Forest(p) && Forest(q) && Root(p, x) == Root(q, x)
  {
    RootIsLeast(p, rp, pairs, x);
    RootIsLeast(q, rq, pairs, x);
  }

  lemma LinkRepresents(root: map<Term, Term>, pairs: set<Pair>, a: Term, b: Term, lo: Term, hi: Term)
    requires Represents(root, pairs) && a in root && b in root
    requires {lo, hi} == {root[a], root[b]}
    ensures Represents(Moved(root, lo, hi), pairs + {(a, b)})
  {
    var moved, more := Moved(root, lo, hi), pairs + {(a, b)};
    forall x, y {:trigger Agrees(moved, more, x, y)} | x in moved && y in moved ensures Agrees(moved, more, x, y) {
      assert Agrees(root, pairs, x, y);
      assert Agrees(root, pairs, x, a) && Agrees(root, pairs, b, y);
      assert Agrees(root, pairs, x, b) && Agrees(root, pairs, a, y);
      AddPair(pairs, a, b, x, y);
    }
  }

  lemma MovedNowhere(root: map<Term, Term>, r: Term)
    ensures Moved(root, r, r) == root
  {}

  /** What linking the two roots, or finding them equal, leaves behind. */
  lemma UnionRepresents(parent: map<Term, Term>, root: map<Term, Term>, pairs: set<Pair>, a: Term, b: Term)
    requires RootMap(parent, root) && Represents(root, pairs) && a in parent && b in parent
    ensures var lo, hi := Min(root[a], root[b]), Max(root[a], root[b]);
            && lo in parent && hi in parent
            && RootMap(if lo == hi then parent else parent[hi := lo], Moved(root, lo, hi))
            && Represents(Moved(root, lo, hi), pairs + {(a, b)})
  {
    var lo, hi := Min(root[a], root[b]), Max(root[a], root[b]);
    assert Ends(parent, root, a) && Ends(parent, root, b);
    LinkRepresents(root, pairs, a, b, lo, hi);
    if lo == hi { MovedNowhere(root, lo); } else { LinkMovesRoots(parent, root, lo, hi); }
  }

  function Min(x: Term, y: Term): Term { if x < y then x else y }

  function Max(x: Term, y: Term): Term { if x < y then y else x }

  lemma NoPairsConnectNothing(s: seq<Term>, x: Term, y: Term)
    requires Chain({}, s, x, y)
    ensures x == y
  {
    assert |s| > 1 ==> Linked({}, s[0], s[0 + 1]);
  }

  lemma SingletonsRepresent(root: map<Term, Term>)
    requires forall x :: x in root ==> root[x] == x
    ensures RootMap(root, root) && Represents(root, {})
  {
    forall x, y {:trigger Agrees(root, {}, x, y)} | x in root && y in root ensures Agrees(root, {}, x, y) {
      ConnectedReflexive({}, x);
      if Connected({}, x, y) {
        var s :| Chain({}, s, x, y);
        NoPairsConnectNothing(s, x, y);
      }
    }
  }

  ghost function Terms(items: seq<Term>): set<Term> {
    set x | x in items
  }

  class UnionFind {
    var parent: map<Term, Term>
    /** The root of every term, and the pairs united so far. */
    ghost var root: map<Term, Term>
    ghost var pairs: set<Pair>

    ghost predicate Valid()
      reads this
    {
      RootMap(parent, root) && Represents(root, pairs)
    }

    constructor (items: seq<Term>)
      ensures Valid() && pairs == {} && parent.Keys == Terms(items)
    {
      parent := map x | x in items :: x;
      root := map x | x in items :: x;
      pairs := {};
      new;
      SingletonsRepresent(root);
    }

    /** Returns the root and points every term on the path at it; no root changes. */
    method Find(item: Term) returns (top: Term)
      requires RootMap(parent, root) && item in parent
      modifies this`parent
      ensures RootMap(parent, root)
      ensures top == root[item] && top in parent && parent[top] == top
      ensures RootMap(old(parent), root) && parent == Compressed(old(parent), root, item)
      decreases item
    {
      assert Ends(parent, root, item);
      var up := parent[item];
      if up != item {
        var found := Find(up);
        CompressKeepsRoots(parent, root, item);
        parent := parent[item := found];
      }
      top := parent[item];
      assert Ends(parent, root, item);
    }

    method Union(left: Term, right: Term)
      requires Valid() && left in parent && right in parent
      modifies this
      ensures Valid() && parent.Keys == old(parent.Keys)
      ensures pairs == old(pairs) + {(left, right)}
    {
      var rootLeft := Find(left);
      var rootRight := Find(right);
      UnionRepresents(parent, root, pairs, left, right);
      if rootLeft != rootRight {
        if rootLeft < rootRight {
          parent := parent[rootRight := rootLeft];
        } else {
          parent := parent[rootLeft := rootRight];
        }
      }
      root := Moved(root, Min(rootLeft, rootRight), Max(rootLeft, rootRight));
      pairs := pairs + {(left, right)};
    }
  }
}
