/** Real vectors as faim_native/index/deterministic_ann.py computes with them. `math.sqrt`
    is a parameter of which only the defining law is used; floats are reals. */
module Vectors {

  type Vec = seq<real>

  const NORM_FLOOR := 0.000000000001

  ghost predicate SqrtAt(sqrt: real -> real, x: real) {
    sqrt(x) >= 0.0 && sqrt(x) * sqrt(x) == x
  }

  ghost predicate IsSqrt(sqrt: real -> real) {
    forall x {:trigger SqrtAt(sqrt, x)} :: x >= 0.0 ==> SqrtAt(sqrt, x)
  }

  /** The sum of products over `zip(a, b, strict=False)`: it stops at the shorter vector. */
  function Dot(a: Vec, b: Vec): real {
    if a == [] || b == [] then 0.0 else a[0] * b[0] + Dot(a[1..], b[1..])
  }

  function SquaredDistance(a: Vec, b: Vec): real {
    if a == [] || b == [] then 0.0
    else (a[0] - b[0]) * (a[0] - b[0]) + SquaredDistance(a[1..], b[1..])
  }

  function Euclidean(sqrt: real -> real, a: Vec, b: Vec): real {
    sqrt(SquaredDistance(a, b))
  }

  function Cosine(sqrt: real -> real, a: Vec, b: Vec): real {
    var na, nb := sqrt(Dot(a, a)), sqrt(Dot(b, b));
    if na <= NORM_FLOOR || nb <= NORM_FLOOR then 0.0 else Dot(a, b) / (na * nb)
  }

  function Divide(v: Vec, n: real): (r: Vec)
    requires n > 0.0
    ensures |r| == |v|
  {
    if v == [] then [] else [v[0] / n] + Divide(v[1..], n)
  }

  function Zeros(n: nat): (r: Vec)
    ensures |r| == n
  {
    if n == 0 then [] else [0.0] + Zeros(n - 1)
  }

  function Normalize(sqrt: real -> real, v: Vec): (r: Vec)
    ensures |r| == |v|
  {
    var n := sqrt(Dot(v, v));
    if n <= NORM_FLOOR then Zeros(|v|) else Divide(v, n)
  }

  function Clamp(s: real): real {
    if s > 1.0 then 1.0 else if s < -1.0 then -1.0 else s
  }

  /** The distance a candidate is ranked by. */
  function SimilarityToDistance(sqrt: real -> real, s: real): real {
    var x := 2.0 * (1.0 - Clamp(s));
    sqrt(if x > 0.0 then x else 0.0)
  }

  function DistanceToSimilarity(d: real): real {
    1.0 - d * d / 2.0
  }

  // ---- square roots and squares

  lemma ProductPositive(x: real, y: real)
    requires x > 0.0 && y > 0.0
    ensures x * y > 0.0
  {}

  lemma SquareStrict(x: real, y: real)
    requires 0.0 <= x < y
    ensures x * x < y * y
  {
    assert y * y - x * x == (y - x) * (y - x) + 2.0 * (x * (y - x));
    ProductPositive(y - x, y - x);
    assert x * (y - x) >= 0.0;
  }

  lemma SquareMonotone(x: real, y: real)
    requires y >= 0.0 && x * x <= y * y
    ensures x <= y
  {
    if y < x { SquareStrict(y, x); }
  }

  lemma SquareSum(p: real, q: real)
    ensures (p + q) * (p + q) == p * p + q * q + 2.0 * (p * q)
  {}

  lemma SquareProduct(p: real, q: real)
    ensures (p * q) * (p * q) == (p * p) * (q * q)
  {
    assert (p * q) * (p * q) == p * (q * (p * q)) == p * (p * (q * q));
  }

  lemma SquareNonNegative(x: real)
    ensures x * x >= 0.0
  {}

  // ---- inner products

  lemma {:induction false} DotNonNegative(v: Vec)
    ensures Dot(v, v) >= 0.0
  {
    if v != [] {
      DotNonNegative(v[1..]);
      SquareNonNegative(v[0]);
    }
  }

  lemma {:induction false} DotZeros(n: nat, v: Vec)
    ensures Dot(Zeros(n), v) == 0.0
  {
    if n > 0 && v != [] {
      assert Zeros(n)[1..] == Zeros(n - 1);
      DotZeros(n - 1, v[1..]);
    }
  }

  lemma {:induction false} DotSymmetric(a: Vec, b: Vec)
    ensures Dot(a, b) == Dot(b, a)
  {
    if a != [] && b != [] { DotSymmetric(a[1..], b[1..]); }
  }

  lemma DivideSquare(x: real, n: real)
    requires n > 0.0
    ensures ((x / n) * (x / n)) * (n * n) == x * x
  {
    SquareProduct(x / n, n);
  }

  lemma {:induction false} DotDivide(v: Vec, n: real)
    requires n > 0.0
    ensures Dot(Divide(v, n), Divide(v, n)) * (n * n) == Dot(v, v)
  {
    if v != [] {
      DotDivide(v[1..], n);
      var r, y := Divide(v[1..], n), v[0] / n;
      assert Divide(v, n)[1..] == r;
      DivideSquare(v[0], n);
      assert (y * y + Dot(r, r)) * (n * n) == (y * y) * (n * n) + Dot(r, r) * (n * n);
    }
  }

  lemma ProductNonNegative(x: real, y: real)
    requires x >= 0.0 && y >= 0.0
    ensures x * y >= 0.0
  {}

  lemma ArithmeticGeometric(l: real, m: real, t: real)
    requires l >= 0.0 && m >= 0.0 && t * t <= l * m
    ensures 2.0 * t <= l + m
  {
    SquareNonNegative(l - m);
    assert (l - m) * (l - m) == (l + m) * (l + m) - 4.0 * (l * m);
    assert (2.0 * t) * (2.0 * t) == 4.0 * (t * t);
    SquareMonotone(2.0 * t, l + m);
  }

  lemma CrossSquare(x: real, y: real, d: real, a: real, b: real)
    requires d * d <= a * b
    ensures ((x * y) * d) * ((x * y) * d) <= ((x * x) * b) * ((y * y) * a)
  {
    var c := (x * y) * (x * y);
    SquareNonNegative(x * y);
    SquareProduct(x * y, d);
    SquareProduct(x, y);
    assert c * (d * d) <= c * (a * b);
    assert ((x * x) * b) * ((y * y) * a) == ((x * x) * (y * y)) * (a * b);
  }

  lemma CauchySum(u: real, v: real, a: real, b: real, p: real, d: real)
    requires p * p == u * v && d * d <= a * b && 2.0 * (p * d) <= u * b + v * a
    ensures (p + d) * (p + d) <= (u + a) * (v + b)
  {
    SquareSum(p, d);
    assert (u + a) * (v + b) == u * v + u * b + v * a + a * b;
  }

  lemma CrossBound(x: real, y: real, d: real, a: real, b: real)
    requires a >= 0.0 && b >= 0.0 && d * d <= a * b
    ensures 2.0 * ((x * y) * d) <= (x * x) * b + (y * y) * a
  {
    SquareNonNegative(x);
    SquareNonNegative(y);
    ProductNonNegative(x * x, b);
    ProductNonNegative(y * y, a);
    CrossSquare(x, y, d, a, b);
    ArithmeticGeometric((x * x) * b, (y * y) * a, (x * y) * d);
  }

  /** d is at most the geometric mean of x and y. */
  ghost predicate Cross(d: real, x: real, y: real) {
    d * d <= x * y
  }

  /** One step of Cauchy-Schwarz. */
  lemma CauchyStep(x: real, y: real, d: real, a: real, b: real)
    requires a >= 0.0 && b >= 0.0 && Cross(d, a, b)
    ensures Cross(x * y + d, x * x + a, y * y + b)
  {
    CrossBound(x, y, d, a, b);
    SquareProduct(x, y);
    CauchySum(x * x, y * y, a, b, x * y, d);
  }

  lemma {:induction false} CauchySchwarz(a: Vec, b: Vec)
    ensures Cross(Dot(a, b), Dot(a, a), Dot(b, b))
  {
    DotNonNegative(a);
    DotNonNegative(b);
    if a == [] || b == [] {
      assert Dot(a, b) == 0.0;
    } else {
      CauchySchwarz(a[1..], b[1..]);
      DotNonNegative(a[1..]);
      DotNonNegative(b[1..]);
      CauchyStep(a[0], b[0], Dot(a[1..], b[1..]), Dot(a[1..], a[1..]), Dot(b[1..], b[1..]));
    }
  }

  // ---- Euclidean distance

  function Difference(a: Vec, b: Vec): Vec
    requires |a| == |b|
  {
    if a == [] then [] else [a[0] - b[0]] + Difference(a[1..], b[1..])
  }

  lemma {:induction false} SquaredDistanceIsDot(a: Vec, b: Vec)
    requires |a| == |b|
    ensures SquaredDistance(a, b) == Dot(Difference(a, b), Difference(a, b))
    ensures SquaredDistance(a, b) >= 0.0
  {
    DotNonNegative(Difference(a, b));
    if a != [] { SquaredDistanceIsDot(a[1..], b[1..]); }
  }

  lemma {:induction false} SquaredDistanceSymmetric(a: Vec, b: Vec)
    ensures SquaredDistance(a, b) == SquaredDistance(b, a)
  {
    if a != [] && b != [] { SquaredDistanceSymmetric(a[1..], b[1..]); }
  }

  lemma {:induction false} SquaredDistanceExpands(a: Vec, b: Vec)
    requires |a| == |b|
    ensures SquaredDistance(a, b) == Dot(a, a) + Dot(b, b) - 2.0 * Dot(a, b)
  {
    if a != [] { SquaredDistanceExpands(a[1..], b[1..]); }
  }

  lemma {:induction false} SquaredDistanceSplits(a: Vec, b: Vec, c: Vec)
    requires |a| == |b| == |c|
    ensures SquaredDistance(a, c)
         == SquaredDistance(a, b) + SquaredDistance(b, c) + 2.0 * Dot(Difference(a, b), Difference(b, c))
  {
    if a != [] {
      SquaredDistanceSplits(a[1..], b[1..], c[1..]);
      var x, y := a[0] - b[0], b[0] - c[0];
      SquareSum(x, y);
      assert a[0] - c[0] == x + y;
    }
  }

  lemma TriangleOfSquares(p: real, q: real, r: real, sp: real, sq: real, sr: real, d: real)
    requires p >= 0.0 && q >= 0.0 && p * p == sp && q * q == sq && r * r == sr
    requires d * d <= sp * sq && sr == sp + sq + 2.0 * d
    ensures r <= p + q
  {
    SquareProduct(p, q);
    SquareMonotone(d, p * q);
    SquareSum(p, q);
    SquareMonotone(r, p + q);
  }

  /** Squares x, y and z of the sides of a triangle, with the cross term d of the third. */
  ghost predicate Sides(x: real, y: real, z: real, d: real) {
    x >= 0.0 && y >= 0.0 && z >= 0.0 && Cross(d, x, y) && z == x + y + 2.0 * d
  }

  lemma CrossTerm(a: Vec, b: Vec, c: Vec) returns (d: real)
    requires |a| == |b| == |c|
    ensures Sides(SquaredDistance(a, b), SquaredDistance(b, c), SquaredDistance(a, c), d)
  {
    var u, w := Difference(a, b), Difference(b, c);
    d := Dot(u, w);
    SquaredDistanceIsDot(a, b);
    SquaredDistanceIsDot(b, c);
    SquaredDistanceIsDot(a, c);
    SquaredDistanceSplits(a, b, c);
    CauchySchwarz(u, w);
  }

  lemma SqrtTriangle(sqrt: real -> real, x: real, y: real, z: real, d: real)
    requires IsSqrt(sqrt) && Sides(x, y, z, d)
    ensures sqrt(z) <= sqrt(x) + sqrt(y)
  {
    assert SqrtAt(sqrt, x) && SqrtAt(sqrt, y) && SqrtAt(sqrt, z);
    TriangleOfSquares(sqrt(x), sqrt(y), sqrt(z), x, y, z, d);
  }

  lemma TriangleInequality(sqrt: real -> real, a: Vec, b: Vec, c: Vec)
    requires IsSqrt(sqrt) && |a| == |b| == |c|
    ensures Euclidean(sqrt, a, c) <= Euclidean(sqrt, a, b) + Euclidean(sqrt, b, c)
  {
    var d := CrossTerm(a, b, c);
    SqrtTriangle(sqrt, SquaredDistance(a, b), SquaredDistance(b, c), SquaredDistance(a, c), d);
  }

  // ---- normalised vectors

  ghost predicate UnitOrZero(u: Vec) {
    Dot(u, u) == 1.0 || Dot(u, u) == 0.0
  }

  lemma Cancel(x: real, y: real)
    requires y > 0.0 && x * y == y
    ensures x == 1.0
  {
    assert (x - 1.0) * y == 0.0;
  }

  lemma NormalizeIsUnitOrZero(sqrt: real -> real, v: Vec)
    requires IsSqrt(sqrt)
    ensures UnitOrZero(Normalize(sqrt, v))
  {
    var n := sqrt(Dot(v, v));
    DotNonNegative(v);
    if n <= NORM_FLOOR {
      DotZeros(|v|, Zeros(|v|));
    } else {
      DotDivide(v, n);
      assert SqrtAt(sqrt, Dot(v, v));
      assert n * n == Dot(v, v);
      Cancel(Dot(Divide(v, n), Divide(v, n)), n * n);
    }
  }

  lemma SqrtMonotone(sqrt: real -> real, x: real, y: real)
    requires IsSqrt(sqrt) && 0.0 <= x <= y
    ensures 0.0 <= sqrt(x) <= sqrt(y)
  {
    assert SqrtAt(sqrt, x) && SqrtAt(sqrt, y);
    SquareMonotone(sqrt(x), sqrt(y));
  }

  lemma SqrtOfUnit(sqrt: real -> real)
    requires IsSqrt(sqrt)
    ensures sqrt(1.0) == 1.0 && sqrt(0.0) == 0.0
  {
    var r, z := sqrt(1.0), sqrt(0.0);
    assert SqrtAt(sqrt, 1.0) && SqrtAt(sqrt, 0.0);
    SquareMonotone(r, 1.0);
    SquareMonotone(1.0, r);
    SquareMonotone(z, 0.0);
  }

  /** On normalised vectors the cosine is the inner product, zero vectors included,
      and lies in [-1, 1]. */
  lemma CosineOfUnits(sqrt: real -> real, a: Vec, b: Vec)
    requires IsSqrt(sqrt) && UnitOrZero(a) && UnitOrZero(b)
    ensures Cosine(sqrt, a, b) == Dot(a, b)
    ensures -1.0 <= Dot(a, b) <= 1.0
    ensures Dot(a, a) == 0.0 || Dot(b, b) == 0.0 ==> Dot(a, b) == 0.0
  {
    SqrtOfUnit(sqrt);
    CauchySchwarz(a, b);
    var d := Dot(a, b);
    if Dot(a, a) == 0.0 || Dot(b, b) == 0.0 {
      assert d * d <= 0.0;
      SquareMonotone(d, 0.0);
      SquareMonotone(-d, 0.0);
    } else {
      assert d * d <= 1.0;
      SquareMonotone(d, 1.0);
      SquareMonotone(-d, 1.0);
    }
  }

  /** The ranking distance dominates the pruning distance: they agree on unit vectors,
      and a zero vector is ranked at sqrt(2) but lies at distance at most 1. */
  lemma RankDominates(sqrt: real -> real, a: Vec, b: Vec)
    requires IsSqrt(sqrt) && UnitOrZero(a) && UnitOrZero(b) && |a| == |b|
    ensures SimilarityToDistance(sqrt, Cosine(sqrt, a, b)) >= Euclidean(sqrt, a, b)
    ensures Dot(a, a) == Dot(b, b) == 1.0 ==>
              SimilarityToDistance(sqrt, Cosine(sqrt, a, b)) == Euclidean(sqrt, a, b)
  {
    CosineOfUnits(sqrt, a, b);
    SquaredDistanceExpands(a, b);
    SquaredDistanceIsDot(a, b);
    RankOfInner(sqrt, Dot(a, b));
    SqrtMonotone(sqrt, SquaredDistance(a, b), 2.0 - 2.0 * Dot(a, b));
  }

  lemma RankOfInner(sqrt: real -> real, s: real)
    requires -1.0 <= s <= 1.0
    ensures SimilarityToDistance(sqrt, s) == sqrt(2.0 - 2.0 * s)
  {
    assert 2.0 * (1.0 - s) == 2.0 - 2.0 * s;
  }

  /** The score reported for a candidate is its cosine, and a nearer candidate scores higher. */
  lemma RankRoundTrip(sqrt: real -> real, s: real)
    requires IsSqrt(sqrt) && -1.0 <= s <= 1.0
    ensures DistanceToSimilarity(SimilarityToDistance(sqrt, s)) == s
    ensures SimilarityToDistance(sqrt, s) >= 0.0
  {
    assert SqrtAt(sqrt, 2.0 * (1.0 - s));
  }

  lemma RankAntitone(d: real, e: real)
    requires d >= 0.0 && e >= 0.0
    ensures d < e <==> DistanceToSimilarity(d) > DistanceToSimilarity(e)
    ensures d == e <==> DistanceToSimilarity(d) == DistanceToSimilarity(e)
  {
    if d < e { SquareStrict(d, e); }
    if e < d { SquareStrict(e, d); }
  }

  // ---- the formulas by index

  /** a[0]*b[0] + ... + a[n-1]*b[n-1] */
  ghost function Inner(a: Vec, b: Vec, n: nat): real
    requires n <= |a| && n <= |b|
  {
    if n == 0 then 0.0 else Inner(a, b, n - 1) + a[n - 1] * b[n - 1]
  }

  ghost function Length(sqrt: real -> real, a: Vec): real {
    sqrt(Inner(a, a, |a|))
  }

  /** The cosine of two raw vectors; a vector of length at most 1e-12 has none and scores 0. */
  ghost function CosineByIndex(sqrt: real -> real, a: Vec, b: Vec): real
    requires |a| == |b|
  {
    if Length(sqrt, a) <= 0.000000000001 || Length(sqrt, b) <= 0.000000000001 then 0.0
    else Inner(a, b, |a|) / (Length(sqrt, a) * Length(sqrt, b))
  }

  lemma {:induction false} InnerTail(a: Vec, b: Vec, n: nat)
    requires 0 < n <= |a| && n <= |b|
    ensures Inner(a, b, n) == a[0] * b[0] + Inner(a[1..], b[1..], n - 1)
  {
    if n > 1 { InnerTail(a, b, n - 1); }
  }

  lemma {:induction false} DotIsInner(a: Vec, b: Vec)
    requires |a| == |b|
    ensures Dot(a, b) == Inner(a, b, |a|)
  {
    if a != [] {
      DotIsInner(a[1..], b[1..]);
      InnerTail(a, b, |a|);
    }
  }

  lemma {:induction false} DivideAt(v: Vec, n: real, i: nat)
    requires n > 0.0 && i < |v|
    ensures Divide(v, n)[i] * n == v[i]
  {
    if i > 0 { DivideAt(v[1..], n, i - 1); }
  }

  lemma {:induction false} ZerosAt(n: nat, i: nat)
    requires i < n
    ensures Zeros(n)[i] == 0.0
  {
    if i > 0 { ZerosAt(n - 1, i - 1); }
  }

  /** Normalising divides every component by the length, and leaves zeros when there is none. */
  lemma NormalizeByIndex(sqrt: real -> real, v: Vec)
    ensures Length(sqrt, v) > 0.000000000001 ==>
              forall i | 0 <= i < |v| :: Normalize(sqrt, v)[i] * Length(sqrt, v) == v[i]
    ensures Length(sqrt, v) <= 0.000000000001 ==>
              forall i | 0 <= i < |v| :: Normalize(sqrt, v)[i] == 0.0
  {
    DotIsInner(v, v);
    forall i | 0 <= i < |v| && Length(sqrt, v) > 0.000000000001
      ensures Normalize(sqrt, v)[i] * Length(sqrt, v) == v[i]
    {
      DivideAt(v, Length(sqrt, v), i);
    }
    forall i | 0 <= i < |v| && Length(sqrt, v) <= 0.000000000001 ensures Normalize(sqrt, v)[i] == 0.0 {
      ZerosAt(|v|, i);
    }
  }

  ghost predicate Scales(x: real, d: real, y: real) {
    x * d == y
  }

  lemma ScaledProduct(x: real, y: real, m: real, n: real)
    requires m > 0.0 && n > 0.0
    ensures Scales((x / m) * (y / n), m * n, x * y)
  {
    var p, q := x / m, y / n;
    assert p * m == x && q * n == y;
    assert (p * q) * (m * n) == (p * m) * (q * n);
  }

  lemma ScaledSum(x: real, s: real, d: real, y: real, t: real)
    requires Scales(x, d, y) && Scales(s, d, t)
    ensures Scales(x + s, d, y + t)
  {}

  lemma ScaledQuotient(x: real, d: real, y: real)
    requires d > 0.0 && Scales(x, d, y)
    ensures x == y / d
  {}

  lemma {:induction false} DotOfDivided(a: Vec, b: Vec, m: real, n: real)
    requires |a| == |b| && m > 0.0 && n > 0.0
    ensures Scales(Dot(Divide(a, m), Divide(b, n)), m * n, Dot(a, b))
  {
    if a != [] {
      DotOfDivided(a[1..], b[1..], m, n);
      var rest := Dot(Divide(a[1..], m), Divide(b[1..], n));
      ScaledProduct(a[0], b[0], m, n);
      ScaledSum((a[0] / m) * (b[0] / n), rest, m * n, a[0] * b[0], Dot(a[1..], b[1..]));
    }
  }

  lemma DotWithZeros(n: nat, v: Vec)
    ensures Dot(Zeros(n), v) == 0.0 && Dot(v, Zeros(n)) == 0.0
  {
    DotZeros(n, v);
    DotSymmetric(Zeros(n), v);
  }

  /** The cosine of the normalised vectors is the cosine of the raw ones. */
  lemma CosineOfNormalized(sqrt: real -> real, a: Vec, b: Vec)
    requires IsSqrt(sqrt) && |a| == |b|
    ensures Cosine(sqrt, Normalize(sqrt, a), Normalize(sqrt, b)) == CosineByIndex(sqrt, a, b)
  {
    var m, n := Length(sqrt, a), Length(sqrt, b);
    DotIsInner(a, a);
    DotIsInner(b, b);
    DotIsInner(a, b);
    NormalizeIsUnitOrZero(sqrt, a);
    NormalizeIsUnitOrZero(sqrt, b);
    CosineOfUnits(sqrt, Normalize(sqrt, a), Normalize(sqrt, b));
    if m <= NORM_FLOOR {
      DotWithZeros(|a|, Normalize(sqrt, b));
    } else if n <= NORM_FLOOR {
      DotWithZeros(|b|, Normalize(sqrt, a));
    } else {
      DotOfDivided(a, b, m, n);
      ProductPositive(m, n);
      ScaledQuotient(Dot(Divide(a, m), Divide(b, n)), m * n, Dot(a, b));
    }
  }

  /** So it is with a normalised vector that was stored instead of made. */
  lemma CosineOfStored(sqrt: real -> real, a: Vec, u: Vec)
    requires IsSqrt(sqrt) && |a| == |u| && UnitOrZero(u)
    ensures Cosine(sqrt, Normalize(sqrt, a), u) == CosineByIndex(sqrt, a, u)
  {
    CosineOfNormalized(sqrt, a, u);
    SqrtOfUnit(sqrt);
    NormalizeIsUnitOrZero(sqrt, a);
    NormalizeOfUnit(sqrt, u);
    CosineOfUnits(sqrt, Normalize(sqrt, a), u);
    NormalizeIsUnitOrZero(sqrt, u);
    CosineOfUnits(sqrt, Normalize(sqrt, a), Normalize(sqrt, u));
    if Dot(u, u) == 0.0 { DotWithZeros(|u|, Normalize(sqrt, a)); }
  }

  lemma {:induction false} DivideByOne(v: Vec)
    ensures Divide(v, 1.0) == v
  {
    if v != [] { DivideByOne(v[1..]); }
  }

  /** Normalising leaves a vector of length 1 alone. */
  lemma NormalizeOfUnit(sqrt: real -> real, u: Vec)
    requires IsSqrt(sqrt) && UnitOrZero(u)
    ensures Normalize(sqrt, u) == if Dot(u, u) == 1.0 then u else Zeros(|u|)
  {
    SqrtOfUnit(sqrt);
    if Dot(u, u) == 1.0 { DivideByOne(u); }
  }

  /** The distance is the root of the summed squares of the differences. */
  lemma {:induction false} SquaredDistanceByIndex(a: Vec, b: Vec)
    requires |a| == |b|
    ensures |Difference(a, b)| == |a| && forall i | 0 <= i < |a| :: Difference(a, b)[i] == a[i] - b[i]
    ensures SquaredDistance(a, b) == Inner(Difference(a, b), Difference(a, b), |a|)
  {
    if a != [] {
      SquaredDistanceByIndex(a[1..], b[1..]);
      InnerTail(Difference(a, b), Difference(a, b), |a|);
    }
  }

  lemma CosineMeaning(sqrt: real -> real, a: Vec, b: Vec)
    requires |a| == |b|
    ensures Cosine(sqrt, a, b) == CosineByIndex(sqrt, a, b)
  {
    DotIsInner(a, a);
    DotIsInner(b, b);
    DotIsInner(a, b);
  }

  /** Similarities past the ends count as the ends. */
  lemma RankBeyond(sqrt: real -> real, s: real)
    ensures s >= 1.0 ==> SimilarityToDistance(sqrt, s) == sqrt(0.0)
    ensures s <= -1.0 ==> SimilarityToDistance(sqrt, s) == sqrt(4.0)
  {}
}
