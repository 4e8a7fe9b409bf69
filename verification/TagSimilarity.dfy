/**
 Cosine similarity of sparse cluster-tag vectors: `ClusterTags::cosine_similarity`.

 Sums run over the union of the two key sets, in whatever order the hash set yields it.  Floating
 point is idealised: products and sums are exact, and `sqrt` is any function that returns exact
 non-negative roots.
 */
module TagSimilarity {
  import opened Machine
  import opened Arithmetic

  type Tags = map<U64, U32>

  function Weight(t: Tags, c: U64): U32 {
    if c in t then t[c] else 0
  }

  function Term(a: Tags, b: Tags, c: U64): nat {
    Weight(a, c) * Weight(b, c)
  }

  /** The inner product over `s`, defined without committing to an order. */
  ghost function Dot(a: Tags, b: Tags, s: set<U64>): nat {
    if s == {} then 0
    else
      var x :| x in s;
      Term(a, b, x) + Dot(a, b, s - {x})
  }

  /** Any member may be split off first: the sum does not depend on the iteration order. */
  lemma {:induction false} DotPick(a: Tags, b: Tags, s: set<U64>, x: U64)
    requires x in s
    ensures Dot(a, b, s) == Term(a, b, x) + Dot(a, b, s - {x})
    decreases s
  {
    var y :| y in s && Dot(a, b, s) == Term(a, b, y) + Dot(a, b, s - {y});
    if x != y {
      DotPick(a, b, s - {y}, x);
      DotPick(a, b, s - {x}, y);
      assert s - {x} - {y} == s - {y} - {x};
    }
  }

  lemma {:induction false} DotSymmetric(a: Tags, b: Tags, s: set<U64>)
    ensures Dot(a, b, s) == Dot(b, a, s)
    decreases s
  {
    if s != {} {
      var x :| x in s;
      DotPick(a, b, s, x);
      DotPick(b, a, s, x);
      DotSymmetric(a, b, s - {x});
    }
  }

  // ----- Cauchy-Schwarz, with its equality case -----

  /** Every 2x2 minor over `s` vanishes: the two vectors are proportional there. */
  ghost predicate Parallel(a: Tags, b: Tags, s: set<U64>) {
    forall x, y :: x in s && y in s ==> Weight(a, x) * Weight(b, y) == Weight(a, y) * Weight(b, x)
  }

  lemma SquareOrder(u: nat, v: nat)
    ensures u > v ==> u * u > v * v
  {
    if u > v {
      MulLe(v + 1, u, u);
      MulLe(v + 1, u, v);
    }
  }

  lemma TwiceBelowSum(x: nat, y: nat, z: nat)
    requires z * z <= x * y
    ensures 2 * z <= x + y
  {
    var t := x - y;
    assert t * t >= 0;
    assert (x + y) * (x + y) == 4 * (x * y) + t * t;
    assert (2 * z) * (2 * z) == 4 * (z * z);
    SquareOrder(2 * z, x + y);
  }

  lemma SquaredProducts(d: nat, m: nat, n: nat, p: nat, q: nat)
    requires d * d <= m * n
    ensures (d * p * q) * (d * p * q) <= (m * (q * q)) * (n * (p * p))
  {
    var pp, qq := p * p, q * q;
    Regroup(m, qq, n, pp);
    Regroup(d * p, q, d * p, q);
    Regroup(d, p, d, p);
    Associate(d * d, pp, qq);
    assert pp * qq == qq * pp;
    MulLe(d * d, m * n, pp * qq);
  }

  lemma Regroup(w: nat, x: nat, y: nat, z: nat)
    ensures (w * x) * (y * z) == (w * y) * (x * z)
  {
    Associate(w, x, y * z);
    Swap(x, y, z);
    Associate(w, y, x * z);
  }

  lemma Associate(x: nat, y: nat, z: nat)
    ensures (x * y) * z == x * (y * z)
  {
  }

  lemma Swap(x: nat, y: nat, z: nat)
    ensures x * (y * z) == y * (x * z)
  {
  }

  /** The cross term of one more coordinate. */
  lemma CrossTerm(d: nat, m: nat, n: nat, p: nat, q: nat)
    requires d * d <= m * n
    ensures 2 * (d * p * q) <= m * (q * q) + n * (p * p)
  {
    SquaredProducts(d, m, n, p, q);
    TwiceBelowSum(m * (q * q), n * (p * p), d * p * q);
  }

  /** Lagrange's identity for one more coordinate. */
  lemma Expand(d: nat, m: nat, n: nat, p: nat, q: nat)
    ensures (m + p * p) * (n + q * q) - (d + p * q) * (d + p * q)
            == (m * n - d * d) + (m * (q * q) + n * (p * p) - 2 * (d * p * q))
  {
    assert (p * p) * (q * q) == (p * q) * (p * q);
    assert (m + p * p) * (n + q * q) == m * n + m * (q * q) + n * (p * p) + (p * p) * (q * q);
    assert (d + p * q) * (d + p * q) == d * d + 2 * (d * p * q) + (p * q) * (p * q);
  }

  lemma {:induction false} CauchySchwarz(a: Tags, b: Tags, s: set<U64>)
    ensures Dot(a, b, s) * Dot(a, b, s) <= Dot(a, a, s) * Dot(b, b, s)
    decreases s
  {
    if s != {} {
      var x :| x in s;
      var r := s - {x};
      CauchySchwarz(a, b, r);
      DotPick(a, b, s, x);
      DotPick(a, a, s, x);
      DotPick(b, b, s, x);
      CrossTerm(Dot(a, b, r), Dot(a, a, r), Dot(b, b, r), Weight(a, x), Weight(b, x));
      Expand(Dot(a, b, r), Dot(a, a, r), Dot(b, b, r), Weight(a, x), Weight(b, x));
    }
  }

  /** Against a parallel vector, the sums of one are multiples of the sums of the other. */
  lemma {:induction false} ParallelSums(a: Tags, b: Tags, s: set<U64>, p: nat, q: nat)
    requires forall x :: x in s ==> Weight(a, x) * q == p * Weight(b, x)
    ensures Dot(a, a, s) * q == p * Dot(a, b, s)
    ensures Dot(a, b, s) * q == p * Dot(b, b, s)
    decreases s
  {
    if s != {} {
      var x :| x in s;
      var r := s - {x};
      ParallelSums(a, b, r, p, q);
      DotPick(a, a, s, x);
      DotPick(a, b, s, x);
      DotPick(b, b, s, x);
      MinorStep(Weight(a, x), Weight(a, x), Weight(b, x), Dot(a, a, r), Dot(a, b, r), p, q);
      MinorStep(Weight(b, x), Weight(a, x), Weight(b, x), Dot(a, b, r), Dot(b, b, r), p, q);
    }
  }

  lemma MinorStep(k: nat, u: nat, v: nat, m: nat, n: nat, p: nat, q: nat)
    requires u * q == p * v && m * q == p * n
    ensures (k * u + m) * q == p * (k * v + n)
    ensures (u * k + m) * q == p * (v * k + n)
  {
    assert (k * u) * q == k * (u * q);
    assert p * (k * v) == k * (p * v);
    assert u * k == k * u && v * k == k * v;
    assert (k * u + m) * q == (k * u) * q + m * q;
    assert p * (k * v + n) == p * (k * v) + p * n;
  }

  lemma ParallelCross(d: nat, m: nat, n: nat, p: nat, q: nat)
    requires m * q == p * d && d * q == p * n
    ensures m * (q * q) + n * (p * p) == 2 * (d * p * q)
  {
    assert m * (q * q) == (m * q) * q == (p * d) * q;
    assert n * (p * p) == p * (p * n) == p * (d * q);
    assert (p * d) * q == d * p * q && p * (d * q) == d * p * q;
  }

  /** With equality so far and a vanishing cross term, the new coordinate is proportional. */
  lemma CrossMeansProportional(d: nat, m: nat, n: nat, p: nat, q: nat)
    requires d * d == m * n && m * (q * q) + n * (p * p) == 2 * (d * p * q)
    ensures m * q == d * p
  {
    var u, v := m * q, d * p;
    var x, y, z := m * (q * q), n * (p * p), d * p * q;
    calc {
      (u - v) * (u - v);
      u * u - 2 * (u * v) + v * v;
      { EqualityProducts(d, m, n, p, q); }
      m * x - 2 * (m * z) + m * y;
      m * (x + y - 2 * z);
      0;
    }
    ZeroSquare(u - v);
  }

  lemma EqualityProducts(d: nat, m: nat, n: nat, p: nat, q: nat)
    requires d * d == m * n
    ensures (m * q) * (m * q) == m * (m * (q * q))
    ensures (m * q) * (d * p) == m * (d * p * q)
    ensures (d * p) * (d * p) == m * (n * (p * p))
  {
    Regroup(m, q, m, q);
    Associate(m, m, q * q);
    Associate(m, q, d * p);
    assert q * (d * p) == d * p * q;
    Regroup(d, p, d, p);
    Associate(m, n, p * p);
  }

  lemma ZeroSquare(t: int)
    requires t * t == 0
    ensures t == 0
  {
  }

  lemma {:induction false} ZeroMagnitude(a: Tags, s: set<U64>, y: U64)
    requires Dot(a, a, s) == 0 && y in s
    ensures Weight(a, y) == 0
  {
    DotPick(a, a, s, y);
    var w := Weight(a, y);
    assert w * w == 0;
    ZeroSquare(w);
  }

  lemma CancelFactor(m: nat, x: nat, y: nat)
    requires m > 0 && m * x == m * y
    ensures x == y
  {
  }

  /** One coordinate of the equality case: parallel so far and proportional in the sums, hence parallel. */
  lemma NewMinor(d: nat, m: nat, n: nat, p: nat, q: nat, u: nat, v: nat)
    requires m > 0 && m * q == d * p && m * v == u * d
    ensures u * q == p * v
  {
    Swap(m, u, q);
    Swap(u, p, d);
    assert d * p == p * d;
    Swap(p, m, v);
    CancelFactor(m, u * q, p * v);
  }

  lemma ZeroRow(a: Tags, b: Tags, r: set<U64>, p: nat, q: nat, y: U64)
    requires y in r && Dot(a, a, r) == 0 && Dot(b, b, r) * (p * p) == 0
    ensures Weight(a, y) * q == p * Weight(b, y)
  {
    ZeroMagnitude(a, r, y);
    if p != 0 {
      ProductZero(Dot(b, b, r), p);
      ZeroMagnitude(b, r, y);
    }
  }

  lemma ProductZero(n: nat, p: nat)
    requires n * (p * p) == 0 && p > 0
    ensures n == 0
  {
  }

  lemma DotZeroRow(a: Tags, b: Tags, r: set<U64>)
    requires Dot(a, a, r) == 0
    ensures Dot(a, b, r) == 0
  {
    CauchySchwarz(a, b, r);
    var d := Dot(a, b, r);
    assert d * d <= 0;
    assert d * d >= 0;
    ZeroSquare(d);
  }

  lemma ParallelExtends(a: Tags, b: Tags, s: set<U64>, x: U64)
    requires x in s && Parallel(a, b, s - {x})
    requires forall y :: y in s - {x} ==> Weight(a, y) * Weight(b, x) == Weight(a, x) * Weight(b, y)
    ensures Parallel(a, b, s)
  {
    forall y, z | y in s && z in s ensures Weight(a, y) * Weight(b, z) == Weight(a, z) * Weight(b, y) {
      if y == x && z != x {
        assert z in s - {x};
      } else if z == x && y != x {
        assert y in s - {x};
      } else if y != x && z != x {
        assert y in s - {x} && z in s - {x};
      }
    }
  }

  /** How far Cauchy-Schwarz is from equality, and what one more coordinate adds to that. */
  ghost function Gap(a: Tags, b: Tags, s: set<U64>): int {
    Dot(a, a, s) * Dot(b, b, s) - Dot(a, b, s) * Dot(a, b, s)
  }

  ghost function Cross(a: Tags, b: Tags, r: set<U64>, x: U64): int {
    var d, m, n, p, q := Dot(a, b, r), Dot(a, a, r), Dot(b, b, r), Weight(a, x), Weight(b, x);
    m * (q * q) + n * (p * p) - 2 * (d * p * q)
  }

  lemma GapPick(a: Tags, b: Tags, s: set<U64>, x: U64)
    requires x in s
    ensures Gap(a, b, s) == Gap(a, b, s - {x}) + Cross(a, b, s - {x}, x)
    ensures Gap(a, b, s - {x}) >= 0 && Cross(a, b, s - {x}, x) >= 0
  {
    var r := s - {x};
    CauchySchwarz(a, b, r);
    DotPick(a, b, s, x);
    DotPick(a, a, s, x);
    DotPick(b, b, s, x);
    CrossTerm(Dot(a, b, r), Dot(a, a, r), Dot(b, b, r), Weight(a, x), Weight(b, x));
    Expand(Dot(a, b, r), Dot(a, a, r), Dot(b, b, r), Weight(a, x), Weight(b, x));
  }

  lemma ParallelHasNoCross(a: Tags, b: Tags, s: set<U64>, x: U64)
    requires x in s && Parallel(a, b, s)
    ensures Cross(a, b, s - {x}, x) == 0
  {
    var r := s - {x};
    ParallelSums(a, b, r, Weight(a, x), Weight(b, x));
    ParallelCross(Dot(a, b, r), Dot(a, a, r), Dot(b, b, r), Weight(a, x), Weight(b, x));
  }

  /** Equality holds in Cauchy-Schwarz exactly for proportional vectors. */
  lemma {:induction false} CauchySchwarzEquality(a: Tags, b: Tags, s: set<U64>)
    ensures Gap(a, b, s) == 0 <==> Parallel(a, b, s)
    decreases s
  {
    if s != {} {
      var x :| x in s;
      GapPick(a, b, s, x);
      CauchySchwarzEquality(a, b, s - {x});
      if Parallel(a, b, s) {
        ParallelHasNoCross(a, b, s, x);
      }
      if Gap(a, b, s - {x}) == 0 && Cross(a, b, s - {x}, x) == 0 {
        EqualityStep(a, b, s, x);
      }
    }
  }

  lemma EqualityStep(a: Tags, b: Tags, s: set<U64>, x: U64)
    requires x in s && Parallel(a, b, s - {x})
    requires Gap(a, b, s - {x}) == 0 && Cross(a, b, s - {x}, x) == 0
    ensures Parallel(a, b, s)
  {
    var r := s - {x};
    var d, m, n, p, q := Dot(a, b, r), Dot(a, a, r), Dot(b, b, r), Weight(a, x), Weight(b, x);
    CrossMeansProportional(d, m, n, p, q);
    forall y | y in r ensures Weight(a, y) * q == p * Weight(b, y) {
      if m > 0 {
        ParallelSums(a, b, r, Weight(a, y), Weight(b, y));
        NewMinor(d, m, n, p, q, Weight(a, y), Weight(b, y));
      } else {
        DotZeroRow(a, b, r);
        ZeroRow(a, b, r, p, q, y);
      }
    }
    ParallelExtends(a, b, s, x);
  }

  // ----- the similarity -----

  function AtLeastOne(r: real): real {
    if r < 1.0 then 1.0 else r
  }

  function ClampUnit(r: real): real {
    if r < 0.0 then 0.0 else if r > 1.0 then 1.0 else r
  }

  ghost predicate ExactRoot(sqrt: nat -> real) {
    forall n :: IsRoot(sqrt(n), n)
  }

  function RawQuotient(dot: nat, rootSelf: real, rootOther: real): real {
    dot as real / AtLeastOne(rootSelf * rootOther)
  }

  function Quotient(dot: nat, rootSelf: real, rootOther: real): real {
    ClampUnit(RawQuotient(dot, rootSelf, rootOther))
  }

  ghost function Cosine(self: Tags, other: Tags, sqrt: nat -> real): real {
    var all := self.Keys + other.Keys;
    if self == map[] || other == map[] then 1.0
    else Quotient(Dot(self, other, all), sqrt(Dot(self, self, all)), sqrt(Dot(other, other, all)))
  }

  /** The three accumulators, over the clusters in any order. */
  method TagSums(self: Tags, other: Tags) returns (dotProduct: nat, magSelf: nat, magOther: nat)
    ensures dotProduct == Dot(self, other, self.Keys + other.Keys)
    ensures magSelf == Dot(self, self, self.Keys + other.Keys)
    ensures magOther == Dot(other, other, self.Keys + other.Keys)
  {
    var allClusters := self.Keys + other.Keys;
    dotProduct, magSelf, magOther := 0, 0, 0;
    var rest := allClusters;
    while rest != {}
      invariant dotProduct + Dot(self, other, rest) == Dot(self, other, allClusters)
      invariant magSelf + Dot(self, self, rest) == Dot(self, self, allClusters)
      invariant magOther + Dot(other, other, rest) == Dot(other, other, allClusters)
      decreases rest
    {
      var cluster :| cluster in rest;
      DotPick(self, other, rest, cluster);
      DotPick(self, self, rest, cluster);
      DotPick(other, other, rest, cluster);
      dotProduct := dotProduct + Term(self, other, cluster);
      magSelf := magSelf + Term(self, self, cluster);
      magOther := magOther + Term(other, other, cluster);
      rest := rest - {cluster};
    }
  }

  method CosineSimilarity(self: Tags, other: Tags, sqrt: nat -> real) returns (similarity: real)
    ensures similarity == Cosine(self, other, sqrt)
  {
    if self == map[] || other == map[] {
      return 1.0;
    }
    var dotProduct, magSelf, magOther := TagSums(self, other);
    return Quotient(dotProduct, sqrt(magSelf), sqrt(magOther));
  }

  lemma RealProduct(x: real, y: real)
    ensures x > 0.0 && y > 0.0 ==> x * y > 0.0
    ensures x >= 0.0 && y >= 0.0 ==> x * y >= 0.0
  {
  }

  lemma RealSquareOrder(u: real, v: real)
    requires u >= 0.0 && v >= 0.0
    ensures u * u <= v * v <==> u <= v
    ensures u * u == v * v <==> u == v
  {
    if u < v {
      SquareBelow(u, v);
    } else if v < u {
      SquareBelow(v, u);
    }
  }

  lemma SquareBelow(u: real, v: real)
    requires 0.0 <= u < v
    ensures u * u < v * v
  {
    RealProduct(v - u, v + u);
    assert (v - u) * (v + u) == v * v - u * u;
  }

  lemma RootProduct(rm: real, rn: real, m: nat, n: nat)
    requires rm * rm == m as real && rn * rn == n as real
    ensures (rm * rn) * (rm * rn) == (m * n) as real
  {
    calc {
      (rm * rn) * (rm * rn);
      (rm * rm) * (rn * rn);
      m as real * n as real;
      (m * n) as real;
    }
  }

  ghost predicate IsRoot(r: real, n: nat) {
    r >= 0.0 && r * r == n as real
  }

  /** Cauchy-Schwarz under the roots: the dot product never exceeds the product of the magnitudes, and
      meets it exactly at equality. */
  lemma DotBelowRoots(d: nat, m: nat, n: nat, rm: real, rn: real)
    requires d * d <= m * n && IsRoot(rm, m) && IsRoot(rn, n)
    ensures d as real <= rm * rn
    ensures d as real == rm * rn <==> d * d == m * n
  {
    RootProduct(rm, rn, m, n);
    RealProduct(rm, rn);
    var e := d as real;
    assert e * e == (d * d) as real;
    RealSquareOrder(e, rm * rn);
  }

  lemma RootsAtLeastOne(m: nat, n: nat, rm: real, rn: real)
    requires m > 0 && n > 0 && IsRoot(rm, m) && IsRoot(rn, n)
    ensures rm * rn >= 1.0
  {
    RootProduct(rm, rn, m, n);
    RealProduct(rm, rn);
    MulLe(1, m, n);
    RealSquareOrder(1.0, rm * rn);
  }

  lemma UnitQuotient(x: real, y: real)
    requires 0.0 <= x <= y && y >= 1.0
    ensures 0.0 <= x / y <= 1.0 && (x / y == 1.0 <==> x == y)
  {
    var z := x / y;
    assert z * y == x;
    assert (z - 1.0) * y == x - y;
    RealProduct(-z, y);
    RealProduct(z - 1.0, y);
    assert (-z) * y == -x;
  }

  lemma QuotientProperties(d: nat, m: nat, n: nat, rm: real, rn: real)
    requires d * d <= m * n && IsRoot(rm, m) && IsRoot(rn, n)
    ensures Quotient(d, rm, rn) == RawQuotient(d, rm, rn)
    ensures 0.0 <= Quotient(d, rm, rn) <= 1.0
    ensures m > 0 && n > 0 ==> (Quotient(d, rm, rn) == 1.0 <==> d * d == m * n)
  {
    DotBelowRoots(d, m, n, rm, rn);
    UnitQuotient(d as real, AtLeastOne(rm * rn));
    if m > 0 && n > 0 {
      RootsAtLeastOne(m, n, rm, rn);
    }
  }

  /** The similarity lies in [0, 1], and the clamp to [0, 1] never changes it: it is the plain quotient
      of the dot product by the (at least 1) product of magnitudes. */
  lemma CosineRange(a: Tags, b: Tags, sqrt: nat -> real)
    requires ExactRoot(sqrt)
    ensures 0.0 <= Cosine(a, b, sqrt) <= 1.0
    ensures a != map[] && b != map[] ==>
              var all := a.Keys + b.Keys;
              Cosine(a, b, sqrt) == RawQuotient(Dot(a, b, all), sqrt(Dot(a, a, all)), sqrt(Dot(b, b, all)))
  {
    var all := a.Keys + b.Keys;
    CauchySchwarz(a, b, all);
    QuotientProperties(Dot(a, b, all), Dot(a, a, all), Dot(b, b, all), sqrt(Dot(a, a, all)), sqrt(Dot(b, b, all)));
  }

  lemma CosineSymmetric(a: Tags, b: Tags, sqrt: nat -> real)
    ensures Cosine(a, b, sqrt) == Cosine(b, a, sqrt)
  {
    var all := a.Keys + b.Keys;
    assert b.Keys + a.Keys == all;
    DotSymmetric(a, b, all);
    QuotientSymmetric(Dot(a, b, all), sqrt(Dot(a, a, all)), sqrt(Dot(b, b, all)));
  }

  lemma QuotientSymmetric(d: nat, rm: real, rn: real)
    ensures Quotient(d, rm, rn) == Quotient(d, rn, rm)
  {
    assert rm * rn == rn * rm;
  }

  /** The similarity is 1 exactly when a vector is empty, or both carry weight and are proportional. */
  lemma CosineIsOneIff(a: Tags, b: Tags, sqrt: nat -> real)
    requires ExactRoot(sqrt)
    ensures var all := a.Keys + b.Keys;
            Cosine(a, b, sqrt) == 1.0 <==>
              || a == map[] || b == map[]
              || (Dot(a, a, all) > 0 && Dot(b, b, all) > 0 && Parallel(a, b, all))
  {
    var all := a.Keys + b.Keys;
    if a != map[] && b != map[] {
      if Dot(a, a, all) > 0 && Dot(b, b, all) > 0 {
        CauchySchwarz(a, b, all);
        CauchySchwarzEquality(a, b, all);
        QuotientProperties(Dot(a, b, all), Dot(a, a, all), Dot(b, b, all), sqrt(Dot(a, a, all)), sqrt(Dot(b, b, all)));
      } else {
        WeightlessScoresZero(a, b, sqrt);
      }
    }
  }

  /** A vector with tags but no weight scores 0 against every vector with tags, itself included: the
      documented 1 for identical vectors fails for it, and for it alone. */
  lemma WeightlessScoresZero(a: Tags, b: Tags, sqrt: nat -> real)
    requires a != map[] && b != map[]
    requires Dot(a, a, a.Keys + b.Keys) == 0 || Dot(b, b, a.Keys + b.Keys) == 0
    ensures Cosine(a, b, sqrt) == 0.0
  {
    var all := a.Keys + b.Keys;
    if Dot(a, a, all) == 0 {
      DotZeroRow(a, b, all);
    } else {
      DotZeroRow(b, a, all);
      DotSymmetric(a, b, all);
    }
    ZeroQuotient(sqrt(Dot(a, a, all)), sqrt(Dot(b, b, all)));
  }

  lemma ZeroQuotient(rm: real, rn: real)
    ensures Quotient(0, rm, rn) == 0.0
  {
    var y := AtLeastOne(rm * rn);
    assert 0.0 / y == 0.0;
  }

  /** Identical vectors are similar exactly when empty or of some weight. */
  lemma IdenticalIsOneIff(a: Tags, sqrt: nat -> real)
    requires ExactRoot(sqrt)
    ensures Cosine(a, a, sqrt) == 1.0 <==> a == map[] || Dot(a, a, a.Keys) > 0
  {
    assert a.Keys + a.Keys == a.Keys;
    CosineIsOneIff(a, a, sqrt);
  }

  /** 60% cosine, 40% dominant-cluster match. */
  function Combined(cosine: real, dominantMatch: bool): real {
    0.6 * cosine + 0.4 * (if dominantMatch then 1.0 else 0.5)
  }

  /** The combined score of any two vectors is at least 0.2 and at most 1: scores are never zero. */
  lemma CombinedBounds(a: Tags, b: Tags, sqrt: nat -> real, dominantMatch: bool)
    requires ExactRoot(sqrt)
    ensures 0.2 <= Combined(Cosine(a, b, sqrt), dominantMatch) <= 1.0
  {
    CosineRange(a, b, sqrt);
  }
}
