/** Cosine similarity of two embedding vectors, over exact reals. Dafny has
    no square root, so a vector carries its Euclidean norm alongside its
    components, constrained to be the non-negative root of the sum of
    squares. */
module Similarity {
  import opened Wrappers

  /** `np.dot` of two vectors of the same length. */
  function Dot(a: seq<real>, b: seq<real>): real
    requires |a| == |b|
  {
    if a == [] then 0.0 else a[0] * b[0] + Dot(a[1..], b[1..])
  }

  function Sq(x: real): real {
    x * x
  }

  /** The squared Euclidean norm. */
  function SumSq(a: seq<real>): (r: real)
    ensures r >= 0.0
  {
    if a == [] then 0.0
    else
      SquarePositive(a[0]);
      Sq(a[0]) + SumSq(a[1..])
  }

  datatype Vector = Vector(xs: seq<real>, norm: real)

  /** A vector with its norm `np.linalg.norm(xs)`. */
  type Embedding = v: Vector | v.norm >= 0.0 && Sq(v.norm) == SumSq(v.xs)
    witness Vector([], 0.0)

  /** `cosine_similarity(a, b)`. `np.dot` raises on vectors of different
      lengths before the zero-norm test is reached; that is `None`. */
  function Cosine(a: Embedding, b: Embedding): (r: Option<real>)
    ensures r.None? <==> |a.xs| != |b.xs|
    ensures r.Some? && (a.norm == 0.0 || b.norm == 0.0) ==> r.value == 0.0
    ensures r.Some? && a.norm != 0.0 && b.norm != 0.0 ==>
      r.value * (a.norm * b.norm) == Dot(a.xs, b.xs)
  {
    if |a.xs| != |b.xs| then None
    else if a.norm == 0.0 || b.norm == 0.0 then Some(0.0)
    else Some(Ratio(Dot(a.xs, b.xs), a.norm, b.norm))
  }

  /** `dot / (norm_a * norm_b)`. */
  function Ratio(d: real, na: real, nb: real): real
    requires na != 0.0 && nb != 0.0
  {
    d / (na * nb)
  }

  lemma {:induction false} DotSymmetric(a: seq<real>, b: seq<real>)
    requires |a| == |b|
    ensures Dot(a, b) == Dot(b, a)
  {
    if a != [] {
      DotSymmetric(a[1..], b[1..]);
    }
  }

  /** A vector's dot product with itself is its squared norm. */
  lemma {:induction false} DotSelf(a: seq<real>)
    ensures Dot(a, a) == SumSq(a)
  {
    if a != [] {
      DotSelf(a[1..]);
    }
  }

  /** The norm is zero exactly for the zero vector. */
  lemma NormZeroIff(v: Embedding)
    ensures v.norm == 0.0 <==> forall i :: 0 <= i < |v.xs| ==> v.xs[i] == 0.0
  {
    SumSqZeroIff(v.xs);
    SquarePositive(v.norm);
  }

  /** A square is non-negative, and positive unless its root is zero. */
  lemma SquarePositive(x: real)
    ensures Sq(x) >= 0.0
    ensures x != 0.0 ==> Sq(x) > 0.0
  {
    if x > 0.0 {
      RootPositive(x);
    } else if x < 0.0 {
      RootPositive(-x);
      assert Sq(-x) == Sq(x);
    }
  }

  lemma RootPositive(y: real)
    requires y > 0.0
    ensures Sq(y) > 0.0
  {
    calc {
      Sq(y);
      ==
      y * y;
      >
      0.0 * y;
    }
  }

  lemma {:induction false} SumSqZeroIff(a: seq<real>)
    ensures SumSq(a) == 0.0 <==> forall i :: 0 <= i < |a| ==> a[i] == 0.0
  {
    if a != [] {
      SumSqZeroIff(a[1..]);
      SquarePositive(a[0]);
      assert forall i :: 1 <= i < |a| ==> a[i] == a[1..][i - 1];
    }
  }

  /** `sim(a, b) == sim(b, a)`. */
  lemma CosineSymmetric(a: Embedding, b: Embedding)
    ensures Cosine(a, b) == Cosine(b, a)
  {
    if |a.xs| == |b.xs| {
      DotSymmetric(a.xs, b.xs);
      assert a.norm * b.norm == b.norm * a.norm;
    }
  }

  /** `sim(a, a) == 1` for a non-zero vector. */
  lemma CosineSelf(a: Embedding)
    requires a.norm != 0.0
    ensures Cosine(a, a) == Some(1.0)
  {
    CosineValue(a, a);
    DotSelf(a.xs);
    SquarePositive(a.norm);
    DivSelf(Sq(a.norm));
  }

  /** `sim(a, b) == 0` when either vector is the zero vector. */
  lemma CosineZeroVector(a: Embedding, b: Embedding)
    requires |a.xs| == |b.xs|
    requires (forall i :: 0 <= i < |a.xs| ==> a.xs[i] == 0.0) || (forall i :: 0 <= i < |b.xs| ==> b.xs[i] == 0.0)
    ensures Cosine(a, b) == Some(0.0)
  {
    NormZeroIff(a);
    NormZeroIff(b);
  }

  /** Cauchy-Schwarz: `dot(a, b)^2 <= |a|^2 |b|^2`. */
  lemma {:induction false} CauchySchwarz(a: seq<real>, b: seq<real>)
    requires |a| == |b|
    ensures Sq(Dot(a, b)) <= SumSq(a) * SumSq(b)
  {
    if a != [] {
      CauchySchwarz(a[1..], b[1..]);
      CauchySchwarzStep(Dot(a[1..], b[1..]), SumSq(a[1..]), SumSq(b[1..]), a[0], b[0]);
    }
  }

  /** The inductive step: adding one coordinate `(x, y)` keeps the
      inequality. */
  lemma CauchySchwarzStep(d: real, p: real, q: real, x: real, y: real)
    requires p >= 0.0 && q >= 0.0 && d * d <= p * q
    ensures (x * y + d) * (x * y + d) <= (x * x + p) * (y * y + q)
  {
    CrossTerm(d, p, q, x, y);
    assert (x * y + d) * (x * y + d) == x * x * (y * y) + 2.0 * d * x * y + d * d;
    assert (x * x + p) * (y * y + q) == x * x * (y * y) + (p * (y * y) + q * (x * x)) + p * q;
  }

  /** `2 d x y <= p y^2 + q x^2` when `d^2 <= p q`. */
  lemma CrossTerm(d: real, p: real, q: real, x: real, y: real)
    requires p >= 0.0 && q >= 0.0 && d * d <= p * q
    ensures 2.0 * d * x * y <= p * (y * y) + q * (x * x)
  {
    SquarePositive(x);
    SquarePositive(y);
    NonNegProduct(p, y * y);
    NonNegProduct(q, x * x);
    CrossSquareLe(d, p, q, x, y);
    SumBound(2.0 * d * x * y, p * (y * y), q * (x * x));
  }

  /** The square of the cross term is at most `4 (p y^2) (q x^2)`. */
  lemma CrossSquareLe(d: real, p: real, q: real, x: real, y: real)
    requires d * d <= p * q
    ensures (2.0 * d * x * y) * (2.0 * d * x * y) <= 4.0 * (p * (y * y)) * (q * (x * x))
  {
    var t := (x * y) * (x * y);
    SquarePositive(x * y);
    CrossSquare(d, x, y);
    MulLeMono(d * d, p * q, 4.0 * t);
    CrossProduct(p, q, x, y);
  }

  /** `w <= u + v` when `w^2 <= 4 u v` for non-negative `u` and `v`. */
  lemma SumBound(w: real, u: real, v: real)
    requires u >= 0.0 && v >= 0.0 && w * w <= 4.0 * u * v
    ensures w <= u + v
  {
    SquarePositive(u - v);
    SumSquare(u, v);
    SquareMonotone(w, u + v);
  }

  lemma CrossSquare(d: real, x: real, y: real)
    ensures (2.0 * d * x * y) * (2.0 * d * x * y) == (d * d) * (4.0 * ((x * y) * (x * y)))
  {
  }

  lemma CrossProduct(p: real, q: real, x: real, y: real)
    ensures (p * q) * (4.0 * ((x * y) * (x * y))) == 4.0 * (p * (y * y)) * (q * (x * x))
  {
  }

  lemma SumSquare(u: real, v: real)
    ensures (u + v) * (u + v) == (u - v) * (u - v) + 4.0 * u * v
  {
  }

  lemma NonNegProduct(a: real, b: real)
    requires a >= 0.0 && b >= 0.0
    ensures a * b >= 0.0
  {
  }

  lemma MulLeMono(a: real, b: real, c: real)
    requires a <= b && c >= 0.0
    ensures a * c <= b * c
  {
    NonNegProduct(b - a, c);
  }

  /** For a non-negative `b`, `a^2 <= b^2` gives `a <= b`. */
  lemma SquareMonotone(a: real, b: real)
    requires b >= 0.0 && a * a <= b * b
    ensures a <= b
  {
    if a > 0.0 {
      assert (a - b) * (a + b) == a * a - b * b;
      assert a + b > 0.0;
    }
  }

  /** The similarity lies in [-1, 1]; it can be negative. */
  lemma CosineBounded(a: Embedding, b: Embedding)
    requires |a.xs| == |b.xs|
    ensures -1.0 <= Cosine(a, b).value <= 1.0
  {
    if a.norm != 0.0 && b.norm != 0.0 {
      CosineValue(a, b);
      CauchySchwarz(a.xs, b.xs);
      RatioFromCauchySchwarz(Dot(a.xs, b.xs), a.norm, b.norm);
    }
  }

  lemma RatioFromCauchySchwarz(d: real, na: real, nb: real)
    requires na > 0.0 && nb > 0.0 && Sq(d) <= Sq(na) * Sq(nb)
    ensures -1.0 <= Ratio(d, na, nb) <= 1.0
  {
    var n := na * nb;
    NonNegProduct(na, nb);
    assert Sq(na) * Sq(nb) == n * n;
    SquareMonotone(d, n);
    assert (-d) * (-d) == d * d;
    SquareMonotone(-d, n);
    assert n != 0.0 by {
      assert na * nb > 0.0;
    }
    RatioBounded(d, n);
  }

  lemma CosineValue(a: Embedding, b: Embedding)
    requires |a.xs| == |b.xs| && a.norm != 0.0 && b.norm != 0.0
    ensures Cosine(a, b) == Some(Ratio(Dot(a.xs, b.xs), a.norm, b.norm))
  {
  }

  lemma DivSelf(x: real)
    requires x != 0.0
    ensures x / x == 1.0
  {
  }

  /** `-n <= d <= n` with `n > 0` gives `-1 <= d / n <= 1`. */
  lemma RatioBounded(d: real, n: real)
    requires n > 0.0 && -n <= d <= n
    ensures -1.0 <= d / n <= 1.0
  {
    var c := d / n;
    assert c * n == d;
    MulLeMono(c, 1.0, n);
  }

  /** Opposite vectors have similarity -1, outside the 0 to 1 range the
      code's own comment states. */
  lemma CosineCanBeNegative()
    ensures Cosine(Vector([1.0], 1.0), Vector([-1.0], 1.0)) == Some(-1.0)
  {
    assert SumSq([1.0]) == 1.0 by { assert [1.0][1..] == []; }
    assert SumSq([-1.0]) == 1.0 by { assert [-1.0][1..] == []; }
    assert Dot([1.0], [-1.0]) == -1.0 by { assert [1.0][1..] == [] && [-1.0][1..] == []; }
  }
}
