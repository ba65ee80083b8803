// What conversion does to products of any matrices, affine or not (src/o3ds/context.cpp:183-211): transforms may hold
// matrices of their own (src/o3ds/model.cpp:288-292).

module ProductLaws {
  import opened Matrices
  import opened Contexts
  import opened ConversionLaws
  import opened ComponentLaws

  // ----- The basis is orthogonal -------------------------------------------

  /** The destination axis that reads source axis k. */
  function Slot(c: Conversion, k: nat): (dst: nat)
    requires c.Proper() && k < 3
    ensures dst < 3 && c.remap[dst] == k
  {
    if c.remap[0] == k then 0 else if c.remap[1] == k then 1 else 2
  }

  lemma TransposedRow(c: Conversion, k: nat)
    requires c.Proper() && k < 3
    ensures c.Basis().Transpose().RowAt(k) == Only(Slot(c, k), c.sign[Slot(c, k)])
  {
    BasisRows(c);
    hide Conversion.Basis;
  }

  lemma ScaledOnly(k: nat, v: real)
    requires k < 4 && (v == 1.0 || v == -1.0)
    ensures Times(v, Only(k, v)) == Only(k, 1.0)
  {
  }

  lemma PermutedOnly(c: Conversion, i: nat)
    requires c.Proper() && i < 3
    ensures Permuted(c, Only(c.remap[i], c.sign[i])) == Only(i, 1.0)
  {
  }

  lemma BasisRowAt(c: Conversion, i: nat)
    requires c.Proper() && i < 3
    ensures c.Basis().RowAt(i) == Only(c.remap[i], c.sign[i])
    ensures c.Basis().r3 == c.Basis().Transpose().r3 == Only(3, 1.0)
  {
  }

  lemma TransposedTimesBasis(c: Conversion, k: nat)
    requires c.Proper() && k < 3
    ensures Combine(c.Basis().Transpose().RowAt(k), c.Basis()) == Only(k, 1.0)
  {
    var s := Slot(c, k);
    TransposedRow(c, k);
    BasisRowAt(c, s);
    hide Conversion.Basis, Combine, Only, Times;
    CombineOnly(s, c.sign[s], c.Basis());
    ScaledOnly(k, c.sign[s]);
  }

  lemma BasisTimesTransposed(c: Conversion, i: nat)
    requires c.Proper() && i < 3
    ensures Combine(c.Basis().RowAt(i), c.Basis().Transpose()) == Only(i, 1.0)
  {
    BasisRowAt(c, i);
    hide Conversion.Basis, Combine, Only, Permuted;
    CombineTransposed(c.Basis().RowAt(i), c);
    PermutedOnly(c, i);
  }

  lemma LastRows(c: Conversion)
    requires c.Proper()
    ensures Combine(c.Basis().r3, c.Basis().Transpose()) == Combine(c.Basis().Transpose().r3, c.Basis()) == Only(3, 1.0)
  {
    BasisRowAt(c, 0);
    hide Conversion.Basis, Combine;
    CombineTransposed(Only(3, 1.0), c);
    CombineOnly(3, 1.0, c.Basis());
  }

  lemma BasisInverse(c: Conversion)
    requires c.Proper()
    ensures Inverses(c.Basis(), c.Basis().Transpose())
  {
    hide Conversion.Basis, Matrix.Transpose, Combine, Only, Inverses;
    var b, d := c.Basis(), c.Basis().Transpose();
    forall i: nat | i < 4 ensures Combine(b.RowAt(i), d) == Combine(d.RowAt(i), b) == Only(i, 1.0) {
      if i < 3 {
        BasisTimesTransposed(c, i);
        TransposedTimesBasis(c, i);
      } else {
        LastRows(c);
      }
    }
    RowsInverse(b, d);
  }

  lemma RowsInverse(b: Matrix, d: Matrix)
    requires forall i: nat :: i < 4 ==> Combine(b.RowAt(i), d) == Combine(d.RowAt(i), b) == Only(i, 1.0)
    ensures Inverses(b, d)
  {
    hide Combine;
    assert b.RowAt(0) == b.r0 && b.RowAt(1) == b.r1 && b.RowAt(2) == b.r2 && b.RowAt(3) == b.r3;
    assert d.RowAt(0) == d.r0 && d.RowAt(1) == d.r1 && d.RowAt(2) == d.r2 && d.RowAt(3) == d.r3;
  }

  // ----- Scaling the translation of a product ------------------------------

  predicate NoTranslation(m: Matrix) {
    m.r0.w == 0.0 && m.r1.w == 0.0 && m.r2.w == 0.0
  }

  predicate NoPerspective(m: Matrix) {
    m.r3.x == 0.0 && m.r3.y == 0.0 && m.r3.z == 0.0
  }

  /** The bottom row of m against the translation of n. */
  function Shear(m: Matrix, n: Matrix): real {
    m.r3.x * n.r0.w + m.r3.y * n.r1.w + m.r3.z * n.r2.w
  }

  /** No translation of m meets the bottom row of n, nor the bottom row of m the translation of n. */
  predicate Separable(m: Matrix, n: Matrix) {
    (NoTranslation(m) || NoPerspective(n)) && Shear(m, n) == 0.0
  }

  lemma LinearShift(a: Row, x: real, y: real, z: real, w: real, u: real, aw: real, d: real, e: real)
    requires aw == a.w * u && d == Dot(a, x, y, z, w) && e == Dot(a.(w := aw), x, y, z, w)
    ensures e == d <==> u == 1.0 || a.w == 0.0 || w == 0.0
  {
    assert e - d == (u - 1.0) * (a.w * w);
    ZeroProduct(u - 1.0, a.w * w);
    ZeroProduct(a.w, w);
  }

  lemma LastShift(a: Row, x: real, y: real, z: real, w: real, u: real, x': real, y': real, z': real, d: real, e: real)
    requires x' == x * u && y' == y * u && z' == z * u
    requires d == Dot(a, x, y, z, w) && e == Dot(a, x', y', z', w)
    ensures e == d <==> u == 1.0 || a.x * x + a.y * y + a.z * z == 0.0
  {
    assert e - d == (u - 1.0) * (a.x * x + a.y * y + a.z * z);
    ZeroProduct(u - 1.0, a.x * x + a.y * y + a.z * z);
  }

  lemma ColumnShift(a: Row, x: real, y: real, z: real, w: real, u: real, aw: real, x': real, y': real, z': real)
    requires aw == a.w * u && x' == x * u && y' == y * u && z' == z * u
    ensures Dot(a.(w := aw), x', y', z', w) == Dot(a, x, y, z, w) * u
  {
    Twice(a.x, x, u, x');
    Twice(a.y, y, u, y');
    Twice(a.z, z, u, z');
    assert aw * w == a.w * w * u;
  }

  lemma Twice(a: real, x: real, u: real, x': real)
    requires x' == x * u
    ensures a * x' == a * x * u
  {
  }

  lemma ZeroProduct(p: real, q: real)
    ensures p * q == 0.0 <==> p == 0.0 || q == 0.0
  {
  }

  /** One of the first three rows. */
  lemma UpperRow(a: Row, n: Matrix, u: real)
    ensures Combine(ScaleLast(a, u), ScaleTranslation(n, u)) == ScaleLast(Combine(a, n), u)
       <==> u == 1.0 || a.w == 0.0 || NoPerspective(n)
  {
    var b, k := ScaleLast(a, u), ScaleTranslation(n, u);
    LinearShift(a, n.r0.x, n.r1.x, n.r2.x, n.r3.x, u, b.w, Combine(a, n).x, Combine(b, k).x);
    LinearShift(a, n.r0.y, n.r1.y, n.r2.y, n.r3.y, u, b.w, Combine(a, n).y, Combine(b, k).y);
    LinearShift(a, n.r0.z, n.r1.z, n.r2.z, n.r3.z, u, b.w, Combine(a, n).z, Combine(b, k).z);
    ColumnShift(a, n.r0.w, n.r1.w, n.r2.w, n.r3.w, u, b.w, k.r0.w, k.r1.w, k.r2.w);
    hide Dot;
  }

  lemma LowerRow(a: Row, n: Matrix, u: real)
    ensures Combine(a, ScaleTranslation(n, u)) == Combine(a, n)
       <==> u == 1.0 || a.x * n.r0.w + a.y * n.r1.w + a.z * n.r2.w == 0.0
  {
    var k := ScaleTranslation(n, u);
    LastShift(a, n.r0.w, n.r1.w, n.r2.w, n.r3.w, u, k.r0.w, k.r1.w, k.r2.w, Combine(a, n).w, Combine(a, k).w);
    hide Dot;
  }

  /** Scaling the translation of a product is scaling those of the factors exactly when the factors are separable, or
      nothing is scaled. */
  lemma ScaledProduct(m: Matrix, n: Matrix, u: real)
    ensures ScaleTranslation(Mul(m, n), u) == Mul(ScaleTranslation(m, u), ScaleTranslation(n, u))
       <==> u == 1.0 || Separable(m, n)
  {
    UpperRow(m.r0, n, u);
    UpperRow(m.r1, n, u);
    UpperRow(m.r2, n, u);
    LowerRow(m.r3, n, u);
    hide Combine;
  }

  lemma ScaledTwice(m: Matrix, u: real, v: real, uv: real)
    requires uv == u * v
    ensures ScaleTranslation(ScaleTranslation(m, u), v) == ScaleTranslation(m, uv)
  {
    ScaledLast(m.r0, u, v, uv);
    ScaledLast(m.r1, u, v, uv);
    ScaledLast(m.r2, u, v, uv);
  }

  lemma ScaledLast(a: Row, u: real, v: real, uv: real)
    requires uv == u * v
    ensures ScaleLast(ScaleLast(a, u), v) == ScaleLast(a, uv)
  {
    Twice(a.w, v, u, uv);
    assert a.w * uv == a.w * u * v;
  }

  // ----- Products ----------------------------------------------------------

  /** Conjugation loses nothing. */
  lemma ConjugateInjective(b: Matrix, d: Matrix, m: Matrix, n: Matrix)
    requires Inverses(b, d)
    ensures Conjugate(b, m, d) == Conjugate(b, n, d) <==> m == n
  {
    ConjugateTwice(d, b, m, d, b);
    ConjugateTwice(d, b, n, d, b);
    ConjugateIdentity(m);
    ConjugateIdentity(n);
    hide Mul;
  }

  /** Converting a product is multiplying the converted factors exactly when no length is scaled or the factors are
      separable, as affine ones always are. */
  lemma ConversionOfProduct(c: Conversion, m: Matrix, n: Matrix)
    requires c.Proper()
    ensures c.ConvertMatrix(Mul(m, n)) == Mul(c.ConvertMatrix(m), c.ConvertMatrix(n))
       <==> c.unit == 1.0 || Separable(m, n)
    ensures m.Affine() && n.Affine() ==> c.ConvertMatrix(Mul(m, n)) == Mul(c.ConvertMatrix(m), c.ConvertMatrix(n))
  {
    AffineSeparable(m, n);
    var b, d := c.Basis(), c.Basis().Transpose();
    var s, t, st := ScaleTranslation(m, c.unit), ScaleTranslation(n, c.unit), ScaleTranslation(Mul(m, n), c.unit);
    BasisInverse(c);
    ScaledProduct(m, n, c.unit);
    hide Mul, ScaleTranslation, Separable, Conversion.Basis;
    ConjugateMul(b, d, s, t);
    ConjugateInjective(b, d, st, Mul(s, t));
  }

  lemma AffineSeparable(m: Matrix, n: Matrix)
    ensures m.Affine() && n.Affine() ==> Separable(m, n)
  {
  }

  lemma NoPerspectiveSeparable(m: Matrix, n: Matrix)
    requires NoPerspective(m) && NoPerspective(n)
    ensures Separable(m, n) && NoPerspective(Mul(m, n))
  {
  }

  /** Conversion loses nothing. */
  lemma ConversionInjective(c: Conversion, m: Matrix, n: Matrix)
    requires c.Proper()
    ensures c.ConvertMatrix(m) == c.ConvertMatrix(n) <==> m == n
  {
    BasisInverse(c);
    ScaleInjective(m, n, c.unit);
    hide Mul, ScaleTranslation, Conversion.Basis;
    ConjugateInjective(c.Basis(), c.Basis().Transpose(), ScaleTranslation(m, c.unit), ScaleTranslation(n, c.unit));
  }

  /** With the axes as they are, conversion leaves alone exactly the matrices without a translation. */
  lemma TranslationConverted(c: Conversion, m: Matrix)
    requires c.remap == [0, 1, 2] && c.sign == [1.0, 1.0, 1.0] && c.unit > 0.0
    ensures c.ConvertMatrix(m) == m <==> c.unit == 1.0 || NoTranslation(m)
  {
    assert c.Basis() == IDENTITY && IDENTITY.Transpose() == IDENTITY;
    KeptLast(m.r0.w, c.unit);
    KeptLast(m.r1.w, c.unit);
    KeptLast(m.r2.w, c.unit);
    hide Mul, Conversion.Basis;
    MulIdentity(ScaleTranslation(m, c.unit));
  }

  lemma KeptLast(p: real, u: real)
    ensures p * u == p <==> u == 1.0 || p == 0.0
  {
    assert p * u - p == p * (u - 1.0);
    ZeroProduct(p, u - 1.0);
  }

  lemma ScaleInjective(m: Matrix, n: Matrix, u: real)
    requires u > 0.0
    ensures ScaleTranslation(m, u) == ScaleTranslation(n, u) <==> m == n
  {
    Cancels(m.r0.w, n.r0.w, u);
    Cancels(m.r1.w, n.r1.w, u);
    Cancels(m.r2.w, n.r2.w, u);
  }

  lemma Cancels(p: real, q: real, u: real)
    requires u > 0.0
    ensures p * u == q * u <==> p == q
  {
    assert p * u - q * u == (p - q) * u;
    ZeroProduct(p - q, u);
  }

  // ----- Conversions compose -----------------------------------------------

  /** Scaling the translation commutes with turning the axes. */
  lemma ScaleTurned(b: Matrix, d: Matrix, m: Matrix, v: real)
    requires Linear(b) && Linear(d)
    ensures ScaleTranslation(Conjugate(b, m, d), v) == Conjugate(b, ScaleTranslation(m, v), d)
  {
    ScaledProduct(Mul(b, m), d, v);
    ScaledProduct(b, m, v);
    LinearSeparable(b, m);
    LinearSeparable(d, Mul(b, m));
    hide Mul, ScaleTranslation, Separable, Linear;
  }

  lemma LinearSeparable(b: Matrix, m: Matrix)
    requires Linear(b)
    ensures Separable(b, m) && Separable(m, b) && forall v :: ScaleTranslation(b, v) == b
  {
    hide Mul;
  }

  lemma ConvertTwice(c: Conversion, e: Conversion, m: Matrix, uv: real)
    requires c.Proper() && e.Proper() && uv == c.unit * e.unit
    ensures e.ConvertMatrix(c.ConvertMatrix(m))
         == Conjugate(Mul(e.Basis(), c.Basis()), ScaleTranslation(m, uv),
                      Mul(c.Basis().Transpose(), e.Basis().Transpose()))
  {
    var b, d := c.Basis(), c.Basis().Transpose();
    var s := ScaleTranslation(m, c.unit);
    BasisLinear(c);
    ScaledTwice(m, c.unit, e.unit, uv);
    hide Mul, ScaleTranslation, Linear, Conversion.Basis;
    ScaleTurned(b, d, s, e.unit);
    ConjugateTwice(e.Basis(), b, ScaleTranslation(s, e.unit), d, e.Basis().Transpose());
  }

  lemma BasesCompose(ab: Conversion, bc: Conversion, ac: Conversion, a: Context, b: Context, c: Context)
    requires Converts(ab, a, b) && Converts(bc, b, c) && Converts(ac, a, c)
    ensures Mul(bc.Basis(), ab.Basis()) == ac.Basis()
    ensures Mul(ab.Basis().Transpose(), bc.Basis().Transpose()) == ac.Basis().Transpose()
  {
    BasisMeaning(ab, a, b);
    BasisMeaning(bc, b, c);
    BasisMeaning(ac, a, c);
    FrameOrthonormal(b);
    hide Mul, Frame, Converts, Conversion.Basis;
    var fa, fb, fc := Frame(a), Frame(b), Frame(c);
    Regroup(fc.Transpose(), fb, fb.Transpose(), fa);
    MulIdentity(fc.Transpose());
    Regroup(fa.Transpose(), fb, fb.Transpose(), fc);
    MulIdentity(fa.Transpose());
  }

  /** Going through an intermediate context is going directly, for every matrix. */
  lemma ConversionsCompose(ab: Conversion, bc: Conversion, ac: Conversion, a: Context, b: Context, c: Context,
                           m: Matrix)
    requires Converts(ab, a, b) && Converts(bc, b, c) && Converts(ac, a, c)
    ensures bc.ConvertMatrix(ab.ConvertMatrix(m)) == ac.ConvertMatrix(m)
    ensures ab.unit * bc.unit == ac.unit
  {
    UnitsOf(ab, bc, ac, a, b, c);
    ConvertsIsProper(ab, a, b);
    ConvertsIsProper(bc, b, c);
    BasesCompose(ab, bc, ac, a, b, c);
    ConvertTwice(ab, bc, m, ac.unit);
    hide Mul, ScaleTranslation, Converts, Conversion.Basis;
  }

  /** There and back restores every matrix. */
  lemma ConversionRoundTrip(ab: Conversion, ba: Conversion, a: Context, b: Context, m: Matrix)
    requires Converts(ab, a, b) && Converts(ba, b, a)
    ensures ba.ConvertMatrix(ab.ConvertMatrix(m)) == m
  {
    IdentityConverts(a);
    ConversionsCompose(ab, ba, IDENTITY_CONVERSION, a, b, a, m);
    IdentityConversion(IDENTITY_CONVERSION, m);
  }

  lemma IdentityConverts(a: Context)
    requires a.Valid()
    ensures Converts(IDENTITY_CONVERSION, a, a)
  {
    MetresPositive(a.distance);
  }
}
