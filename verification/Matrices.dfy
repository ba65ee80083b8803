// Vectors, quaternions and 4x4 matrices over the reals (src/o3ds/math.cpp, Eigen).

module Matrices {

  datatype Vec3 = Vec3(x: real, y: real, z: real) {
    function At(j: nat): real
      requires j < 3
    {
      if j == 0 then x else if j == 1 then y else z
    }
  }

  /** The scalar part comes first, as in Eigen's constructor. */
  datatype Quaternion = Quaternion(w: real, x: real, y: real, z: real)

  datatype Row = Row(x: real, y: real, z: real, w: real) {
    function At(j: nat): real
      requires j < 4
    {
      if j == 0 then x else if j == 1 then y else if j == 2 then z else w
    }

    function With(j: nat, v: real): Row
      requires j < 4
    {
      if j == 0 then this.(x := v) else if j == 1 then this.(y := v)
      else if j == 2 then this.(z := v) else this.(w := v)
    }
  }

  datatype Matrix = Matrix(r0: Row, r1: Row, r2: Row, r3: Row) {
    function RowAt(i: nat): Row
      requires i < 4
    {
      if i == 0 then r0 else if i == 1 then r1 else if i == 2 then r2 else r3
    }

    function At(i: nat, j: nat): real
      requires i < 4 && j < 4
    {
      RowAt(i).At(j)
    }

    function With(i: nat, j: nat, v: real): Matrix
      requires i < 4 && j < 4
    {
      if i == 0 then this.(r0 := r0.With(j, v)) else if i == 1 then this.(r1 := r1.With(j, v))
      else if i == 2 then this.(r2 := r2.With(j, v)) else this.(r3 := r3.With(j, v))
    }

    function Transpose(): Matrix {
      Matrix(Row(r0.x, r1.x, r2.x, r3.x), Row(r0.y, r1.y, r2.y, r3.y),
             Row(r0.z, r1.z, r2.z, r3.z), Row(r0.w, r1.w, r2.w, r3.w))
    }

    predicate Affine() {
      r3 == Row(0.0, 0.0, 0.0, 1.0)
    }
  }

  const ZERO := Matrix(Row(0.0, 0.0, 0.0, 0.0), Row(0.0, 0.0, 0.0, 0.0),
                       Row(0.0, 0.0, 0.0, 0.0), Row(0.0, 0.0, 0.0, 0.0))

  const IDENTITY := Diagonal(1.0, 1.0, 1.0)

  function Diagonal(a: real, b: real, c: real): Matrix {
    Matrix(Row(a, 0.0, 0.0, 0.0), Row(0.0, b, 0.0, 0.0), Row(0.0, 0.0, c, 0.0), Row(0.0, 0.0, 0.0, 1.0))
  }

  function Dot(a: Row, x: real, y: real, z: real, w: real): real {
    a.x * x + a.y * y + a.z * z + a.w * w
  }

  /** The row vector a times the matrix m. */
  function Combine(a: Row, m: Matrix): Row {
    Row(Dot(a, m.r0.x, m.r1.x, m.r2.x, m.r3.x), Dot(a, m.r0.y, m.r1.y, m.r2.y, m.r3.y),
        Dot(a, m.r0.z, m.r1.z, m.r2.z, m.r3.z), Dot(a, m.r0.w, m.r1.w, m.r2.w, m.r3.w))
  }

  function Mul(a: Matrix, b: Matrix): Matrix {
    Matrix(Combine(a.r0, b), Combine(a.r1, b), Combine(a.r2, b), Combine(a.r3, b))
  }

  // ----- math.cpp ---------------------------------------------------------

  function Translate(t: Vec3): Matrix {
    Matrix(Row(1.0, 0.0, 0.0, t.x), Row(0.0, 1.0, 0.0, t.y), Row(0.0, 0.0, 1.0, t.z), Row(0.0, 0.0, 0.0, 1.0))
  }

  function Scale(s: Vec3): Matrix {
    Diagonal(s.x, s.y, s.z)
  }

  /** An entry of a rotation matrix off the diagonal, in row x and column y, with z the remaining axis. */
  function Turn(x: real, y: real, z: real, w: real): real {
    2.0 * x * y - 2.0 * z * w
  }

  /** The diagonal entry of a rotation matrix whose other two axes are y and z. */
  function Keep(y: real, z: real): real {
    1.0 - (2.0 * y * y + 2.0 * z * z)
  }

  /** Eigen's Quaternion::toRotationMatrix, which does not normalise, in the upper left block. */
  function FromQuaternion(q: Quaternion): Matrix {
    Matrix(Row(Keep(q.y, q.z), Turn(q.x, q.y, q.z, q.w), Turn(q.x, q.z, q.y, -q.w), 0.0),
           Row(Turn(q.y, q.x, q.z, -q.w), Keep(q.x, q.z), Turn(q.y, q.z, q.x, q.w), 0.0),
           Row(Turn(q.z, q.x, q.y, q.w), Turn(q.z, q.y, q.x, -q.w), Keep(q.x, q.y), 0.0),
           Row(0.0, 0.0, 0.0, 1.0))
  }

  // ----- Algebra ----------------------------------------------------------

  function Plus(a: Row, b: Row): Row {
    Row(a.x + b.x, a.y + b.y, a.z + b.z, a.w + b.w)
  }

  function Times(k: real, a: Row): Row {
    Row(k * a.x, k * a.y, k * a.z, k * a.w)
  }

  lemma DotTerms(a: Row, x: real, y: real, z: real, w: real, p: real, q: real, r: real, s: real)
    requires p == a.x * x && q == a.y * y && r == a.z * z && s == a.w * w
    ensures Dot(a, x, y, z, w) == p + q + r + s
  {
  }

  /** A row times a matrix is a combination of the matrix's rows. */
  lemma CombineRows(a: Row, m: Matrix)
    ensures Combine(a, m) == Plus(Plus(Plus(Times(a.x, m.r0), Times(a.y, m.r1)), Times(a.z, m.r2)), Times(a.w, m.r3))
  {
    TimesEntries(a.x, m.r0);
    TimesEntries(a.y, m.r1);
    TimesEntries(a.z, m.r2);
    TimesEntries(a.w, m.r3);
    hide Dot, Times;
    var p, q, r, s := Times(a.x, m.r0), Times(a.y, m.r1), Times(a.z, m.r2), Times(a.w, m.r3);
    DotTerms(a, m.r0.x, m.r1.x, m.r2.x, m.r3.x, p.x, q.x, r.x, s.x);
    DotTerms(a, m.r0.y, m.r1.y, m.r2.y, m.r3.y, p.y, q.y, r.y, s.y);
    DotTerms(a, m.r0.z, m.r1.z, m.r2.z, m.r3.z, p.z, q.z, r.z, s.z);
    DotTerms(a, m.r0.w, m.r1.w, m.r2.w, m.r3.w, p.w, q.w, r.w, s.w);
  }

  lemma PlusExchange(a: Row, b: Row, c: Row, d: Row)
    ensures Plus(Plus(a, b), Plus(c, d)) == Plus(Plus(a, c), Plus(b, d))
  {
  }

  lemma TimesPlus(k: real, a: Row, b: Row)
    ensures Times(k, Plus(a, b)) == Plus(Times(k, a), Times(k, b))
  {
  }

  lemma TimesSum(k: real, l: real, sum: real, a: Row)
    requires sum == k + l
    ensures Times(sum, a) == Plus(Times(k, a), Times(l, a))
  {
  }

  lemma TimesTimes(k: real, l: real, kl: real, a: Row)
    requires kl == k * l
    ensures Times(kl, a) == Times(k, Times(l, a))
  {
  }

  lemma TimesEntries(k: real, a: Row)
    ensures Times(k, a).x == k * a.x && Times(k, a).y == k * a.y
    ensures Times(k, a).z == k * a.z && Times(k, a).w == k * a.w
  {
  }

  lemma PlusEntries(a: Row, b: Row)
    ensures Plus(a, b).x == a.x + b.x && Plus(a, b).y == a.y + b.y
    ensures Plus(a, b).z == a.z + b.z && Plus(a, b).w == a.w + b.w
  {
  }

  lemma CombineTimes(k: real, a: Row, m: Matrix)
    ensures Combine(Times(k, a), m) == Times(k, Combine(a, m))
  {
    hide Combine, Times, Plus;
    var ka := Times(k, a);
    TimesEntries(k, a);
    TimesTimes(k, a.x, ka.x, m.r0);
    TimesTimes(k, a.y, ka.y, m.r1);
    TimesTimes(k, a.z, ka.z, m.r2);
    TimesTimes(k, a.w, ka.w, m.r3);
    CombineRows(ka, m);
    CombineRows(a, m);
    TimesPlus(k, Times(a.x, m.r0), Times(a.y, m.r1));
    TimesPlus(k, Plus(Times(a.x, m.r0), Times(a.y, m.r1)), Times(a.z, m.r2));
    TimesPlus(k, Plus(Plus(Times(a.x, m.r0), Times(a.y, m.r1)), Times(a.z, m.r2)), Times(a.w, m.r3));
  }

  lemma CombinePlus(a: Row, b: Row, m: Matrix)
    ensures Combine(Plus(a, b), m) == Plus(Combine(a, m), Combine(b, m))
  {
    hide Combine, Times, Plus;
    var s := Plus(a, b);
    PlusEntries(a, b);
    TimesSum(a.x, b.x, s.x, m.r0);
    TimesSum(a.y, b.y, s.y, m.r1);
    TimesSum(a.z, b.z, s.z, m.r2);
    TimesSum(a.w, b.w, s.w, m.r3);
    CombineRows(s, m);
    CombineRows(a, m);
    CombineRows(b, m);
    PlusExchange(Times(a.x, m.r0), Times(b.x, m.r0), Times(a.y, m.r1), Times(b.y, m.r1));
    var p, q := Plus(Times(a.x, m.r0), Times(a.y, m.r1)), Plus(Times(b.x, m.r0), Times(b.y, m.r1));
    PlusExchange(p, q, Times(a.z, m.r2), Times(b.z, m.r2));
    PlusExchange(Plus(p, Times(a.z, m.r2)), Plus(q, Times(b.z, m.r2)), Times(a.w, m.r3), Times(b.w, m.r3));
  }

  lemma CombineAssociates(a: Row, b: Matrix, c: Matrix)
    ensures Combine(Combine(a, b), c) == Combine(a, Mul(b, c))
  {
    hide Combine, Times, Plus;
    CombineRows(a, b);
    CombineRows(a, Mul(b, c));
    CombineTimes(a.x, b.r0, c);
    CombineTimes(a.y, b.r1, c);
    CombineTimes(a.z, b.r2, c);
    CombineTimes(a.w, b.r3, c);
    CombinePlus(Times(a.x, b.r0), Times(a.y, b.r1), c);
    CombinePlus(Plus(Times(a.x, b.r0), Times(a.y, b.r1)), Times(a.z, b.r2), c);
    CombinePlus(Plus(Plus(Times(a.x, b.r0), Times(a.y, b.r1)), Times(a.z, b.r2)), Times(a.w, b.r3), c);
  }

  lemma MulAssociates(a: Matrix, b: Matrix, c: Matrix)
    ensures Mul(Mul(a, b), c) == Mul(a, Mul(b, c))
  {
    CombineAssociates(a.r0, b, c);
    CombineAssociates(a.r1, b, c);
    CombineAssociates(a.r2, b, c);
    CombineAssociates(a.r3, b, c);
  }

  lemma MulIdentity(m: Matrix)
    ensures Mul(m, IDENTITY) == m && Mul(IDENTITY, m) == m
  {
  }

  lemma MulAffine(a: Matrix, b: Matrix)
    requires a.Affine() && b.Affine()
    ensures Mul(a, b).Affine()
  {
  }

  /** (a b)(c d) == a (b c) d */
  lemma Regroup(a: Matrix, b: Matrix, c: Matrix, d: Matrix)
    ensures Mul(Mul(a, b), Mul(c, d)) == Mul(Mul(a, Mul(b, c)), d)
  {
    MulAssociates(Mul(a, b), c, d);
    MulAssociates(a, b, c);
  }

  // ----- Conjugation ------------------------------------------------------

  /** c m d, the matrix m seen through the change of coordinates c with inverse d. */
  function Conjugate(c: Matrix, m: Matrix, d: Matrix): Matrix {
    Mul(Mul(c, m), d)
  }

  predicate Inverses(c: Matrix, d: Matrix) {
    Mul(c, d) == IDENTITY && Mul(d, c) == IDENTITY
  }

  lemma ConjugateMul(c: Matrix, d: Matrix, m: Matrix, n: Matrix)
    requires Inverses(c, d)
    ensures Conjugate(c, Mul(m, n), d) == Mul(Conjugate(c, m, d), Conjugate(c, n, d))
  {
    calc {
      Mul(Conjugate(c, m, d), Conjugate(c, n, d));
      { MulAssociates(c, n, d); }
      Mul(Mul(Mul(c, m), d), Mul(c, Mul(n, d)));
      { Regroup(Mul(c, m), d, c, Mul(n, d)); }
      Mul(Mul(Mul(c, m), Mul(d, c)), Mul(n, d));
      { MulIdentity(Mul(c, m)); }
      Mul(Mul(c, m), Mul(n, d));
      { Regroup(c, m, n, d); }
      Conjugate(c, Mul(m, n), d);
    }
  }

  /** Conjugations compose. */
  lemma ConjugateTwice(b: Matrix, c: Matrix, m: Matrix, d: Matrix, e: Matrix)
    ensures Conjugate(b, Conjugate(c, m, d), e) == Conjugate(Mul(b, c), m, Mul(d, e))
  {
    calc {
      Conjugate(b, Conjugate(c, m, d), e);
      { MulAssociates(b, Mul(c, m), d); MulAssociates(b, c, m); }
      Mul(Mul(Mul(Mul(b, c), m), d), e);
      { MulAssociates(Mul(Mul(b, c), m), d, e); }
      Conjugate(Mul(b, c), m, Mul(d, e));
    }
  }

  lemma ConjugateIdentity(m: Matrix)
    ensures Conjugate(IDENTITY, m, IDENTITY) == m
  {
    MulIdentity(m);
  }

  /** The product of two invertible matrices is inverted by the inverses in reverse order. */
  lemma MulInverses(a: Matrix, a': Matrix, b: Matrix, b': Matrix)
    requires Inverses(a, a') && Inverses(b, b')
    ensures Inverses(Mul(a, b), Mul(b', a'))
  {
    Regroup(a, b, b', a');
    Regroup(b', a', a, b);
    MulIdentity(a);
    MulIdentity(b');
  }
}
