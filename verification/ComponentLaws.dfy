// Converting a component and then building its matrix is building its matrix and then converting that
// (src/o3ds/context.cpp, src/o3ds/math.cpp).

module ComponentLaws {
  import opened Matrices
  import opened Contexts

  /** The row with v in column k and zero elsewhere. */
  function Only(k: nat, v: real): Row
    requires k < 4
  {
    Row(0.0, 0.0, 0.0, 0.0).With(k, v)
  }

  lemma CombineOnly(k: nat, v: real, m: Matrix)
    requires k < 4
    ensures Combine(Only(k, v), m) == Times(v, m.RowAt(k))
  {
  }

  lemma DotOnly(a: Row, k: nat, v: real)
    requires k < 4
    ensures Dot(a, Only(k, v).x, Only(k, v).y, Only(k, v).z, Only(k, v).w) == a.At(k) * v
  {
  }

  lemma BasisRows(c: Conversion)
    requires c.Proper()
    ensures c.Basis() == Matrix(Only(c.remap[0], c.sign[0]), Only(c.remap[1], c.sign[1]),
                                Only(c.remap[2], c.sign[2]), Only(3, 1.0))
  {
  }

  /** The row b, permuted and signed. */
  function Permuted(c: Conversion, b: Row): Row
    requires c.Proper()
  {
    Row(b.At(c.remap[0]) * c.sign[0], b.At(c.remap[1]) * c.sign[1], b.At(c.remap[2]) * c.sign[2], b.w)
  }

  /** A row of the product with the transposed basis. */
  lemma CombineTransposed(a: Row, c: Conversion)
    requires c.Proper()
    ensures Combine(a, c.Basis().Transpose()) == Permuted(c, a)
  {
    BasisRows(c);
    hide Conversion.Basis;
    DotOnly(a, c.remap[0], c.sign[0]);
    DotOnly(a, c.remap[1], c.sign[1]);
    DotOnly(a, c.remap[2], c.sign[2]);
    DotOnly(a, 3, 1.0);
    hide Dot, Only;
  }

  /** Row i of a converted matrix, from the row a that the permutation names. */
  function ConvertedRow(c: Conversion, i: nat, a: Row): Row
    requires c.Proper() && i < 3
  {
    Permuted(c, Times(c.sign[i], ScaleLast(a, c.unit)))
  }

  lemma ConvertRow(c: Conversion, m: Matrix, i: nat)
    requires c.Proper() && m.Affine() && i < 3
    ensures Combine(Combine(Only(c.remap[i], c.sign[i]), ScaleTranslation(m, c.unit)), c.Basis().Transpose())
         == ConvertedRow(c, i, m.RowAt(c.remap[i]))
  {
    hide Combine, Conversion.Basis, Only, Permuted, Times, ScaleLast;
    CombineOnly(c.remap[i], c.sign[i], ScaleTranslation(m, c.unit));
    CombineTransposed(Times(c.sign[i], ScaleTranslation(m, c.unit).RowAt(c.remap[i])), c);
  }

  lemma ConvertEntries(c: Conversion, m: Matrix)
    requires c.Proper() && m.Affine()
    ensures c.ConvertMatrix(m)
         == Matrix(ConvertedRow(c, 0, m.RowAt(c.remap[0])), ConvertedRow(c, 1, m.RowAt(c.remap[1])),
                   ConvertedRow(c, 2, m.RowAt(c.remap[2])), Row(0.0, 0.0, 0.0, 1.0))
  {
    hide Combine, Conversion.Basis, Only;
    var n := ScaleTranslation(m, c.unit);
    BasisRows(c);
    ConvertRow(c, m, 0);
    ConvertRow(c, m, 1);
    ConvertRow(c, m, 2);
    CombineOnly(3, 1.0, n);
    CombineTransposed(Row(0.0, 0.0, 0.0, 1.0), c);
  }

  lemma RowEntry(c: Conversion, a: Row, i: nat, j: nat)
    requires c.Proper() && i < 3 && j < 3
    ensures ConvertedRow(c, i, a).At(j) == c.sign[i] * a.At(c.remap[j]) * c.sign[j]
  {
    hide Times, Permuted, ScaleLast, Row.At;
    var b := Times(c.sign[i], ScaleLast(a, c.unit));
    ScaledAt(c.sign[i], a, c.unit, c.remap[j]);
    PermutedAt(c, b, j);
    TimesEqual(b.At(c.remap[j]), c.sign[i] * a.At(c.remap[j]), c.sign[j]);
  }

  lemma ScaledAt(v: real, a: Row, u: real, k: nat)
    requires k < 3
    ensures Times(v, ScaleLast(a, u)).At(k) == v * a.At(k)
  {
    if k == 0 {} else if k == 1 {} else {}
  }

  lemma PermutedAt(c: Conversion, b: Row, j: nat)
    requires c.Proper() && j < 3
    ensures Permuted(c, b).At(j) == b.At(c.remap[j]) * c.sign[j]
  {
    hide Conversion.Proper;
    if j == 0 {} else if j == 1 {} else {}
  }

  lemma TimesEqual(x: real, y: real, s: real)
    requires x == y
    ensures x * s == y * s
  {
  }

  lemma RowLast(c: Conversion, a: Row, i: nat)
    requires c.Proper() && i < 3
    ensures ConvertedRow(c, i, a).w == c.sign[i] * (a.w * c.unit)
  {
  }

  lemma RowsEqual(a: Row, b: Row, i: nat, j: nat, k: nat)
    requires i < 3 && j < 3 && k < 3 && i != j && i != k && j != k
    requires a.At(i) == b.At(i) && a.At(j) == b.At(j) && a.At(k) == b.At(k) && a.w == b.w
    ensures a == b
  {
  }

  lemma SignTwice(s: real, x: real)
    requires s == 1.0 || s == -1.0
    ensures s * x * s == x
  {
  }

  /** A row whose only entry on the left is d, on the diagonal, keeps it there. */
  lemma DiagonalRow(c: Conversion, a: Row, d: real, i: nat, j: nat, k: nat)
    requires c.Proper() && i < 3 && j < 3 && k < 3 && i != j && i != k && j != k
    requires a == Only(c.remap[i], d).(w := a.w)
    ensures ConvertedRow(c, i, a) == Only(i, d).(w := c.sign[i] * (a.w * c.unit))
  {
    var b := Only(i, d).(w := c.sign[i] * (a.w * c.unit));
    assert a.At(c.remap[i]) == d && a.At(c.remap[j]) == 0.0 && a.At(c.remap[k]) == 0.0;
    assert b.At(i) == d && b.At(j) == 0.0 && b.At(k) == 0.0;
    hide ConvertedRow, Only, Row.At;
    RowEntry(c, a, i, i);
    RowEntry(c, a, i, j);
    RowEntry(c, a, i, k);
    RowLast(c, a, i);
    SignTwice(c.sign[i], a.At(c.remap[i]));
    RowsEqual(ConvertedRow(c, i, a), b, i, j, k);
  }

  lemma ConvertTranslate(c: Conversion, t: Vec3)
    requires c.Proper()
    ensures c.ConvertMatrix(Translate(t)) == Translate(c.ConvertTranslation(t))
  {
    hide Conversion.ConvertMatrix, ConvertedRow, Conversion.ConvertTranslation;
    ConvertEntries(c, Translate(t));
    TranslateRow(c, t, 0, 1, 2);
    TranslateRow(c, t, 1, 2, 0);
    TranslateRow(c, t, 2, 0, 1);
  }

  lemma TranslateRow(c: Conversion, t: Vec3, i: nat, j: nat, k: nat)
    requires c.Proper() && i < 3 && j < 3 && k < 3 && i != j && i != k && j != k
    ensures ConvertedRow(c, i, Translate(t).RowAt(c.remap[i])) == Translate(c.ConvertTranslation(t)).RowAt(i)
  {
    hide ConvertedRow, Only, Translate, Matrix.RowAt, Vec3.At;
    TranslateAt(t, c.remap[i]);
    TranslateAt(c.ConvertTranslation(t), i);
    DiagonalRow(c, Translate(t).RowAt(c.remap[i]), 1.0, i, j, k);
    TranslationAt(c, t, i);
  }

  lemma TranslateAt(t: Vec3, k: nat)
    requires k < 3
    ensures Translate(t).RowAt(k) == Only(k, 1.0).(w := t.At(k))
  {
  }

  lemma TranslationAt(c: Conversion, t: Vec3, i: nat)
    requires c.Proper() && i < 3
    ensures c.ConvertTranslation(t).At(i) == c.sign[i] * (t.At(c.remap[i]) * c.unit)
  {
    hide Vec3.At;
    Sides(c.sign[i], t.At(c.remap[i]), c.unit);
    ComponentAt(c.ConvertTranslation(t), i, t.At(c.remap[0]) * c.sign[0] * c.unit,
                t.At(c.remap[1]) * c.sign[1] * c.unit, t.At(c.remap[2]) * c.sign[2] * c.unit);
  }

  lemma ComponentAt(v: Vec3, i: nat, x: real, y: real, z: real)
    requires i < 3 && v == Vec3(x, y, z)
    ensures v.At(i) == if i == 0 then x else if i == 1 then y else z
  {
  }

  lemma Sides(x: real, y: real, z: real)
    ensures x * (y * z) == y * x * z
  {
  }

  lemma ConvertScale(c: Conversion, s: Vec3)
    requires c.Proper()
    ensures c.ConvertMatrix(Scale(s)) == Scale(c.ConvertScale(s))
  {
    hide Conversion.ConvertMatrix, ConvertedRow, Conversion.ConvertScale;
    ConvertEntries(c, Scale(s));
    ScaleRow(c, s, 0, 1, 2);
    ScaleRow(c, s, 1, 2, 0);
    ScaleRow(c, s, 2, 0, 1);
  }

  lemma ScaleRow(c: Conversion, s: Vec3, i: nat, j: nat, k: nat)
    requires c.Proper() && i < 3 && j < 3 && k < 3 && i != j && i != k && j != k
    ensures ConvertedRow(c, i, Scale(s).RowAt(c.remap[i])) == Scale(c.ConvertScale(s)).RowAt(i)
  {
    var d := s.At(c.remap[i]);
    assert Scale(s).RowAt(c.remap[i]) == Only(c.remap[i], d);
    assert Scale(c.ConvertScale(s)).RowAt(i) == Only(i, d) && Only(i, d).w == 0.0;
    hide ConvertedRow, Conversion.ConvertScale, Scale, Matrix.RowAt;
    DiagonalRow(c, Scale(s).RowAt(c.remap[i]), d, i, j, k);
  }

  // Entries of a rotation matrix, by index. Off the diagonal, the three axes are the two indices and the one left.

  function Imaginary(q: Quaternion, a: nat): real {
    if a == 0 then q.x else if a == 1 then q.y else q.z
  }

  predicate Cyclic(a: nat, b: nat) {
    (a == 0 && b == 1) || (a == 1 && b == 2) || (a == 2 && b == 0)
  }

  predicate Even(remap: seq<nat>) {
    remap == [0, 1, 2] || remap == [1, 2, 0] || remap == [2, 0, 1]
  }

  predicate Sign(s: real) {
    s == 1.0 || s == -1.0
  }

  lemma TurnEntry(q: Quaternion, a: nat, b: nat, c: nat)
    requires a < 3 && b < 3 && c < 3 && a != b && a != c && b != c
    ensures FromQuaternion(q).At(a, b)
         == Turn(Imaginary(q, a), Imaginary(q, b), Imaginary(q, c), if Cyclic(a, b) then q.w else -q.w)
  {
    hide Turn, Keep;
  }

  lemma KeepEntry(q: Quaternion, a: nat, b: nat, c: nat)
    requires a < 3 && b < 3 && c < 3 && a != b && a != c && b != c
    ensures FromQuaternion(q).At(a, a) == Keep(Imaginary(q, b), Imaginary(q, c))
  {
    assert forall y, z :: Keep(y, z) == Keep(z, y);
    hide Turn, Keep;
  }

  lemma SignedTurn(s: real, t: real, r: real, x: real, y: real, z: real, w: real,
                   x': real, y': real, z': real, w': real)
    requires Sign(s) && Sign(t) && Sign(r) && w' == if s * t * r > 0.0 then w else -w
    requires x' == x * s && y' == y * t && z' == z * r
    ensures Turn(x', y', z', w') == s * Turn(x, y, z, w) * t
  {
  }

  lemma SignedKeep(s: real, t: real, y: real, z: real, y': real, z': real)
    requires Sign(s) && Sign(t)
    requires y' == y * s && z' == z * t
    ensures Keep(y', z') == Keep(y, z)
  {
  }

  /** The sign of w makes up for a handedness flip. */
  lemma Handedness(c: Conversion)
    requires c.Proper()
    ensures c.FlipsHandedness() <==> (c.sign[0] * c.sign[1] * c.sign[2] < 0.0) == Even(c.remap)
  {
    assert c.remap == [c.remap[0], c.remap[1], c.remap[2]];
  }

  lemma ImaginaryConverted(c: Conversion, q: Quaternion, a: nat)
    requires c.Proper() && a < 3
    ensures Imaginary(c.ConvertRotation(q), a) == Imaginary(q, c.remap[a]) * c.sign[a]
  {
  }

  lemma CyclicConverted(c: Conversion, i: nat, j: nat)
    requires c.Proper() && i < 3 && j < 3 && i != j
    ensures Cyclic(c.remap[i], c.remap[j]) <==> (Cyclic(i, j) <==> Even(c.remap))
  {
    assert c.remap == [c.remap[0], c.remap[1], c.remap[2]];
  }

  lemma SignProduct(c: Conversion, i: nat, j: nat, k: nat)
    requires c.Proper() && i < 3 && j < 3 && k < 3 && i != j && i != k && j != k
    ensures c.sign[0] * c.sign[1] * c.sign[2] == c.sign[i] * c.sign[j] * c.sign[k]
    ensures Sign(c.sign[0] * c.sign[1] * c.sign[2])
  {
  }

  lemma TurnConverted(c: Conversion, q: Quaternion, i: nat, j: nat, k: nat)
    requires c.Proper() && i < 3 && j < 3 && k < 3 && i != j && i != k && j != k
    ensures FromQuaternion(c.ConvertRotation(q)).At(i, j)
         == c.sign[i] * FromQuaternion(q).At(c.remap[i], c.remap[j]) * c.sign[j]
  {
    hide FromQuaternion, Turn, Keep, Imaginary, Even, Cyclic, Conversion.FlipsHandedness;
    var q', r, s := c.ConvertRotation(q), c.remap, c.sign;
    assert q'.w == if c.FlipsHandedness() then -q.w else q.w;
    ImaginaryConverted(c, q, i);
    ImaginaryConverted(c, q, j);
    ImaginaryConverted(c, q, k);
    hide Conversion.ConvertRotation;
    TurnEntry(q', i, j, k);
    TurnEntry(q, r[i], r[j], r[k]);
    Handedness(c);
    CyclicConverted(c, i, j);
    SignProduct(c, i, j, k);
    SignedTurn(s[i], s[j], s[k], Imaginary(q, r[i]), Imaginary(q, r[j]), Imaginary(q, r[k]),
               if Cyclic(r[i], r[j]) then q.w else -q.w,
               Imaginary(q', i), Imaginary(q', j), Imaginary(q', k), if Cyclic(i, j) then q'.w else -q'.w);
  }

  lemma KeepConverted(c: Conversion, q: Quaternion, i: nat, j: nat, k: nat)
    requires c.Proper() && i < 3 && j < 3 && k < 3 && i != j && i != k && j != k
    ensures FromQuaternion(c.ConvertRotation(q)).At(i, i)
         == c.sign[i] * FromQuaternion(q).At(c.remap[i], c.remap[i]) * c.sign[i]
  {
    hide FromQuaternion, Turn, Keep, Imaginary, Conversion.ConvertRotation;
    var q', r, s := c.ConvertRotation(q), c.remap, c.sign;
    KeepEntry(q', i, j, k);
    KeepEntry(q, r[i], r[j], r[k]);
    ImaginaryConverted(c, q, j);
    ImaginaryConverted(c, q, k);
    SignedKeep(s[j], s[k], Imaginary(q, r[j]), Imaginary(q, r[k]), Imaginary(q', j), Imaginary(q', k));
    SignTwice(s[i], FromQuaternion(q).At(r[i], r[i]));
  }

  lemma ConvertQuaternion(c: Conversion, q: Quaternion)
    requires c.Proper()
    ensures c.ConvertMatrix(FromQuaternion(q)) == FromQuaternion(c.ConvertRotation(q))
  {
    hide Conversion.ConvertMatrix, ConvertedRow, Conversion.ConvertRotation, Turn, Keep;
    ConvertEntries(c, FromQuaternion(q));
    RotationRow(c, q, 0, 1, 2);
    RotationRow(c, q, 1, 2, 0);
    RotationRow(c, q, 2, 0, 1);
  }

  lemma RotationRow(c: Conversion, q: Quaternion, i: nat, j: nat, k: nat)
    requires c.Proper() && i < 3 && j < 3 && k < 3 && i != j && i != k && j != k
    ensures ConvertedRow(c, i, FromQuaternion(q).RowAt(c.remap[i])) == FromQuaternion(c.ConvertRotation(q)).RowAt(i)
  {
    hide FromQuaternion, Turn, Keep, ConvertedRow, Conversion.ConvertRotation, Matrix.RowAt, Row.At;
    var a, b := FromQuaternion(q).RowAt(c.remap[i]), FromQuaternion(c.ConvertRotation(q)).RowAt(i);
    RotationLast(q, c.remap[i]);
    RotationLast(c.ConvertRotation(q), i);
    RowLast(c, a, i);
    KeepConverted(c, q, i, j, k);
    TurnConverted(c, q, i, j, k);
    TurnConverted(c, q, i, k, j);
    RowEntry(c, a, i, i);
    RowEntry(c, a, i, j);
    RowEntry(c, a, i, k);
    RowsEqual(ConvertedRow(c, i, a), b, i, j, k);
  }

  lemma RotationLast(q: Quaternion, k: nat)
    requires k < 3
    ensures FromQuaternion(q).RowAt(k).w == 0.0
  {
    hide Turn, Keep;
  }
}
