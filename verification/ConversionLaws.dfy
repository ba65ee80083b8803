// What a conversion means. Every valid context places its three axes in one shared space, measured in
// metres; converting between two contexts is leaving one for the shared space and entering the other.

module ConversionLaws {
  import opened Matrices
  import opened Contexts

  // ----- The shared space -------------------------------------------------

  /** The unit vector a direction points along. */
  function Along(d: Direction): Vec3 {
    match d
    case Right => Vec3(1.0, 0.0, 0.0)
    case Left => Vec3(-1.0, 0.0, 0.0)
    case Up => Vec3(0.0, 1.0, 0.0)
    case Down => Vec3(0.0, -1.0, 0.0)
    case Forward => Vec3(0.0, 0.0, 1.0)
    case Back => Vec3(0.0, 0.0, -1.0)
    case _ => Vec3(0.0, 0.0, 0.0)
  }

  function Columns(u: Vec3, v: Vec3, w: Vec3): Matrix {
    Matrix(Row(u.x, v.x, w.x, 0.0), Row(u.y, v.y, w.y, 0.0), Row(u.z, v.z, w.z, 0.0), Row(0.0, 0.0, 0.0, 1.0))
  }

  /** The columns are the context's axes in the shared space. */
  function Frame(ctx: Context): Matrix {
    Columns(Along(ctx.x), Along(ctx.y), Along(ctx.z))
  }

  function Uniform(u: real): Matrix {
    Diagonal(u, u, u)
  }

  /** From coordinates of ctx to metres in the shared space, and back. */
  function Out(ctx: Context): Matrix {
    Mul(Frame(ctx), Uniform(Metres(ctx.distance)))
  }

  function In(ctx: Context): Matrix {
    Mul(Uniform(1.0 / Metres(ctx.distance)), Frame(ctx).Transpose())
  }

  /** The motion m of ctx, as a motion of the shared space. */
  function InWorld(ctx: Context, m: Matrix): Matrix {
    Conjugate(Out(ctx), m, In(ctx))
  }

  function FromWorld(ctx: Context, m: Matrix): Matrix {
    Conjugate(In(ctx), m, Out(ctx))
  }

  function Inner(u: Vec3, v: Vec3): real {
    u.x * v.x + u.y * v.y + u.z * v.z
  }

  /** Two directions on one line are equal or opposite; on different lines they are perpendicular. */
  lemma AlongInner(d: Direction, e: Direction)
    requires AxisId(d) != 0 && AxisId(e) != 0
    ensures Inner(Along(d), Along(e)) == if AxisId(d) != AxisId(e) then 0.0 else if d == e then 1.0 else -1.0
  {
  }

  lemma AlongLength(d: Direction)
    ensures Inner(Along(d), Along(d)) == if AxisId(d) == 0 then 0.0 else 1.0
  {
  }

  /** A context is valid exactly when its unit is known and its axes are unit vectors at right angles. */
  lemma ValidMeaning(ctx: Context)
    ensures ctx.Valid() <==>
      && ctx.distance != UnknownUnit
      && Inner(Along(ctx.x), Along(ctx.x)) == 1.0 && Inner(Along(ctx.x), Along(ctx.y)) == 0.0
      && Inner(Along(ctx.y), Along(ctx.y)) == 1.0 && Inner(Along(ctx.y), Along(ctx.z)) == 0.0
      && Inner(Along(ctx.z), Along(ctx.z)) == 1.0 && Inner(Along(ctx.x), Along(ctx.z)) == 0.0
  {
    AlongLength(ctx.x);
    AlongLength(ctx.y);
    AlongLength(ctx.z);
    if AxisId(ctx.x) != 0 && AxisId(ctx.y) != 0 && AxisId(ctx.z) != 0 {
      AlongInner(ctx.x, ctx.y);
      AlongInner(ctx.y, ctx.z);
      AlongInner(ctx.x, ctx.z);
    }
    hide Along, Inner;
  }

  /** Opposite directions, and the distance units by one another. */
  lemma Tables()
    ensures forall p :: p in [(Left, Right), (Down, Up), (Back, Forward)] ==>
              var a, b := Along(p.0), Along(p.1); a == Vec3(-b.x, -b.y, -b.z)
    ensures Metres(Meter) == 1.0 == Metres(UnknownUnit)
    ensures Metres(Centimeter) == 10.0 * Metres(Millimeter) && Metres(Meter) == 100.0 * Metres(Centimeter)
    ensures Metres(Kilometer) == 1000.0 * Metres(Meter) && Metres(Inch) == 2.54 * Metres(Centimeter)
    ensures Metres(Foot) == 12.0 * Metres(Inch) && Metres(Mile) == 5280.0 * Metres(Foot)
    ensures Metres(LightYear) == 9461000000000.0 * Metres(Kilometer)
    ensures Metres(Parsec) == 30860000000000.0 * Metres(Kilometer)
  {
  }

  lemma ColumnsProduct(u: Vec3, v: Vec3, w: Vec3, p: Vec3, q: Vec3, r: Vec3)
    ensures Mul(Columns(u, v, w).Transpose(), Columns(p, q, r))
         == Matrix(Row(Inner(u, p), Inner(u, q), Inner(u, r), 0.0), Row(Inner(v, p), Inner(v, q), Inner(v, r), 0.0),
                   Row(Inner(w, p), Inner(w, q), Inner(w, r), 0.0), Row(0.0, 0.0, 0.0, 1.0))
  {
  }

  lemma FrameColumns(ctx: Context)
    requires ctx.Valid()
    ensures Mul(Frame(ctx).Transpose(), Frame(ctx)) == IDENTITY
  {
    hide Mul, Along, Inner, Columns;
    var u, v, w := Along(ctx.x), Along(ctx.y), Along(ctx.z);
    AlongInner(ctx.x, ctx.x);
    AlongInner(ctx.x, ctx.y);
    AlongInner(ctx.x, ctx.z);
    AlongInner(ctx.y, ctx.x);
    AlongInner(ctx.y, ctx.y);
    AlongInner(ctx.y, ctx.z);
    AlongInner(ctx.z, ctx.x);
    AlongInner(ctx.z, ctx.y);
    AlongInner(ctx.z, ctx.z);
    ColumnsProduct(u, v, w, u, v, w);
  }

  lemma CombineColumns(p: real, q: real, r: real, u: Vec3, v: Vec3, w: Vec3)
    ensures Combine(Row(p, q, r, 0.0), Columns(u, v, w).Transpose())
         == Row(p * u.x + q * v.x + r * w.x, p * u.y + q * v.y + r * w.y, p * u.z + q * v.z + r * w.z, 0.0)
  {
  }

  lemma ColumnsGram(u: Vec3, v: Vec3, w: Vec3)
    ensures var m := Mul(Columns(u, v, w), Columns(u, v, w).Transpose());
            && m.r0 == Row(u.x * u.x + v.x * v.x + w.x * w.x, u.x * u.y + v.x * v.y + w.x * w.y,
                           u.x * u.z + v.x * v.z + w.x * w.z, 0.0)
            && m.r1 == Row(u.y * u.x + v.y * v.x + w.y * w.x, u.y * u.y + v.y * v.y + w.y * w.y,
                           u.y * u.z + v.y * v.z + w.y * w.z, 0.0)
            && m.r2 == Row(u.z * u.x + v.z * v.x + w.z * w.x, u.z * u.y + v.z * v.y + w.z * w.y,
                           u.z * u.z + v.z * v.z + w.z * w.z, 0.0)
            && m.r3 == Row(0.0, 0.0, 0.0, 1.0)
  {
    CombineColumns(u.x, v.x, w.x, u, v, w);
    CombineColumns(u.y, v.y, w.y, u, v, w);
    CombineColumns(u.z, v.z, w.z, u, v, w);
    assert Combine(Row(0.0, 0.0, 0.0, 1.0), Columns(u, v, w).Transpose()) == Row(0.0, 0.0, 0.0, 1.0);
    hide Combine;
  }

  lemma AlongCoordinates(d: Direction)
    ensures var u := Along(d);
            && u.x * u.y == 0.0 && u.x * u.z == 0.0 && u.y * u.z == 0.0
            && u.x * u.x == (if AxisId(d) == 1 then 1.0 else 0.0)
            && u.y * u.y == (if AxisId(d) == 2 then 1.0 else 0.0)
            && u.z * u.z == (if AxisId(d) == 3 then 1.0 else 0.0)
  {
  }

  lemma FrameRows(ctx: Context)
    requires ctx.Valid()
    ensures Mul(Frame(ctx), Frame(ctx).Transpose()) == IDENTITY
  {
    hide Mul, Along, Columns;
    ColumnsGram(Along(ctx.x), Along(ctx.y), Along(ctx.z));
    AlongCoordinates(ctx.x);
    AlongCoordinates(ctx.y);
    AlongCoordinates(ctx.z);
  }

  lemma FrameOrthonormal(ctx: Context)
    requires ctx.Valid()
    ensures Inverses(Frame(ctx), Frame(ctx).Transpose())
  {
    FrameRows(ctx);
    FrameColumns(ctx);
  }

  lemma UniformInverses(u: real)
    requires u > 0.0
    ensures Inverses(Uniform(u), Uniform(1.0 / u))
  {
  }

  lemma MetresPositive(u: DistanceUnit)
    ensures Metres(u) > 0.0
  {
  }

  lemma OutIn(ctx: Context)
    requires ctx.Valid()
    ensures Inverses(Out(ctx), In(ctx))
  {
    hide Mul, Frame, Metres;
    var u := Metres(ctx.distance);
    MetresPositive(ctx.distance);
    FrameOrthonormal(ctx);
    UniformInverses(u);
    MulInverses(Frame(ctx), Frame(ctx).Transpose(), Uniform(u), Uniform(1.0 / u));
  }

  lemma FromWorldInWorld(ctx: Context, m: Matrix)
    requires ctx.Valid()
    ensures FromWorld(ctx, InWorld(ctx, m)) == m
    ensures InWorld(ctx, FromWorld(ctx, m)) == m
  {
    hide Mul, Out, In;
    OutIn(ctx);
    ConjugateTwice(In(ctx), Out(ctx), m, In(ctx), Out(ctx));
    ConjugateTwice(Out(ctx), In(ctx), m, Out(ctx), In(ctx));
    ConjugateIdentity(m);
  }

  // ----- A conversion goes through the shared space -----------------------

  predicate Linear(m: Matrix) {
    m.Affine() && m.r0.w == 0.0 && m.r1.w == 0.0 && m.r2.w == 0.0
  }

  lemma ConvertsIsProper(c: Conversion, from: Context, to: Context)
    requires Converts(c, from, to)
    ensures c.Proper()
  {
    assert Aligns(c, from, to, 0) && Aligns(c, from, to, 1) && Aligns(c, from, to, 2);
  }

  lemma BasisAt(c: Conversion, dst: nat, src: nat)
    requires c.Proper() && dst < 3 && src < 3
    ensures c.Basis().At(dst, src) == if src == c.remap[dst] then c.sign[dst] else 0.0
  {
  }

  lemma SlotUnique(ctx: Context, s: nat, t: nat)
    requires ctx.Valid() && s < 3 && t < 3
    ensures AxisId(ctx.Axis(s)) == AxisId(ctx.Axis(t)) <==> s == t
  {
  }

  lemma AxisKnown(ctx: Context, s: nat)
    requires ctx.Valid() && s < 3
    ensures AxisId(ctx.Axis(s)) != 0
  {
  }

  /** Entry (dst, src) of the basis is the cosine between destination axis dst and source axis src. */
  lemma BasisEntry(c: Conversion, from: Context, to: Context, dst: nat, src: nat)
    requires Converts(c, from, to) && dst < 3 && src < 3
    ensures c.Basis().At(dst, src) == Inner(Along(to.Axis(dst)), Along(from.Axis(src)))
    ensures c.Basis().At(dst, src) == Inner(Along(from.Axis(src)), Along(to.Axis(dst)))
  {
    ConvertsIsProper(c, from, to);
    SlotUnique(from, c.remap[dst], src);
    AxisKnown(to, dst);
    AxisKnown(from, src);
    assert Aligns(c, from, to, dst);
    hide Along, Inner, Conversion.Basis, AxisId, Context.Valid;
    BasisAt(c, dst, src);
    AlongInner(to.Axis(dst), from.Axis(src));
    AlongInner(from.Axis(src), to.Axis(dst));
  }

  lemma BasisMeaning(c: Conversion, from: Context, to: Context)
    requires Converts(c, from, to)
    ensures c.Basis() == Mul(Frame(to).Transpose(), Frame(from))
    ensures c.Basis().Transpose() == Mul(Frame(from).Transpose(), Frame(to))
  {
    hide Mul, Along, Inner, Columns;
    var b := c.Basis();
    ConvertsIsProper(c, from, to);
    BasisLinear(c);
    BasisEntry(c, from, to, 0, 0);
    BasisEntry(c, from, to, 0, 1);
    BasisEntry(c, from, to, 0, 2);
    BasisEntry(c, from, to, 1, 0);
    BasisEntry(c, from, to, 1, 1);
    BasisEntry(c, from, to, 1, 2);
    BasisEntry(c, from, to, 2, 0);
    BasisEntry(c, from, to, 2, 1);
    BasisEntry(c, from, to, 2, 2);
    LinearEntries(b);
    ColumnsProduct(Along(to.x), Along(to.y), Along(to.z), Along(from.x), Along(from.y), Along(from.z));
    ColumnsProduct(Along(from.x), Along(from.y), Along(from.z), Along(to.x), Along(to.y), Along(to.z));
  }

  lemma LinearEntries(m: Matrix)
    requires Linear(m)
    ensures m == Matrix(Row(m.At(0, 0), m.At(0, 1), m.At(0, 2), 0.0), Row(m.At(1, 0), m.At(1, 1), m.At(1, 2), 0.0),
                        Row(m.At(2, 0), m.At(2, 1), m.At(2, 2), 0.0), Row(0.0, 0.0, 0.0, 1.0))
  {
  }

  lemma BasisLinear(c: Conversion)
    requires c.Proper()
    ensures Linear(c.Basis()) && Linear(c.Basis().Transpose())
  {
  }

  // ----- Conversions -------------------------------------------------------

  function TimesLinear(a: Row, v: real): Row {
    Row(a.x * v, a.y * v, a.z * v, a.w)
  }

  lemma UniformLeft(u: real, m: Matrix)
    requires m.Affine()
    ensures Mul(Uniform(u), m) == Matrix(Times(u, m.r0), Times(u, m.r1), Times(u, m.r2), m.r3)
  {
  }

  lemma UniformRow(a: Row, v: real)
    ensures Combine(a, Uniform(v)) == TimesLinear(a, v)
  {
  }

  lemma UniformRight(m: Matrix, v: real)
    requires m.Affine()
    ensures Mul(m, Uniform(v)) == Matrix(TimesLinear(m.r0, v), TimesLinear(m.r1, v), TimesLinear(m.r2, v), m.r3)
  {
    UniformRow(m.r0, v);
    UniformRow(m.r1, v);
    UniformRow(m.r2, v);
    UniformRow(m.r3, v);
    assert TimesLinear(m.r3, v) == m.r3;
    hide Combine, TimesLinear, Uniform;
  }

  lemma UniformCommutes(u: real, m: Matrix)
    requires Linear(m)
    ensures Mul(Uniform(u), m) == Mul(m, Uniform(u))
  {
  }

  lemma UniformProduct(u: real, v: real, w: real)
    requires u * v == w
    ensures Mul(Uniform(u), Uniform(v)) == Uniform(w)
  {
  }

  lemma Undo(r: Row, u: real, v: real)
    requires u * v == 1.0
    ensures TimesLinear(Times(u, r), v) == ScaleLast(r, u)
  {
    var s := Times(u, r);
    Cancel(r.x, s.x, u, v);
    Cancel(r.y, s.y, u, v);
    Cancel(r.z, s.z, u, v);
  }

  lemma Cancel(r: real, s: real, u: real, v: real)
    requires u * v == 1.0 && s == u * r
    ensures s * v == r
  {
    assert s * v == (u * v) * r;
  }

  /** On affine matrices, scaling the translation column is a conjugation. */
  lemma ScaledTranslation(m: Matrix, u: real, v: real)
    requires m.Affine() && u * v == 1.0
    ensures ScaleTranslation(m, u) == Conjugate(Uniform(u), m, Uniform(v))
  {
    hide Mul, Times, TimesLinear, ScaleLast, Uniform;
    UniformLeft(u, m);
    UniformRight(Mul(Uniform(u), m), v);
    Undo(m.r0, u, v);
    Undo(m.r1, u, v);
    Undo(m.r2, u, v);
  }

  lemma Ratio(f: real, t: real)
    requires f > 0.0 && t > 0.0
    ensures f / t > 0.0 && (1.0 / t) * f == f / t && 1.0 / (f / t) == t / f && (f / t) * (t / f) == 1.0
  {
  }

  lemma StepThrough(from: Context, to: Context, b: Matrix)
    requires b == Mul(Frame(to).Transpose(), Frame(from)) && Linear(b)
    requires Metres(to.distance) > 0.0 && Metres(from.distance) > 0.0
    ensures Mul(In(to), Out(from)) == Mul(b, Uniform(Metres(from.distance) / Metres(to.distance)))
    ensures Mul(In(to), Out(from)) == Mul(Uniform(Metres(from.distance) / Metres(to.distance)), b)
  {
    hide Mul, Frame, Uniform, Metres;
    var f, t := Metres(from.distance), Metres(to.distance);
    Ratio(f, t);
    Regroup(Uniform(1.0 / t), Frame(to).Transpose(), Frame(from), Uniform(f));
    UniformCommutes(1.0 / t, b);
    MulAssociates(b, Uniform(1.0 / t), Uniform(f));
    UniformProduct(1.0 / t, f, f / t);
    UniformCommutes(f / t, b);
  }

  /** The whole conversion of an affine matrix is one change of coordinates: leave `from`, enter `to`. */
  lemma ConvertThroughWorld(c: Conversion, from: Context, to: Context, m: Matrix)
    requires Converts(c, from, to) && m.Affine()
    ensures c.ConvertMatrix(m) == FromWorld(to, InWorld(from, m))
  {
    hide Mul, Out, In, Uniform, Metres, Frame;
    var b, b' := c.Basis(), c.Basis().Transpose();
    MetresPositive(from.distance);
    MetresPositive(to.distance);
    var u, v := c.unit, Metres(to.distance) / Metres(from.distance);
    Ratio(Metres(from.distance), Metres(to.distance));
    ConvertsIsProper(c, from, to);
    BasisMeaning(c, from, to);
    BasisLinear(c);
    StepThrough(from, to, b);
    StepThrough(to, from, b');
    ScaledTranslation(m, u, v);
    ConjugateTwice(b, Uniform(u), m, Uniform(v), b');
    ConjugateTwice(In(to), Out(from), m, In(from), Out(to));
  }

  /** A converted motion is the same motion of the shared space. */
  lemma ConversionKeepsMotion(c: Conversion, from: Context, to: Context, m: Matrix)
    requires Converts(c, from, to) && m.Affine()
    ensures InWorld(to, c.ConvertMatrix(m)) == InWorld(from, m)
  {
    hide Mul, Out, In;
    ConvertThroughWorld(c, from, to, m);
    FromWorldInWorld(to, InWorld(from, m));
  }

  lemma ConversionAffine(c: Conversion, m: Matrix)
    requires c.Proper() && m.Affine()
    ensures c.ConvertMatrix(m).Affine()
  {
    hide Mul;
    BasisLinear(c);
    MulAffine(c.Basis(), ScaleTranslation(m, c.unit));
    MulAffine(Mul(c.Basis(), ScaleTranslation(m, c.unit)), c.Basis().Transpose());
  }

  // ----- The laws ----------------------------------------------------------

  lemma ConversionToSelf(c: Conversion, a: Context, m: Matrix)
    requires Converts(c, a, a)
    ensures c.IsIdentity() && c.ConvertMatrix(m) == m
  {
    assert Aligns(c, a, a, 0) && Aligns(c, a, a, 1) && Aligns(c, a, a, 2);
    MetresPositive(a.distance);
    IdentityConversion(c, m);
  }

  /** Skipping a conversion that isIdentity reports is no change, for every matrix. */
  lemma IdentityConversion(c: Conversion, m: Matrix)
    requires c.IsIdentity()
    ensures c.ConvertMatrix(m) == m
  {
    hide Mul;
    assert c.Basis() == IDENTITY && IDENTITY.Transpose() == IDENTITY;
    assert ScaleTranslation(m, 1.0) == m;
    MulIdentity(m);
  }

  lemma UnitsOf(ab: Conversion, bc: Conversion, ac: Conversion, a: Context, b: Context, c: Context)
    requires Converts(ab, a, b) && Converts(bc, b, c) && Converts(ac, a, c)
    ensures ab.unit * bc.unit == ac.unit
    ensures bc.WellFormed() && ac.WellFormed()
  {
    hide Metres;
    MetresPositive(b.distance);
    MetresPositive(c.distance);
    UnitsCompose(Metres(a.distance), Metres(b.distance), Metres(c.distance), ab.unit, bc.unit, ac.unit);
  }

  lemma UnitsCompose(a: real, b: real, c: real, u: real, v: real, w: real)
    requires b != 0.0 && c != 0.0 && u == a / b && v == b / c && w == a / c
    ensures u * v == w
  {
  }
}
