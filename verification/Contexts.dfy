// Coordinate contexts and the conversion between two of them (src/o3ds/context.h, src/o3ds/context.cpp).

module Contexts {
  import opened Matrices

  datatype Direction = UnknownDirection | Left | Right | Forward | Back | Up | Down | Last

  datatype DistanceUnit =
    UnknownUnit | Millimeter | Centimeter | Meter | Kilometer | Inch | Foot | Mile | LightYear | Parsec

  /** Left/Right = 1, Up/Down = 2, Forward/Back = 3, anything else 0. */
  function AxisId(d: Direction): nat {
    match d
    case Left | Right => 1
    case Up | Down => 2
    case Forward | Back => 3
    case _ => 0
  }

  function Metres(u: DistanceUnit): real {
    match u
    case Millimeter => 0.001
    case Centimeter => 0.01
    case Meter => 1.0
    case Kilometer => 1000.0
    case Inch => 0.0254
    case Foot => 0.3048
    case Mile => 1609.344
    case LightYear => 9461000000000000.0
    case Parsec => 30860000000000000.0
    case UnknownUnit => 1.0
  }

  datatype Context = Context(x: Direction, y: Direction, z: Direction, distance: DistanceUnit) {
    predicate Valid() {
      && x != UnknownDirection && y != UnknownDirection && z != UnknownDirection && distance != UnknownUnit
      && AxisId(x) != 0 && AxisId(y) != 0 && AxisId(z) != 0
      && AxisId(x) != AxisId(y) && AxisId(x) != AxisId(z) && AxisId(y) != AxisId(z)
    }

    function Axis(slot: nat): Direction
      requires slot < 3
    {
      if slot == 0 then x else if slot == 1 then y else z
    }
  }

  const UNSET := Context(UnknownDirection, UnknownDirection, UnknownDirection, UnknownUnit)

  /** What ConversionContext stores: destination axis i reads source axis remap[i] with sign[i]. */
  datatype Conversion = Conversion(remap: seq<nat>, sign: seq<real>, unit: real) {
    predicate WellFormed() {
      |remap| == 3 && |sign| == 3 && forall i :: 0 <= i < 3 ==> remap[i] < 3
    }

    /** The signed permutations, with a scale that can be undone. */
    predicate Proper() {
      && WellFormed()
      && remap[0] != remap[1] && remap[0] != remap[2] && remap[1] != remap[2]
      && (forall i :: 0 <= i < 3 ==> sign[i] == 1.0 || sign[i] == -1.0)
      && unit > 0.0
    }

    predicate IsIdentity() {
      remap == [0, 1, 2] && sign == [1.0, 1.0, 1.0] && unit == 1.0
    }

    /** The change-of-basis matrix that Initialize builds. */
    function Basis(): Matrix
      requires WellFormed()
    {
      ZERO.With(0, remap[0], sign[0]).With(1, remap[1], sign[1]).With(2, remap[2], sign[2]).With(3, 3, 1.0)
    }

    function ConvertMatrix(m: Matrix): Matrix
      requires WellFormed()
    {
      Mul(Mul(Basis(), ScaleTranslation(m, unit)), Basis().Transpose())
    }

    function ConvertTranslation(t: Vec3): Vec3
      requires WellFormed()
    {
      Vec3(t.At(remap[0]) * sign[0] * unit, t.At(remap[1]) * sign[1] * unit, t.At(remap[2]) * sign[2] * unit)
    }

    /** Whether the signed permutation has determinant -1, found from its inversions and signs. */
    predicate FlipsHandedness()
      requires WellFormed()
    {
      var inversions := (if remap[0] > remap[1] then 1 else 0) + (if remap[0] > remap[2] then 1 else 0)
                        + (if remap[1] > remap[2] then 1 else 0);
      sign[0] * sign[1] * sign[2] * (if inversions % 2 == 0 then 1.0 else -1.0) < 0.0
    }

    function ConvertRotation(q: Quaternion): Quaternion
      requires WellFormed()
    {
      var src := Vec3(q.x, q.y, q.z);
      Quaternion(if FlipsHandedness() then -q.w else q.w,
                 src.At(remap[0]) * sign[0], src.At(remap[1]) * sign[1], src.At(remap[2]) * sign[2])
    }

    function ConvertScale(s: Vec3): Vec3
      requires WellFormed()
    {
      Vec3(s.At(remap[0]), s.At(remap[1]), s.At(remap[2]))
    }
  }

  const IDENTITY_CONVERSION := Conversion([0, 1, 2], [1.0, 1.0, 1.0], 1.0)

  function ScaleLast(a: Row, u: real): Row {
    a.(w := a.w * u)
  }

  function ScaleTranslation(m: Matrix, u: real): Matrix {
    Matrix(ScaleLast(m.r0, u), ScaleLast(m.r1, u), ScaleLast(m.r2, u), m.r3)
  }

  /** Each destination axis is read from the source slot on the same line, reversed when it points the other way. */
  ghost predicate Aligns(c: Conversion, from: Context, to: Context, dst: nat)
    requires c.WellFormed() && dst < 3
  {
    && AxisId(from.Axis(c.remap[dst])) == AxisId(to.Axis(dst))
    && c.sign[dst] == (if from.Axis(c.remap[dst]) == to.Axis(dst) then 1.0 else -1.0)
  }

  /** c is the conversion out of `from` into `to`. */
  ghost predicate Converts(c: Conversion, from: Context, to: Context) {
    && c.WellFormed() && from.Valid() && to.Valid()
    && (forall dst :: 0 <= dst < 3 ==> Aligns(c, from, to, dst))
    && c.unit == Metres(from.distance) / Metres(to.distance)
  }

  /** The three axes of a valid context cover the three lines of space. */
  lemma SomeSlotCarries(ctx: Context, d: Direction)
    requires ctx.Valid() && AxisId(d) != 0
    ensures exists s: nat :: s < 3 && AxisId(ctx.Axis(s)) == AxisId(d)
  {
    assert AxisId(ctx.Axis(0)) == AxisId(d) || AxisId(ctx.Axis(1)) == AxisId(d) || AxisId(ctx.Axis(2)) == AxisId(d);
  }

  /** Context::computeConversion, which fails on an invalid context and on nothing else. */
  method ComputeConversion(to: Context, from: Context) returns (ok: bool, c: Conversion)
    ensures ok <==> to.Valid() && from.Valid()
    ensures ok ==> Converts(c, from, to)
  {
    c := IDENTITY_CONVERSION;
    if !to.Valid() || !from.Valid() {
      return false, c;
    }
    for dst := 0 to 3
      invariant c.WellFormed()
      invariant forall d :: 0 <= d < dst ==> Aligns(c, from, to, d)
    {
      var found := false;
      var src := 0;
      while src < 3 && !found
        invariant 0 <= src <= 3 && c.WellFormed()
        invariant forall d :: 0 <= d < dst ==> Aligns(c, from, to, d)
        invariant found ==> Aligns(c, from, to, dst)
        invariant !found ==> forall s :: 0 <= s < src ==> AxisId(from.Axis(s)) != AxisId(to.Axis(dst))
      {
        if AxisId(from.Axis(src)) == AxisId(to.Axis(dst)) {
          ghost var before := c;
          c := c.(remap := c.remap[dst := src],
               sign := c.sign[dst := if from.Axis(src) == to.Axis(dst) then 1.0 else -1.0]);
          found := true;
          forall d | 0 <= d < dst ensures Aligns(c, from, to, d) {
            assert Aligns(before, from, to, d);
          }
        }
        src := src + 1;
      }
      SomeSlotCarries(from, to.Axis(dst));
      if !found {
        return false, c;
      }
    }
    ghost var before := c;
    c := c.(unit := Metres(from.distance) / Metres(to.distance));
    assert forall d :: 0 <= d < 3 ==> Aligns(before, from, to, d) ==> Aligns(c, from, to, d);
    ok := true;
  }

  /** The C++ object: the conversion and its cached change-of-basis matrices. */
  class ConversionContext {
    var conversion: Conversion
    var mBasis: Matrix
    var mBasisInv: Matrix
    var mValid: bool

    ghost predicate Ready()
      reads this
    {
      && conversion.WellFormed()
      && mBasis == conversion.Basis()
      && mBasisInv == mBasis.Transpose()
    }

    /** An invalid context leaves the identity conversion and signals failure. */
    constructor (from: Context, to: Context)
      ensures Ready()
      ensures mValid <==> from.Valid() && to.Valid()
      ensures if mValid then Converts(conversion, from, to) else conversion == IDENTITY_CONVERSION
    {
      var ok, c := ComputeConversion(to, from);
      conversion := if ok then c else IDENTITY_CONVERSION;
      mValid := ok;
      new;
      Initialize();
    }

    method Initialize()
      requires conversion.WellFormed()
      modifies this
      ensures Ready()
      ensures conversion == old(conversion) && mValid == old(mValid)
    {
      mBasis := ZERO;
      for dst := 0 to 3
        invariant conversion == old(conversion) && mValid == old(mValid)
        invariant dst == 0 ==> mBasis == ZERO
        invariant dst == 1 ==> mBasis == ZERO.With(0, conversion.remap[0], conversion.sign[0])
        invariant dst == 2 ==> mBasis == ZERO.With(0, conversion.remap[0], conversion.sign[0])
                                         .With(1, conversion.remap[1], conversion.sign[1])
        invariant dst == 3 ==> mBasis == ZERO.With(0, conversion.remap[0], conversion.sign[0])
                                         .With(1, conversion.remap[1], conversion.sign[1])
                                         .With(2, conversion.remap[2], conversion.sign[2])
      {
        mBasis := mBasis.With(dst, conversion.remap[dst], conversion.sign[dst]);
      }
      mBasis := mBasis.With(3, 3, 1.0);
      mBasisInv := mBasis.Transpose();
    }

    /** The matrix is scaled in its translation column, then moved to the new basis. */
    method ConvertMatrix(m: Matrix) returns (r: Matrix)
      requires Ready()
      ensures r == conversion.ConvertMatrix(m)
    {
      var n := m.With(0, 3, m.r0.w * conversion.unit);
      n := n.With(1, 3, n.r1.w * conversion.unit);
      n := n.With(2, 3, n.r2.w * conversion.unit);
      assert n == ScaleTranslation(m, conversion.unit);
      r := Mul(Mul(mBasis, n), mBasisInv);
    }
  }
}
