// What transforms do to points: the matrices of components, products, local matrices and whole chains
// (src/o3ds/math.cpp:46-100, src/o3ds/model.cpp:265-294, 689-739).

module Points {
  import opened Matrices
  import opened Contexts
  import opened ConversionLaws
  import ComponentLaws
  import opened Hierarchy
  import opened Nodes

  // ----- Vectors and points ------------------------------------------------

  function Plus3(u: Vec3, v: Vec3): Vec3 {
    Vec3(u.x + v.x, u.y + v.y, u.z + v.z)
  }

  function Times3(k: real, v: Vec3): Vec3 {
    Vec3(k * v.x, k * v.y, k * v.z)
  }

  function Cross(u: Vec3, v: Vec3): Vec3 {
    Vec3(u.y * v.z - u.z * v.y, u.z * v.x - u.x * v.z, u.x * v.y - u.y * v.x)
  }

  /** A point in homogeneous coordinates: a place for w = 1, a direction for w = 0. */
  function Point(v: Vec3, w: real): Row {
    Row(v.x, v.y, v.z, w)
  }

  function Inner4(a: Row, p: Row): real {
    a.x * p.x + a.y * p.y + a.z * p.z + a.w * p.w
  }

  /** The image of the column p. */
  function Image(m: Matrix, p: Row): Row {
    Row(Inner4(m.r0, p), Inner4(m.r1, p), Inner4(m.r2, p), Inner4(m.r3, p))
  }

  // ----- Components --------------------------------------------------------

  /** A translation adds its vector to places and leaves directions alone. */
  lemma TranslationMoves(t: Vec3, v: Vec3, w: real)
    ensures Image(Translate(t), Point(v, w)) == Point(Plus3(v, Times3(w, t)), w)
  {
  }

  /** A scale multiplies each coordinate by its own factor. */
  lemma ScaleMoves(s: Vec3, v: Vec3, w: real)
    ensures Image(Scale(s), Point(v, w)) == Point(Vec3(s.x * v.x, s.y * v.y, s.z * v.z), w)
  {
  }

  /** v + 2 w (u x v) + 2 u x (u x v), the rotation by the quaternion (w, u), which need not be a unit. */
  function Rotate(q: Quaternion, v: Vec3): Vec3 {
    var u := Vec3(q.x, q.y, q.z);
    Plus3(v, Plus3(Times3(2.0 * q.w, Cross(u, v)), Times3(2.0, Cross(u, Cross(u, v)))))
  }

  /** One row of a rotation matrix, for the axes x, y and z in cyclic order, against a vector (p, q, r). */
  lemma RotationRow(x: real, y: real, z: real, w: real, p: real, q: real, r: real, k: real, s: real, t: real)
    requires k == Keep(y, z) && s == Turn(x, y, z, w) && t == Turn(x, z, y, -w)
    ensures k * p + s * q + t * r
         == p + (2.0 * w * (y * r - z * q) + 2.0 * (y * (x * q - y * p) - z * (z * p - x * r)))
  {
    assert k * p == p - 2.0 * (y * y * p) - 2.0 * (z * z * p);
    assert s * q == 2.0 * (x * y * q) - 2.0 * (z * w * q);
    assert t * r == 2.0 * (x * z * r) + 2.0 * (y * w * r);
    assert y * (x * q - y * p) == x * y * q - y * y * p;
    assert z * (z * p - x * r) == z * z * p - x * z * r;
    assert 2.0 * w * (y * r - z * q) == 2.0 * (y * w * r) - 2.0 * (z * w * q);
  }

  lemma KeepEitherWay(y: real, z: real)
    ensures Keep(y, z) == Keep(z, y)
  {
  }

  lemma RotateEntryX(q: Quaternion, v: Vec3)
    ensures Rotate(q, v).x
         == v.x + (2.0 * q.w * (q.y * v.z - q.z * v.y)
                   + 2.0 * (q.y * (q.x * v.y - q.y * v.x) - q.z * (q.z * v.x - q.x * v.z)))
  {
  }

  lemma RotateEntryY(q: Quaternion, v: Vec3)
    ensures Rotate(q, v).y
         == v.y + (2.0 * q.w * (q.z * v.x - q.x * v.z)
                   + 2.0 * (q.z * (q.y * v.z - q.z * v.y) - q.x * (q.x * v.y - q.y * v.x)))
  {
  }

  lemma RotateEntryZ(q: Quaternion, v: Vec3)
    ensures Rotate(q, v).z
         == v.z + (2.0 * q.w * (q.x * v.y - q.y * v.x)
                   + 2.0 * (q.x * (q.z * v.x - q.x * v.z) - q.y * (q.y * v.z - q.z * v.y)))
  {
  }

  lemma InnerThree(a: Row, v: Vec3, w: real)
    requires a.w == 0.0
    ensures Inner4(a, Point(v, w)) == a.x * v.x + a.y * v.y + a.z * v.z
  {
  }

  lemma RotationRowX(q: Quaternion, v: Vec3)
    ensures var a := FromQuaternion(q).r0; a.x * v.x + a.y * v.y + a.z * v.z == Rotate(q, v).x
  {
    var a := FromQuaternion(q).r0;
    hide Keep, Turn, Rotate;
    RotationRow(q.x, q.y, q.z, q.w, v.x, v.y, v.z, a.x, a.y, a.z);
    RotateEntryX(q, v);
  }

  lemma RotationRowY(q: Quaternion, v: Vec3)
    ensures var a := FromQuaternion(q).r1; a.x * v.x + a.y * v.y + a.z * v.z == Rotate(q, v).y
  {
    var a := FromQuaternion(q).r1;
    KeepEitherWay(q.x, q.z);
    hide Keep, Turn, Rotate;
    RotationRow(q.y, q.z, q.x, q.w, v.y, v.z, v.x, a.y, a.z, a.x);
    RotateEntryY(q, v);
  }

  lemma RotationRowZ(q: Quaternion, v: Vec3)
    ensures var a := FromQuaternion(q).r2; a.x * v.x + a.y * v.y + a.z * v.z == Rotate(q, v).z
  {
    var a := FromQuaternion(q).r2;
    hide Keep, Turn, Rotate;
    RotationRow(q.z, q.x, q.y, q.w, v.z, v.x, v.y, a.z, a.x, a.y);
    RotateEntryZ(q, v);
  }

  /** The matrix of a rotation turns every vector by that formula. */
  lemma RotationMoves(q: Quaternion, v: Vec3, w: real)
    ensures Image(FromQuaternion(q), Point(v, w)) == Point(Rotate(q, v), w)
  {
    var m := FromQuaternion(q);
    assert m.r0.w == m.r1.w == m.r2.w == 0.0 && Inner4(m.r3, Point(v, w)) == w;
    hide FromQuaternion, Inner4, Rotate;
    RotationRowX(q, v);
    RotationRowY(q, v);
    RotationRowZ(q, v);
    InnerThree(m.r0, v, w);
    InnerThree(m.r1, v, w);
    InnerThree(m.r2, v, w);
  }

  // ----- Products ----------------------------------------------------------

  lemma InnerPlus(a: Row, b: Row, p: Row)
    ensures Inner4(Plus(a, b), p) == Inner4(a, p) + Inner4(b, p)
  {
  }

  lemma InnerTimes(k: real, a: Row, p: Row)
    ensures Inner4(Times(k, a), p) == k * Inner4(a, p)
  {
  }

  lemma InnerSum(a: Row, b: Row, c: Row, d: Row, p: Row)
    ensures Inner4(Plus(Plus(Plus(a, b), c), d), p) == Inner4(a, p) + Inner4(b, p) + Inner4(c, p) + Inner4(d, p)
  {
    hide Inner4, Plus;
    InnerPlus(Plus(Plus(a, b), c), d, p);
    InnerPlus(Plus(a, b), c, p);
    InnerPlus(a, b, p);
  }

  lemma InnerParts(a: Row, p: Row)
    ensures Inner4(a, p) == a.x * p.x + a.y * p.y + a.z * p.z + a.w * p.w
  {
  }

  lemma ImageEntries(m: Matrix, p: Row)
    ensures var i := Image(m, p);
            && i.x == Inner4(m.r0, p) && i.y == Inner4(m.r1, p) && i.z == Inner4(m.r2, p) && i.w == Inner4(m.r3, p)
  {
  }

  lemma InnerCombine(a: Row, m: Matrix, p: Row)
    ensures Inner4(Combine(a, m), p) == Inner4(a, Image(m, p))
  {
    hide Inner4, Combine, Plus, Times, Image;
    CombineRows(a, m);
    InnerSum(Times(a.x, m.r0), Times(a.y, m.r1), Times(a.z, m.r2), Times(a.w, m.r3), p);
    ImageEntries(m, p);
    InnerParts(a, Image(m, p));
    InnerTimes(a.x, m.r0, p);
    InnerTimes(a.y, m.r1, p);
    InnerTimes(a.z, m.r2, p);
    InnerTimes(a.w, m.r3, p);
  }

  /** A product does to a point what its second factor and then its first do. */
  lemma ImageOfProduct(m: Matrix, n: Matrix, p: Row)
    ensures Image(Mul(m, n), p) == Image(m, Image(n, p))
  {
    InnerCombine(m.r0, n, p);
    InnerCombine(m.r1, n, p);
    InnerCombine(m.r2, n, p);
    InnerCombine(m.r3, n, p);
    hide Combine, Inner4;
  }

  /** What a matrix does to points determines it. */
  lemma ImagesDetermine(m: Matrix, n: Matrix)
    requires forall p :: Image(m, p) == Image(n, p)
    ensures m == n
  {
    assert Image(m, Row(1.0, 0.0, 0.0, 0.0)) == Image(n, Row(1.0, 0.0, 0.0, 0.0));
    assert Image(m, Row(0.0, 1.0, 0.0, 0.0)) == Image(n, Row(0.0, 1.0, 0.0, 0.0));
    assert Image(m, Row(0.0, 0.0, 1.0, 0.0)) == Image(n, Row(0.0, 0.0, 1.0, 0.0));
    assert Image(m, Row(0.0, 0.0, 0.0, 1.0)) == Image(n, Row(0.0, 0.0, 0.0, 1.0));
  }

  // ----- The local matrix --------------------------------------------------

  /** A node without its first component, and without its first matrix if that component is a matrix. */
  function Tail(n: Node): Node
    requires n.order != [] && n.EnoughMatrices()
  {
    MatricesLeft(n.order, |n.order|);
    n.(order := n.order[1..], matrices := if n.order[0] == TMatrix then n.matrices[1..] else n.matrices)
  }

  lemma {:induction false} MatricesLeft(order: seq<ComponentType>, k: nat)
    requires 0 < k <= |order|
    ensures MatrixCount(order, k) == MatrixCount(order[1..], k - 1) + if order[0] == TMatrix then 1 else 0
  {
    if k > 1 {
      MatricesLeft(order, k - 1);
    } else {
      assert MatrixCount(order, 0) == 0;
    }
  }

  lemma TailComputable(n: Node)
    requires n.order != [] && n.EnoughMatrices()
    ensures Tail(n).EnoughMatrices()
  {
    MatricesLeft(n.order, |n.order|);
  }

  lemma TailPart(n: Node, k: nat)
    requires n.EnoughMatrices() && 0 < k < |n.order|
    ensures Tail(n).EnoughMatrices() && Part(n, k) == Part(Tail(n), k - 1)
  {
    TailComputable(n);
    MatricesLeft(n.order, k);
    MatrixCountGrows(n.order, k + 1, |n.order|);
    hide Translate, FromQuaternion, Scale;
  }

  /** The matrix of the first component. */
  lemma {:induction false} LocalFromFirst(n: Node, k: nat)
    requires n.EnoughMatrices() && 0 < k <= |n.order|
    ensures Tail(n).EnoughMatrices()
    ensures LocalUpTo(n, k)
         == if n.order[0] == TOrientation then LocalUpTo(Tail(n), k - 1) else Mul(Part(n, 0), LocalUpTo(Tail(n), k - 1))
  {
    TailComputable(n);
    if k == 1 {
      assert LocalUpTo(n, 0) == IDENTITY;
      FirstAlone(n);
    } else {
      LocalFromFirst(n, k - 1);
      TailPart(n, k - 1);
      hide Mul, Part, MatrixCount, Tail;
      MulAssociates(Part(n, 0), LocalUpTo(Tail(n), k - 2), Part(n, k - 1));
      assert n.order[k - 1] == Tail(n).order[k - 2] by { TailOrder(n); }
    }
  }

  lemma TailOrder(n: Node)
    requires n.order != [] && n.EnoughMatrices()
    ensures Tail(n).order == n.order[1..]
  {
  }

  lemma FirstAlone(n: Node)
    requires n.order != [] && n.EnoughMatrices() && Tail(n).EnoughMatrices()
    ensures LocalUpTo(n, 1) == if n.order[0] == TOrientation then IDENTITY else Mul(Part(n, 0), IDENTITY)
    ensures LocalUpTo(Tail(n), 0) == IDENTITY
  {
    assert LocalUpTo(n, 0) == IDENTITY;
    hide Mul, Part;
    MulIdentity(Part(n, 0));
  }

  /** The first component acts last, each TMatrix takes the next matrix, and a TOrientation does nothing. */
  lemma LocalByFirst(n: Node)
    requires n.EnoughMatrices()
    ensures n.order == [] ==> Local(n) == IDENTITY
    ensures n.order != [] ==> Tail(n).EnoughMatrices()
    ensures n.order != [] && n.order[0] == TTranslation ==>
              Local(n) == Mul(Translate(n.translation.value), Local(n.(order := n.order[1..])))
    ensures n.order != [] && n.order[0] == TRotation ==>
              Local(n) == Mul(FromQuaternion(n.rotation.value), Local(n.(order := n.order[1..])))
    ensures n.order != [] && n.order[0] == TScale ==>
              Local(n) == Mul(Scale(n.scale.value), Local(n.(order := n.order[1..])))
    ensures n.order != [] && n.order[0] == TOrientation ==> Local(n) == Local(n.(order := n.order[1..]))
    ensures n.order != [] && n.order[0] == TMatrix ==>
              && n.matrices != []
              && Local(n) == Mul(n.matrices[0], Local(n.(order := n.order[1..], matrices := n.matrices[1..])))
  {
    if n.order != [] {
      LocalFromFirst(n, |n.order|);
      MatricesLeft(n.order, |n.order|);
      MatrixCountGrows(n.order, 1, |n.order|);
      hide Mul, Translate, FromQuaternion, Scale;
    }
  }

  function Vector(p: Row): Vec3 {
    Vec3(p.x, p.y, p.z)
  }

  /** What the first component does to q. */
  function FirstActs(n: Node, q: Row): Row
    requires n.order != [] && n.EnoughMatrices()
  {
    MatricesLeft(n.order, |n.order|);
    match n.order[0]
    case TTranslation => Point(Plus3(Vector(q), Times3(q.w, n.translation.value)), q.w)
    case TRotation => Point(Rotate(n.rotation.value, Vector(q)), q.w)
    case TScale => Point(Vec3(n.scale.value.x * q.x, n.scale.value.y * q.y, n.scale.value.z * q.z), q.w)
    case TMatrix => Image(n.matrices[0], q)
    case TOrientation => q
  }

  /** Where the components of n take p: the last one acts first. */
  function Place(n: Node, p: Row): Row
    requires n.EnoughMatrices()
    decreases |n.order|
  {
    if n.order == [] then p
    else
      TailComputable(n);
      FirstActs(n, Place(Tail(n), p))
  }

  lemma FirstPart(n: Node, q: Row)
    requires n.order != [] && n.EnoughMatrices()
    ensures FirstActs(n, q) == if n.order[0] == TOrientation then q else Image(Part(n, 0), q)
  {
    MatricesLeft(n.order, |n.order|);
    MatrixCountGrows(n.order, 1, |n.order|);
    assert Point(Vector(q), q.w) == q;
    hide Image, Rotate, Plus3, Times3, Translate, FromQuaternion, Scale;
    match n.order[0] {
      case TTranslation => TranslationMoves(n.translation.value, Vector(q), q.w);
      case TRotation => RotationMoves(n.rotation.value, Vector(q), q.w);
      case TScale => ScaleMoves(n.scale.value, Vector(q), q.w);
      case TMatrix =>
      case TOrientation =>
    }
  }

  /** The local matrix takes every point there. */
  lemma {:induction false} LocalPlaces(n: Node, p: Row)
    requires n.EnoughMatrices()
    ensures Image(Local(n), p) == Place(n, p)
    decreases |n.order|
  {
    if n.order == [] {
      IdentityPlaces(p);
    } else {
      TailComputable(n);
      TailOrder(n);
      hide Mul, Image, Tail, FirstActs, Part, Node.EnoughMatrices;
      LocalPlaces(Tail(n), p);
      LocalFromFirst(n, |n.order|);
      FirstPart(n, Place(Tail(n), p));
      ImageOfProduct(Part(n, 0), Local(Tail(n)), p);
    }
  }

  lemma IdentityPlaces(p: Row)
    ensures Image(IDENTITY, p) == p
  {
  }

  /** A new transform leaves every point where it is, in every order that asks for no matrix. */
  lemma {:induction false} NewNodePlaces(order: seq<ComponentType>, p: Row)
    requires TMatrix !in order
    ensures var n := NEW_NODE.(order := order); n.EnoughMatrices() && Place(n, p) == p
  {
    var n := NEW_NODE.(order := order);
    NoMatrices(order, |order|);
    if order != [] {
      NewTail(n);
      NewFirst(n, p);
      hide Tail, FirstActs, Node.EnoughMatrices;
      NewNodePlaces(order[1..], p);
    }
  }

  lemma NewTail(n: Node)
    requires n.order != [] && n.EnoughMatrices() && n == NEW_NODE.(order := n.order) && TMatrix !in n.order
    ensures Tail(n) == NEW_NODE.(order := n.order[1..]) && TMatrix !in n.order[1..]
  {
  }

  lemma NewFirst(n: Node, p: Row)
    requires n.order != [] && n.EnoughMatrices() && n == NEW_NODE.(order := n.order) && TMatrix !in n.order
    ensures FirstActs(n, p) == p
  {
    NewRotation(Vector(p));
    hide Rotate;
    assert Times3(p.w, ZERO_VECTOR) == ZERO_VECTOR;
  }

  lemma {:induction false} NoMatrices(order: seq<ComponentType>, k: nat)
    requires TMatrix !in order && k <= |order|
    ensures MatrixCount(order, k) == 0
  {
    if k > 0 {
      NoMatrices(order, k - 1);
    }
  }

  lemma NewRotation(v: Vec3)
    ensures Rotate(Quaternion(1.0, 0.0, 0.0, 0.0), v) == v
  {
    assert Cross(ZERO_VECTOR, v) == ZERO_VECTOR && Cross(ZERO_VECTOR, ZERO_VECTOR) == ZERO_VECTOR;
    hide Cross;
    assert Times3(2.0, ZERO_VECTOR) == ZERO_VECTOR && Times3(2.0 * 1.0, ZERO_VECTOR) == ZERO_VECTOR;
    hide Times3;
  }

  // ----- Chains ------------------------------------------------------------

  /** Where node i of the hierarchy and its ancestors, d of them, take p: first by node i, last by the root. */
  function PlaceInWorld(nodes: seq<Node>, i: int, d: nat, p: Row): Row
    requires Computable(nodes) && Reaches(Parents(nodes), i, d)
    decreases d
  {
    var q := Place(nodes[i], p);
    if d == 0 then q else PlaceInWorld(nodes, nodes[i].parent, d - 1, q)
  }

  lemma {:induction false} PathPlaces(nodes: seq<Node>, i: int, d: nat, p: Row)
    requires Computable(nodes) && Reaches(Parents(nodes), i, d)
    ensures Image(PathProduct(Parents(nodes), Locals(nodes), i, d), p) == PlaceInWorld(nodes, i, d, p)
    decreases d
  {
    var parents, locals := Parents(nodes), Locals(nodes);
    assert locals[i] == Local(nodes[i]);
    hide Local, Place, Image, Mul;
    LocalPlaces(nodes[i], p);
    if d > 0 {
      PathPlaces(nodes, parents[i], d - 1, Place(nodes[i], p));
      ImageOfProduct(PathProduct(parents, locals, parents[i], d - 1), locals[i], p);
    }
  }

  /** After calcMatrices without a conversion, the world matrix of a node below the root takes each point where the
      node's components and then those of its ancestors, up to the root, take it. */
  lemma CalcPlaces(nodes: seq<Node>, stale: seq<Matrix>, i: nat, d: nat, p: Row)
    requires Computable(nodes) && WellRooted(Parents(nodes)) && |stale| == |nodes| && Reaches(Parents(nodes), i, d)
    ensures var world := Calc(Parents(nodes), Locals(nodes), stale, Unconverted).1.worlds[i];
            Image(world, p) == PlaceInWorld(nodes, i, d, p)
  {
    var parents, locals := Parents(nodes), Locals(nodes);
    CalcMeaning(parents, locals, stale, Unconverted);
    OneDepth(parents, i, Depth(parents, i), d);
    hide Calc, Image, Locals;
    PathPlaces(nodes, i, d, p);
  }

  // ----- Conversions -------------------------------------------------------

  /** The place in the shared space, in metres, of the coordinates v of a context. */
  function InSpace(ctx: Context, v: Vec3): Vec3 {
    var q := Times3(Metres(ctx.distance), v);
    Plus3(Plus3(Times3(q.x, Along(ctx.x)), Times3(q.y, Along(ctx.y))), Times3(q.z, Along(ctx.z)))
  }

  lemma UniformMoves(k: real, v: Vec3, w: real)
    ensures Image(Uniform(k), Point(v, w)) == Point(Times3(k, v), w)
  {
  }

  lemma ColumnsMove(a: Vec3, b: Vec3, c: Vec3, v: Vec3, w: real)
    ensures Image(Columns(a, b, c), Point(v, w))
         == Point(Plus3(Plus3(Times3(v.x, a), Times3(v.y, b)), Times3(v.z, c)), w)
  {
  }

  lemma OutPlaces(ctx: Context, v: Vec3, w: real)
    ensures Image(Out(ctx), Point(v, w)) == Point(InSpace(ctx, v), w)
  {
    var k := Metres(ctx.distance);
    hide Mul, Image, Uniform, Columns, Along, Metres, Plus3, Times3;
    ImageOfProduct(Frame(ctx), Uniform(k), Point(v, w));
    UniformMoves(k, v, w);
    ColumnsMove(Along(ctx.x), Along(ctx.y), Along(ctx.z), Times3(k, v), w);
  }

  lemma InUndoesOut(ctx: Context, p: Row)
    requires ctx.Valid()
    ensures Image(In(ctx), Image(Out(ctx), p)) == p
  {
    OutIn(ctx);
    hide In, Out, Image, Mul;
    ImageOfProduct(In(ctx), Out(ctx), p);
    IdentityPlaces(p);
  }

  /** In the shared space, m of ctx takes the place of p to the place of the image of p. */
  lemma WorldMoves(ctx: Context, m: Matrix, p: Row)
    requires ctx.Valid()
    ensures Image(InWorld(ctx, m), Image(Out(ctx), p)) == Image(Out(ctx), Image(m, p))
  {
    hide In, Out, Image, Mul;
    ImageOfProduct(Mul(Out(ctx), m), In(ctx), Image(Out(ctx), p));
    InUndoesOut(ctx, p);
    ImageOfProduct(Out(ctx), m, p);
  }

  /** Points that stand at the same place in the two contexts are taken to the same place by an affine matrix and by the
      converted one. */
  lemma ConvertedMoves(c: Conversion, from: Context, to: Context, m: Matrix, v: Vec3, v': Vec3, w: real)
    requires Converts(c, from, to) && m.Affine() && InSpace(to, v') == InSpace(from, v)
    ensures Image(Out(to), Image(c.ConvertMatrix(m), Point(v', w))) == Image(Out(from), Image(m, Point(v, w)))
  {
    hide In, Out, Image, Mul, InSpace, InWorld, Conversion.ConvertMatrix;
    OutPlaces(to, v', w);
    OutPlaces(from, v, w);
    WorldMoves(to, c.ConvertMatrix(m), Point(v', w));
    WorldMoves(from, m, Point(v, w));
    ConversionKeepsMotion(c, from, to, m);
  }

  lemma OriginMoved(t: Vec3)
    ensures Image(Translate(t), Point(ZERO_VECTOR, 1.0)) == Point(t, 1.0)
  {
  }

  lemma OriginInSpace(ctx: Context)
    ensures InSpace(ctx, ZERO_VECTOR) == ZERO_VECTOR
  {
    hide Metres, Along;
    assert Times3(Metres(ctx.distance), ZERO_VECTOR) == ZERO_VECTOR;
    assert Times3(0.0, Along(ctx.x)) == Times3(0.0, Along(ctx.y)) == Times3(0.0, Along(ctx.z)) == ZERO_VECTOR;
    hide Times3;
  }

  /** A converted translation stands where the translation stood. */
  lemma ConvertedPlace(c: Conversion, from: Context, to: Context, t: Vec3)
    requires Converts(c, from, to)
    ensures InSpace(to, c.ConvertTranslation(t)) == InSpace(from, t)
  {
    var t' := c.ConvertTranslation(t);
    assert Translate(t).Affine();
    ConvertsIsProper(c, from, to);
    hide Out, Image, Mul, InSpace, Translate, Conversion.ConvertMatrix, Conversion.ConvertTranslation;
    ComponentLaws.ConvertTranslate(c, t);
    OriginInSpace(to);
    OriginInSpace(from);
    ConvertedMoves(c, from, to, Translate(t), ZERO_VECTOR, ZERO_VECTOR, 1.0);
    OriginMoved(t);
    OriginMoved(t');
    OutPlaces(to, t', 1.0);
    OutPlaces(from, t, 1.0);
    SamePoint(InSpace(to, t'), InSpace(from, t));
  }

  lemma SamePoint(u: Vec3, v: Vec3)
    ensures Point(u, 1.0) == Point(v, 1.0) ==> u == v
  {
  }
}
