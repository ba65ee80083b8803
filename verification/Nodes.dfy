// The state of one transform, and its local matrix (src/o3ds/transform_component.h, src/o3ds/model.cpp:265-294).

module Nodes {
  import opened Matrices
  import opened Contexts
  import opened ConversionLaws
  import opened ComponentLaws
  import opened ProductLaws
  import opened Hierarchy

  datatype ComponentType = TTranslation | TRotation | TOrientation | TScale | TMatrix

  /** A component with the value it had when last sent. */
  datatype Tracked<T> = Tracked(value: T, lastSent: T) {
    function Sent(): Tracked<T> {
      Tracked(value, value)
    }
  }

  const ZERO_VECTOR := Vec3(0.0, 0.0, 0.0)
  const NO_ROTATION := Quaternion(0.0, 0.0, 0.0, 0.0)

  datatype Node = Node(name: string, parent: int,
                       translation: Tracked<Vec3>, rotation: Tracked<Quaternion>, scale: Tracked<Vec3>,
                       matrices: seq<Matrix>, order: seq<ComponentType>) {

    /** The source indexes mMatrices once for each TMatrix in the order, without a check. */
    predicate EnoughMatrices() {
      MatrixCount(order, |order|) <= |matrices|
    }
  }

  /** Transform(). */
  const NEW_NODE := Node("", ROOT, Tracked(ZERO_VECTOR, ZERO_VECTOR),
                         Tracked(Quaternion(1.0, 0.0, 0.0, 0.0), NO_ROTATION),
                         Tracked(Vec3(1.0, 1.0, 1.0), ZERO_VECTOR), [], [])

  function MatrixCount(order: seq<ComponentType>, k: nat): (n: nat)
    requires k <= |order|
    ensures n <= k
  {
    if k == 0 then 0 else MatrixCount(order, k - 1) + if order[k - 1] == TMatrix then 1 else 0
  }

  lemma {:induction false} MatrixCountGrows(order: seq<ComponentType>, j: nat, k: nat)
    requires j <= k <= |order|
    ensures MatrixCount(order, j) <= MatrixCount(order, k)
  {
    if j < k {
      MatrixCountGrows(order, j, k - 1);
    }
  }

  /** The matrix of component k of the order; TOrientation has none. */
  function Part(n: Node, k: nat): Matrix
    requires k < |n.order| && n.EnoughMatrices()
  {
    match n.order[k]
    case TTranslation => Translate(n.translation.value)
    case TRotation => FromQuaternion(n.rotation.value)
    case TScale => Scale(n.scale.value)
    case TMatrix => MatrixCountGrows(n.order, k + 1, |n.order|); n.matrices[MatrixCount(n.order, k)]
    case TOrientation => IDENTITY
  }

  /** The product of the first k components. */
  function LocalUpTo(n: Node, k: nat): Matrix
    requires k <= |n.order| && n.EnoughMatrices()
  {
    if k == 0 then IDENTITY
    else if n.order[k - 1] == TOrientation then LocalUpTo(n, k - 1)
    else Mul(LocalUpTo(n, k - 1), Part(n, k - 1))
  }

  function Local(n: Node): Matrix
    requires n.EnoughMatrices()
  {
    LocalUpTo(n, |n.order|)
  }

  // ----- Converting components ---------------------------------------------

  /** Every component converted by its own converter. */
  function ConvertNode(c: Conversion, n: Node): Node
    requires c.WellFormed()
  {
    n.(translation := n.translation.(value := c.ConvertTranslation(n.translation.value)),
       rotation := n.rotation.(value := c.ConvertRotation(n.rotation.value)),
       scale := n.scale.(value := c.ConvertScale(n.scale.value)),
       matrices := seq(|n.matrices|, i requires 0 <= i < |n.matrices| => c.ConvertMatrix(n.matrices[i])))
  }

  /** No matrix that the order uses has a perspective row. The node may hold others, which stand for other data. */
  ghost predicate FlatMatrices(n: Node)
    requires n.EnoughMatrices()
  {
    forall i :: 0 <= i < MatrixCount(n.order, |n.order|) ==> NoPerspective(n.matrices[i])
  }

  /** Each component is separable from those before it. */
  ghost predicate SeparableSteps(n: Node, k: nat)
    requires n.EnoughMatrices() && k <= |n.order|
  {
    forall j: nat :: j < k && n.order[j] != TOrientation ==> Separable(LocalUpTo(n, j), Part(n, j))
  }

  /** As they always are where the matrices have no perspective row. */
  lemma FlatSeparable(n: Node)
    requires n.EnoughMatrices() && FlatMatrices(n)
    ensures SeparableSteps(n, |n.order|)
  {
    hide Part, NoPerspective, Separable, FlatMatrices, LocalUpTo;
    forall j: nat | j < |n.order| ensures Separable(LocalUpTo(n, j), Part(n, j)) {
      LocalFlat(n, j);
      PartFlat(n, j);
      NoPerspectiveSeparable(LocalUpTo(n, j), Part(n, j));
    }
  }

  lemma PartFlat(n: Node, k: nat)
    requires n.EnoughMatrices() && FlatMatrices(n) && k < |n.order|
    ensures NoPerspective(Part(n, k))
  {
    MatrixCountGrows(n.order, k + 1, |n.order|);
    hide Turn, Keep;
  }

  /** The local matrix has no perspective row then either. */
  lemma {:induction false} LocalFlat(n: Node, k: nat)
    requires n.EnoughMatrices() && FlatMatrices(n) && k <= |n.order|
    ensures NoPerspective(LocalUpTo(n, k))
  {
    hide Mul;
    if k > 0 {
      LocalFlat(n, k - 1);
      PartFlat(n, k - 1);
      NoPerspectiveSeparable(LocalUpTo(n, k - 1), Part(n, k - 1));
    }
  }

  /** Converting one component is converting its matrix. */
  lemma ConvertPart(c: Conversion, n: Node, k: nat)
    requires c.Proper() && k < |n.order| && n.EnoughMatrices() && n.order[k] != TOrientation
    ensures ConvertNode(c, n).order == n.order && ConvertNode(c, n).EnoughMatrices()
    ensures Part(ConvertNode(c, n), k) == c.ConvertMatrix(Part(n, k))
  {
    hide Conversion.ConvertMatrix, Conversion.ConvertTranslation, Conversion.ConvertRotation, Conversion.ConvertScale;
    hide Translate, FromQuaternion, Scale;
    MatrixCountGrows(n.order, k + 1, |n.order|);
    match n.order[k] {
      case TTranslation => ConvertTranslate(c, n.translation.value);
      case TRotation => ConvertQuaternion(c, n.rotation.value);
      case TScale => ComponentLaws.ConvertScale(c, n.scale.value);
      case TMatrix =>
    }
  }

  lemma ConvertNodeShape(c: Conversion, n: Node)
    requires c.WellFormed()
    ensures ConvertNode(c, n).order == n.order && |ConvertNode(c, n).matrices| == |n.matrices|
  {
  }

  /** One component more: the two ways stay together exactly when no length is scaled, or the matrix so far and that
      of the component are separable. */
  lemma ConvertStep(c: Conversion, n: Node, n': Node, k: nat)
    requires c.Proper() && n.EnoughMatrices() && k < |n.order|
    requires n' == ConvertNode(c, n) && n'.order == n.order && n'.EnoughMatrices()
    requires n.order[k] != TOrientation && LocalUpTo(n', k) == c.ConvertMatrix(LocalUpTo(n, k))
    ensures LocalUpTo(n', k + 1) == c.ConvertMatrix(LocalUpTo(n, k + 1))
       <==> c.unit == 1.0 || Separable(LocalUpTo(n, k), Part(n, k))
  {
    ConvertPart(c, n, k);
    hide Mul, Conversion.ConvertMatrix, Part, ConvertNode, MatrixCount, Separable;
    ConversionOfProduct(c, LocalUpTo(n, k), Part(n, k));
  }

  /** The first k components convert together, however many of them are taken. */
  ghost predicate Together(c: Conversion, n: Node, n': Node, k: nat)
    requires c.WellFormed() && n.EnoughMatrices() && n'.EnoughMatrices() && n'.order == n.order && k <= |n.order|
  {
    forall j: nat :: j <= k ==> LocalUpTo(n', j) == c.ConvertMatrix(LocalUpTo(n, j))
  }

  lemma TogetherAtFirst(c: Conversion, n: Node, n': Node)
    requires c.Proper() && n.EnoughMatrices() && n'.EnoughMatrices() && n'.order == n.order
    ensures Together(c, n, n', 0) && SeparableSteps(n, 0)
  {
    ConvertIdentityMatrix(c);
    hide Conversion.ConvertMatrix;
  }

  lemma TogetherMore(c: Conversion, n: Node, n': Node, k: nat)
    requires c.WellFormed() && n.EnoughMatrices() && n'.EnoughMatrices() && n'.order == n.order && 0 < k <= |n.order|
    ensures Together(c, n, n', k) <==> Together(c, n, n', k - 1) && LocalUpTo(n', k) == c.ConvertMatrix(LocalUpTo(n, k))
    ensures Together(c, n, n', k - 1) ==> LocalUpTo(n', k - 1) == c.ConvertMatrix(LocalUpTo(n, k - 1))
  {
    hide LocalUpTo, Conversion.ConvertMatrix;
  }

  lemma StepsMore(n: Node, k: nat)
    requires n.EnoughMatrices() && 0 < k <= |n.order|
    ensures SeparableSteps(n, k)
       <==> SeparableSteps(n, k - 1)
            && (n.order[k - 1] != TOrientation ==> Separable(LocalUpTo(n, k - 1), Part(n, k - 1)))
  {
    hide LocalUpTo, Separable, Part;
  }

  lemma {:induction false} ConvertUpTo(c: Conversion, n: Node, n': Node, k: nat)
    requires c.Proper() && n.EnoughMatrices() && k <= |n.order|
    requires n' == ConvertNode(c, n) && n'.order == n.order && n'.EnoughMatrices()
    ensures Together(c, n, n', k) <==> c.unit == 1.0 || SeparableSteps(n, k)
  {
    hide Mul, Conversion.ConvertMatrix, Part, ConvertNode, MatrixCount, Separable, Together, SeparableSteps;
    if k == 0 {
      TogetherAtFirst(c, n, n');
    } else {
      ConvertUpTo(c, n, n', k - 1);
      TogetherMore(c, n, n', k);
      StepsMore(n, k);
      if Together(c, n, n', k - 1) && n.order[k - 1] != TOrientation {
        ConvertStep(c, n, n', k - 1);
      }
    }
  }

  /** For every order of components, composing the converted components and converting the composed matrix stay
      together all the way exactly when no length is scaled or each component is separable from those before it. */
  lemma ConvertPrefixes(c: Conversion, n: Node)
    requires c.Proper() && n.EnoughMatrices()
    ensures ConvertNode(c, n).order == n.order && ConvertNode(c, n).EnoughMatrices()
    ensures Together(c, n, ConvertNode(c, n), |n.order|) <==> c.unit == 1.0 || SeparableSteps(n, |n.order|)
  {
    ConvertNodeShape(c, n);
    ConvertUpTo(c, n, ConvertNode(c, n), |n.order|);
  }

  lemma ConvertIdentityMatrix(c: Conversion)
    requires c.Proper()
    ensures c.ConvertMatrix(IDENTITY) == IDENTITY
  {
    assert Translate(ZERO_VECTOR) == IDENTITY;
    ConvertTranslate(c, ZERO_VECTOR);
    assert c.ConvertTranslation(ZERO_VECTOR) == ZERO_VECTOR;
    hide Conversion.ConvertMatrix;
  }

  /** Composing the converted components is then converting the composed matrix. */
  lemma ConvertLocal(c: Conversion, n: Node)
    requires c.Proper() && n.EnoughMatrices() && (c.unit == 1.0 || SeparableSteps(n, |n.order|))
    ensures ConvertNode(c, n).EnoughMatrices() && Local(ConvertNode(c, n)) == c.ConvertMatrix(Local(n))
  {
    ConvertPrefixes(c, n);
    hide LocalUpTo, Conversion.ConvertMatrix, ConvertNode;
  }

  /** A node that holds m and nothing else of its own converts part by part. */
  ghost predicate PartByPart(c: Conversion, m: Matrix, n: Node)
    requires c.WellFormed()
  {
    n.EnoughMatrices() && (forall i :: 0 <= i < |n.matrices| ==> n.matrices[i] == m) ==>
      ConvertNode(c, n).EnoughMatrices() && Local(ConvertNode(c, n)) == c.ConvertMatrix(Local(n))
  }

  /** A translation followed by m. */
  function TranslateThen(t: Vec3, m: Matrix): Node {
    NEW_NODE.(translation := Tracked(t, ZERO_VECTOR), matrices := [m], order := [TTranslation, TMatrix])
  }

  lemma ConvertTranslateThen(c: Conversion, t: Vec3, m: Matrix)
    requires c.Proper()
    ensures TranslateThen(t, m).EnoughMatrices() && ConvertNode(c, TranslateThen(t, m)).EnoughMatrices()
    ensures Local(ConvertNode(c, TranslateThen(t, m))) == c.ConvertMatrix(Local(TranslateThen(t, m)))
       <==> c.unit == 1.0 || NoTranslation(Translate(t)) || NoPerspective(m)
  {
    var n := TranslateThen(t, m);
    var n' := ConvertNode(c, n);
    assert MatrixCount(n.order, 2) == MatrixCount(n.order, 1) + 1 == MatrixCount(n.order, 0) + 1;
    ConvertNodeShape(c, n);
    assert Part(n, 0) == Translate(t) && Part(n, 1) == m;
    assert LocalUpTo(n, 1) == Mul(LocalUpTo(n, 0), Translate(t)) && LocalUpTo(n, 0) == IDENTITY;
    hide Mul, Conversion.ConvertMatrix, ConvertNode, MatrixCount, Part;
    MulIdentity(Translate(t));
    ConvertTranslate(c, t);
    ConvertLocalUpTo1(c, n, n');
    ConvertStep(c, n, n', 1);
  }

  lemma ConvertLocalUpTo1(c: Conversion, n: Node, n': Node)
    requires c.Proper() && n.EnoughMatrices() && |n.order| == 2 && n.order[0] == TTranslation
    requires n' == ConvertNode(c, n) && n'.order == n.order && n'.EnoughMatrices()
    ensures LocalUpTo(n', 1) == c.ConvertMatrix(LocalUpTo(n, 1))
  {
    ConvertIdentityMatrix(c);
    assert LocalUpTo(n, 0) == LocalUpTo(n', 0) == IDENTITY;
    ConvertStep(c, n, n', 0);
    assert Separable(LocalUpTo(n, 0), Part(n, 0));
  }

  /** No weaker condition on the matrix will do: m is safe in every node exactly when no length is scaled or m has no
      perspective row. */
  lemma SafeMatrices(c: Conversion, m: Matrix)
    requires c.Proper()
    ensures (forall n :: PartByPart(c, m, n)) <==> c.unit == 1.0 || NoPerspective(m)
  {
    hide Local, ConvertNode, Conversion.ConvertMatrix, NoPerspective;
    if c.unit == 1.0 || NoPerspective(m) {
      forall n ensures PartByPart(c, m, n) {
        if n.EnoughMatrices() && forall i :: 0 <= i < |n.matrices| ==> n.matrices[i] == m {
          if c.unit != 1.0 {
            FlatSeparable(n);
          }
          ConvertLocal(c, n);
        }
      }
    } else {
      var t := Vec3(1.0, 0.0, 0.0);
      ConvertTranslateThen(c, t, m);
      assert !PartByPart(c, m, TranslateThen(t, m));
    }
  }

  const PERSPECTIVE := IDENTITY.(r3 := Row(1.0, 0.0, 0.0, 1.0))

  const METRES := Context(Right, Up, Back, Meter)
  const CENTIMETRES := METRES.(distance := Centimeter)
  const INTO_CENTIMETRES := IDENTITY_CONVERSION.(unit := 100.0)

  lemma IntoCentimetres()
    ensures Converts(INTO_CENTIMETRES, METRES, CENTIMETRES) && INTO_CENTIMETRES.Proper()
  {
  }

  /** The two ways part: a translation, then a matrix with a perspective row, from metres into centimetres. */
  lemma PerspectiveExample()
    ensures var n := TranslateThen(Vec3(1.0, 0.0, 0.0), PERSPECTIVE);
            && Converts(INTO_CENTIMETRES, METRES, CENTIMETRES)
            && n.EnoughMatrices() && ConvertNode(INTO_CENTIMETRES, n).EnoughMatrices()
            && Local(ConvertNode(INTO_CENTIMETRES, n)) != INTO_CENTIMETRES.ConvertMatrix(Local(n))
  {
    var t := Vec3(1.0, 0.0, 0.0);
    IntoCentimetres();
    assert !NoTranslation(Translate(t)) && !NoPerspective(PERSPECTIVE);
    hide Local, ConvertNode, Conversion.ConvertMatrix, Node.EnoughMatrices, Converts;
    ConvertTranslateThen(INTO_CENTIMETRES, t, PERSPECTIVE);
  }

  // ----- Converting worlds --------------------------------------------------

  function Parents(nodes: seq<Node>): seq<int> {
    seq(|nodes|, i requires 0 <= i < |nodes| => nodes[i].parent)
  }

  ghost predicate Computable(nodes: seq<Node>) {
    forall i :: 0 <= i < |nodes| ==> nodes[i].EnoughMatrices()
  }

  function Locals(nodes: seq<Node>): seq<Matrix>
    requires Computable(nodes)
  {
    seq(|nodes|, i requires 0 <= i < |nodes| => Local(nodes[i]))
  }

  function ConvertNodes(c: Conversion, nodes: seq<Node>): seq<Node>
    requires c.WellFormed()
  {
    seq(|nodes|, i requires 0 <= i < |nodes| => ConvertNode(c, nodes[i]))
  }

  /** Each node on the root path of i converts part by part. */
  ghost predicate StepsAlong(nodes: seq<Node>, parents: seq<int>, i: int, d: nat)
    requires |parents| == |nodes| && Reaches(parents, i, d)
    decreases d
  {
    (d > 0 ==> StepsAlong(nodes, parents, parents[i], d - 1)) && AllStepsSeparable(nodes[i])
  }

  ghost predicate AllStepsSeparable(n: Node) {
    n.EnoughMatrices() && SeparableSteps(n, |n.order|)
  }

  /** Each local matrix on the root path of i is separable from the product of those above it. */
  ghost predicate SeparablePath(parents: seq<int>, locals: seq<Matrix>, i: int, d: nat)
    requires |parents| == |locals| && Reaches(parents, i, d)
    decreases d
  {
    d > 0 ==>
      && SeparablePath(parents, locals, parents[i], d - 1)
      && Separable(PathProduct(parents, locals, parents[i], d - 1), locals[i])
  }

  ghost predicate ConvertsAlong(nodes: seq<Node>, i: nat)
    requires Computable(nodes) && i < |nodes| && Anchored(Parents(nodes), i)
  {
    var d := Depth(Parents(nodes), i);
    StepsAlong(nodes, Parents(nodes), i, d) && SeparablePath(Parents(nodes), Locals(nodes), i, d)
  }

  /** As they always are where no matrix that is used has a perspective row. */
  lemma {:induction false} FlatPath(nodes: seq<Node>, parents: seq<int>, locals: seq<Matrix>, i: int, d: nat)
    requires Computable(nodes) && |parents| == |nodes| && Reaches(parents, i, d) && locals == Locals(nodes)
    requires forall j :: 0 <= j < |nodes| ==> FlatMatrices(nodes[j])
    ensures StepsAlong(nodes, parents, i, d) && SeparablePath(parents, locals, i, d)
    ensures NoPerspective(PathProduct(parents, locals, i, d))
    decreases d
  {
    hide Mul, SeparableSteps, FlatMatrices, LocalUpTo, NoPerspective, Separable;
    FlatSeparable(nodes[i]);
    LocalFlat(nodes[i], |nodes[i].order|);
    if d > 0 {
      FlatPath(nodes, parents, locals, parents[i], d - 1);
      NoPerspectiveSeparable(PathProduct(parents, locals, parents[i], d - 1), locals[i]);
    }
  }

  lemma FlatConvertsAlong(nodes: seq<Node>, i: nat)
    requires Computable(nodes) && i < |nodes| && Anchored(Parents(nodes), i)
    requires forall j :: 0 <= j < |nodes| ==> FlatMatrices(nodes[j])
    ensures ConvertsAlong(nodes, i)
  {
    hide StepsAlong, SeparablePath, FlatMatrices, Local;
    FlatPath(nodes, Parents(nodes), Locals(nodes), i, Depth(Parents(nodes), i));
  }

  lemma {:induction false} ConvertPath(c: Conversion, nodes: seq<Node>, parents: seq<int>, locals: seq<Matrix>,
                                       converted: seq<Matrix>, i: int, d: nat)
    requires c.Proper() && Computable(nodes) && |parents| == |nodes| == |converted| && Reaches(parents, i, d)
    requires locals == Locals(nodes)
    requires forall j :: 0 <= j < |nodes| ==>
      ConvertNode(c, nodes[j]).EnoughMatrices() && converted[j] == Local(ConvertNode(c, nodes[j]))
    requires c.unit == 1.0 || (StepsAlong(nodes, parents, i, d) && SeparablePath(parents, locals, i, d))
    ensures PathProduct(parents, converted, i, d) == c.ConvertMatrix(PathProduct(parents, locals, i, d))
    decreases d
  {
    hide Mul, Conversion.ConvertMatrix, Separable, AllStepsSeparable, ConvertNode, Local, Node.EnoughMatrices;
    assert nodes[i].EnoughMatrices() && locals[i] == Local(nodes[i]);
    ConvertSteps(c, nodes[i]);
    if d > 0 {
      ConvertPath(c, nodes, parents, locals, converted, parents[i], d - 1);
      ConversionOfProduct(c, PathProduct(parents, locals, parents[i], d - 1), locals[i]);
    }
  }

  lemma ConvertSteps(c: Conversion, n: Node)
    requires c.Proper() && n.EnoughMatrices() && (c.unit == 1.0 || AllStepsSeparable(n))
    ensures ConvertNode(c, n).EnoughMatrices() && Local(ConvertNode(c, n)) == c.ConvertMatrix(Local(n))
  {
    hide Local, ConvertNode, Conversion.ConvertMatrix, Node.EnoughMatrices, SeparableSteps;
    ConvertLocal(c, n);
  }

  lemma ConvertNodesShape(c: Conversion, nodes: seq<Node>)
    requires c.WellFormed() && Computable(nodes)
    ensures Computable(ConvertNodes(c, nodes)) && Parents(ConvertNodes(c, nodes)) == Parents(nodes)
  {
    forall j | 0 <= j < |nodes| ensures ConvertNode(c, nodes[j]).EnoughMatrices() {
      ConvertNodeShape(c, nodes[j]);
    }
  }

  /** In any node order, converting world matrices after composing them gives an anchored node the product, along its
      root path, of local matrices composed from converted components, if no length is scaled or everything on the
      path is separable from what comes before it. */
  lemma CalcConverted(c: Conversion, nodes: seq<Node>, stale: seq<Matrix>, i: nat)
    requires c.Proper() && Computable(nodes) && WellRooted(Parents(nodes)) && |stale| == |nodes|
    requires i < |nodes| && Anchored(Parents(nodes), i) && (c.unit == 1.0 || ConvertsAlong(nodes, i))
    ensures Computable(ConvertNodes(c, nodes))
    ensures Calc(Parents(nodes), Locals(nodes), stale, By(c)).1.worlds[i]
         == World(Parents(nodes), Locals(ConvertNodes(c, nodes)), i)
  {
    var parents, locals := Parents(nodes), Locals(nodes);
    CalcMeaning(parents, locals, stale, By(c));
    ConvertNodesShape(c, nodes);
    hide Conversion.ConvertMatrix, Calc, Local, ConvertNode, StepsAlong, SeparablePath, Node.EnoughMatrices;
    if c.IsIdentity() {
      IdentityConversion(c, World(parents, locals, i));
    }
    ConvertPath(c, nodes, parents, locals, Locals(ConvertNodes(c, nodes)), i, Depth(parents, i));
  }

  /** Every node that is not below a root has the world matrix of a new transform. */
  ghost predicate Tidy(nodes: seq<Node>, worlds: seq<Matrix>) {
    |worlds| == |nodes| && forall i: nat :: i < |nodes| && !Anchored(Parents(nodes), i) ==> worlds[i] == IDENTITY
  }

  lemma ConvertedIdentity(conv: Conversions)
    requires Usable(conv) && Invertible(conv)
    ensures Converted(conv, IDENTITY) == IDENTITY
  {
    hide Conversion.ConvertMatrix;
    if conv.By? {
      ConvertIdentityMatrix(conv.c);
    }
  }

  /** The solver leaves it so, whatever its outcome. */
  lemma CalcTidy(nodes: seq<Node>, stale: seq<Matrix>, conv: Conversions)
    requires Computable(nodes) && Tidy(nodes, stale) && Usable(conv) && Invertible(conv)
    ensures Tidy(nodes, Calc(Parents(nodes), Locals(nodes), stale, conv).1.worlds)
  {
    hide Calc, Local, Converted, Anchored;
    ConvertedIdentity(conv);
    CalcLeftovers(Parents(nodes), Locals(nodes), stale, conv);
  }

  /** Then running the solver again changes nothing. */
  lemma FreshCalcTwice(nodes: seq<Node>, stale: seq<Matrix>, conv: Conversions)
    requires Computable(nodes) && WellRooted(Parents(nodes)) && Tidy(nodes, stale) && Usable(conv) && Invertible(conv)
    ensures var r := Calc(Parents(nodes), Locals(nodes), stale, conv);
            Calc(Parents(nodes), Locals(nodes), r.1.worlds, conv) == r
  {
    hide Calc, Local, Converted;
    ConvertedIdentity(conv);
    CalcIdempotent(Parents(nodes), Locals(nodes), stale, conv);
  }
}
