// What a receiver computes from a keyframe: the sender's pose, moved into the receiver's context
// (src/o3ds/model.cpp:265-294, 342-440, 646-751, 1316-1434).

module PoseLaws {
  import opened Matrices
  import opened Contexts
  import opened ConversionLaws
  import opened Nodes
  import opened Hierarchy
  import opened Packets
  import opened StreamLaws
  import opened DeltaRuns

  // ----- One transform -----------------------------------------------------

  /** How far the first k components get in the order that is sent. */
  function SpokenUpTo(order: seq<ComponentType>, k: nat): nat
    requires k <= |order|
  {
    |Spoken(order[..k])|
  }

  lemma {:induction false} SpokenPrefix(order: seq<ComponentType>, k: nat)
    requires k <= |order|
    ensures SpokenUpTo(order, k) <= |Spoken(order)| && Spoken(order)[..SpokenUpTo(order, k)] == Spoken(order[..k])
    decreases |order| - k
  {
    if k == |order| {
      assert order[..k] == order;
    } else {
      SpokenPrefix(order, k + 1);
      assert order[..k + 1][..k] == order[..k];
      assert Spoken(order)[..SpokenUpTo(order, k)] == Spoken(order)[..SpokenUpTo(order, k + 1)][..SpokenUpTo(order, k)];
    }
  }

  /** One component more: it is sent next, or it is a TOrientation. */
  lemma SpokenNext(order: seq<ComponentType>, k: nat)
    requires k < |order|
    ensures if order[k] == TOrientation then SpokenUpTo(order, k + 1) == SpokenUpTo(order, k)
            else SpokenUpTo(order, k + 1) == SpokenUpTo(order, k) + 1 <= |Spoken(order)|
                 && Spoken(order)[SpokenUpTo(order, k)] == order[k]
  {
    SpokenPrefix(order, k + 1);
    assert order[..k + 1][..k] == order[..k];
    if order[k] != TOrientation {
      assert Spoken(order)[..SpokenUpTo(order, k + 1)][SpokenUpTo(order, k)] == order[k];
    }
  }

  lemma {:induction false} SpokenCount(order: seq<ComponentType>, k: nat)
    requires k <= |order| && SpokenUpTo(order, k) <= |Spoken(order)|
    ensures MatrixCount(Spoken(order), SpokenUpTo(order, k)) == MatrixCount(order, k)
  {
    if k > 0 {
      SpokenPrefix(order, k - 1);
      SpokenNext(order, k - 1);
      SpokenCount(order, k - 1);
    }
  }

  /** A packet that was made from a node with enough matrices has enough: what the receiver indexes is there. */
  lemma MirrorComputable(num: Numerics, n: Node)
    ensures Mirror(num, n).EnoughMatrices() <==> n.EnoughMatrices()
  {
    MirrorMeaning(num, n);
    var k := |n.order|;
    assert n.order[..k] == n.order;
    SpokenPrefix(n.order, k);
    SpokenCount(n.order, k);
  }

  predicate Holds(num: Numerics, x: real) {
    num.narrow(x) == x
  }

  /** A float holds every number of the node exactly. */
  ghost predicate Exact(num: Numerics, n: Node) {
    && Holds(num, n.translation.value.x) && Holds(num, n.translation.value.y) && Holds(num, n.translation.value.z)
    && Holds(num, n.rotation.value.w) && Holds(num, n.rotation.value.x)
    && Holds(num, n.rotation.value.y) && Holds(num, n.rotation.value.z)
    && Holds(num, n.scale.value.x) && Holds(num, n.scale.value.y) && Holds(num, n.scale.value.z)
    && forall i, r, c :: 0 <= i < |n.matrices| && 0 <= r < 4 && 0 <= c < 4 ==> Holds(num, n.matrices[i].At(r, c))
  }

  lemma ExactMatrix(num: Numerics, m: Matrix)
    requires forall r, c :: 0 <= r < 4 && 0 <= c < 4 ==> Holds(num, m.At(r, c))
    ensures num.Mat(m) == m
  {
    assert Holds(num, m.At(0, 0)) && Holds(num, m.At(0, 1)) && Holds(num, m.At(0, 2)) && Holds(num, m.At(0, 3));
    assert Holds(num, m.At(1, 0)) && Holds(num, m.At(1, 1)) && Holds(num, m.At(1, 2)) && Holds(num, m.At(1, 3));
    assert Holds(num, m.At(2, 0)) && Holds(num, m.At(2, 1)) && Holds(num, m.At(2, 2)) && Holds(num, m.At(2, 3));
    assert Holds(num, m.At(3, 0)) && Holds(num, m.At(3, 1)) && Holds(num, m.At(3, 2)) && Holds(num, m.At(3, 3));
  }

  /** Then narrowing changes none of its values. */
  lemma ExactKept(num: Numerics, n: Node)
    requires Exact(num, n)
    ensures num.Vec(n.translation.value) == n.translation.value && num.Quat(n.rotation.value) == n.rotation.value
    ensures num.Vec(n.scale.value) == n.scale.value && NarrowAll(num, n.matrices) == n.matrices
  {
    hide Numerics.Mat, Matrix.At;
    forall i | 0 <= i < |n.matrices| ensures num.Mat(n.matrices[i]) == n.matrices[i] {
      ExactMatrix(num, n.matrices[i]);
    }
  }

  /** Two nodes that differ in nothing but what is not sent. */
  predicate Alike(n: Node, m: Node) {
    && m.translation.value == n.translation.value && m.rotation.value == n.rotation.value
    && m.scale.value == n.scale.value && m.matrices == n.matrices && m.order == Spoken(n.order)
  }

  lemma PartAlike(n: Node, m: Node, k: nat)
    requires Alike(n, m) && n.EnoughMatrices() && m.EnoughMatrices() && k < |n.order| && n.order[k] != TOrientation
    ensures SpokenUpTo(n.order, k) < |m.order| && m.order[SpokenUpTo(n.order, k)] == n.order[k]
    ensures Part(m, SpokenUpTo(n.order, k)) == Part(n, k)
  {
    hide Translate, FromQuaternion, Scale;
    SpokenNext(n.order, k);
    SpokenCount(n.order, k);
  }

  lemma {:induction false} LocalAlike(n: Node, m: Node, k: nat)
    requires Alike(n, m) && n.EnoughMatrices() && m.EnoughMatrices() && k <= |n.order|
    ensures SpokenUpTo(n.order, k) <= |m.order| && LocalUpTo(m, SpokenUpTo(n.order, k)) == LocalUpTo(n, k)
  {
    hide Mul, Part, Spoken;
    SpokenPrefix(n.order, k);
    if k == 0 {
      SpokenOfNone(n.order);
    } else {
      LocalAlike(n, m, k - 1);
      SpokenNext(n.order, k - 1);
      if n.order[k - 1] != TOrientation {
        PartAlike(n, m, k - 1);
      }
    }
  }

  lemma SpokenOfNone(order: seq<ComponentType>)
    ensures SpokenUpTo(order, 0) == 0
  {
  }

  /** What is sent of a node, and no more, fixes its local matrix. */
  lemma MirrorLocal(num: Numerics, n: Node)
    requires n.EnoughMatrices() && Exact(num, n)
    ensures Mirror(num, n).EnoughMatrices() && Local(Mirror(num, n)) == Local(n)
  {
    MirrorComputable(num, n);
    MirrorMeaning(num, n);
    ExactKept(num, n);
    hide Exact;
    var k := |n.order|;
    assert n.order[..k] == n.order;
    LocalAlike(n, Mirror(num, n), k);
  }

  // ----- A whole subject ---------------------------------------------------

  ghost predicate AllExact(num: Numerics, nodes: seq<Node>) {
    forall i :: 0 <= i < |nodes| ==> Exact(num, nodes[i])
  }

  lemma MirrorsLocals(num: Numerics, nodes: seq<Node>)
    requires Computable(nodes) && AllExact(num, nodes)
    ensures Computable(Mirrors(num, nodes)) && Locals(Mirrors(num, nodes)) == Locals(nodes)
    ensures Parents(Mirrors(num, nodes)) == Parents(nodes)
  {
    hide Local, Exact, NodeDataOf, ParseNode;
    forall i | 0 <= i < |nodes|
      ensures Mirror(num, nodes[i]).EnoughMatrices() && Local(Mirror(num, nodes[i])) == Local(nodes[i])
      ensures Mirror(num, nodes[i]).parent == nodes[i].parent
      ensures Mirrors(num, nodes)[i] == Mirror(num, nodes[i])
    {
      MirrorLocal(num, nodes[i]);
      MirrorMeaning(num, nodes[i]);
    }
  }

  lemma MirrorsShape(num: Numerics, nodes: seq<Node>)
    requires Computable(nodes)
    ensures Computable(Mirrors(num, nodes)) && Parents(Mirrors(num, nodes)) == Parents(nodes)
  {
    hide NodeDataOf, ParseNode, Node.EnoughMatrices;
    forall i | 0 <= i < |nodes|
      ensures Mirrors(num, nodes)[i].EnoughMatrices() && Mirrors(num, nodes)[i].parent == nodes[i].parent
    {
      assert nodes[i].EnoughMatrices() && Mirrors(num, nodes)[i] == Mirror(num, nodes[i]);
      MirrorComputable(num, nodes[i]);
      MirrorMeaning(num, nodes[i]);
    }
  }

  lemma ExpectedShape(num: Numerics, keys: seq<Node>, nodes: seq<Node>)
    requires Computable(keys) && |nodes| == |keys|
    ensures Computable(AllExpected(num, keys, nodes)) && Parents(AllExpected(num, keys, nodes)) == Parents(keys)
  {
    hide Mirror, MatrixCount;
    forall i | 0 <= i < |keys|
      ensures Expected(num, keys[i], nodes[i]).EnoughMatrices()
      ensures Expected(num, keys[i], nodes[i]).parent == keys[i].parent
    {
      assert keys[i].EnoughMatrices();
      MirrorComputable(num, keys[i]);
      MirrorMeaning(num, keys[i]);
    }
  }

  /** The solver sets node i of the list, below the root, to the product of the list's own local matrices along the
      root path, converted. */
  ghost predicate Posed(nodes: seq<Node>, conv: Conversions, stale: seq<Matrix>, i: nat)
    requires Computable(nodes) && Usable(conv) && |stale| == |nodes| && i < |nodes| && Anchored(Parents(nodes), i)
  {
    var out := Calc(Parents(nodes), Locals(nodes), stale, conv);
    out.0 == Solved && out.1.flags[i] && out.1.worlds[i] == Converted(conv, World(Parents(nodes), Locals(nodes), i))
  }

  lemma SolverPoses(nodes: seq<Node>, conv: Conversions, stale: seq<Matrix>, i: nat)
    requires Computable(nodes) && Usable(conv) && |stale| == |nodes| && i < |nodes| && Anchored(Parents(nodes), i)
    requires WellRooted(Parents(nodes))
    ensures Posed(nodes, conv, stale, i)
  {
    CalcSucceeds(Parents(nodes), Locals(nodes), stale, conv);
    CalcMeaning(Parents(nodes), Locals(nodes), stale, conv);
  }

  // ----- The contexts of both ends -----------------------------------------

  /** The conversion that parse keeps: out of the packet's context into the receiver's own, if that is valid. */
  ghost predicate Keeps(conv: Conversions, r: Receiver, p: Packet) {
    if r.context.Valid() then conv.By? && Converts(conv.c, p.context, r.context) else conv.Unconverted?
  }

  /** What a sender with the context sends. */
  predicate SentFrom(num: Numerics, threshold: real, senders: seq<SubjectState>, context: Context, p: Packet) {
    p == Keyframe(num, threshold, senders, context) || p == Delta(num, threshold, senders, context)
  }

  /** Whatever is sent, the conversion kept leads from the sender's context to the one the receiver has then; a receiver
      without a valid one has the sender's then. */
  lemma KeptBridges(num: Numerics, threshold: real, senders: seq<SubjectState>, context: Context, p: Packet,
                    r: Receiver, conv: Conversions)
    requires SentFrom(num, threshold, senders, context, p) && Accepts(r, p) && Keeps(conv, r, p)
    ensures Usable(conv) && Bridges(conv, context, Receive(r, p).context)
    ensures Receive(r, p).context == if r.context.Valid() then r.context else context
  {
    hide KeySection, DeltaSection, ApplyAll, Ops;
  }

  /** A conversion between two contexts moves no motion of the shared space, and between equal ones no matrix. */
  lemma BridgeKeeps(conv: Conversions, from: Context, to: Context, m: Matrix)
    requires Bridges(conv, from, to)
    ensures Usable(conv)
    ensures from == to ==> Converted(conv, m) == m
    ensures from.Valid() && m.Affine() ==> InWorld(to, Converted(conv, m)) == InWorld(from, m)
  {
    hide Mul, Out, In, Conversion.ConvertMatrix, InWorld;
    if conv.By? {
      if from == to {
        ConversionToSelf(conv.c, from, m);
      }
      if conv.c.IsIdentity() {
        IdentityConversion(conv.c, m);
      }
      if m.Affine() {
        ConversionKeepsMotion(conv.c, from, to, m);
      }
    }
  }

  /** Node i is posed, by a conversion from one context to another: its world matrix is the same motion of the shared
      space as the product of the list's own local matrices, and the same matrix if the contexts are equal. */
  ghost predicate PosedAcross(nodes: seq<Node>, conv: Conversions, stale: seq<Matrix>, i: nat,
                              from: Context, to: Context)
    requires Computable(nodes) && Usable(conv) && |stale| == |nodes| && i < |nodes| && Anchored(Parents(nodes), i)
  {
    var world := World(Parents(nodes), Locals(nodes), i);
    var out := Calc(Parents(nodes), Locals(nodes), stale, conv).1.worlds[i];
    && Posed(nodes, conv, stale, i) && Bridges(conv, from, to)
    && (from == to ==> out == world)
    && (from.Valid() && world.Affine() ==> InWorld(to, out) == InWorld(from, world))
  }

  lemma PosedBridged(nodes: seq<Node>, conv: Conversions, stale: seq<Matrix>, i: nat, from: Context, to: Context)
    requires Computable(nodes) && Usable(conv) && |stale| == |nodes| && i < |nodes| && Anchored(Parents(nodes), i)
    requires WellRooted(Parents(nodes)) && Bridges(conv, from, to)
    ensures PosedAcross(nodes, conv, stale, i, from, to)
  {
    SolverPoses(nodes, conv, stale, i);
    hide Calc, World, Locals, Bridges, Converted, InWorld;
    BridgeKeeps(conv, from, to, World(Parents(nodes), Locals(nodes), i));
  }

  // ----- The pose arrives --------------------------------------------------

  /** Whatever the receiver had and whatever was lost, after one keyframe its world matrix of every node below the root
      of every enabled subject is the product of the sender's local matrices, narrowed, along the root path, moved from
      the sender's context into the receiver's. Where narrowing changes nothing, that is the sender's own world matrix,
      moved. */
  lemma PoseArrives(num: Numerics, threshold: real, senders: seq<SubjectState>, context: Context, r: Receiver,
                    conv: Conversions, s: SubjectState, stale: seq<Matrix>, i: nat)
    requires OneEach(senders) && AllAgree(r.items, senders) && Accepts(r, Keyframe(num, threshold, senders, context))
    requires s in senders && s.enabled && Computable(s.nodes) && WellRooted(Parents(s.nodes))
    requires Keeps(conv, r, Keyframe(num, threshold, senders, context))
    requires |stale| == |s.nodes| && i < |s.nodes| && Anchored(Parents(s.nodes), i)
    ensures var after := Receive(r, Keyframe(num, threshold, senders, context));
            && after.context == (if r.context.Valid() then r.context else context)
            && Finds(after.items, s.kind, s.uuid)
            && var nodes := after.items[Find(after.items, s.uuid)].nodes;
               && nodes == Mirrors(num, s.nodes) && Computable(nodes) && Parents(nodes) == Parents(s.nodes)
               && PosedAcross(nodes, conv, stale, i, context, after.context)
               && (AllExact(num, s.nodes) ==> Locals(nodes) == Locals(s.nodes))
  {
    KeyframeHeals(num, threshold, senders, context, r);
    KeptBridges(num, threshold, senders, context, Keyframe(num, threshold, senders, context), r, conv);
    MirrorsShape(num, s.nodes);
    if AllExact(num, s.nodes) {
      MirrorsLocals(num, s.nodes);
    }
    var after := Receive(r, Keyframe(num, threshold, senders, context));
    hide PosedAcross, Bridges, Locals, Receive, Keyframe, Computable, Mirrors, AllExact;
    PosedBridged(Mirrors(num, s.nodes), conv, stale, i, context, after.context);
    assert Healed(num, after.items, s);
  }

  function PacketOf(num: Numerics, threshold: real, context: Context, l: Link, e: Event): Packet
    requires !e.Change?
  {
    if e.SendKeyframe? then Keyframe(num, threshold, l.senders, context) else Delta(num, threshold, l.senders, context)
  }

  /** The conversion that the receiver has after the last packet, number k of the events. */
  ghost predicate LastKept(num: Numerics, threshold: real, context: Context, l: Link, events: seq<Event>, k: nat,
                           conv: Conversions) {
    && k < |events| && !events[k].Change? && (forall j :: k < j < |events| ==> events[j].Change?)
    && var before := Run(num, threshold, context, l, events[..k]);
       Keeps(conv, before.receiver, PacketOf(num, threshold, context, before, events[k]))
  }

  lemma {:induction false} ChangesKeepReceiver(num: Numerics, threshold: real, context: Context, l: Link,
                                               events: seq<Event>, k: nat)
    requires k <= |events| && forall j :: k <= j < |events| ==> events[j].Change?
    ensures Run(num, threshold, context, l, events).receiver == Run(num, threshold, context, l, events[..k]).receiver
    decreases |events|
  {
    if k < |events| {
      var front := events[..|events| - 1];
      ChangesKeepReceiver(num, threshold, context, l, front, k);
      assert front[..k] == events[..k];
    } else {
      assert events[..k] == events;
    }
  }

  /** In every run that starts with a keyframe the receiver reads what the sender's context is on. */
  lemma {:induction false} RunReadable(num: Numerics, threshold: real, context: Context, l: Link, events: seq<Event>)
    requires Readable(context, l.receiver)
    ensures Readable(context, Run(num, threshold, context, l, events).receiver)
  {
    if events != [] {
      RunReadable(num, threshold, context, l, events[..|events| - 1]);
      hide Receive, Keyframe, Delta, AfterKeyframe, AfterDelta;
      StepReadable(num, threshold, context, Run(num, threshold, context, l, events[..|events| - 1]),
                   events[|events| - 1]);
    }
  }

  lemma StepReadable(num: Numerics, threshold: real, context: Context, l: Link, e: Event)
    requires Readable(context, l.receiver)
    ensures Readable(context, Step(num, threshold, context, l, e).receiver)
  {
    hide KeySection, DeltaSection, ApplyAll, Ops;
  }

  lemma LastBridges(num: Numerics, threshold: real, context: Context, l: Link, events: seq<Event>, k: nat,
                    conv: Conversions)
    requires Readable(context, l.receiver) && LastKept(num, threshold, context, l, events, k, conv)
    ensures Usable(conv) && Bridges(conv, context, Run(num, threshold, context, l, events).receiver.context)
  {
    var before := Run(num, threshold, context, l, events[..k]);
    RunReadable(num, threshold, context, l, events[..k]);
    ChangesKeepReceiver(num, threshold, context, l, events, k + 1);
    assert events[..k + 1][..k] == events[..k] && events[..k + 1][k] == events[k];
    var p := PacketOf(num, threshold, context, before, events[k]);
    hide Keyframe, Delta, Receive, Bridges, Keeps;
    PacketReadable(num, threshold, context, before, events[k]);
    KeptBridges(num, threshold, before.senders, context, p, before.receiver, conv);
  }

  lemma PacketReadable(num: Numerics, threshold: real, context: Context, l: Link, e: Event)
    requires Readable(context, l.receiver) && !e.Change?
    ensures Accepts(l.receiver, PacketOf(num, threshold, context, l, e))
    ensures SentFrom(num, threshold, l.senders, context, PacketOf(num, threshold, context, l, e))
    ensures Step(num, threshold, context, l, e).receiver
         == Receive(l.receiver, PacketOf(num, threshold, context, l, e))
  {
    hide KeySection, DeltaSection, Receive;
  }

  /** At every point of a run, from a keyframe on, the receiver's world matrices are those of the sender's list as it
      was last sent, moved from the sender's context into the receiver's: the values last sent, narrowed, in the
      hierarchy of the keyframe. */
  lemma PoseInRun(num: Numerics, threshold: real, context: Context, l: Link, events: seq<Event>, k: nat,
                  conv: Conversions, j: nat, stale: seq<Matrix>, i: nat)
    requires Readable(context, l.receiver) && OneEach(l.senders) && AllAgree(l.receiver.items, l.senders)
    requires events != [] && events[0] == SendKeyframe && Legal(num, threshold, context, l, events)
    requires var after := Run(num, threshold, context, l, events);
             && j < |after.senders| && after.senders[j].enabled && j < |after.keys| && Computable(after.keys[j].nodes)
             && WellRooted(Parents(after.keys[j].nodes)) && |stale| == |after.keys[j].nodes|
             && i < |stale| && Anchored(Parents(after.keys[j].nodes), i)
    requires LastKept(num, threshold, context, l, events, k, conv)
    ensures var after := Run(num, threshold, context, l, events);
            var s, items := after.senders[j], after.receiver.items;
            && Usable(conv) && Finds(items, s.kind, s.uuid) && |after.keys[j].nodes| == |s.nodes|
            && var nodes := items[Find(items, s.uuid)].nodes;
               && nodes == AllExpected(num, after.keys[j].nodes, s.nodes)
               && Computable(nodes) && Parents(nodes) == Parents(after.keys[j].nodes)
               && PosedAcross(nodes, conv, stale, i, context, after.receiver.context)
  {
    RunInSync(num, threshold, context, l, events);
    LastBridges(num, threshold, context, l, events, k, conv);
    var after := Run(num, threshold, context, l, events);
    var s, key := after.senders[j], after.keys[j];
    assert InSyncOne(num, key, s, after.receiver.items);
    hide PosedAcross, Run, Legal, Computable, AllExpected, OneEach, AllAgree, LastKept, Bridges;
    ExpectedShape(num, key.nodes, s.nodes);
    PosedBridged(AllExpected(num, key.nodes, s.nodes), conv, stale, i, context, after.receiver.context);
  }

  // ----- What parse relies on ----------------------------------------------

  /** Two lists of nodes with the same parents, orders and matrices. */
  ghost predicate SameShape(a: seq<Node>, b: seq<Node>) {
    && |a| == |b|
    && forall i :: 0 <= i < |a| ==>
         b[i].parent == a[i].parent && b[i].order == a[i].order && b[i].matrices == a[i].matrices
  }

  lemma {:induction false} TranslationsKeepShape(nodes: seq<Node>, us: seq<Indexed<Vec3>>)
    ensures SameShape(nodes, SetTranslations(nodes, us))
  {
    if us != [] {
      TranslationsKeepShape(nodes, us[..|us| - 1]);
    }
  }

  lemma {:induction false} RotationsKeepShape(nodes: seq<Node>, us: seq<Indexed<Quaternion>>)
    ensures SameShape(nodes, SetRotations(nodes, us))
  {
    if us != [] {
      RotationsKeepShape(nodes, us[..|us| - 1]);
    }
  }

  lemma {:induction false} ScalesKeepShape(nodes: seq<Node>, us: seq<Indexed<Vec3>>)
    ensures SameShape(nodes, SetScales(nodes, us))
  {
    if us != [] {
      ScalesKeepShape(nodes, us[..|us| - 1]);
    }
  }

  lemma UpdatedShape(nodes: seq<Node>, u: SubjectUpdate)
    ensures SameShape(nodes, Updated(nodes, u)) && Parents(Updated(nodes, u)) == Parents(nodes)
  {
    var a := SetTranslations(nodes, u.translations);
    var b := SetRotations(a, u.rotations);
    TranslationsKeepShape(nodes, u.translations);
    RotationsKeepShape(a, u.rotations);
    ScalesKeepShape(b, u.scales);
    hide SetTranslations, SetRotations, SetScales;
  }

  lemma UpdatedComputable(nodes: seq<Node>, u: SubjectUpdate)
    requires Computable(nodes)
    ensures Computable(Updated(nodes, u))
  {
    UpdatedShape(nodes, u);
    hide MatrixCount, Updated;
    forall i | 0 <= i < |nodes| ensures Updated(nodes, u)[i].EnoughMatrices() {
      assert nodes[i].EnoughMatrices();
    }
  }

  ghost predicate Indexable(op: Op) {
    op.Full? ==> Computable(ParseNodes(op.data.nodes))
  }

  lemma {:induction false} EntriesComputable(items: seq<SubjectState>, ops: seq<Op>)
    requires AllComputable(items) && forall op :: op in ops ==> Indexable(op)
    ensures AllComputable(ApplyAll(items, ops))
  {
    if ops != [] {
      var n := |ops| - 1;
      var op := ops[n];
      assert op in ops;
      EntriesComputable(items, ops[..n]);
      var mid := ApplyAll(items, ops[..n]);
      hide Find, Updated, ParseNodes, Computable;
      if op.Update? && Finds(mid, op.kind, op.Uuid()) {
        UpdatedComputable(mid[Find(mid, op.Uuid())].nodes, op.update);
      }
    }
  }

  lemma FullComputable(num: Numerics, s: SubjectState)
    requires Computable(s.nodes)
    ensures Computable(ParseNodes(FullOf(num, s).nodes))
  {
    hide Node.EnoughMatrices, NodeDataOf, ParseNode;
    assert ParseNodes(FullOf(num, s).nodes) == Mirrors(num, s.nodes);
    forall i | 0 <= i < |s.nodes| ensures Mirrors(num, s.nodes)[i].EnoughMatrices() {
      assert s.nodes[i].EnoughMatrices();
      assert Mirrors(num, s.nodes)[i] == Mirror(num, s.nodes[i]);
      MirrorComputable(num, s.nodes[i]);
    }
  }

  lemma KeyIndexable(num: Numerics, threshold: real, senders: seq<SubjectState>, op: Op)
    requires AllComputable(senders) && exists s :: s in senders && KeyEntry(num, threshold, s, op)
    ensures Indexable(op)
  {
    var s :| s in senders && KeyEntry(num, threshold, s, op);
    hide FullOf, KeyUpdateOf, Computable;
    FullComputable(num, s);
  }

  lemma DeltaIndexable(num: Numerics, threshold: real, senders: seq<SubjectState>, op: Op)
    requires exists s :: s in senders && DeltaEntry(num, threshold, s, op)
    ensures Indexable(op)
  {
  }

  /** Parsing what another list serialized never indexes a matrix that is not there. */
  lemma SentIsComputable(num: Numerics, threshold: real, senders: seq<SubjectState>, context: Context, r: Receiver)
    requires AllComputable(senders) && AllComputable(r.items)
    ensures AllComputable(Receive(r, Keyframe(num, threshold, senders, context)).items)
    ensures AllComputable(Receive(r, Delta(num, threshold, senders, context)).items)
  {
    var key, delta := Ops(Keyframe(num, threshold, senders, context)), Ops(Delta(num, threshold, senders, context));
    KeyframeEntries(num, threshold, senders, context);
    DeltaEntries(num, threshold, senders, context);
    hide Keyframe, Delta, AllComputable, Apply, Ops, KeyEntry, DeltaEntry, Indexable;
    forall op | op in key ensures Indexable(op) {
      KeyIndexable(num, threshold, senders, op);
    }
    forall op | op in delta ensures Indexable(op) {
      DeltaIndexable(num, threshold, senders, op);
    }
    EntriesComputable(r.items, key);
    EntriesComputable(r.items, delta);
  }
}
