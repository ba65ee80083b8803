// What the packets of a subject list carry, and what sending and parsing them does to the lists at both ends
// (src/o3ds/model.cpp:342-440, 526-585, 753-826, 1081-1434). A packet is a value; its encoding is left out.

module Packets {
  import opened Matrices
  import opened Contexts
  import opened Nodes

  /** The numeric operations that are left open: the cast to float, and the angle between two rotations. */
  datatype Numerics = Numerics(narrow: real -> real, angle: (Quaternion, Quaternion) -> real) {
    function Vec(v: Vec3): Vec3 {
      Vec3(narrow(v.x), narrow(v.y), narrow(v.z))
    }

    function Quat(q: Quaternion): Quaternion {
      Quaternion(narrow(q.w), narrow(q.x), narrow(q.y), narrow(q.z))
    }

    function NarrowRow(a: Row): Row {
      Row(narrow(a.x), narrow(a.y), narrow(a.z), narrow(a.w))
    }

    function Mat(m: Matrix): Matrix {
      Matrix(NarrowRow(m.r0), NarrowRow(m.r1), NarrowRow(m.r2), NarrowRow(m.r3))
    }
  }

  datatype Option<T> = None | Some(value: T)

  // ----- Packets -----------------------------------------------------------

  datatype Component = ComponentTranslation | ComponentRotation | ComponentScale | ComponentMatrix

  datatype NodeData = NodeData(parent: int, name: string, translation: Option<Vec3>, rotation: Option<Quaternion>,
                               scale: Option<Vec3>, matrices: seq<Matrix>, components: seq<Component>)

  datatype SubjectData = SubjectData(nodes: seq<NodeData>, name: string, uuid: string)

  datatype Indexed<T> = Indexed(value: T, i: int)

  datatype SubjectUpdate = SubjectUpdate(translations: seq<Indexed<Vec3>>, rotations: seq<Indexed<Quaternion>>,
                                         scales: seq<Indexed<Vec3>>, uuid: string)

  /** The full subjects of one kind in a packet, and the updates. */
  datatype Section = Section(full: seq<SubjectData>, updates: seq<SubjectUpdate>)

  datatype Packet = Packet(performers: Section, rigidbodies: Section, cameras: Section, context: Context)

  datatype Kind = Performer | Rigidbody | Camera

  datatype SubjectState = SubjectState(kind: Kind, name: string, uuid: string, enabled: bool, nodes: seq<Node>)

  // ----- Sending one transform ---------------------------------------------

  function WireOrder(order: seq<ComponentType>): seq<Component> {
    if order == [] then []
    else
      var n := |order| - 1;
      WireOrder(order[..n]) +
      match order[n]
      case TTranslation => [ComponentTranslation]
      case TRotation => [ComponentRotation]
      case TScale => [ComponentScale]
      case TMatrix => [ComponentMatrix]
      case TOrientation => []
  }

  function NarrowAll(num: Numerics, ms: seq<Matrix>): seq<Matrix> {
    seq(|ms|, i requires 0 <= i < |ms| => num.Mat(ms[i]))
  }

  function NodeDataOf(num: Numerics, n: Node): NodeData {
    NodeData(n.parent, n.name, Some(num.Vec(n.translation.value)), Some(num.Quat(n.rotation.value)),
             Some(num.Vec(n.scale.value)), NarrowAll(num, n.matrices), WireOrder(n.order))
  }

  /** serialize marks the translation and the rotation as sent, and not the scale. */
  function Sent(n: Node): Node {
    n.(translation := n.translation.Sent(), rotation := n.rotation.Sent())
  }

  function Abs(x: real): real {
    if x < 0.0 then -x else x
  }

  /** The norm of value - lastSentValue is above the threshold. */
  predicate Moved(t: Tracked<Vec3>, threshold: real) {
    var d := Vec3(t.value.x - t.lastSent.x, t.value.y - t.lastSent.y, t.value.z - t.lastSent.z);
    threshold < 0.0 || d.x * d.x + d.y * d.y + d.z * d.z > threshold * threshold
  }

  predicate Turned(num: Numerics, r: Tracked<Quaternion>, threshold: real) {
    Abs(num.angle(r.lastSent, r.value)) > threshold
  }

  /** A node after serializeUpdate. */
  function UpdateSent(num: Numerics, threshold: real, n: Node): Node {
    n.(translation := if Moved(n.translation, threshold) then n.translation.Sent() else n.translation,
       rotation := if Turned(num, n.rotation, threshold) then n.rotation.Sent() else n.rotation)
  }

  /** The translations that an update of the first k nodes carries. */
  function Translations(num: Numerics, threshold: real, nodes: seq<Node>, k: nat): seq<Indexed<Vec3>>
    requires k <= |nodes|
  {
    if k == 0 then []
    else Translations(num, threshold, nodes, k - 1)
         + if Moved(nodes[k - 1].translation, threshold)
           then [Indexed(num.Vec(nodes[k - 1].translation.value), k - 1)] else []
  }

  function Rotations(num: Numerics, threshold: real, nodes: seq<Node>, k: nat): seq<Indexed<Quaternion>>
    requires k <= |nodes|
  {
    if k == 0 then []
    else Rotations(num, threshold, nodes, k - 1)
         + if Turned(num, nodes[k - 1].rotation, threshold)
           then [Indexed(num.Quat(nodes[k - 1].rotation.value), k - 1)] else []
  }

  // ----- Sending subjects --------------------------------------------------

  function AllNodeData(num: Numerics, nodes: seq<Node>): seq<NodeData> {
    seq(|nodes|, i requires 0 <= i < |nodes| => NodeDataOf(num, nodes[i]))
  }

  function AllSent(nodes: seq<Node>): seq<Node> {
    seq(|nodes|, i requires 0 <= i < |nodes| => Sent(nodes[i]))
  }

  function AllUpdateSent(num: Numerics, threshold: real, nodes: seq<Node>): seq<Node> {
    seq(|nodes|, i requires 0 <= i < |nodes| => UpdateSent(num, threshold, nodes[i]))
  }

  function FullOf(num: Numerics, s: SubjectState): SubjectData {
    SubjectData(AllNodeData(num, s.nodes), s.name, s.uuid)
  }

  /** Scales are never updated. */
  function UpdateOf(num: Numerics, threshold: real, s: SubjectState): SubjectUpdate {
    SubjectUpdate(Translations(num, threshold, s.nodes, |s.nodes|), Rotations(num, threshold, s.nodes, |s.nodes|),
                  [], s.uuid)
  }

  /** In a keyframe a subject is sent in full and then updated. */
  function KeySent(num: Numerics, threshold: real, s: SubjectState): SubjectState {
    if s.enabled then s.(nodes := AllUpdateSent(num, threshold, AllSent(s.nodes))) else s
  }

  function KeyUpdateOf(num: Numerics, threshold: real, s: SubjectState): SubjectUpdate {
    UpdateOf(num, threshold, s.(nodes := AllSent(s.nodes)))
  }

  function DeltaSent(num: Numerics, threshold: real, s: SubjectState): SubjectState {
    if s.enabled then s.(nodes := AllUpdateSent(num, threshold, s.nodes)) else s
  }

  predicate Goes(s: SubjectState, kind: Kind) {
    s.enabled && s.kind == kind
  }

  /** The section of one kind in a keyframe: the enabled subjects, in list order. */
  function KeySection(num: Numerics, threshold: real, items: seq<SubjectState>, kind: Kind): Section {
    if items == [] then Section([], [])
    else
      var n := |items| - 1;
      var front := KeySection(num, threshold, items[..n], kind);
      if !Goes(items[n], kind) then front
      else Section(front.full + [FullOf(num, items[n])], front.updates + [KeyUpdateOf(num, threshold, items[n])])
  }

  function DeltaSection(num: Numerics, threshold: real, items: seq<SubjectState>, kind: Kind): Section {
    if items == [] then Section([], [])
    else
      var n := |items| - 1;
      var front := DeltaSection(num, threshold, items[..n], kind);
      if !Goes(items[n], kind) then front
      else Section([], front.updates + [UpdateOf(num, threshold, items[n])])
  }

  /** SubjectList::serialize and serializeUpdate: the packet, and the list after it. */
  function Keyframe(num: Numerics, threshold: real, items: seq<SubjectState>, context: Context): Packet {
    Packet(KeySection(num, threshold, items, Performer), KeySection(num, threshold, items, Rigidbody),
           KeySection(num, threshold, items, Camera), context)
  }

  function AfterKeyframe(num: Numerics, threshold: real, items: seq<SubjectState>): seq<SubjectState> {
    seq(|items|, i requires 0 <= i < |items| => KeySent(num, threshold, items[i]))
  }

  function Delta(num: Numerics, threshold: real, items: seq<SubjectState>, context: Context): Packet {
    Packet(DeltaSection(num, threshold, items, Performer), DeltaSection(num, threshold, items, Rigidbody),
           DeltaSection(num, threshold, items, Camera), context)
  }

  function AfterDelta(num: Numerics, threshold: real, items: seq<SubjectState>): seq<SubjectState> {
    seq(|items|, i requires 0 <= i < |items| => DeltaSent(num, threshold, items[i]))
  }

  // ----- Parsing one transform ---------------------------------------------

  function OrderOf(components: seq<Component>): (order: seq<ComponentType>)
    ensures |order| == |components|
  {
    seq(|components|, i requires 0 <= i < |components| =>
      match components[i]
      case ComponentTranslation => TTranslation
      case ComponentRotation => TRotation
      case ComponentScale => TScale
      case ComponentMatrix => TMatrix)
  }

  /** Transform::parse, which appends to the order and the matrices. */
  function ParseOnto(n: Node, d: NodeData): Node {
    Node(d.name, d.parent,
         if d.translation.Some? then Tracked(d.translation.value, ZERO_VECTOR) else n.translation,
         if d.rotation.Some? then Tracked(d.rotation.value, NO_ROTATION) else n.rotation,
         if d.scale.Some? then Tracked(d.scale.value, ZERO_VECTOR) else n.scale,
         n.matrices + d.matrices, n.order + OrderOf(d.components))
  }

  function ParseNode(d: NodeData): Node {
    ParseOnto(NEW_NODE, d)
  }

  function ParseNodes(ds: seq<NodeData>): seq<Node> {
    seq(|ds|, i requires 0 <= i < |ds| => ParseNode(ds[i]))
  }

  // ----- Updating one subject ----------------------------------------------

  /** An index outside the list is ignored. */
  function SetTranslation(nodes: seq<Node>, u: Indexed<Vec3>): seq<Node> {
    if 0 <= u.i < |nodes| then nodes[u.i := nodes[u.i].(translation := Tracked(u.value, ZERO_VECTOR))] else nodes
  }

  function SetRotation(nodes: seq<Node>, u: Indexed<Quaternion>): seq<Node> {
    if 0 <= u.i < |nodes| then nodes[u.i := nodes[u.i].(rotation := Tracked(u.value, NO_ROTATION))] else nodes
  }

  function SetScale(nodes: seq<Node>, u: Indexed<Vec3>): seq<Node> {
    if 0 <= u.i < |nodes| then nodes[u.i := nodes[u.i].(scale := Tracked(u.value, ZERO_VECTOR))] else nodes
  }

  function SetTranslations(nodes: seq<Node>, us: seq<Indexed<Vec3>>): (r: seq<Node>)
    ensures |r| == |nodes|
  {
    if us == [] then nodes else SetTranslation(SetTranslations(nodes, us[..|us| - 1]), us[|us| - 1])
  }

  function SetRotations(nodes: seq<Node>, us: seq<Indexed<Quaternion>>): (r: seq<Node>)
    ensures |r| == |nodes|
  {
    if us == [] then nodes else SetRotation(SetRotations(nodes, us[..|us| - 1]), us[|us| - 1])
  }

  function SetScales(nodes: seq<Node>, us: seq<Indexed<Vec3>>): (r: seq<Node>)
    ensures |r| == |nodes|
  {
    if us == [] then nodes else SetScale(SetScales(nodes, us[..|us| - 1]), us[|us| - 1])
  }

  /** Subject::parseUpdate. */
  function Updated(nodes: seq<Node>, u: SubjectUpdate): seq<Node> {
    SetScales(SetRotations(SetTranslations(nodes, u.translations), u.rotations), u.scales)
  }

  // ----- Parsing a packet --------------------------------------------------

  /** The first subject with the uuid, or the length of the list. */
  function Find(items: seq<SubjectState>, uuid: string): (i: nat)
    ensures i <= |items|
    ensures i < |items| ==> items[i].uuid == uuid
    ensures forall j :: 0 <= j < i ==> items[j].uuid != uuid
  {
    if items == [] || items[0].uuid == uuid then 0 else 1 + Find(items[1..], uuid)
  }

  /** The index that findSubjectByUuid finds for a kind: the first with the uuid, if it is of the kind. */
  predicate Finds(items: seq<SubjectState>, kind: Kind, uuid: string) {
    var i := Find(items, uuid);
    i < |items| && items[i].kind == kind
  }

  /** findOrAddSubject, then Subject::parse. */
  function ApplyFull(items: seq<SubjectState>, kind: Kind, d: SubjectData): seq<SubjectState> {
    if Finds(items, kind, d.uuid) then
      var i := Find(items, d.uuid);
      items[i := items[i].(name := d.name, uuid := d.uuid, nodes := ParseNodes(d.nodes))]
    else items + [SubjectState(kind, d.name, d.uuid, true, ParseNodes(d.nodes))]
  }

  function ApplyUpdate(items: seq<SubjectState>, kind: Kind, u: SubjectUpdate): seq<SubjectState> {
    if Finds(items, kind, u.uuid) then
      var i := Find(items, u.uuid);
      items[i := items[i].(nodes := Updated(items[i].nodes, u))]
    else items
  }

  /** One entry of a packet. */
  datatype Op = Full(kind: Kind, data: SubjectData) | Update(kind: Kind, update: SubjectUpdate) {
    function Uuid(): string {
      if Full? then data.uuid else update.uuid
    }
  }

  function Apply(items: seq<SubjectState>, op: Op): seq<SubjectState> {
    match op
    case Full(kind, d) => ApplyFull(items, kind, d)
    case Update(kind, u) => ApplyUpdate(items, kind, u)
  }

  function ApplyAll(items: seq<SubjectState>, ops: seq<Op>): seq<SubjectState> {
    if ops == [] then items else Apply(ApplyAll(items, ops[..|ops| - 1]), ops[|ops| - 1])
  }

  function FullOps(kind: Kind, ds: seq<SubjectData>): seq<Op> {
    seq(|ds|, i requires 0 <= i < |ds| => Full(kind, ds[i]))
  }

  function UpdateOps(kind: Kind, us: seq<SubjectUpdate>): seq<Op> {
    seq(|us|, i requires 0 <= i < |us| => Update(kind, us[i]))
  }

  function SectionOps(kind: Kind, s: Section): seq<Op> {
    FullOps(kind, s.full) + UpdateOps(kind, s.updates)
  }

  /** The entries in the order that parse takes them. */
  function Ops(p: Packet): seq<Op> {
    SectionOps(Performer, p.performers) + SectionOps(Rigidbody, p.rigidbodies) + SectionOps(Camera, p.cameras)
  }

  /** The receiving list and its context. */
  datatype Receiver = Receiver(items: seq<SubjectState>, context: Context)

  /** parse adopts the sender's context if it has no valid one; otherwise both must be valid, or nothing is read. */
  predicate Accepts(r: Receiver, p: Packet) {
    r.context.Valid() ==> p.context.Valid()
  }

  function Receive(r: Receiver, p: Packet): Receiver {
    if !Accepts(r, p) then r
    else Receiver(ApplyAll(r.items, Ops(p)), if r.context.Valid() then r.context else p.context)
  }
}
