// The objects of the model: transforms, subjects and subject lists, updated in place (src/o3ds/model.cpp,
// src/o3ds/model.h). Each method is tied to the functions of Packets and Hierarchy on their values.

module Model {
  import opened Matrices
  import opened Contexts
  import opened Nodes
  import opened Packets
  import opened Hierarchy

  class Transform {
    var translation: Tracked<Vec3>
    var rotation: Tracked<Quaternion>
    var scale: Tracked<Vec3>
    var mMatrix: Matrix
    var mWorldMatrix: Matrix
    var bWorldMatrix: bool
    var mMatrices: seq<Matrix>
    var mTransformOrder: seq<ComponentType>
    var mName: string
    var mParentId: int

    ghost function View(): Node
      reads this
    {
      Node(mName, mParentId, translation, rotation, scale, mMatrices, mTransformOrder)
    }

    constructor ()
      ensures View() == NEW_NODE && mMatrix == mWorldMatrix == IDENTITY && !bWorldMatrix
    {
      translation := NEW_NODE.translation;
      rotation := NEW_NODE.rotation;
      scale := NEW_NODE.scale;
      mMatrix := IDENTITY;
      mWorldMatrix := IDENTITY;
      bWorldMatrix := false;
      mMatrices := [];
      mTransformOrder := [];
      mName := "";
      mParentId := ROOT;
    }

    /** Rebuilds the local matrix from the components in order, and clears the world-matrix flag. */
    method Update()
      requires View().EnoughMatrices()
      modifies this`mMatrix, this`bWorldMatrix
      ensures mMatrix == Local(View()) && !bWorldMatrix
    {
      hide Mul, FromQuaternion, Translate, Scale;
      bWorldMatrix := false;
      mMatrix := IDENTITY;
      var matrixId := 0;
      for k := 0 to |mTransformOrder|
        invariant !bWorldMatrix && matrixId == MatrixCount(mTransformOrder, k)
        invariant mMatrix == LocalUpTo(View(), k)
      {
        var op := mTransformOrder[k];
        MatrixCountGrows(mTransformOrder, k + 1, |mTransformOrder|);
        if op == TTranslation {
          mMatrix := Mul(mMatrix, Translate(translation.value));
        }
        if op == TRotation {
          mMatrix := Mul(mMatrix, FromQuaternion(rotation.value));
        }
        if op == TScale {
          mMatrix := Mul(mMatrix, Scale(scale.value));
        }
        if op == TMatrix {
          mMatrix := Mul(mMatrix, mMatrices[matrixId]);
          matrixId := matrixId + 1;
        }
      }
    }

    method Serialize(num: Numerics) returns (d: NodeData)
      modifies this`translation, this`rotation
      ensures d == NodeDataOf(num, old(View())) && View() == Sent(old(View()))
    {
      var t, r, s := num.Vec(translation.value), num.Quat(rotation.value), num.Vec(scale.value);
      translation := translation.Sent();
      rotation := rotation.Sent();
      var components := [];
      for k := 0 to |mTransformOrder|
        invariant components == WireOrder(mTransformOrder[..k])
      {
        assert mTransformOrder[..k + 1][..k] == mTransformOrder[..k];
        var op := mTransformOrder[k];
        if op == TTranslation {
          components := components + [ComponentTranslation];
        }
        if op == TRotation {
          components := components + [ComponentRotation];
        }
        if op == TScale {
          components := components + [ComponentScale];
        }
        if op == TMatrix {
          components := components + [ComponentMatrix];
        }
      }
      assert mTransformOrder[..|mTransformOrder|] == mTransformOrder;
      var matrices := [];
      for i := 0 to |mMatrices|
        invariant matrices == NarrowAll(num, mMatrices[..i])
      {
        matrices := matrices + [num.Mat(mMatrices[i])];
      }
      assert mMatrices[..|mMatrices|] == mMatrices;
      d := NodeData(mParentId, mName, Some(t), Some(r), Some(s), matrices, components);
    }

    /** The components and matrices of the packet are added to those there are. */
    method Parse(d: NodeData)
      modifies this
      ensures View() == ParseOnto(old(View()), d)
      ensures mMatrix == old(mMatrix) && mWorldMatrix == old(mWorldMatrix) && bWorldMatrix == old(bWorldMatrix)
    {
      mName := d.name;
      mParentId := d.parent;
      if d.translation.Some? {
        translation := Tracked(d.translation.value, ZERO_VECTOR);
      }
      if d.rotation.Some? {
        rotation := Tracked(d.rotation.value, NO_ROTATION);
      }
      if d.scale.Some? {
        scale := Tracked(d.scale.value, ZERO_VECTOR);
      }
      ParseComponents(d.components);
      ParseMatrices(d.matrices);
    }

    method ParseComponents(components: seq<Component>)
      modifies this`mTransformOrder
      ensures mTransformOrder == old(mTransformOrder) + OrderOf(components)
    {
      for k := 0 to |components|
        invariant mTransformOrder == old(mTransformOrder) + OrderOf(components)[..k]
      {
        match components[k] {
          case ComponentTranslation => mTransformOrder := mTransformOrder + [TTranslation];
          case ComponentRotation => mTransformOrder := mTransformOrder + [TRotation];
          case ComponentScale => mTransformOrder := mTransformOrder + [TScale];
          case ComponentMatrix => mTransformOrder := mTransformOrder + [TMatrix];
        }
      }
    }

    method ParseMatrices(matrices: seq<Matrix>)
      modifies this`mMatrices
      ensures mMatrices == old(mMatrices) + matrices
    {
      for k := 0 to |matrices|
        invariant mMatrices == old(mMatrices) + matrices[..k]
      {
        mMatrices := mMatrices + [matrices[k]];
      }
    }

    /** Marks as sent what is over the threshold. */
    method SendChanges(num: Numerics, deltaThreshold: real) returns (moved: bool, turned: bool)
      modifies this`translation, this`rotation
      ensures moved == Moved(old(translation), deltaThreshold) && turned == Turned(num, old(rotation), deltaThreshold)
      ensures View() == UpdateSent(num, deltaThreshold, old(View()))
      ensures translation.value == old(translation).value && rotation.value == old(rotation).value
    {
      moved := Moved(translation, deltaThreshold);
      if moved {
        translation := translation.Sent();
      }
      turned := Turned(num, rotation, deltaThreshold);
      if turned {
        rotation := rotation.Sent();
      }
    }
  }

  ghost function Views(ts: seq<Transform>): (r: seq<Node>)
    reads ts
    ensures |r| == |ts|
  {
    seq(|ts|, i requires 0 <= i < |ts| reads ts => ts[i].View())
  }

  ghost function Worlds(ts: seq<Transform>): (r: seq<Matrix>)
    reads ts
    ensures |r| == |ts|
  {
    seq(|ts|, i requires 0 <= i < |ts| reads ts => ts[i].mWorldMatrix)
  }

  ghost function Flags(ts: seq<Transform>): (r: seq<bool>)
    reads ts
    ensures |r| == |ts|
  {
    seq(|ts|, i requires 0 <= i < |ts| reads ts => ts[i].bWorldMatrix)
  }

  /** The local matrices, as last rebuilt. */
  ghost function LocalMatrices(ts: seq<Transform>): (r: seq<Matrix>)
    reads ts
    ensures |r| == |ts|
  {
    seq(|ts|, i requires 0 <= i < |ts| reads ts => ts[i].mMatrix)
  }

  ghost function Solver(ts: seq<Transform>): State
    reads ts
  {
    State(Flags(ts), Worlds(ts))
  }

  ghost function ConversionOf(conv: ConversionContext?): Conversions
    reads conv
  {
    if conv == null then Unconverted else By(conv.conversion)
  }

  lemma NoRoots(parents: seq<int>)
    ensures RootCount(parents[..0]) == 0 && parents[..|parents|] == parents
  {
  }

  lemma OneMoreRoot(parents: seq<int>, i: nat)
    requires i < |parents|
    ensures RootCount(parents[..i + 1]) == RootCount(parents[..i]) + if parents[i] == ROOT then 1 else 0
  {
    assert parents[..i + 1][..i] == parents[..i];
  }

  /** The start, with only the first i nodes looked at. */
  ghost function Marked(parents: seq<int>, locals: seq<Matrix>, stale: seq<Matrix>, i: nat): State
    requires |parents| == |locals| == |stale|
  {
    State(seq(|parents|, j requires 0 <= j < |parents| => j < i && parents[j] == ROOT),
          seq(|parents|, j requires 0 <= j < |parents| => if j < i && parents[j] == ROOT then locals[j] else stale[j]))
  }

  lemma NoneMarked(parents: seq<int>, locals: seq<Matrix>, s: State)
    requires Fits(parents, locals, s) && forall j :: 0 <= j < |parents| ==> !s.flags[j]
    ensures Marked(parents, locals, s.worlds, 0) == s
  {
  }

  lemma OneMoreMarked(parents: seq<int>, locals: seq<Matrix>, stale: seq<Matrix>, i: nat)
    requires |parents| == |locals| == |stale| && i < |parents|
    ensures var s := Marked(parents, locals, stale, i);
            && Fits(parents, locals, s)
            && Marked(parents, locals, stale, i + 1)
               == if parents[i] == ROOT then State(s.flags[i := true], s.worlds[i := locals[i]]) else s
  {
  }

  lemma AllMarked(parents: seq<int>, locals: seq<Matrix>, stale: seq<Matrix>)
    requires |parents| == |locals| == |stale|
    ensures Marked(parents, locals, stale, |parents|) == Start(parents, locals, stale)
  {
  }

  lemma NodeAt(ts: seq<Transform>, i: nat)
    requires i < |ts|
    ensures Views(ts)[i] == ts[i].View() && LocalMatrices(ts)[i] == ts[i].mMatrix
  {
  }

  /** The matrices and the flag are those of a new transform. */
  ghost predicate New(t: Transform)
    reads t
  {
    t.mMatrix == t.mWorldMatrix == IDENTITY && !t.bWorldMatrix
  }

  /** Both matrices and the flag of each. */
  ghost function AllMatrices(ts: seq<Transform>): (r: (seq<Matrix>, State))
    reads ts
  {
    (LocalMatrices(ts), Solver(ts))
  }

  ghost predicate NoAliases(ts: seq<Transform>) {
    forall i, j :: 0 <= i < j < |ts| ==> ts[i] != ts[j]
  }

  lemma CalcThenConvert(parents: seq<int>, locals: seq<Matrix>, stale: seq<Matrix>, conv: Conversions)
    requires |parents| == |locals| == |stale| && Usable(conv)
    ensures var r := Calc(parents, locals, stale, Unconverted);
            Calc(parents, locals, stale, conv)
            == (r.0, if r.0 == Solved then r.1.(worlds := Convert(conv, r.1.worlds)) else r.1)
  {
  }

  lemma ParentIs(ts: seq<Transform>, i: nat)
    requires i < |ts|
    ensures Parents(Views(ts))[i] == ts[i].mParentId
  {
  }

  lemma NoneSwept(parents: seq<int>, locals: seq<Matrix>, s: State)
    requires Fits(parents, locals, s)
    ensures Checked(parents, s, 0) && Sweep(parents, locals, s, 0) == s
  {
  }

  lemma OneMoreSwept(parents: seq<int>, locals: seq<Matrix>, s: State, i: nat)
    requires Fits(parents, locals, s) && i < |parents| && Checked(parents, s, i)
    requires Sweep(parents, locals, s, i).flags[i] || GoodParent(parents, i)
    ensures Checked(parents, s, i + 1)
    ensures var t, u := Sweep(parents, locals, s, i), Sweep(parents, locals, s, i + 1);
            && u == Visit(parents, locals, t, i)
            && (u.flags == s.flags <==> t.flags == s.flags && u.flags == t.flags)
  {
  }

  /** The outer loop after some passes from the start: s is where they lead, and the passes left are counted. */
  ghost predicate Underway(parents: seq<int>, locals: seq<Matrix>, start: State, s: State, iterations: nat,
                           done: bool) {
    && Fits(parents, locals, start) && Fits(parents, locals, s) && iterations <= |parents|
    && if iterations == 0 then s == start && !done else
       && Checked(parents, start, |parents|) && Checked(parents, s, |parents|)
       && if done then s == Settle(parents, locals, start) else
          && Settle(parents, locals, s) == Settle(parents, locals, start)
          && iterations + Passes(parents, locals, s) == Passes(parents, locals, start) <= |parents|
  }

  lemma Undone(parents: seq<int>, locals: seq<Matrix>, start: State)
    requires Fits(parents, locals, start)
    ensures Underway(parents, locals, start, start, 0, false)
  {
  }

  /** The pass budget is never spent. */
  lemma WithinBudget(parents: seq<int>, locals: seq<Matrix>, start: State, s: State, iterations: nat)
    requires Underway(parents, locals, start, s, iterations, false) && RootCount(parents) == 1
    ensures iterations < |parents|
  {
  }

  /** Only the first pass can refuse a node, and it is the first bad one. */
  lemma RefusedFirst(parents: seq<int>, locals: seq<Matrix>, stale: seq<Matrix>, s: State, iterations: nat, stop: nat)
    requires |parents| == |locals| == |stale| && stop < |parents|
    requires Underway(parents, locals, Start(parents, locals, stale), s, iterations, false)
    requires Checked(parents, s, stop) && !s.flags[stop] && !GoodParent(parents, stop)
    ensures s == Start(parents, locals, stale) && FirstBad(parents, 0) == stop
  {
  }

  lemma EnoughPasses(parents: seq<int>, locals: seq<Matrix>, stale: seq<Matrix>)
    requires |parents| == |locals| == |stale| && RootCount(parents) == 1
    requires Checked(parents, Start(parents, locals, stale), |parents|)
    ensures Passes(parents, locals, Start(parents, locals, stale)) <= |parents|
  {
    RootCountMeaning(parents);
    hide RootCount, Passes;
    PassBudget(parents, locals, stale);
  }

  lemma OnePass(parents: seq<int>, locals: seq<Matrix>, stale: seq<Matrix>, s: State, iterations: nat)
    requires |parents| == |locals| == |stale| && RootCount(parents) == 1
    requires Underway(parents, locals, Start(parents, locals, stale), s, iterations, false)
    requires Checked(parents, s, |parents|)
    ensures var t := Sweep(parents, locals, s, |parents|);
            Underway(parents, locals, Start(parents, locals, stale), t, iterations + 1, t.flags == s.flags)
  {
    hide RootCount;
    if iterations == 0 {
      EnoughPasses(parents, locals, stale);
    }
  }

  lemma AllDone(parents: seq<int>, locals: seq<Matrix>, stale: seq<Matrix>, s: State, iterations: nat)
    requires |parents| == |locals| == |stale|
    requires Underway(parents, locals, Start(parents, locals, stale), s, iterations, true)
    ensures FirstBad(parents, 0) == |parents|
    ensures Checked(parents, Start(parents, locals, stale), |parents|)
    ensures s == Settle(parents, locals, Start(parents, locals, stale))
  {
  }

  class Subject {
    const kind: Kind
    var mName: string
    var mUuid: string
    var mEnabled: bool
    /** Owned: no transform twice. */
    var mTransforms: seq<Transform>
    var mError: Outcome

    ghost predicate Valid()
      reads this
    {
      NoAliases(mTransforms)
    }

    ghost function View(): SubjectState
      reads this, mTransforms
    {
      SubjectState(kind, mName, mUuid, mEnabled, Views(mTransforms))
    }

    constructor (kind: Kind, uuid: string)
      ensures Valid() && View() == SubjectState(kind, "", uuid, true, []) && mTransforms == []
    {
      this.kind := kind;
      mName := "";
      mUuid := uuid;
      mEnabled := true;
      mTransforms := [];
      mError := Solved;
    }

    /** A full packet re-states the whole transform list. */
    method Parse(d: SubjectData)
      requires Valid()
      modifies this
      ensures Valid() && fresh(mTransforms)
      ensures View() == old(View()).(name := d.name, uuid := d.uuid, nodes := ParseNodes(d.nodes))
      ensures forall i :: 0 <= i < |mTransforms| ==> New(mTransforms[i])
    {
      mName := d.name;
      mUuid := d.uuid;
      mTransforms := [];
      for n := 0 to |d.nodes|
        invariant Valid() && fresh(mTransforms) && mEnabled == old(mEnabled) && mName == d.name && mUuid == d.uuid
        invariant Views(mTransforms) == ParseNodes(d.nodes)[..n]
        invariant forall i :: 0 <= i < |mTransforms| ==> New(mTransforms[i])
      {
        ParseTransform(d.nodes[n]);
      }
    }

    method ParseTransform(d: NodeData)
      requires Valid()
      modifies this`mTransforms
      ensures Valid() && |mTransforms| == |old(mTransforms)| + 1
      ensures mTransforms[..|old(mTransforms)|] == old(mTransforms) && fresh(mTransforms[|old(mTransforms)|])
      ensures New(mTransforms[|old(mTransforms)|])
      ensures Views(mTransforms) == old(Views(mTransforms)) + [ParseNode(d)]
    {
      var transform := new Transform();
      transform.Parse(d);
      mTransforms := mTransforms + [transform];
    }

    method Serialize(num: Numerics) returns (d: SubjectData)
      requires Valid()
      modifies mTransforms
      ensures d == FullOf(num, old(View()))
      ensures Views(mTransforms) == AllSent(old(Views(mTransforms)))
    {
      hide NodeDataOf, Sent, Views;
      var nodes := [];
      ghost var before, now := Views(mTransforms), Views(mTransforms);
      for i := 0 to |mTransforms|
        invariant nodes == AllNodeData(num, before)[..i] && now == Views(mTransforms)
        invariant forall j :: 0 <= j < i ==> now[j] == Sent(before[j])
        invariant forall j :: i <= j < |mTransforms| ==> now[j] == before[j]
      {
        var node := SerializeTransform(num, i);
        nodes := nodes + [node];
        now := Views(mTransforms);
      }
      d := SubjectData(nodes, mName, mUuid);
    }

    method SerializeTransform(num: Numerics, i: nat) returns (d: NodeData)
      requires Valid() && i < |mTransforms|
      modifies mTransforms[i]
      ensures d == NodeDataOf(num, old(Views(mTransforms))[i])
      ensures Views(mTransforms) == old(Views(mTransforms))[i := Sent(old(Views(mTransforms))[i])]
    {
      hide NodeDataOf, Sent;
      d := mTransforms[i].Serialize(num);
      assert forall j :: 0 <= j < |mTransforms| && j != i ==> Views(mTransforms)[j] == old(Views(mTransforms))[j];
    }

    method SendTransform(num: Numerics, deltaThreshold: real, i: nat) returns (moved: bool, turned: bool)
      requires Valid() && i < |mTransforms|
      modifies mTransforms[i]
      ensures var nodes := old(Views(mTransforms));
              && moved == Moved(nodes[i].translation, deltaThreshold)
              && turned == Turned(num, nodes[i].rotation, deltaThreshold)
              && Views(mTransforms) == nodes[i := UpdateSent(num, deltaThreshold, nodes[i])]
      ensures mTransforms[i].translation.value == old(mTransforms[i].translation.value)
      ensures mTransforms[i].rotation.value == old(mTransforms[i].rotation.value)
    {
      hide Moved, Turned;
      moved, turned := mTransforms[i].SendChanges(num, deltaThreshold);
      assert forall j :: 0 <= j < |mTransforms| && j != i ==> Views(mTransforms)[j] == old(Views(mTransforms))[j];
    }

    /** A transform's translation and rotation are sent, and marked as sent, when they are over the threshold. */
    method SerializeUpdate(num: Numerics, deltaThreshold: real) returns (u: SubjectUpdate, count: nat)
      requires Valid()
      modifies mTransforms
      ensures u == UpdateOf(num, deltaThreshold, old(View()))
      ensures count == |u.translations| + |u.rotations|
      ensures Views(mTransforms) == AllUpdateSent(num, deltaThreshold, old(Views(mTransforms)))
    {
      hide Moved, Turned, UpdateSent, Views;
      ghost var nodes, now := Views(mTransforms), Views(mTransforms);
      var translations, rotations := [], [];
      count := 0;
      for i := 0 to |mTransforms|
        invariant translations == Translations(num, deltaThreshold, nodes, i)
        invariant rotations == Rotations(num, deltaThreshold, nodes, i)
        invariant count == |translations| + |rotations|
        invariant now == Views(mTransforms)
        invariant forall j :: 0 <= j < i ==> now[j] == UpdateSent(num, deltaThreshold, nodes[j])
        invariant forall j :: i <= j < |now| ==> now[j] == nodes[j]
      {
        var t := mTransforms[i];
        NodeAt(mTransforms, i);
        var moved, turned := SendTransform(num, deltaThreshold, i);
        now := Views(mTransforms);
        if moved {
          translations := translations + [Indexed(num.Vec(t.translation.value), i)];
          count := count + 1;
        }
        if turned {
          rotations := rotations + [Indexed(num.Quat(t.rotation.value), i)];
          count := count + 1;
        }
      }
      u := SubjectUpdate(translations, rotations, [], mUuid);
    }

    /** Indices outside the list are ignored. */
    method ParseUpdate(u: SubjectUpdate)
      requires Valid()
      modifies mTransforms
      ensures Views(mTransforms) == Updated(old(Views(mTransforms)), u)
      ensures AllMatrices(mTransforms) == old(AllMatrices(mTransforms))
    {
      UpdateTranslations(u.translations);
      UpdateRotations(u.rotations);
      UpdateScales(u.scales);
    }

    method SetTranslation(i: nat, value: Vec3)
      requires Valid() && i < |mTransforms|
      modifies mTransforms[i]
      ensures Views(mTransforms)
              == old(Views(mTransforms))[i := old(Views(mTransforms))[i].(translation := Tracked(value, ZERO_VECTOR))]
      ensures AllMatrices(mTransforms) == old(AllMatrices(mTransforms))
    {
      mTransforms[i].translation := Tracked(value, ZERO_VECTOR);
      assert LocalMatrices(mTransforms) == old(LocalMatrices(mTransforms));
      assert Worlds(mTransforms) == old(Worlds(mTransforms)) && Flags(mTransforms) == old(Flags(mTransforms));
    }

    method UpdateTranslations(updates: seq<Indexed<Vec3>>)
      requires Valid()
      modifies mTransforms
      ensures Views(mTransforms) == SetTranslations(old(Views(mTransforms)), updates)
      ensures AllMatrices(mTransforms) == old(AllMatrices(mTransforms))
    {
      hide Views, AllMatrices;
      ghost var nodes := Views(mTransforms);
      for k := 0 to |updates|
        invariant Views(mTransforms) == SetTranslations(nodes, updates[..k])
        invariant AllMatrices(mTransforms) == old(AllMatrices(mTransforms))
      {
        assert updates[..k + 1][..k] == updates[..k];
        var id := updates[k].i;
        if 0 <= id < |mTransforms| {
          SetTranslation(id, updates[k].value);
        }
      }
      assert updates[..|updates|] == updates;
    }

    method SetRotation(i: nat, value: Quaternion)
      requires Valid() && i < |mTransforms|
      modifies mTransforms[i]
      ensures Views(mTransforms)
              == old(Views(mTransforms))[i := old(Views(mTransforms))[i].(rotation := Tracked(value, NO_ROTATION))]
      ensures AllMatrices(mTransforms) == old(AllMatrices(mTransforms))
    {
      mTransforms[i].rotation := Tracked(value, NO_ROTATION);
      assert LocalMatrices(mTransforms) == old(LocalMatrices(mTransforms));
      assert Worlds(mTransforms) == old(Worlds(mTransforms)) && Flags(mTransforms) == old(Flags(mTransforms));
    }

    method UpdateRotations(updates: seq<Indexed<Quaternion>>)
      requires Valid()
      modifies mTransforms
      ensures Views(mTransforms) == SetRotations(old(Views(mTransforms)), updates)
      ensures AllMatrices(mTransforms) == old(AllMatrices(mTransforms))
    {
      hide Views, AllMatrices;
      ghost var nodes := Views(mTransforms);
      for k := 0 to |updates|
        invariant Views(mTransforms) == SetRotations(nodes, updates[..k])
        invariant AllMatrices(mTransforms) == old(AllMatrices(mTransforms))
      {
        assert updates[..k + 1][..k] == updates[..k];
        var id := updates[k].i;
        if 0 <= id < |mTransforms| {
          SetRotation(id, updates[k].value);
        }
      }
      assert updates[..|updates|] == updates;
    }

    method SetScale(i: nat, value: Vec3)
      requires Valid() && i < |mTransforms|
      modifies mTransforms[i]
      ensures Views(mTransforms)
              == old(Views(mTransforms))[i := old(Views(mTransforms))[i].(scale := Tracked(value, ZERO_VECTOR))]
      ensures AllMatrices(mTransforms) == old(AllMatrices(mTransforms))
    {
      mTransforms[i].scale := Tracked(value, ZERO_VECTOR);
      assert LocalMatrices(mTransforms) == old(LocalMatrices(mTransforms));
      assert Worlds(mTransforms) == old(Worlds(mTransforms)) && Flags(mTransforms) == old(Flags(mTransforms));
    }

    method UpdateScales(updates: seq<Indexed<Vec3>>)
      requires Valid()
      modifies mTransforms
      ensures Views(mTransforms) == SetScales(old(Views(mTransforms)), updates)
      ensures AllMatrices(mTransforms) == old(AllMatrices(mTransforms))
    {
      hide Views, AllMatrices;
      ghost var nodes := Views(mTransforms);
      for k := 0 to |updates|
        invariant Views(mTransforms) == SetScales(nodes, updates[..k])
        invariant AllMatrices(mTransforms) == old(AllMatrices(mTransforms))
      {
        assert updates[..k + 1][..k] == updates[..k];
        var id := updates[k].i;
        if 0 <= id < |mTransforms| {
          SetScale(id, updates[k].value);
        }
      }
      assert updates[..|updates|] == updates;
    }

    // ----- calcMatrices ------------------------------------------------------

    method UpdateOne(i: nat, ghost node: Node)
      requires Valid() && i < |mTransforms| && node == mTransforms[i].View() && node.EnoughMatrices()
      modifies mTransforms[i]
      ensures Views(mTransforms) == old(Views(mTransforms)) && Worlds(mTransforms) == old(Worlds(mTransforms))
      ensures LocalMatrices(mTransforms) == old(LocalMatrices(mTransforms))[i := Local(node)]
      ensures Flags(mTransforms) == old(Flags(mTransforms))[i := false]
    {
      hide Local;
      mTransforms[i].Update();
    }

    method UpdateAll()
      requires Valid() && Computable(Views(mTransforms))
      modifies mTransforms
      ensures Views(mTransforms) == old(Views(mTransforms)) && Worlds(mTransforms) == old(Worlds(mTransforms))
      ensures LocalMatrices(mTransforms) == Locals(Views(mTransforms))
      ensures forall j :: 0 <= j < |mTransforms| ==> !Flags(mTransforms)[j]
    {
      hide Local, Node.EnoughMatrices;
      ghost var nodes := Views(mTransforms);
      ghost var locals := Locals(nodes);
      for i := 0 to |mTransforms|
        invariant Views(mTransforms) == nodes && Worlds(mTransforms) == old(Worlds(mTransforms))
        invariant forall j :: 0 <= j < i ==> LocalMatrices(mTransforms)[j] == locals[j] && !Flags(mTransforms)[j]
      {
        assert nodes[i] == mTransforms[i].View();
        UpdateOne(i, nodes[i]);
      }
    }

    method SetWorld(i: nat, m: Matrix)
      requires Valid() && i < |mTransforms|
      modifies mTransforms[i]
      ensures Views(mTransforms) == old(Views(mTransforms))
      ensures LocalMatrices(mTransforms) == old(LocalMatrices(mTransforms))
      ensures Flags(mTransforms) == old(Flags(mTransforms))[i := true]
      ensures Worlds(mTransforms) == old(Worlds(mTransforms))[i := m]
    {
      mTransforms[i].mWorldMatrix := m;
      mTransforms[i].bWorldMatrix := true;
    }

    method MarkRoots() returns (rootCount: nat)
      requires Valid() && forall j :: 0 <= j < |mTransforms| ==> !Flags(mTransforms)[j]
      modifies mTransforms
      ensures Views(mTransforms) == old(Views(mTransforms))
      ensures LocalMatrices(mTransforms) == old(LocalMatrices(mTransforms))
      ensures rootCount == RootCount(Parents(Views(mTransforms)))
      ensures Solver(mTransforms)
              == Start(Parents(Views(mTransforms)), LocalMatrices(mTransforms), old(Worlds(mTransforms)))
    {
      ghost var nodes, locals, stale := Views(mTransforms), LocalMatrices(mTransforms), Worlds(mTransforms);
      ghost var parents := Parents(nodes);
      NoRoots(parents);
      NoneMarked(parents, locals, Solver(mTransforms));
      AllMarked(parents, locals, stale);
      hide Views, LocalMatrices, Flags, Worlds, RootCount, Marked, Start;
      rootCount := 0;
      for i := 0 to |mTransforms|
        invariant Views(mTransforms) == nodes && LocalMatrices(mTransforms) == locals
        invariant rootCount == RootCount(parents[..i]) && Solver(mTransforms) == Marked(parents, locals, stale, i)
      {
        OneMoreRoot(parents, i);
        OneMoreMarked(parents, locals, stale, i);
        NodeAt(mTransforms, i);
        if mTransforms[i].mParentId == -1 {
          SetWorld(i, mTransforms[i].mMatrix);
          rootCount := rootCount + 1;
        }
      }
    }

    /** The inner loop at one node: it is set already, its parent is refused, or its world matrix is set if the
        parent's is. */
    method VisitOne(i: nat, ghost parents: seq<int>, ghost locals: seq<Matrix>) returns (refused: bool, resolved: bool)
      requires Valid() && parents == Parents(Views(mTransforms)) && locals == LocalMatrices(mTransforms)
      requires i < |parents|
      modifies mTransforms[i]
      ensures Views(mTransforms) == old(Views(mTransforms)) && LocalMatrices(mTransforms) == locals
      ensures var s := old(Solver(mTransforms));
              && (refused <==> !s.flags[i] && !GoodParent(parents, i))
              && Solver(mTransforms) == (if refused then s else Visit(parents, locals, s, i))
              && (resolved <==> Flags(mTransforms) != s.flags)
    {
      refused, resolved := false, false;
      assert Views(mTransforms)[i] == mTransforms[i].View() && Flags(mTransforms)[i] == mTransforms[i].bWorldMatrix;
      if mTransforms[i].bWorldMatrix {
        return;
      }
      if mTransforms[i].mParentId == i || mTransforms[i].mParentId < 0 || mTransforms[i].mParentId >= |mTransforms| {
        refused := true;
        return;
      }
      var parentTransform := mTransforms[mTransforms[i].mParentId];
      if parentTransform.bWorldMatrix {
        SetWorld(i, Mul(parentTransform.mWorldMatrix, mTransforms[i].mMatrix));
        resolved := true;
      }
    }

    /** One run of the inner loop: it stops early at an unset node whose parent it refuses, and is done if no flag
        was set. */
    method SweepAll(ghost parents: seq<int>, ghost locals: seq<Matrix>) returns (stop: nat, done: bool)
      requires Valid() && parents == Parents(Views(mTransforms)) && locals == LocalMatrices(mTransforms)
      modifies mTransforms
      ensures Views(mTransforms) == old(Views(mTransforms)) && LocalMatrices(mTransforms) == locals
      ensures stop <= |parents| == |Flags(mTransforms)| && Checked(parents, old(Solver(mTransforms)), stop)
      ensures Solver(mTransforms) == Sweep(parents, locals, old(Solver(mTransforms)), stop)
      ensures stop < |parents| ==> !old(Flags(mTransforms))[stop] && !GoodParent(parents, stop)
      ensures done <==> Flags(mTransforms) == old(Flags(mTransforms))
    {
      hide Checked, Visit, GoodParent, Sweep, Views, LocalMatrices, Flags, Worlds;
      ghost var nodes, start := Views(mTransforms), Solver(mTransforms);
      NoneSwept(parents, locals, start);
      done := true;
      for i := 0 to |mTransforms|
        invariant Views(mTransforms) == nodes && LocalMatrices(mTransforms) == locals
        invariant Checked(parents, start, i)
        invariant Solver(mTransforms) == Sweep(parents, locals, start, i)
        invariant done <==> Flags(mTransforms) == start.flags
      {
        var refused, resolved := VisitOne(i, parents, locals);
        if refused {
          return i, done;
        }
        OneMoreSwept(parents, locals, start, i);
        done := done && !resolved;
      }
      stop := |mTransforms|;
    }

    /** The outer loop, with its budget of size() passes. */
    method Resolve(ghost parents: seq<int>, ghost locals: seq<Matrix>,
                   ghost stale: seq<Matrix>) returns (outcome: Outcome)
      requires Valid() && parents == Parents(Views(mTransforms)) && locals == LocalMatrices(mTransforms)
      requires |stale| == |parents| && Solver(mTransforms) == Start(parents, locals, stale) && RootCount(parents) == 1
      modifies mTransforms
      ensures Views(mTransforms) == old(Views(mTransforms)) && LocalMatrices(mTransforms) == locals
      ensures var start, bad := Start(parents, locals, stale), FirstBad(parents, 0);
              if bad < |parents| then
                && outcome == (if parents[bad] == bad then PointsToSelf(bad) else InvalidParent(bad))
                && Solver(mTransforms) == Sweep(parents, locals, start, bad)
              else
                outcome == Solved && Solver(mTransforms) == Settle(parents, locals, start)
    {
      hide Underway, Start, Checked, Sweep, Settle, GoodParent, RootCount, Views, LocalMatrices, Flags, Worlds;
      ghost var nodes, start, s := Views(mTransforms), Solver(mTransforms), Solver(mTransforms);
      Undone(parents, locals, start);
      var done, iterations := false, 0;
      outcome := Solved;
      while !done
        invariant Views(mTransforms) == nodes && LocalMatrices(mTransforms) == locals && Solver(mTransforms) == s
        invariant iterations <= |mTransforms| && Underway(parents, locals, start, s, iterations, done)
        invariant outcome == Solved
        decreases |mTransforms| - iterations
      {
        WithinBudget(parents, locals, start, s, iterations);
        iterations := iterations + 1;
        if iterations > |mTransforms| {
          outcome := Cycle;
          break;
        }
        var stop;
        stop, done := SweepAll(parents, locals);
        if stop < |mTransforms| {
          RefusedFirst(parents, locals, stale, s, iterations - 1, stop);
          ParentIs(mTransforms, stop);
          outcome := if mTransforms[stop].mParentId == stop then PointsToSelf(stop) else InvalidParent(stop);
          break;
        }
        OnePass(parents, locals, stale, s, iterations - 1);
        s := Solver(mTransforms);
      }
      if outcome == Solved {
        AllDone(parents, locals, stale, s, iterations);
      }
    }

    method ConvertWorlds(conv: ConversionContext)
      requires Valid() && conv.Ready()
      modifies mTransforms
      ensures Views(mTransforms) == old(Views(mTransforms)) && Flags(mTransforms) == old(Flags(mTransforms))
      ensures LocalMatrices(mTransforms) == old(LocalMatrices(mTransforms))
      ensures forall i :: 0 <= i < |mTransforms| ==>
        Worlds(mTransforms)[i] == conv.conversion.ConvertMatrix(old(Worlds(mTransforms))[i])
    {
      hide Conversion.ConvertMatrix, Views, Flags, Worlds, LocalMatrices;
      ghost var worlds := Worlds(mTransforms);
      for i := 0 to |mTransforms|
        invariant Views(mTransforms) == old(Views(mTransforms)) && Flags(mTransforms) == old(Flags(mTransforms))
        invariant LocalMatrices(mTransforms) == old(LocalMatrices(mTransforms))
        invariant forall j :: 0 <= j < i ==> Worlds(mTransforms)[j] == conv.conversion.ConvertMatrix(worlds[j])
        invariant forall j :: i <= j < |mTransforms| ==> Worlds(mTransforms)[j] == worlds[j]
      {
        ConvertWorld(i, conv);
      }
    }

    method ConvertWorld(i: nat, conv: ConversionContext)
      requires Valid() && i < |mTransforms| && conv.Ready()
      modifies mTransforms[i]
      ensures Views(mTransforms) == old(Views(mTransforms)) && Flags(mTransforms) == old(Flags(mTransforms))
      ensures LocalMatrices(mTransforms) == old(LocalMatrices(mTransforms))
      ensures var worlds := old(Worlds(mTransforms));
              Worlds(mTransforms) == worlds[i := conv.conversion.ConvertMatrix(worlds[i])]
    {
      hide Conversion.ConvertMatrix;
      var m := conv.ConvertMatrix(mTransforms[i].mWorldMatrix);
      mTransforms[i].mWorldMatrix := m;
    }

    method ConvertIfNeeded(conv: ConversionContext?)
      requires Valid() && (conv != null ==> conv.Ready())
      modifies mTransforms
      ensures Views(mTransforms) == old(Views(mTransforms)) && Flags(mTransforms) == old(Flags(mTransforms))
      ensures LocalMatrices(mTransforms) == old(LocalMatrices(mTransforms))
      ensures Worlds(mTransforms) == Convert(ConversionOf(conv), old(Worlds(mTransforms)))
    {
      hide Conversion.ConvertMatrix, Conversion.IsIdentity;
      if conv != null && !conv.conversion.IsIdentity() {
        ConvertWorlds(conv);
      }
    }

    /** Everything but the conversion. */
    method Solve(ghost nodes: seq<Node>, ghost stale: seq<Matrix>) returns (outcome: Outcome)
      requires Valid() && Views(mTransforms) == nodes && Worlds(mTransforms) == stale && Computable(nodes)
      modifies mTransforms
      ensures Views(mTransforms) == nodes && LocalMatrices(mTransforms) == Locals(nodes)
      ensures (outcome, Solver(mTransforms)) == Calc(Parents(nodes), Locals(nodes), stale, Unconverted)
    {
      hide Locals, Start, Sweep, Settle, RootCount, FirstBad, Views, LocalMatrices, Flags, Worlds;
      UpdateAll();
      var rootCount := MarkRoots();
      outcome := if rootCount == 0 then NoRoot else if rootCount > 1 then ManyRoots else Solved;
      if outcome == Solved {
        outcome := Resolve(Parents(nodes), Locals(nodes), stale);
      }
    }

    /** The world matrices and their flags are those of the solver on the parents and the local matrices. */
    method CalcMatrices(conv: ConversionContext?) returns (ok: bool)
      requires Valid() && Computable(Views(mTransforms)) && (conv != null ==> conv.Ready())
      modifies this`mError, mTransforms
      ensures Views(mTransforms) == old(Views(mTransforms))
      ensures LocalMatrices(mTransforms) == Locals(old(Views(mTransforms)))
      ensures var nodes := old(Views(mTransforms));
              var r := Calc(Parents(nodes), Locals(nodes), old(Worlds(mTransforms)), ConversionOf(conv));
              && (ok <==> r.0 == Solved)
              && Solver(mTransforms) == r.1
              && mError == if ok then old(mError) else r.0
    {
      hide Calc, Local, Convert, Views, Flags, Worlds, LocalMatrices;
      ghost var nodes, stale := Views(mTransforms), Worlds(mTransforms);
      var outcome := Solve(nodes, stale);
      CalcThenConvert(Parents(nodes), Locals(nodes), stale, ConversionOf(conv));
      if outcome != Solved {
        mError := outcome;
        return false;
      }
      ConvertIfNeeded(conv);
      return true;
    }
  }
}
