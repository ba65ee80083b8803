// What is on the wire, number by number: full subjects, keyframes and updates (src/o3ds/model.cpp:33-110, 342-394,
// 753-826, 1081-1212), and what a receiver has of it.

module WireLaws {
  import opened Matrices
  import opened Contexts
  import opened Nodes
  import opened Packets
  import opened StreamLaws
  import opened DeltaRuns

  // ----- Numbers -----------------------------------------------------------

  /** a has the numbers of v, narrowed, each in its own place. */
  predicate NarrowedVec(num: Numerics, v: Vec3, a: Vec3) {
    a.x == num.narrow(v.x) && a.y == num.narrow(v.y) && a.z == num.narrow(v.z)
  }

  predicate NarrowedQuat(num: Numerics, q: Quaternion, a: Quaternion) {
    a.w == num.narrow(q.w) && a.x == num.narrow(q.x) && a.y == num.narrow(q.y) && a.z == num.narrow(q.z)
  }

  ghost predicate NarrowedMatrices(num: Numerics, ms: seq<Matrix>, as': seq<Matrix>) {
    && |as'| == |ms|
    && forall i, r, c :: 0 <= i < |ms| && 0 <= r < 4 && 0 <= c < 4 ==> as'[i].At(r, c) == num.narrow(ms[i].At(r, c))
  }

  lemma MatricesNarrowed(num: Numerics, ms: seq<Matrix>)
    ensures NarrowedMatrices(num, ms, NarrowAll(num, ms))
  {
  }

  /** The component on the wire is of the same name. */
  predicate SameName(c: Component, t: ComponentType) {
    && (c == ComponentTranslation <==> t == TTranslation) && (c == ComponentRotation <==> t == TRotation)
    && (c == ComponentScale <==> t == TScale) && (c == ComponentMatrix <==> t == TMatrix) && t != TOrientation
  }

  /** The components are those of the order, by name, without TOrientation. */
  ghost predicate Named(order: seq<ComponentType>, cs: seq<Component>) {
    && |cs| == |Spoken(order)|
    && forall i :: 0 <= i < |cs| ==> SameName(cs[i], Spoken(order)[i])
  }

  lemma {:induction false} OrderNamed(order: seq<ComponentType>)
    ensures Named(order, WireOrder(order))
  {
    if order != [] {
      OrderNamed(order[..|order| - 1]);
    }
  }

  /** The order that is sent leaves out nothing but TOrientation. */
  lemma {:induction false} SpokenWhole(order: seq<ComponentType>)
    requires TOrientation !in order
    ensures Spoken(order) == order
  {
    if order != [] {
      SpokenWhole(order[..|order| - 1]);
      assert order == order[..|order| - 1] + [order[|order| - 1]];
    }
  }

  /** Parsing the same data into a transform again adds all of its components and matrices once more, and changes
      nothing else. */
  lemma ParsedTwice(d: NodeData)
    ensures var once := ParseNode(d);
            var twice := ParseOnto(once, d);
            && |once.order| == |d.components| && once.matrices == d.matrices
            && twice == once.(order := once.order + once.order, matrices := once.matrices + once.matrices)
  {
  }

  /** What is sent of a transform has its name, its parent and its numbers, narrowed, each in its own place. */
  ghost predicate Carries(num: Numerics, n: Node, d: NodeData) {
    && d.name == n.name && d.parent == n.parent
    && d.translation.Some? && NarrowedVec(num, n.translation.value, d.translation.value)
    && d.rotation.Some? && NarrowedQuat(num, n.rotation.value, d.rotation.value)
    && d.scale.Some? && NarrowedVec(num, n.scale.value, d.scale.value)
    && NarrowedMatrices(num, n.matrices, d.matrices)
    && Named(n.order, d.components) && OrderOf(d.components) == Spoken(n.order)
  }

  lemma DataCarries(num: Numerics, n: Node)
    ensures Carries(num, n, NodeDataOf(num, n))
  {
    hide NarrowedMatrices, Named;
    MatricesNarrowed(num, n.matrices);
    OrderSurvives(n.order);
    OrderNamed(n.order);
  }

  /** A node received has the name, the parent and the numbers of the one that was sent, narrowed, in their places. */
  lemma MirrorNumbers(num: Numerics, n: Node)
    ensures var r := Mirror(num, n);
            && r.name == n.name && r.parent == n.parent && r.order == Spoken(n.order)
            && NarrowedVec(num, n.translation.value, r.translation.value)
            && NarrowedQuat(num, n.rotation.value, r.rotation.value)
            && NarrowedVec(num, n.scale.value, r.scale.value)
            && NarrowedMatrices(num, n.matrices, r.matrices)
            && r.translation.lastSent == Vec3(0.0, 0.0, 0.0) == r.scale.lastSent
            && r.rotation.lastSent == Quaternion(0.0, 0.0, 0.0, 0.0)
  {
    hide NarrowedMatrices;
    MirrorMeaning(num, n);
    MatricesNarrowed(num, n.matrices);
  }

  /** In a run, it has those last sent; its scale and matrices are those of the keyframe. */
  lemma ExpectedNumbers(num: Numerics, key: Node, n: Node)
    ensures var r := Expected(num, key, n);
            && r.name == key.name && r.parent == key.parent && r.order == Spoken(key.order)
            && NarrowedVec(num, n.translation.lastSent, r.translation.value)
            && NarrowedQuat(num, n.rotation.lastSent, r.rotation.value)
            && NarrowedVec(num, key.scale.value, r.scale.value)
            && NarrowedMatrices(num, key.matrices, r.matrices)
  {
    hide NarrowedMatrices;
    MirrorMeaning(num, key);
    MatricesNarrowed(num, key.matrices);
  }

  // ----- Updates -----------------------------------------------------------

  predicate FarMoved(n: Node, threshold: real) {
    threshold < 0.0 || SquaredDistance(n.translation.value, n.translation.lastSent) > threshold * threshold
  }

  predicate FarTurned(num: Numerics, n: Node, threshold: real) {
    var a := num.angle(n.rotation.lastSent, n.rotation.value);
    a > threshold || a < -threshold
  }

  ghost predicate Increasing<T(!new)>(us: seq<Indexed<T>>) {
    forall a, b :: 0 <= a < b < |us| ==> us[a].i < us[b].i
  }

  /** The indices are those of the true entries, in order. */
  ghost predicate Marks<T(!new)>(us: seq<Indexed<T>>, far: seq<bool>) {
    && Increasing(us)
    && (forall a :: 0 <= a < |us| ==> 0 <= us[a].i < |far|)
    && (forall i :: 0 <= i < |far| ==> (far[i] <==> exists a :: 0 <= a < |us| && us[a].i == i))
  }

  lemma MarksMore<T(!new)>(us: seq<Indexed<T>>, far: seq<bool>, u: Indexed<T>)
    requires Marks(us, far) && u.i == |far|
    ensures Marks(us + [u], far + [true])
  {
    var us', far' := us + [u], far + [true];
    forall i | 0 <= i < |far'| ensures far'[i] <==> exists a :: 0 <= a < |us'| && us'[a].i == i {
      if i == |far| {
        assert us'[|us|].i == i;
      } else if far[i] {
        var a :| 0 <= a < |us| && us[a].i == i;
        assert us'[a].i == i;
      }
    }
  }

  lemma MarksSkip<T(!new)>(us: seq<Indexed<T>>, far: seq<bool>)
    requires Marks(us, far)
    ensures Marks(us, far + [false])
  {
  }

  /** The translations of an update are those that are further from the value last sent than the threshold, each
      once, in the order of the list, narrowed. */
  ghost predicate CarriesMoves(num: Numerics, threshold: real, nodes: seq<Node>, us: seq<Indexed<Vec3>>) {
    && Increasing(us)
    && (forall a :: 0 <= a < |us| ==>
          0 <= us[a].i < |nodes| && NarrowedVec(num, nodes[us[a].i].translation.value, us[a].value))
    && (forall i :: 0 <= i < |nodes| ==> (FarMoved(nodes[i], threshold) <==> exists a :: 0 <= a < |us| && us[a].i == i))
  }

  ghost predicate CarriesTurns(num: Numerics, threshold: real, nodes: seq<Node>, us: seq<Indexed<Quaternion>>) {
    && Increasing(us)
    && (forall a :: 0 <= a < |us| ==>
          0 <= us[a].i < |nodes| && NarrowedQuat(num, nodes[us[a].i].rotation.value, us[a].value))
    && (forall i :: 0 <= i < |nodes| ==>
          (FarTurned(num, nodes[i], threshold) <==> exists a :: 0 <= a < |us| && us[a].i == i))
  }

  ghost predicate MoveValues(num: Numerics, nodes: seq<Node>, us: seq<Indexed<Vec3>>, k: nat)
    requires k <= |nodes|
  {
    forall a :: 0 <= a < |us| ==> 0 <= us[a].i < k && NarrowedVec(num, nodes[us[a].i].translation.value, us[a].value)
  }

  lemma MoveValuesMore(num: Numerics, nodes: seq<Node>, us: seq<Indexed<Vec3>>, k: nat)
    requires 0 < k <= |nodes| && MoveValues(num, nodes, us, k - 1)
    ensures MoveValues(num, nodes, us, k)
    ensures MoveValues(num, nodes, us + [Indexed(num.Vec(nodes[k - 1].translation.value), k - 1)], k)
  {
  }

  lemma {:induction false} MovesUpTo(num: Numerics, threshold: real, nodes: seq<Node>, k: nat)
    requires k <= |nodes|
    ensures MoveValues(num, nodes, Translations(num, threshold, nodes, k), k)
    ensures Marks(Translations(num, threshold, nodes, k), MovedFlags(nodes[..k], threshold))
  {
    if k > 0 {
      MovesUpTo(num, threshold, nodes, k - 1);
      MovedMeaning(nodes[k - 1].translation, threshold);
      var front := Translations(num, threshold, nodes, k - 1);
      var u := Indexed(num.Vec(nodes[k - 1].translation.value), k - 1);
      MovedFlagsMore(nodes, threshold, k);
      hide Moved, Marks, FarMoved, MovedFlags, MoveValues;
      MoveValuesMore(num, nodes, front, k);
      if FarMoved(nodes[k - 1], threshold) {
        MarksMore(front, MovedFlags(nodes[..k - 1], threshold), u);
      } else {
        assert front + [] == front;
        MarksSkip(front, MovedFlags(nodes[..k - 1], threshold));
      }
    }
  }

  function MovedFlags(nodes: seq<Node>, threshold: real): (r: seq<bool>)
    ensures |r| == |nodes|
  {
    seq(|nodes|, i requires 0 <= i < |nodes| => FarMoved(nodes[i], threshold))
  }

  lemma MovedFlagsMore(nodes: seq<Node>, threshold: real, k: nat)
    requires 0 < k <= |nodes|
    ensures MovedFlags(nodes[..k], threshold)
         == MovedFlags(nodes[..k - 1], threshold) + [FarMoved(nodes[k - 1], threshold)]
  {
    hide FarMoved;
  }

  ghost predicate TurnValues(num: Numerics, nodes: seq<Node>, us: seq<Indexed<Quaternion>>, k: nat)
    requires k <= |nodes|
  {
    forall a :: 0 <= a < |us| ==> 0 <= us[a].i < k && NarrowedQuat(num, nodes[us[a].i].rotation.value, us[a].value)
  }

  lemma TurnValuesMore(num: Numerics, nodes: seq<Node>, us: seq<Indexed<Quaternion>>, k: nat)
    requires 0 < k <= |nodes| && TurnValues(num, nodes, us, k - 1)
    ensures TurnValues(num, nodes, us, k)
    ensures TurnValues(num, nodes, us + [Indexed(num.Quat(nodes[k - 1].rotation.value), k - 1)], k)
  {
  }

  lemma {:induction false} TurnsUpTo(num: Numerics, threshold: real, nodes: seq<Node>, k: nat)
    requires k <= |nodes|
    ensures TurnValues(num, nodes, Rotations(num, threshold, nodes, k), k)
    ensures Marks(Rotations(num, threshold, nodes, k), TurnedFlags(num, nodes[..k], threshold))
  {
    if k > 0 {
      TurnsUpTo(num, threshold, nodes, k - 1);
      TurnedMeaning(num, nodes[k - 1].rotation, threshold);
      var front := Rotations(num, threshold, nodes, k - 1);
      var u := Indexed(num.Quat(nodes[k - 1].rotation.value), k - 1);
      TurnedFlagsMore(num, nodes, threshold, k);
      hide Turned, Marks, FarTurned, TurnedFlags, TurnValues;
      TurnValuesMore(num, nodes, front, k);
      if FarTurned(num, nodes[k - 1], threshold) {
        MarksMore(front, TurnedFlags(num, nodes[..k - 1], threshold), u);
      } else {
        assert front + [] == front;
        MarksSkip(front, TurnedFlags(num, nodes[..k - 1], threshold));
      }
    }
  }

  function TurnedFlags(num: Numerics, nodes: seq<Node>, threshold: real): (r: seq<bool>)
    ensures |r| == |nodes|
  {
    seq(|nodes|, i requires 0 <= i < |nodes| => FarTurned(num, nodes[i], threshold))
  }

  lemma TurnedFlagsMore(num: Numerics, nodes: seq<Node>, threshold: real, k: nat)
    requires 0 < k <= |nodes|
    ensures TurnedFlags(num, nodes[..k], threshold)
         == TurnedFlags(num, nodes[..k - 1], threshold) + [FarTurned(num, nodes[k - 1], threshold)]
  {
    hide FarTurned;
  }

  /** An update of a subject. */
  ghost predicate CarriesUpdate(num: Numerics, threshold: real, s: SubjectState, u: SubjectUpdate) {
    && u.uuid == s.uuid && u.scales == []
    && CarriesMoves(num, threshold, s.nodes, u.translations) && CarriesTurns(num, threshold, s.nodes, u.rotations)
  }

  lemma UpdateCarries(num: Numerics, threshold: real, s: SubjectState)
    ensures CarriesUpdate(num, threshold, s, UpdateOf(num, threshold, s))
  {
    MovesCarried(num, threshold, s.nodes);
    TurnsCarried(num, threshold, s.nodes);
    hide CarriesMoves, CarriesTurns, Translations, Rotations;
  }

  lemma MovesCarried(num: Numerics, threshold: real, nodes: seq<Node>)
    ensures CarriesMoves(num, threshold, nodes, Translations(num, threshold, nodes, |nodes|))
  {
    MovesUpTo(num, threshold, nodes, |nodes|);
    assert nodes[..|nodes|] == nodes;
    hide Translations, FarMoved;
    assert forall i :: 0 <= i < |nodes| ==> MovedFlags(nodes, threshold)[i] == FarMoved(nodes[i], threshold);
  }

  lemma TurnsCarried(num: Numerics, threshold: real, nodes: seq<Node>)
    ensures CarriesTurns(num, threshold, nodes, Rotations(num, threshold, nodes, |nodes|))
  {
    TurnsUpTo(num, threshold, nodes, |nodes|);
    assert nodes[..|nodes|] == nodes;
    hide Rotations, FarTurned;
    assert forall i :: 0 <= i < |nodes| ==>
      TurnedFlags(num, nodes, threshold)[i] == FarTurned(num, nodes[i], threshold);
  }

  /** What sending an update does to a node: what is far is last sent now, and everything else stays. */
  lemma UpdateMarks(num: Numerics, threshold: real, n: Node)
    ensures var r := UpdateSent(num, threshold, n);
            && r == n.(translation := r.translation, rotation := r.rotation)
            && r.translation.value == n.translation.value && r.rotation.value == n.rotation.value
            && r.translation.lastSent
               == (if FarMoved(n, threshold) then n.translation.value else n.translation.lastSent)
            && r.rotation.lastSent
               == (if FarTurned(num, n, threshold) then n.rotation.value else n.rotation.lastSent)
  {
    MovedMeaning(n.translation, threshold);
    TurnedMeaning(num, n.rotation, threshold);
    hide Moved, Turned, SquaredDistance;
  }

  // ----- Updates of any origin ---------------------------------------------

  /** Entry a is the last one for node j. */
  ghost predicate LastFor<T(!new)>(us: seq<Indexed<T>>, j: nat, a: int) {
    0 <= a < |us| && us[a].i == j && forall b :: a < b < |us| ==> us[b].i != j
  }

  ghost predicate NoneFor<T(!new)>(us: seq<Indexed<T>>, j: nat) {
    forall b :: 0 <= b < |us| ==> us[b].i != j
  }

  lemma FrontFor<T(!new)>(us: seq<Indexed<T>>, j: nat, a: int)
    requires us != []
    ensures var n := |us| - 1;
            && (us[n].i == j && LastFor(us, j, a) ==> a == n)
            && (us[n].i != j && LastFor(us, j, a) ==> LastFor(us[..n], j, a) && us[..n][a] == us[a])
            && (NoneFor(us, j) ==> us[n].i != j && NoneFor(us[..n], j))
  {
  }

  lemma {:induction false} TranslationsLast(nodes: seq<Node>, us: seq<Indexed<Vec3>>, j: nat, a: int)
    requires j < |nodes|
    ensures LastFor(us, j, a) ==>
              SetTranslations(nodes, us)[j] == nodes[j].(translation := Tracked(us[a].value, Vec3(0.0, 0.0, 0.0)))
    ensures NoneFor(us, j) ==> SetTranslations(nodes, us)[j] == nodes[j]
  {
    if us != [] {
      var n := |us| - 1;
      FrontFor(us, j, a);
      TranslationsLast(nodes, us[..n], j, a);
      TranslationsStep(nodes, us, j);
      hide LastFor, NoneFor, SetTranslations;
      if us[n].i == j {
        assert LastFor(us, j, a) ==> us[a] == us[n];
      }
    }
  }

  /** The last entry sets its own field of its own node. */
  lemma {:induction false} TranslationsStep(nodes: seq<Node>, us: seq<Indexed<Vec3>>, j: nat)
    requires j < |nodes| && us != []
    ensures var n := |us| - 1;
            SetTranslations(nodes, us)[j]
            == if us[n].i == j then nodes[j].(translation := Tracked(us[n].value, Vec3(0.0, 0.0, 0.0)))
               else SetTranslations(nodes, us[..n])[j]
  {
    var n := |us| - 1;
    TranslationsOther(nodes, us[..n], j);
  }

  lemma {:induction false} TranslationsOther(nodes: seq<Node>, us: seq<Indexed<Vec3>>, j: nat)
    requires j < |nodes|
    ensures SetTranslations(nodes, us)[j] == nodes[j].(translation := SetTranslations(nodes, us)[j].translation)
  {
    if us != [] {
      TranslationsOther(nodes, us[..|us| - 1], j);
    }
  }

  lemma {:induction false} RotationsLast(nodes: seq<Node>, us: seq<Indexed<Quaternion>>, j: nat, a: int)
    requires j < |nodes|
    ensures LastFor(us, j, a) ==>
              SetRotations(nodes, us)[j] == nodes[j].(rotation := Tracked(us[a].value, Quaternion(0.0, 0.0, 0.0, 0.0)))
    ensures NoneFor(us, j) ==> SetRotations(nodes, us)[j] == nodes[j]
  {
    if us != [] {
      var n := |us| - 1;
      FrontFor(us, j, a);
      RotationsLast(nodes, us[..n], j, a);
      RotationsStep(nodes, us, j);
      hide LastFor, NoneFor, SetRotations;
      if us[n].i == j {
        assert LastFor(us, j, a) ==> us[a] == us[n];
      }
    }
  }

  /** The last entry sets its own field of its own node. */
  lemma {:induction false} RotationsStep(nodes: seq<Node>, us: seq<Indexed<Quaternion>>, j: nat)
    requires j < |nodes| && us != []
    ensures var n := |us| - 1;
            SetRotations(nodes, us)[j]
            == if us[n].i == j then nodes[j].(rotation := Tracked(us[n].value, Quaternion(0.0, 0.0, 0.0, 0.0)))
               else SetRotations(nodes, us[..n])[j]
  {
    var n := |us| - 1;
    RotationsOther(nodes, us[..n], j);
  }

  lemma {:induction false} RotationsOther(nodes: seq<Node>, us: seq<Indexed<Quaternion>>, j: nat)
    requires j < |nodes|
    ensures SetRotations(nodes, us)[j] == nodes[j].(rotation := SetRotations(nodes, us)[j].rotation)
  {
    if us != [] {
      RotationsOther(nodes, us[..|us| - 1], j);
    }
  }

  lemma {:induction false} ScalesLast(nodes: seq<Node>, us: seq<Indexed<Vec3>>, j: nat, a: int)
    requires j < |nodes|
    ensures LastFor(us, j, a) ==>
              SetScales(nodes, us)[j] == nodes[j].(scale := Tracked(us[a].value, Vec3(0.0, 0.0, 0.0)))
    ensures NoneFor(us, j) ==> SetScales(nodes, us)[j] == nodes[j]
  {
    if us != [] {
      var n := |us| - 1;
      FrontFor(us, j, a);
      ScalesLast(nodes, us[..n], j, a);
      ScalesStep(nodes, us, j);
      hide LastFor, NoneFor, SetScales;
      if us[n].i == j {
        assert LastFor(us, j, a) ==> us[a] == us[n];
      }
    }
  }

  /** The last entry sets its own field of its own node. */
  lemma {:induction false} ScalesStep(nodes: seq<Node>, us: seq<Indexed<Vec3>>, j: nat)
    requires j < |nodes| && us != []
    ensures var n := |us| - 1;
            SetScales(nodes, us)[j]
            == if us[n].i == j then nodes[j].(scale := Tracked(us[n].value, Vec3(0.0, 0.0, 0.0)))
               else SetScales(nodes, us[..n])[j]
  {
    var n := |us| - 1;
    ScalesOther(nodes, us[..n], j);
  }

  lemma {:induction false} ScalesOther(nodes: seq<Node>, us: seq<Indexed<Vec3>>, j: nat)
    requires j < |nodes|
    ensures SetScales(nodes, us)[j] == nodes[j].(scale := SetScales(nodes, us)[j].scale)
  {
    if us != [] {
      ScalesOther(nodes, us[..|us| - 1], j);
    }
  }

  /** Whatever an update holds, each value of each node is the last one for it, and stays as it is if there is none; an
      index outside the list is for no node. */
  lemma UpdatedValues(nodes: seq<Node>, u: SubjectUpdate, j: nat, a: int, b: int, c: int)
    requires j < |nodes|
    ensures var r := Updated(nodes, u);
            && |r| == |nodes|
            && r[j] == nodes[j].(translation := r[j].translation, rotation := r[j].rotation, scale := r[j].scale)
            && (LastFor(u.translations, j, a) ==>
                  r[j].translation == Tracked(u.translations[a].value, Vec3(0.0, 0.0, 0.0)))
            && (NoneFor(u.translations, j) ==> r[j].translation == nodes[j].translation)
            && (LastFor(u.rotations, j, b) ==>
                  r[j].rotation == Tracked(u.rotations[b].value, Quaternion(0.0, 0.0, 0.0, 0.0)))
            && (NoneFor(u.rotations, j) ==> r[j].rotation == nodes[j].rotation)
            && (LastFor(u.scales, j, c) ==> r[j].scale == Tracked(u.scales[c].value, Vec3(0.0, 0.0, 0.0)))
            && (NoneFor(u.scales, j) ==> r[j].scale == nodes[j].scale)
  {
    var x := SetTranslations(nodes, u.translations);
    var y := SetRotations(x, u.rotations);
    TranslationsLast(nodes, u.translations, j, a);
    RotationsLast(x, u.rotations, j, b);
    ScalesLast(y, u.scales, j, c);
    TranslationsOther(nodes, u.translations, j);
    RotationsOther(x, u.rotations, j);
    ScalesOther(y, u.scales, j);
    hide SetTranslations, SetRotations, SetScales, LastFor, NoneFor;
  }

  // ----- Packets -----------------------------------------------------------

  /** A full subject. */
  ghost predicate CarriesSubject(num: Numerics, s: SubjectState, d: SubjectData) {
    && d.name == s.name && d.uuid == s.uuid && |d.nodes| == |s.nodes|
    && forall j :: 0 <= j < |s.nodes| ==> Carries(num, s.nodes[j], d.nodes[j])
  }

  lemma FullCarries(num: Numerics, s: SubjectState)
    ensures CarriesSubject(num, s, FullOf(num, s))
  {
    hide Carries, NodeDataOf;
    forall j | 0 <= j < |s.nodes| ensures Carries(num, s.nodes[j], FullOf(num, s).nodes[j]) {
      DataCarries(num, s.nodes[j]);
    }
  }

  /** How many of the first k subjects are sent as the kind. */
  function Rank(items: seq<SubjectState>, kind: Kind, k: nat): nat
    requires k <= |items|
  {
    if k == 0 then 0 else Rank(items, kind, k - 1) + if items[k - 1].enabled && items[k - 1].kind == kind then 1 else 0
  }

  /** The section of the packet for a kind. */
  function SectionOf(p: Packet, kind: Kind): Section {
    match kind
    case Performer => p.performers
    case Rigidbody => p.rigidbodies
    case Camera => p.cameras
  }

  /** Entry a of the section is that of the subject. */
  ghost predicate Entry(num: Numerics, threshold: real, s: SubjectState, sec: Section, a: nat, full: bool) {
    && a < |sec.updates|
    && if full then a < |sec.full| && CarriesSubject(num, s, sec.full[a]) && sec.updates[a].uuid == s.uuid
       else CarriesUpdate(num, threshold, s, sec.updates[a])
  }

  /** Those of the first k subjects that are enabled and of the kind, and no others, in the order of the list: each in
      full, if so asked, and its update. */
  ghost predicate CarriesKind(num: Numerics, threshold: real, items: seq<SubjectState>, kind: Kind, sec: Section,
                              k: nat, full: bool)
    requires k <= |items|
  {
    && |sec.updates| == Rank(items, kind, k) && |sec.full| == (if full then |sec.updates| else 0)
    && forall i :: 0 <= i < k && items[i].enabled && items[i].kind == kind ==>
         Entry(num, threshold, items[i], sec, Rank(items, kind, i), full)
  }

  lemma EntryKept(num: Numerics, threshold: real, s: SubjectState, sec: Section, a: nat, full: bool,
                  more: seq<SubjectData>, u: SubjectUpdate)
    requires Entry(num, threshold, s, sec, a, full)
    ensures Entry(num, threshold, s, Section(sec.full + more, sec.updates + [u]), a, full)
  {
    hide CarriesSubject, CarriesUpdate;
  }

  lemma KindGrows(num: Numerics, threshold: real, items: seq<SubjectState>, kind: Kind, sec: Section, k: nat,
                  full: bool, more: seq<SubjectData>, u: SubjectUpdate)
    requires k < |items| && Goes(items[k], kind) && CarriesKind(num, threshold, items, kind, sec, k, full)
    requires |more| == (if full then 1 else 0)
    requires Entry(num, threshold, items[k], Section(sec.full + more, sec.updates + [u]), |sec.updates|, full)
    ensures CarriesKind(num, threshold, items, kind, Section(sec.full + more, sec.updates + [u]), k + 1, full)
  {
    hide Entry;
    var sec' := Section(sec.full + more, sec.updates + [u]);
    forall i | 0 <= i < k && items[i].enabled && items[i].kind == kind
      ensures Entry(num, threshold, items[i], sec', Rank(items, kind, i), full)
    {
      EntryKept(num, threshold, items[i], sec, Rank(items, kind, i), full, more, u);
    }
  }

  lemma KindSkips(num: Numerics, threshold: real, items: seq<SubjectState>, kind: Kind, sec: Section, k: nat,
                  full: bool)
    requires k < |items| && !Goes(items[k], kind) && CarriesKind(num, threshold, items, kind, sec, k, full)
    ensures CarriesKind(num, threshold, items, kind, sec, k + 1, full)
  {
    hide Entry;
  }

  lemma KeySectionAdds(num: Numerics, threshold: real, items: seq<SubjectState>, kind: Kind, k: nat)
    requires k < |items|
    ensures var front := KeySection(num, threshold, items[..k], kind);
            KeySection(num, threshold, items[..k + 1], kind)
            == if !Goes(items[k], kind) then front
               else Section(front.full + [FullOf(num, items[k])],
                            front.updates + [KeyUpdateOf(num, threshold, items[k])])
  {
    hide FullOf, KeyUpdateOf;
    assert items[..k + 1][..k] == items[..k];
  }

  lemma DeltaSectionAdds(num: Numerics, threshold: real, items: seq<SubjectState>, kind: Kind, k: nat)
    requires k < |items|
    ensures var front := DeltaSection(num, threshold, items[..k], kind);
            && DeltaSection(num, threshold, items[..k + 1], kind)
               == (if !Goes(items[k], kind) then front
                   else Section([], front.updates + [UpdateOf(num, threshold, items[k])]))
            && front.full == []
  {
    DeltaSectionNoFull(num, threshold, items[..k], kind);
    hide UpdateOf;
    assert items[..k + 1][..k] == items[..k];
  }

  lemma FullEntry(num: Numerics, threshold: real, s: SubjectState, sec: Section)
    requires |sec.full| == |sec.updates|
    ensures Entry(num, threshold, s, Section(sec.full + [FullOf(num, s)],
                                             sec.updates + [KeyUpdateOf(num, threshold, s)]), |sec.updates|, true)
  {
    FullCarries(num, s);
    hide CarriesSubject, AllNodeData, Translations, Rotations;
  }

  lemma DeltaEntryLast(num: Numerics, threshold: real, s: SubjectState, sec: Section)
    ensures Entry(num, threshold, s, Section(sec.full + [], sec.updates + [UpdateOf(num, threshold, s)]),
                  |sec.updates|, false)
  {
    UpdateCarries(num, threshold, s);
    hide CarriesUpdate, UpdateOf;
  }

  lemma KindCounts(num: Numerics, threshold: real, items: seq<SubjectState>, kind: Kind, sec: Section, k: nat)
    requires k <= |items| && CarriesKind(num, threshold, items, kind, sec, k, true)
    ensures |sec.full| == |sec.updates|
  {
  }

  lemma {:induction false} KeyKind(num: Numerics, threshold: real, items: seq<SubjectState>, kind: Kind, k: nat)
    requires k <= |items|
    ensures CarriesKind(num, threshold, items, kind, KeySection(num, threshold, items[..k], kind), k, true)
  {
    if k > 0 {
      KeyKind(num, threshold, items, kind, k - 1);
      var s, sec := items[k - 1], KeySection(num, threshold, items[..k - 1], kind);
      KeySectionAdds(num, threshold, items, kind, k - 1);
      hide KeySection, CarriesKind, Entry, KeyUpdateOf, UpdateOf, FullOf;
      if Goes(s, kind) {
        KindCounts(num, threshold, items, kind, sec, k - 1);
        FullEntry(num, threshold, s, sec);
        KindGrows(num, threshold, items, kind, sec, k - 1, true, [FullOf(num, s)], KeyUpdateOf(num, threshold, s));
      } else {
        KindSkips(num, threshold, items, kind, sec, k - 1, true);
      }
    }
  }

  lemma {:induction false} DeltaKind(num: Numerics, threshold: real, items: seq<SubjectState>, kind: Kind, k: nat)
    requires k <= |items|
    ensures CarriesKind(num, threshold, items, kind, DeltaSection(num, threshold, items[..k], kind), k, false)
  {
    if k > 0 {
      DeltaKind(num, threshold, items, kind, k - 1);
      var s, sec := items[k - 1], DeltaSection(num, threshold, items[..k - 1], kind);
      DeltaSectionAdds(num, threshold, items, kind, k - 1);
      hide DeltaSection, CarriesKind, Entry, KeyUpdateOf, UpdateOf, FullOf;
      if Goes(s, kind) {
        assert [] + [] == sec.full;
        DeltaEntryLast(num, threshold, s, sec);
        KindGrows(num, threshold, items, kind, sec, k - 1, false, [], UpdateOf(num, threshold, s));
      } else {
        KindSkips(num, threshold, items, kind, sec, k - 1, false);
      }
    }
  }

  /** A keyframe has the sender's own context and the enabled subjects, by kind, in full and with an update each. */
  lemma KeyframeCarries(num: Numerics, threshold: real, items: seq<SubjectState>, context: Context)
    ensures var p := Keyframe(num, threshold, items, context);
            && p.context == context
            && forall kind :: CarriesKind(num, threshold, items, kind, SectionOf(p, kind), |items|, true)
  {
    var p := Keyframe(num, threshold, items, context);
    hide KeySection, CarriesKind;
    assert items[..|items|] == items;
    forall kind ensures CarriesKind(num, threshold, items, kind, SectionOf(p, kind), |items|, true) {
      KeyKind(num, threshold, items, kind, |items|);
    }
  }

  /** An update packet has the sender's own context and the updates of the enabled subjects, by kind. */
  lemma DeltaCarries(num: Numerics, threshold: real, items: seq<SubjectState>, context: Context)
    ensures var p := Delta(num, threshold, items, context);
            && p.context == context
            && forall kind :: CarriesKind(num, threshold, items, kind, SectionOf(p, kind), |items|, false)
  {
    var p := Delta(num, threshold, items, context);
    hide DeltaSection, CarriesKind;
    assert items[..|items|] == items;
    forall kind ensures CarriesKind(num, threshold, items, kind, SectionOf(p, kind), |items|, false) {
      DeltaKind(num, threshold, items, kind, |items|);
    }
  }

  // ----- The sender afterwards ---------------------------------------------

  /** After a keyframe the values last sent of every enabled subject are the true ones; nothing else has changed. */
  lemma KeyframeMarks(num: Numerics, threshold: real, s: SubjectState)
    ensures var r := KeySent(num, threshold, s);
            && r == s.(nodes := r.nodes) && |r.nodes| == |s.nodes| && (!s.enabled ==> r == s)
            && (s.enabled ==> forall j :: 0 <= j < |s.nodes| ==>
                  && r.nodes[j] == s.nodes[j].(translation := r.nodes[j].translation, rotation := r.nodes[j].rotation)
                  && r.nodes[j].translation == Tracked(s.nodes[j].translation.value, s.nodes[j].translation.value)
                  && r.nodes[j].rotation == Tracked(s.nodes[j].rotation.value, s.nodes[j].rotation.value))
  {
    hide Moved, Turned;
  }
}
