// What holds between a sending list and a receiving list over whole runs of keyframes, updates and losses
// (src/o3ds/model.cpp, src/o3ds/model.h:478-513, src/o3ds/transform_component.h).

module StreamLaws {
  import opened Contexts
  import opened Nodes
  import opened Packets

  // ----- One transform -----------------------------------------------------

  /** A node as a receiver has it after it was sent in full. */
  function Mirror(num: Numerics, n: Node): Node {
    ParseNode(NodeDataOf(num, n))
  }

  function Mirrors(num: Numerics, nodes: seq<Node>): seq<Node> {
    ParseNodes(AllNodeData(num, nodes))
  }

  /** The order as it can be sent: TOrientation has no wire form. */
  function Spoken(order: seq<ComponentType>): seq<ComponentType> {
    if order == [] then []
    else Spoken(order[..|order| - 1])
         + if order[|order| - 1] == TOrientation then [] else [order[|order| - 1]]
  }

  lemma {:induction false} OrderSurvives(order: seq<ComponentType>)
    ensures OrderOf(WireOrder(order)) == Spoken(order)
  {
    if order != [] {
      OrderSurvives(order[..|order| - 1]);
    }
  }

  /** Sending a node in full keeps its name, parent, order and matrices, and its narrowed values. */
  lemma MirrorMeaning(num: Numerics, n: Node)
    ensures Mirror(num, n) == Node(n.name, n.parent, Tracked(num.Vec(n.translation.value), ZERO_VECTOR),
                                   Tracked(num.Quat(n.rotation.value), NO_ROTATION),
                                   Tracked(num.Vec(n.scale.value), ZERO_VECTOR),
                                   NarrowAll(num, n.matrices), Spoken(n.order))
  {
    OrderSurvives(n.order);
    assert [] + NarrowAll(num, n.matrices) == NarrowAll(num, n.matrices);
    assert [] + Spoken(n.order) == Spoken(n.order);
  }

  /** Every transform of every subject has the matrices that its order asks for. */
  ghost predicate AllComputable(items: seq<SubjectState>) {
    forall i :: 0 <= i < |items| ==> Computable(items[i].nodes)
  }

  // ----- One subject -------------------------------------------------------

  function Translated(num: Numerics, n: Node, r: Node): Node {
    r.(translation := Tracked(num.Vec(n.translation.value), ZERO_VECTOR))
  }

  function Rotated(num: Numerics, n: Node, r: Node): Node {
    r.(rotation := Tracked(num.Quat(n.rotation.value), NO_ROTATION))
  }

  /** An update sets the translations that moved, and no others. */
  lemma {:induction false} SetTranslationsMeaning(num: Numerics, threshold: real, src: seq<Node>, k: nat,
                                                  nodes: seq<Node>, j: nat)
    requires k <= |src| == |nodes| && j < |nodes|
    ensures SetTranslations(nodes, Translations(num, threshold, src, k))[j]
         == if j < k && Moved(src[j].translation, threshold) then Translated(num, src[j], nodes[j]) else nodes[j]
  {
    if k > 0 {
      SetTranslationsMeaning(num, threshold, src, k - 1, nodes, j);
      var front, us := Translations(num, threshold, src, k - 1), Translations(num, threshold, src, k);
      if Moved(src[k - 1].translation, threshold) {
        SetTranslationsMeaning(num, threshold, src, k - 1, nodes, k - 1);
        assert us[..|us| - 1] == front;
      } else {
        assert us == front;
      }
      hide Translations, Moved;
    }
  }

  lemma {:induction false} SetRotationsMeaning(num: Numerics, threshold: real, src: seq<Node>, k: nat,
                                               nodes: seq<Node>, j: nat)
    requires k <= |src| == |nodes| && j < |nodes|
    ensures SetRotations(nodes, Rotations(num, threshold, src, k))[j]
         == if j < k && Turned(num, src[j].rotation, threshold) then Rotated(num, src[j], nodes[j]) else nodes[j]
  {
    if k > 0 {
      SetRotationsMeaning(num, threshold, src, k - 1, nodes, j);
      var front, us := Rotations(num, threshold, src, k - 1), Rotations(num, threshold, src, k);
      if Turned(num, src[k - 1].rotation, threshold) {
        SetRotationsMeaning(num, threshold, src, k - 1, nodes, k - 1);
        assert us[..|us| - 1] == front;
      } else {
        assert us == front;
      }
      hide Rotations, Turned;
    }
  }

  /** One node of the receiver after an update of the sender's node. */
  function Refreshed(num: Numerics, threshold: real, n: Node, r: Node): Node {
    r.(translation := if Moved(n.translation, threshold) then Tracked(num.Vec(n.translation.value), ZERO_VECTOR)
                      else r.translation,
       rotation := if Turned(num, n.rotation, threshold) then Tracked(num.Quat(n.rotation.value), NO_ROTATION)
                   else r.rotation)
  }

  lemma UpdatedMeaning(num: Numerics, threshold: real, s: SubjectState, nodes: seq<Node>)
    requires |nodes| == |s.nodes|
    ensures var r := Updated(nodes, UpdateOf(num, threshold, s));
            |r| == |nodes| && forall j: nat :: j < |nodes| ==> r[j] == Refreshed(num, threshold, s.nodes[j], nodes[j])
  {
    var k := |s.nodes|;
    var mid := SetTranslations(nodes, Translations(num, threshold, s.nodes, k));
    forall j: nat | j < |nodes|
      ensures Updated(nodes, UpdateOf(num, threshold, s))[j] == Refreshed(num, threshold, s.nodes[j], nodes[j])
    {
      SetTranslationsMeaning(num, threshold, s.nodes, k, nodes, j);
      SetRotationsMeaning(num, threshold, s.nodes, k, mid, j);
    }
  }

  /** After a subject was sent in full, the update in the same keyframe changes nothing. */
  lemma KeyUpdateIdle(num: Numerics, threshold: real, s: SubjectState)
    ensures Updated(Mirrors(num, s.nodes), KeyUpdateOf(num, threshold, s)) == Mirrors(num, s.nodes)
  {
    var sent := s.(nodes := AllSent(s.nodes));
    UpdatedMeaning(num, threshold, sent, Mirrors(num, s.nodes));
    forall j: nat | j < |s.nodes|
      ensures Refreshed(num, threshold, sent.nodes[j], Mirror(num, s.nodes[j])) == Mirror(num, s.nodes[j])
    {
      MirrorMeaning(num, s.nodes[j]);
    }
  }

  // ----- Finding subjects --------------------------------------------------

  ghost predicate Distinct(items: seq<SubjectState>) {
    forall i, j :: 0 <= i < j < |items| ==> items[i].uuid != items[j].uuid
  }

  lemma FindIs(items: seq<SubjectState>, uuid: string, i: nat)
    requires i <= |items| && (i < |items| ==> items[i].uuid == uuid)
    requires forall j :: 0 <= j < i ==> items[j].uuid != uuid
    ensures Find(items, uuid) == i
  {
  }

  /** Replacing a subject by one with the same uuid moves nothing; a new one at the end hides nothing. */
  lemma FindReplaced(items: seq<SubjectState>, i: nat, s: SubjectState, uuid: string)
    requires i < |items| && s.uuid == items[i].uuid
    ensures Find(items[i := s], uuid) == Find(items, uuid)
  {
    FindIs(items[i := s], uuid, Find(items, uuid));
  }

  lemma FindAppended(items: seq<SubjectState>, s: SubjectState, uuid: string)
    ensures Find(items + [s], uuid)
         == if Find(items, uuid) < |items| || s.uuid == uuid then Find(items, uuid) else |items| + 1
  {
    var i := Find(items, uuid);
    FindIs(items + [s], uuid, if i < |items| || s.uuid == uuid then i else |items| + 1);
  }

  /** An entry of a packet touches no other uuid. */
  lemma ApplyOther(items: seq<SubjectState>, op: Op, uuid: string)
    requires op.Uuid() != uuid
    ensures var i := Find(items, uuid);
            var after := Apply(items, op);
            if i < |items| then Find(after, uuid) == i && after[i] == items[i] else Find(after, uuid) == |after|
  {
    hide Find, ParseNodes, Updated;
    var kind := op.kind;
    var i := Find(items, op.Uuid());
    if Finds(items, kind, op.Uuid()) {
      FindReplaced(items, i, Apply(items, op)[i], uuid);
    } else if op.Full? {
      FindAppended(items, SubjectState(kind, op.data.name, op.data.uuid, true, ParseNodes(op.data.nodes)), uuid);
    }
  }

  // ----- Keyframes ---------------------------------------------------------

  /** The receiver has no other kind of subject under the sender's uuid. */
  predicate Agrees(items: seq<SubjectState>, s: SubjectState) {
    var i := Find(items, s.uuid);
    i < |items| ==> items[i].kind == s.kind
  }

  /** The receiver has the subject, with every transform as the sender's. */
  predicate Healed(num: Numerics, items: seq<SubjectState>, s: SubjectState) {
    && Finds(items, s.kind, s.uuid)
    && var r := items[Find(items, s.uuid)];
       r.name == s.name && r.nodes == Mirrors(num, s.nodes)
  }

  /** The entries of a keyframe. */
  ghost predicate KeyEntry(num: Numerics, threshold: real, s: SubjectState, op: Op) {
    s.enabled && (op == Full(s.kind, FullOf(num, s)) || op == Update(s.kind, KeyUpdateOf(num, threshold, s)))
  }

  lemma KeyEntryHeals(num: Numerics, threshold: real, items: seq<SubjectState>, s: SubjectState, op: Op)
    requires KeyEntry(num, threshold, s, op) && Agrees(items, s)
    requires op.Full? || Healed(num, items, s)
    ensures Healed(num, Apply(items, op), s)
    ensures Healed(num, items, s) ==> Apply(items, op) == items
  {
    KeyUpdateIdle(num, threshold, s);
    hide Find, ParseNodes, Updated, AllNodeData, Translations, Rotations;
    var i := Find(items, s.uuid);
    if op.Full? {
      if i < |items| {
        FindReplaced(items, i, Apply(items, op)[i], s.uuid);
      } else {
        FindAppended(items, Apply(items, op)[|items|], s.uuid);
      }
    }
  }

  lemma {:induction false} KeySectionFull(num: Numerics, threshold: real, items: seq<SubjectState>, kind: Kind,
                                          d: SubjectData)
    returns (s: SubjectState)
    requires d in KeySection(num, threshold, items, kind).full
    ensures s in items && Goes(s, kind) && d == FullOf(num, s)
  {
    var n := |items| - 1;
    if d in KeySection(num, threshold, items[..n], kind).full {
      s := KeySectionFull(num, threshold, items[..n], kind, d);
    } else {
      s := items[n];
    }
  }

  lemma {:induction false} KeySectionUpdate(num: Numerics, threshold: real, items: seq<SubjectState>, kind: Kind,
                                            u: SubjectUpdate)
    returns (s: SubjectState)
    requires u in KeySection(num, threshold, items, kind).updates
    ensures s in items && Goes(s, kind) && u == KeyUpdateOf(num, threshold, s)
  {
    var n := |items| - 1;
    if u in KeySection(num, threshold, items[..n], kind).updates {
      s := KeySectionUpdate(num, threshold, items[..n], kind, u);
    } else {
      s := items[n];
    }
  }

  lemma {:induction false} KeySectionSends(num: Numerics, threshold: real, items: seq<SubjectState>, kind: Kind,
                                           s: SubjectState)
    requires s in items && Goes(s, kind)
    ensures FullOf(num, s) in KeySection(num, threshold, items, kind).full
  {
    var n := |items| - 1;
    if s in items[..n] {
      KeySectionSends(num, threshold, items[..n], kind, s);
    }
  }

  lemma SectionEntries(num: Numerics, threshold: real, items: seq<SubjectState>, kind: Kind, op: Op)
    requires op in SectionOps(kind, KeySection(num, threshold, items, kind))
    ensures exists s :: s in items && KeyEntry(num, threshold, s, op)
  {
    var sec := KeySection(num, threshold, items, kind);
    hide FullOf, KeyUpdateOf, KeySection;
    if op in FullOps(kind, sec.full) {
      assert op.data in sec.full && op == Full(kind, op.data);
      var s := KeySectionFull(num, threshold, items, kind, op.data);
      assert KeyEntry(num, threshold, s, op);
    } else {
      assert op in UpdateOps(kind, sec.updates);
      assert op.update in sec.updates && op == Update(kind, op.update);
      var s := KeySectionUpdate(num, threshold, items, kind, op.update);
      assert KeyEntry(num, threshold, s, op);
    }
  }

  lemma KeyframeEntries(num: Numerics, threshold: real, items: seq<SubjectState>, context: Context)
    ensures var ops := Ops(Keyframe(num, threshold, items, context));
            && (forall op :: op in ops ==> exists s :: s in items && KeyEntry(num, threshold, s, op))
            && (forall s :: s in items && s.enabled ==> Full(s.kind, FullOf(num, s)) in ops)
  {
    hide KeySection, FullOf, KeyUpdateOf, SectionOps, KeyEntry;
    var ops := Ops(Keyframe(num, threshold, items, context));
    forall op | op in ops ensures exists s :: s in items && KeyEntry(num, threshold, s, op) {
      var kind :| op in SectionOps(kind, KeySection(num, threshold, items, kind));
      SectionEntries(num, threshold, items, kind, op);
    }
    forall s | s in items && s.enabled ensures Full(s.kind, FullOf(num, s)) in ops {
      FullIsSent(num, threshold, items, s);
      match s.kind {
        case Performer =>
        case Rigidbody =>
        case Camera =>
      }
    }
  }

  lemma FullIsSent(num: Numerics, threshold: real, items: seq<SubjectState>, s: SubjectState)
    requires s in items && s.enabled
    ensures Full(s.kind, FullOf(num, s)) in SectionOps(s.kind, KeySection(num, threshold, items, s.kind))
  {
    var sec := KeySection(num, threshold, items, s.kind);
    KeySectionSends(num, threshold, items, s.kind, s);
    hide FullOf, KeyUpdateOf, KeySection;
    var i :| 0 <= i < |sec.full| && sec.full[i] == FullOf(num, s);
    assert FullOps(s.kind, sec.full)[i] == Full(s.kind, FullOf(num, s));
  }

  /** No two subjects that are sent share a uuid; those that are disabled are not sent. */
  ghost predicate OneEach(senders: seq<SubjectState>) {
    forall i, j :: 0 <= i < j < |senders| && senders[i].enabled && senders[j].enabled ==>
      senders[i].uuid != senders[j].uuid
  }

  lemma SameSender(senders: seq<SubjectState>, s: SubjectState, t: SubjectState)
    requires OneEach(senders) && s in senders && t in senders && s.enabled && t.enabled && s.uuid == t.uuid
    ensures s == t
  {
  }

  ghost predicate AllAgree(items: seq<SubjectState>, senders: seq<SubjectState>) {
    forall s :: s in senders && s.enabled ==> Agrees(items, s)
  }

  ghost predicate AllEntries(num: Numerics, threshold: real, senders: seq<SubjectState>, ops: seq<Op>) {
    forall op :: op in ops ==> exists s :: s in senders && KeyEntry(num, threshold, s, op)
  }

  lemma AgreesAfter(num: Numerics, threshold: real, items: seq<SubjectState>, t: SubjectState, op: Op, s: SubjectState)
    requires KeyEntry(num, threshold, t, op) && Agrees(items, s) && (t.uuid == s.uuid ==> t == s)
    ensures Agrees(Apply(items, op), s)
  {
    hide Find, ParseNodes, Updated, AllNodeData, Translations, Rotations;
    if t.uuid != s.uuid {
      ApplyOther(items, op, s.uuid);
    } else {
      var i := Find(items, s.uuid);
      if i < |items| {
        FindReplaced(items, i, Apply(items, op)[i], s.uuid);
      } else if op.Full? {
        FindAppended(items, Apply(items, op)[|items|], s.uuid);
      }
    }
  }

  lemma HealedAfter(num: Numerics, threshold: real, items: seq<SubjectState>, t: SubjectState, op: Op, s: SubjectState)
    requires KeyEntry(num, threshold, t, op) && Agrees(items, s) && (t.uuid == s.uuid ==> t == s)
    requires Healed(num, items, s) || op == Full(s.kind, FullOf(num, s))
    ensures Healed(num, Apply(items, op), s)
  {
    if t.uuid == s.uuid {
      KeyEntryHeals(num, threshold, items, s, op);
    } else {
      ApplyOther(items, op, s.uuid);
    }
  }

  /** Whatever the receiver had, the entries of a keyframe heal every subject that was sent in full. */
  lemma {:induction false} EntriesHeal(num: Numerics, threshold: real, senders: seq<SubjectState>,
                                       items: seq<SubjectState>, ops: seq<Op>)
    requires OneEach(senders) && AllAgree(items, senders) && AllEntries(num, threshold, senders, ops)
    ensures AllAgree(ApplyAll(items, ops), senders)
    ensures forall s :: s in senders && s.enabled && Full(s.kind, FullOf(num, s)) in ops ==>
              Healed(num, ApplyAll(items, ops), s)
  {
    hide KeyEntry, Healed, Agrees, FullOf, Apply;
    if ops != [] {
      var n := |ops| - 1;
      var front, op := ops[..n], ops[n];
      assert ops == front + [op] && op in ops;
      assert forall x :: x in front ==> x in ops;
      EntriesHeal(num, threshold, senders, items, front);
      var mid := ApplyAll(items, front);
      var t :| t in senders && KeyEntry(num, threshold, t, op);
      EntryEnabled(num, threshold, t, op);
      forall s | s in senders && s.enabled ensures t.uuid == s.uuid ==> t == s {
        if t.uuid == s.uuid {
          SameSender(senders, s, t);
        }
      }
      forall s | s in senders && s.enabled ensures Agrees(Apply(mid, op), s) {
        AgreesAfter(num, threshold, mid, t, op, s);
      }
      forall s | s in senders && s.enabled && Full(s.kind, FullOf(num, s)) in ops
        ensures Healed(num, Apply(mid, op), s)
      {
        HealedAfter(num, threshold, mid, t, op, s);
      }
    }
  }

  lemma {:induction false} EntriesIdle(num: Numerics, threshold: real, senders: seq<SubjectState>,
                                       items: seq<SubjectState>, ops: seq<Op>)
    requires AllAgree(items, senders) && AllEntries(num, threshold, senders, ops)
    requires forall s :: s in senders && s.enabled ==> Healed(num, items, s)
    ensures ApplyAll(items, ops) == items
  {
    if ops != [] {
      var n := |ops| - 1;
      var front, op := ops[..n], ops[n];
      assert ops == front + [op] && op in ops;
      assert forall x :: x in front ==> x in ops;
      EntriesIdle(num, threshold, senders, items, front);
      var t :| t in senders && KeyEntry(num, threshold, t, op);
      EntryEnabled(num, threshold, t, op);
      KeyEntryHeals(num, threshold, items, t, op);
    }
  }

  lemma EntryEnabled(num: Numerics, threshold: real, s: SubjectState, op: Op)
    requires KeyEntry(num, threshold, s, op)
    ensures s.enabled
  {
  }

  /** From any receiver, whatever was lost before, one keyframe makes every enabled subject's transform list equal the
      sender's, and the same packet again changes nothing. The receiver may not know a uuid as another kind, and no two
      subjects that are sent may share one. */
  lemma KeyframeHeals(num: Numerics, threshold: real, senders: seq<SubjectState>, context: Context, r: Receiver)
    requires OneEach(senders) && AllAgree(r.items, senders)
    requires Accepts(r, Keyframe(num, threshold, senders, context))
    ensures var p := Keyframe(num, threshold, senders, context);
            var r' := Receive(r, p);
            && (forall s :: s in senders && s.enabled ==> Healed(num, r'.items, s))
            && AllAgree(r'.items, senders)
            && Receive(r', p) == r'
  {
    var p := Keyframe(num, threshold, senders, context);
    KeyframeEntries(num, threshold, senders, context);
    hide Keyframe, KeyEntry, Healed, Agrees, FullOf;
    EntriesHeal(num, threshold, senders, r.items, Ops(p));
    EntriesIdle(num, threshold, senders, Receive(r, p).items, Ops(p));
  }
}
