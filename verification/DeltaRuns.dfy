// Runs of value changes, keyframes and threshold-gated updates (src/o3ds/model.cpp:526-556, 768-826,
// src/o3ds/transform_component.h:87-89, 124-130).

module DeltaRuns {
  import opened Matrices
  import opened Contexts
  import opened Nodes
  import opened Packets
  import opened StreamLaws

  // ----- In step -----------------------------------------------------------

  /** What the receiver must have for node n, last sent in full as `key`: the values last sent, narrowed, and
      everything else as in the keyframe. */
  function Expected(num: Numerics, key: Node, n: Node): Node {
    Mirror(num, key).(translation := Tracked(num.Vec(n.translation.lastSent), ZERO_VECTOR),
                      rotation := Tracked(num.Quat(n.rotation.lastSent), NO_ROTATION))
  }

  ghost predicate InSyncOne(num: Numerics, key: SubjectState, s: SubjectState, items: seq<SubjectState>) {
    && Finds(items, s.kind, s.uuid) && |key.nodes| == |s.nodes|
    && items[Find(items, s.uuid)].nodes == AllExpected(num, key.nodes, s.nodes)
  }

  function AllExpected(num: Numerics, keys: seq<Node>, nodes: seq<Node>): seq<Node>
    requires |keys| == |nodes|
  {
    seq(|nodes|, j requires 0 <= j < |nodes| => Expected(num, keys[j], nodes[j]))
  }

  ghost predicate InSync(num: Numerics, keys: seq<SubjectState>, senders: seq<SubjectState>, items: seq<SubjectState>) {
    && |keys| == |senders|
    && forall i :: 0 <= i < |senders| && senders[i].enabled ==> InSyncOne(num, keys[i], senders[i], items)
  }

  /** The expected node has the narrowed lastSentValues, the keyframe's scale, and the keyframe's structure. */
  lemma ExpectedMeaning(num: Numerics, key: Node, n: Node)
    ensures var r := Expected(num, key, n);
            && r.translation.value == num.Vec(n.translation.lastSent)
            && r.rotation.value == num.Quat(n.rotation.lastSent)
            && r.scale.value == num.Vec(key.scale.value)
            && r.name == key.name && r.parent == key.parent && r.order == Spoken(key.order)
            && r.matrices == NarrowAll(num, key.matrices)
  {
    MirrorMeaning(num, key);
  }

  /** An update moves an expected node to the next expected node, and a second time leaves it there. */
  lemma RefreshedExpected(num: Numerics, threshold: real, key: Node, n: Node)
    ensures var n' := UpdateSent(num, threshold, n);
            && Refreshed(num, threshold, n, Expected(num, key, n)) == Expected(num, key, n')
            && Refreshed(num, threshold, n, Expected(num, key, n')) == Expected(num, key, n')
  {
  }

  lemma UpdatedExpected(num: Numerics, threshold: real, keys: seq<Node>, s: SubjectState, nodes: seq<Node>)
    requires s.enabled && |keys| == |s.nodes|
    requires || nodes == AllExpected(num, keys, s.nodes)
             || nodes == AllExpected(num, keys, DeltaSent(num, threshold, s).nodes)
    ensures Updated(nodes, UpdateOf(num, threshold, s)) == AllExpected(num, keys, DeltaSent(num, threshold, s).nodes)
  {
    UpdatedMeaning(num, threshold, s, nodes);
    hide Updated, UpdateOf, Refreshed, Expected, UpdateSent;
    forall j: nat | j < |s.nodes|
      ensures Refreshed(num, threshold, s.nodes[j], nodes[j])
              == Expected(num, keys[j], DeltaSent(num, threshold, s).nodes[j])
    {
      RefreshedExpected(num, threshold, keys[j], s.nodes[j]);
    }
  }

  lemma UpdateSyncs(num: Numerics, threshold: real, key: SubjectState, s: SubjectState, items: seq<SubjectState>)
    requires s.enabled
    requires InSyncOne(num, key, s, items) || InSyncOne(num, key, DeltaSent(num, threshold, s), items)
    ensures InSyncOne(num, key, DeltaSent(num, threshold, s), ApplyUpdate(items, s.kind, UpdateOf(num, threshold, s)))
  {
    assert |DeltaSent(num, threshold, s).nodes| == |s.nodes|;
    UuidOfUpdate(num, threshold, s);
    hide Find, Updated, UpdateOf, AllExpected, AllUpdateSent;
    var i := Find(items, s.uuid);
    UpdatedExpected(num, threshold, key.nodes, s, items[i].nodes);
    FindReplaced(items, i, ApplyUpdate(items, s.kind, UpdateOf(num, threshold, s))[i], s.uuid);
  }

  lemma {:induction false} DeltaSectionUpdate(num: Numerics, threshold: real, items: seq<SubjectState>, kind: Kind,
                                              u: SubjectUpdate)
    returns (s: SubjectState)
    requires u in DeltaSection(num, threshold, items, kind).updates
    ensures s in items && Goes(s, kind) && u == UpdateOf(num, threshold, s)
  {
    var n := |items| - 1;
    if u in DeltaSection(num, threshold, items[..n], kind).updates {
      s := DeltaSectionUpdate(num, threshold, items[..n], kind, u);
    } else {
      s := items[n];
    }
  }

  lemma {:induction false} DeltaSectionSends(num: Numerics, threshold: real, items: seq<SubjectState>, kind: Kind,
                                             s: SubjectState)
    requires s in items && Goes(s, kind)
    ensures UpdateOf(num, threshold, s) in DeltaSection(num, threshold, items, kind).updates
  {
    var n := |items| - 1;
    if s in items[..n] {
      DeltaSectionSends(num, threshold, items[..n], kind, s);
    }
  }

  lemma {:induction false} DeltaSectionNoFull(num: Numerics, threshold: real, items: seq<SubjectState>, kind: Kind)
    ensures DeltaSection(num, threshold, items, kind).full == []
  {
    if items != [] {
      DeltaSectionNoFull(num, threshold, items[..|items| - 1], kind);
    }
  }

  /** The entries of an update packet. */
  ghost predicate DeltaEntry(num: Numerics, threshold: real, s: SubjectState, op: Op) {
    s.enabled && op == Update(s.kind, UpdateOf(num, threshold, s))
  }

  lemma UpdatesOnly(kind: Kind, sec: Section, op: Op)
    requires op in SectionOps(kind, sec) && sec.full == []
    ensures op.Update? && op.kind == kind && op.update in sec.updates
  {
    assert op !in FullOps(kind, sec.full);
  }

  lemma DeltaEntries(num: Numerics, threshold: real, items: seq<SubjectState>, context: Context)
    ensures var ops := Ops(Delta(num, threshold, items, context));
            && (forall op :: op in ops ==> exists s :: s in items && DeltaEntry(num, threshold, s, op))
            && (forall s :: s in items && s.enabled ==> Update(s.kind, UpdateOf(num, threshold, s)) in ops)
  {
    hide DeltaSection, UpdateOf;
    var ops := Ops(Delta(num, threshold, items, context));
    forall op | op in ops ensures exists s :: s in items && DeltaEntry(num, threshold, s, op) {
      var kind :| op in SectionOps(kind, DeltaSection(num, threshold, items, kind));
      DeltaSectionNoFull(num, threshold, items, kind);
      UpdatesOnly(kind, DeltaSection(num, threshold, items, kind), op);
      var s := DeltaSectionUpdate(num, threshold, items, kind, op.update);
      assert DeltaEntry(num, threshold, s, op);
    }
    forall s | s in items && s.enabled ensures Update(s.kind, UpdateOf(num, threshold, s)) in ops {
      UpdateIsSent(num, threshold, items, s);
      match s.kind {
        case Performer =>
        case Rigidbody =>
        case Camera =>
      }
    }
  }

  lemma UpdateIsSent(num: Numerics, threshold: real, items: seq<SubjectState>, s: SubjectState)
    requires s in items && s.enabled
    ensures Update(s.kind, UpdateOf(num, threshold, s))
            in SectionOps(s.kind, DeltaSection(num, threshold, items, s.kind))
  {
    var sec := DeltaSection(num, threshold, items, s.kind);
    DeltaSectionSends(num, threshold, items, s.kind, s);
    hide UpdateOf, DeltaSection;
    var i :| 0 <= i < |sec.updates| && sec.updates[i] == UpdateOf(num, threshold, s);
    assert UpdateOps(s.kind, sec.updates)[i] == Update(s.kind, UpdateOf(num, threshold, s));
  }

  ghost predicate AllDelta(num: Numerics, threshold: real, senders: seq<SubjectState>, ops: seq<Op>) {
    forall op :: op in ops ==> exists s :: s in senders && DeltaEntry(num, threshold, s, op)
  }

  /** A sender as far as the entries so far have told of it. */
  function Told(num: Numerics, threshold: real, s: SubjectState, ops: seq<Op>): SubjectState {
    if Update(s.kind, UpdateOf(num, threshold, s)) in ops then DeltaSent(num, threshold, s) else s
  }

  ghost predicate InSyncTold(num: Numerics, threshold: real, keys: seq<SubjectState>, senders: seq<SubjectState>,
                             items: seq<SubjectState>, ops: seq<Op>) {
    |keys| == |senders| && forall i :: 0 <= i < |senders| && senders[i].enabled ==>
      InSyncOne(num, keys[i], Told(num, threshold, senders[i], ops), items)
  }

  lemma ToldOne(num: Numerics, threshold: real, key: SubjectState, s: SubjectState, items: seq<SubjectState>,
                front: seq<Op>, t: SubjectState, op: Op)
    requires s.enabled && DeltaEntry(num, threshold, t, op) && (t.uuid == s.uuid ==> t == s)
    requires InSyncOne(num, key, Told(num, threshold, s, front), items)
    ensures InSyncOne(num, key, Told(num, threshold, s, front + [op]), Apply(items, op))
  {
    hide UpdateOf;
    if t.uuid == s.uuid {
      UpdateSyncs(num, threshold, key, s, items);
    } else {
      hide DeltaSent;
      UuidOfUpdate(num, threshold, t);
      UuidOfUpdate(num, threshold, s);
      ToldSame(num, threshold, s, front, op);
      SameUuid(num, threshold, s, front);
      ApplyOther(items, op, s.uuid);
    }
  }

  lemma UuidOfUpdate(num: Numerics, threshold: real, s: SubjectState)
    ensures UpdateOf(num, threshold, s).uuid == s.uuid
  {
  }

  lemma ToldSame(num: Numerics, threshold: real, s: SubjectState, front: seq<Op>, op: Op)
    requires op.Uuid() != s.uuid
    ensures Told(num, threshold, s, front + [op]) == Told(num, threshold, s, front)
  {
  }

  lemma SameUuid(num: Numerics, threshold: real, s: SubjectState, ops: seq<Op>)
    ensures var t := Told(num, threshold, s, ops); t.uuid == s.uuid && t.kind == s.kind
  {
  }

  lemma DeltaEnabled(num: Numerics, threshold: real, s: SubjectState, op: Op)
    requires DeltaEntry(num, threshold, s, op)
    ensures s.enabled
  {
  }

  lemma {:induction false} EntriesSync(num: Numerics, threshold: real, keys: seq<SubjectState>,
                                       senders: seq<SubjectState>, items: seq<SubjectState>, ops: seq<Op>)
    requires OneEach(senders) && AllDelta(num, threshold, senders, ops) && InSync(num, keys, senders, items)
    ensures InSyncTold(num, threshold, keys, senders, ApplyAll(items, ops), ops)
  {
    hide DeltaEntry, InSyncOne, Apply, UpdateOf, DeltaSent;
    if ops != [] {
      var n := |ops| - 1;
      var front, op := ops[..n], ops[n];
      assert ops == front + [op] && op in ops;
      assert forall x :: x in front ==> x in ops;
      EntriesSync(num, threshold, keys, senders, items, front);
      hide Told;
      var t :| t in senders && DeltaEntry(num, threshold, t, op);
      forall i | 0 <= i < |senders| && senders[i].enabled
        ensures InSyncOne(num, keys[i], Told(num, threshold, senders[i], ops), ApplyAll(items, ops))
      {
        if t.uuid == senders[i].uuid {
          DeltaEnabled(num, threshold, t, op);
          SameSender(senders, senders[i], t);
        }
        ToldOne(num, threshold, keys[i], senders[i], ApplyAll(items, front), front, t, op);
      }
    }
  }

  lemma DeltaKeepsSync(num: Numerics, threshold: real, keys: seq<SubjectState>, senders: seq<SubjectState>,
                       items: seq<SubjectState>, context: Context)
    requires OneEach(senders) && InSync(num, keys, senders, items)
    ensures InSync(num, keys, AfterDelta(num, threshold, senders),
                   ApplyAll(items, Ops(Delta(num, threshold, senders, context))))
  {
    var ops := Ops(Delta(num, threshold, senders, context));
    DeltaEntries(num, threshold, senders, context);
    assert forall s :: DeltaSent(num, threshold, s).enabled == s.enabled;
    hide DeltaEntry, InSyncOne, UpdateOf, DeltaSent, Delta;
    EntriesSync(num, threshold, keys, senders, items, ops);
    forall i | 0 <= i < |senders| && senders[i].enabled
      ensures InSyncOne(num, keys[i], DeltaSent(num, threshold, senders[i]), ApplyAll(items, ops))
    {
      assert senders[i] in senders;
      assert Told(num, threshold, senders[i], ops) == DeltaSent(num, threshold, senders[i]);
    }
  }

  /** The receiver reads packets that carry this context. */
  predicate Readable(context: Context, r: Receiver) {
    r.context.Valid() ==> context.Valid()
  }

  /** A keyframe puts any receiver in step. */
  lemma KeyframeSyncs(num: Numerics, threshold: real, senders: seq<SubjectState>, context: Context, r: Receiver)
    requires OneEach(senders) && AllAgree(r.items, senders) && Readable(context, r)
    ensures InSync(num, senders, AfterKeyframe(num, threshold, senders),
                   Receive(r, Keyframe(num, threshold, senders, context)).items)
  {
    KeyframeHeals(num, threshold, senders, context, r);
    hide Keyframe, Receive, Find, Agrees;
    forall i | 0 <= i < |senders| && senders[i].enabled
      ensures InSyncOne(num, senders[i], KeySent(num, threshold, senders[i]),
                        Receive(r, Keyframe(num, threshold, senders, context)).items)
    {
      var s := senders[i];
      assert s in senders;
      KeyNodes(num, threshold, s);
    }
  }

  lemma KeyNodes(num: Numerics, threshold: real, s: SubjectState)
    requires s.enabled
    ensures var s' := KeySent(num, threshold, s);
            |s'.nodes| == |s.nodes| &&
            Mirrors(num, s.nodes) == AllExpected(num, s.nodes, s'.nodes)
  {
    var s' := KeySent(num, threshold, s);
    forall j: nat | j < |s.nodes| ensures Mirror(num, s.nodes[j]) == Expected(num, s.nodes[j], s'.nodes[j]) {
      MirrorMeaning(num, s.nodes[j]);
    }
  }

  // ----- The threshold -----------------------------------------------------

  /** The true values are within the threshold of the values last sent. */
  ghost predicate Settled(num: Numerics, threshold: real, senders: seq<SubjectState>) {
    forall i, j :: 0 <= i < |senders| && senders[i].enabled && 0 <= j < |senders[i].nodes| ==>
      Close(num, threshold, senders[i].nodes[j])
  }

  function SquaredDistance(a: Vec3, b: Vec3): real {
    (a.x - b.x) * (a.x - b.x) + (a.y - b.y) * (a.y - b.y) + (a.z - b.z) * (a.z - b.z)
  }

  /** No further from the values last sent than the threshold, in distance and in angle. */
  predicate Close(num: Numerics, threshold: real, n: Node) {
    && SquaredDistance(n.translation.value, n.translation.lastSent) <= threshold * threshold
    && -threshold <= num.angle(n.rotation.lastSent, n.rotation.value) <= threshold
  }

  /** A threshold below zero lets everything through, another one what is further off. */
  lemma MovedMeaning(t: Tracked<Vec3>, threshold: real)
    ensures Moved(t, threshold) <==> threshold < 0.0 || SquaredDistance(t.value, t.lastSent) > threshold * threshold
  {
  }

  lemma TurnedMeaning(num: Numerics, r: Tracked<Quaternion>, threshold: real)
    ensures Turned(num, r, threshold)
       <==> num.angle(r.lastSent, r.value) > threshold || num.angle(r.lastSent, r.value) < -threshold
  {
  }

  /** A threshold that is not negative, and an angle that is zero between equal rotations. */
  ghost predicate Sane(num: Numerics, threshold: real) {
    threshold >= 0.0 && forall q :: num.angle(q, q) == 0.0
  }

  lemma UpdateCloses(num: Numerics, threshold: real, n: Node)
    requires Sane(num, threshold)
    ensures Close(num, threshold, UpdateSent(num, threshold, n))
  {
    SquareAtLeastZero(threshold);
    MovedMeaning(n.translation, threshold);
    TurnedMeaning(num, n.rotation, threshold);
    NoDistance(n.translation.value);
    hide SquaredDistance, Moved, Turned;
  }

  lemma NoDistance(v: Vec3)
    ensures SquaredDistance(v, v) == 0.0
  {
  }

  lemma SquareAtLeastZero(x: real)
    ensures x * x >= 0.0
  {
  }

  lemma DeltaSettles(num: Numerics, threshold: real, senders: seq<SubjectState>)
    requires Sane(num, threshold)
    ensures Settled(num, threshold, AfterDelta(num, threshold, senders))
    ensures Settled(num, threshold, AfterKeyframe(num, threshold, senders))
  {
    hide Close, UpdateSent, Sent;
    forall n ensures Close(num, threshold, UpdateSent(num, threshold, n)) {
      UpdateCloses(num, threshold, n);
    }
  }

  // ----- Runs --------------------------------------------------------------

  /** A sender, its list as it was at the last keyframe, and a receiver. */
  datatype Link = Link(senders: seq<SubjectState>, keys: seq<SubjectState>, receiver: Receiver)

  datatype Event = Change(senders: seq<SubjectState>) | SendKeyframe | SendUpdate

  function Step(num: Numerics, threshold: real, context: Context, l: Link, e: Event): Link {
    match e
    case Change(senders) => l.(senders := senders)
    case SendKeyframe =>
      Link(AfterKeyframe(num, threshold, l.senders), l.senders,
           Receive(l.receiver, Keyframe(num, threshold, l.senders, context)))
    case SendUpdate =>
      Link(AfterDelta(num, threshold, l.senders), l.keys,
           Receive(l.receiver, Delta(num, threshold, l.senders, context)))
  }

  function Run(num: Numerics, threshold: real, context: Context, l: Link, events: seq<Event>): Link {
    if events == [] then l
    else Step(num, threshold, context, Run(num, threshold, context, l, events[..|events| - 1]), events[|events| - 1])
  }

  /** Only values change: not what was last sent, nor the structure, nor which subjects are enabled. */
  ghost predicate OnlyValues(a: seq<SubjectState>, b: seq<SubjectState>) {
    |a| == |b| && forall i :: 0 <= i < |a| ==> OnlyValuesOne(a[i], b[i])
  }

  ghost predicate OnlyValuesOne(a: SubjectState, b: SubjectState) {
    && b == a.(nodes := b.nodes) && |b.nodes| == |a.nodes|
    && forall j :: 0 <= j < |a.nodes| ==> OnlyValuesNode(a.nodes[j], b.nodes[j])
  }

  predicate OnlyValuesNode(a: Node, b: Node) {
    b == a.(translation := a.translation.(value := b.translation.value),
            rotation := a.rotation.(value := b.rotation.value),
            scale := a.scale.(value := b.scale.value))
  }

  ghost predicate Legal(num: Numerics, threshold: real, context: Context, l: Link, events: seq<Event>) {
    forall i :: 0 <= i < |events| && events[i].Change? ==>
      OnlyValues(Run(num, threshold, context, l, events[..i]).senders, events[i].senders)
  }

  lemma ChangeKeepsSync(num: Numerics, keys: seq<SubjectState>, a: seq<SubjectState>, b: seq<SubjectState>,
                        items: seq<SubjectState>)
    requires InSync(num, keys, a, items) && OnlyValues(a, b)
    ensures InSync(num, keys, b, items)
  {
    hide Find, Mirror;
    forall i | 0 <= i < |b| && b[i].enabled ensures InSyncOne(num, keys[i], b[i], items) {
      assert OnlyValuesOne(a[i], b[i]);
      assert InSyncOne(num, keys[i], a[i], items);
      forall j: nat | j < |a[i].nodes|
        ensures Expected(num, keys[i].nodes[j], b[i].nodes[j]) == Expected(num, keys[i].nodes[j], a[i].nodes[j])
      {
        assert OnlyValuesNode(a[i].nodes[j], b[i].nodes[j]);
      }
    }
  }

  /** Sending changes no uuid, kind or enabled flag. */
  predicate SameHeads(a: seq<SubjectState>, b: seq<SubjectState>) {
    && |a| == |b|
    && forall i :: 0 <= i < |a| ==>
         a[i].uuid == b[i].uuid && a[i].kind == b[i].kind && a[i].enabled == b[i].enabled
  }

  lemma HeadsKeep(a: seq<SubjectState>, b: seq<SubjectState>, items: seq<SubjectState>)
    requires SameHeads(a, b) && OneEach(a) && AllAgree(items, a)
    ensures OneEach(b) && AllAgree(items, b)
  {
    hide Find;
    forall s | s in b && s.enabled ensures Agrees(items, s) {
      var i :| 0 <= i < |b| && b[i] == s;
      assert a[i] in a;
    }
  }

  /** What a run keeps after its first keyframe. */
  ghost predicate Linked(num: Numerics, context: Context, l: Link) {
    && OneEach(l.senders) && AllAgree(l.receiver.items, l.senders) && Readable(context, l.receiver)
    && InSync(num, l.keys, l.senders, l.receiver.items)
  }

  lemma {:induction false} UpdatesAgree(items: seq<SubjectState>, ops: seq<Op>, s: SubjectState)
    requires Agrees(items, s) && forall op :: op in ops ==> op.Update?
    ensures Agrees(ApplyAll(items, ops), s)
  {
    hide Find, Updated;
    if ops != [] {
      var n := |ops| - 1;
      UpdatesAgree(items, ops[..n], s);
      assert ops[n] in ops;
      var mid, op := ApplyAll(items, ops[..n]), ops[n];
      if Finds(mid, op.kind, op.Uuid()) {
        var i := Find(mid, op.Uuid());
        FindReplaced(mid, i, Apply(mid, op)[i], s.uuid);
      }
    }
  }

  lemma DeltaKeepsAgree(num: Numerics, threshold: real, senders: seq<SubjectState>, items: seq<SubjectState>,
                        context: Context)
    requires AllAgree(items, senders)
    ensures AllAgree(ApplyAll(items, Ops(Delta(num, threshold, senders, context))), senders)
  {
    var ops := Ops(Delta(num, threshold, senders, context));
    DeltaEntries(num, threshold, senders, context);
    hide Delta, UpdateOf, Agrees;
    forall s | s in senders && s.enabled ensures Agrees(ApplyAll(items, ops), s) {
      UpdatesAgree(items, ops, s);
    }
  }

  lemma KeyframeLinks(num: Numerics, threshold: real, context: Context, l: Link)
    requires Readable(context, l.receiver) && OneEach(l.senders) && AllAgree(l.receiver.items, l.senders)
    ensures Linked(num, context, Step(num, threshold, context, l, SendKeyframe))
  {
    KeyframeSyncs(num, threshold, l.senders, context, l.receiver);
    KeyframeHeals(num, threshold, l.senders, context, l.receiver);
    var after := AfterKeyframe(num, threshold, l.senders);
    assert SameHeads(l.senders, after);
    hide InSync, AllAgree, OneEach, Receive, Keyframe, AfterKeyframe, Healed;
    HeadsKeep(l.senders, after, Receive(l.receiver, Keyframe(num, threshold, l.senders, context)).items);
  }

  lemma StepLinked(num: Numerics, threshold: real, context: Context, l: Link, e: Event)
    requires Linked(num, context, l)
    requires e.Change? ==> OnlyValues(l.senders, e.senders)
    ensures Linked(num, context, Step(num, threshold, context, l, e))
  {
    match e {
      case Change(senders) =>
        ChangeKeepsSync(num, l.keys, l.senders, senders, l.receiver.items);
        assert forall i :: 0 <= i < |senders| ==> OnlyValuesOne(l.senders[i], senders[i]);
        hide InSync, AllAgree, OneEach;
        HeadsKeep(l.senders, senders, l.receiver.items);
      case SendKeyframe => KeyframeLinks(num, threshold, context, l);
      case SendUpdate =>
        DeltaKeepsSync(num, threshold, l.keys, l.senders, l.receiver.items, context);
        DeltaKeepsAgree(num, threshold, l.senders, l.receiver.items, context);
        var after := AfterDelta(num, threshold, l.senders);
        assert SameHeads(l.senders, after);
        hide InSync, AllAgree, OneEach, AfterDelta;
        HeadsKeep(l.senders, after, Step(num, threshold, context, l, SendUpdate).receiver.items);
    }
  }

  /** In every run from a keyframe on, from any receiver, with everything since delivered in order: the receiver's
      transforms are the expected ones; and right after a keyframe or an update the true values are within the
      threshold of the values last sent, so that small moves cannot add up unseen. */
  lemma {:induction false} RunInSync(num: Numerics, threshold: real, context: Context, l: Link, events: seq<Event>)
    requires Readable(context, l.receiver) && OneEach(l.senders) && AllAgree(l.receiver.items, l.senders)
    requires events != [] && events[0] == SendKeyframe && Legal(num, threshold, context, l, events)
    ensures var after := Run(num, threshold, context, l, events);
            && InSync(num, after.keys, after.senders, after.receiver.items) && Linked(num, context, after)
            && (Sane(num, threshold) && !events[|events| - 1].Change? ==> Settled(num, threshold, after.senders))
  {
    var n := |events| - 1;
    var before := Run(num, threshold, context, l, events[..n]);
    if n == 0 {
      KeyframeLinks(num, threshold, context, l);
    } else {
      LegalFront(num, threshold, context, l, events);
      RunInSync(num, threshold, context, l, events[..n]);
      StepLinked(num, threshold, context, before, events[n]);
    }
    if Sane(num, threshold) {
      DeltaSettles(num, threshold, before.senders);
    }
    hide InSync, AllAgree, OneEach, Settled, Receive, AfterDelta, AfterKeyframe, Sane;
  }

  lemma LegalFront(num: Numerics, threshold: real, context: Context, l: Link, events: seq<Event>)
    requires events != [] && Legal(num, threshold, context, l, events)
    ensures Legal(num, threshold, context, l, events[..|events| - 1])
  {
    var front := events[..|events| - 1];
    hide Run, OnlyValues;
    forall i | 0 <= i < |front| && front[i].Change?
      ensures OnlyValues(Run(num, threshold, context, l, front[..i]).senders, front[i].senders)
    {
      assert front[..i] == events[..i] && front[i] == events[i];
    }
  }
}
