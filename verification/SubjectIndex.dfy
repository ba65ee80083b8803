// The receiving list over any run of packets: one entry per uuid, in the order first seen
// (src/o3ds/model.h:478-513, src/o3ds/model.cpp:1316-1422).

module SubjectIndex {
  import opened Contexts
  import opened Packets
  import opened StreamLaws

  function Uuids(items: seq<SubjectState>): (r: seq<string>)
    ensures |r| == |items|
  {
    seq(|items|, i requires 0 <= i < |items| => items[i].uuid)
  }

  /** The uuids seen so far, with those the entries introduce, each once, in order. */
  function Seen(seen: seq<string>, ops: seq<Op>): seq<string> {
    if ops == [] then seen
    else
      var before := Seen(seen, ops[..|ops| - 1]);
      var op := ops[|ops| - 1];
      if op.Full? && op.data.uuid !in before then before + [op.data.uuid] else before
  }

  /** A uuid always names one kind of subject. */
  ghost predicate OneKind(kindOf: string -> Kind, items: seq<SubjectState>) {
    forall s :: s in items ==> s.kind == kindOf(s.uuid)
  }

  ghost predicate OneKindOps(kindOf: string -> Kind, ops: seq<Op>) {
    forall op :: op in ops ==> op.kind == kindOf(op.Uuid())
  }

  /** The list is an index: no uuid twice, each of its kind. */
  ghost predicate Index(kindOf: string -> Kind, items: seq<SubjectState>) {
    Distinct(items) && OneKind(kindOf, items)
  }

  lemma FindOrAbsent(items: seq<SubjectState>, uuid: string)
    ensures Find(items, uuid) < |items| <==> uuid in Uuids(items)
  {
    var i := Find(items, uuid);
    if i < |items| {
      assert Uuids(items)[i] == uuid;
    }
  }

  lemma ApplyIndex(kindOf: string -> Kind, items: seq<SubjectState>, op: Op)
    requires Index(kindOf, items) && op.kind == kindOf(op.Uuid())
    ensures Index(kindOf, Apply(items, op))
    ensures Uuids(Apply(items, op))
         == if op.Full? && op.data.uuid !in Uuids(items) then Uuids(items) + [op.data.uuid] else Uuids(items)
  {
    FindOrAbsent(items, op.Uuid());
    hide Find, ParseNodes, Updated;
    var i := Find(items, op.Uuid());
    if i < |items| {
      assert items[i] in items;
    }
  }

  /** After any entries the list is an index still, of the uuids seen, in the order first seen. */
  lemma {:induction false} ApplyAllIndex(kindOf: string -> Kind, items: seq<SubjectState>, ops: seq<Op>)
    requires Index(kindOf, items) && OneKindOps(kindOf, ops)
    ensures Index(kindOf, ApplyAll(items, ops)) && Uuids(ApplyAll(items, ops)) == Seen(Uuids(items), ops)
  {
    hide Index, Uuids, Apply;
    if ops != [] {
      var n := |ops| - 1;
      assert ops[n] in ops && forall op :: op in ops[..n] ==> op in ops;
      ApplyAllIndex(kindOf, items, ops[..n]);
      ApplyIndex(kindOf, ApplyAll(items, ops[..n]), ops[n]);
    }
  }

  /** A subject that the entries do not name stays where it is, as it is. */
  lemma {:induction false} AbsentUntouched(kindOf: string -> Kind, items: seq<SubjectState>, ops: seq<Op>, i: nat)
    requires Index(kindOf, items) && OneKindOps(kindOf, ops) && i < |items|
    requires forall op :: op in ops ==> op.Uuid() != items[i].uuid
    ensures |items| <= |ApplyAll(items, ops)| && ApplyAll(items, ops)[i] == items[i]
  {
    if ops != [] {
      var n := |ops| - 1;
      assert ops[n] in ops && forall op :: op in ops[..n] ==> op in ops;
      AbsentUntouched(kindOf, items, ops[..n], i);
      var mid := ApplyAll(items, ops[..n]);
      ApplyAllIndex(kindOf, items, ops[..n]);
      hide Apply;
      ApplyElsewhere(mid, ops[n], i);
    }
  }

  lemma ApplyElsewhere(items: seq<SubjectState>, op: Op, i: nat)
    requires Distinct(items) && i < |items| && op.Uuid() != items[i].uuid
    ensures |items| <= |Apply(items, op)| && Apply(items, op)[i] == items[i]
  {
    FindIs(items, items[i].uuid, i);
    ApplyOther(items, op, items[i].uuid);
    hide Find, ParseNodes, Updated;
  }

  // ----- A uuid of another kind --------------------------------------------

  function Again(items: seq<SubjectState>, op: Op, n: nat): seq<SubjectState> {
    if n == 0 then items else Apply(Again(items, op, n - 1), op)
  }

  /** Where a uuid is known as another kind, a full subject is not found, so each time it arrives one more is added, at
      the end, which is never found either; and updates of it are ignored. */
  lemma {:induction false} ClashGrows(items: seq<SubjectState>, kind: Kind, d: SubjectData, n: nat)
    requires Find(items, d.uuid) < |items| && items[Find(items, d.uuid)].kind != kind
    ensures var after := Again(items, Full(kind, d), n);
            && |after| == |items| + n && after[..|items|] == items
            && (forall j :: |items| <= j < |after| ==>
                  after[j] == SubjectState(kind, d.name, d.uuid, true, ParseNodes(d.nodes)))
            && !Finds(after, kind, d.uuid)
            && forall u: SubjectUpdate :: u.uuid == d.uuid ==> Apply(after, Update(kind, u)) == after
  {
    hide ParseNodes, Updated, Again, Find;
    AgainOnce(items, Full(kind, d), n);
    if n > 0 {
      ClashGrows(items, kind, d, n - 1);
    }
    ClashHidden(items, kind, d, Again(items, Full(kind, d), n));
  }

  lemma AgainOnce(items: seq<SubjectState>, op: Op, n: nat)
    ensures Again(items, op, n) == if n == 0 then items else Apply(Again(items, op, n - 1), op)
  {
  }

  lemma ClashHidden(items: seq<SubjectState>, kind: Kind, d: SubjectData, after: seq<SubjectState>)
    requires Find(items, d.uuid) < |items| && items[Find(items, d.uuid)].kind != kind
    requires |items| <= |after| && after[..|items|] == items
    ensures !Finds(after, kind, d.uuid)
  {
    var i := Find(items, d.uuid);
    assert forall j :: 0 <= j <= i ==> after[j] == after[..|items|][j];
    FindIs(after, d.uuid, i);
  }

  /** The first subject with a uuid stays where it is and of its kind, whatever arrives. */
  lemma {:induction false} KindStays(items: seq<SubjectState>, ops: seq<Op>, uuid: string)
    requires Find(items, uuid) < |items|
    ensures var i, after := Find(items, uuid), ApplyAll(items, ops);
            Find(after, uuid) == i < |after| && after[i].kind == items[i].kind
  {
    if ops != [] {
      var n := |ops| - 1;
      KindStays(items, ops[..n], uuid);
      hide Find, ParseNodes, Updated;
      KindStaysOnce(ApplyAll(items, ops[..n]), ops[n], uuid);
    }
  }

  lemma KindStaysOnce(items: seq<SubjectState>, op: Op, uuid: string)
    requires Find(items, uuid) < |items|
    ensures var i, after := Find(items, uuid), Apply(items, op);
            Find(after, uuid) == i < |after| && after[i].kind == items[i].kind
  {
    hide Find, ParseNodes, Updated;
    var j := Find(items, op.Uuid());
    if Finds(items, op.kind, op.Uuid()) {
      FindReplaced(items, j, Apply(items, op)[j], uuid);
    } else if op.Full? {
      FindAppended(items, Apply(items, op)[|items|], uuid);
    }
  }

  /** So a keyframe heals a subject exactly when the receiver does not know its uuid as another kind, where that holds
      of the others that are sent. */
  lemma HealedExactly(num: Numerics, threshold: real, senders: seq<SubjectState>, context: Context, r: Receiver,
                      s: SubjectState)
    requires OneEach(senders) && Accepts(r, Keyframe(num, threshold, senders, context)) && s in senders && s.enabled
    requires forall t :: t in senders && t.enabled && t != s ==> Agrees(r.items, t)
    ensures Healed(num, Receive(r, Keyframe(num, threshold, senders, context)).items, s) <==> Agrees(r.items, s)
  {
    var p := Keyframe(num, threshold, senders, context);
    if Agrees(r.items, s) {
      KeyframeHeals(num, threshold, senders, context, r);
    } else {
      hide Keyframe, ApplyAll, Ops, Find;
      KindStays(r.items, Ops(p), s.uuid);
    }
  }

  // ----- Runs of packets ---------------------------------------------------

  function ReceiveAll(r: Receiver, packets: seq<Packet>): Receiver {
    if packets == [] then r else Receive(ReceiveAll(r, packets[..|packets| - 1]), packets[|packets| - 1])
  }

  /** The entries of the packets that are read: all of them until the context is valid, then those with a valid one. */
  function ReadOps(context: Context, packets: seq<Packet>): seq<Op> {
    if packets == [] then []
    else
      var n := |packets| - 1;
      var front := packets[..n];
      ReadOps(context, front)
      + if ContextAfter(context, front).Valid() && !packets[n].context.Valid() then [] else Ops(packets[n])
  }

  /** The first valid context, and the last one seen before that. */
  function ContextAfter(context: Context, packets: seq<Packet>): Context {
    if packets == [] then context
    else
      var before := ContextAfter(context, packets[..|packets| - 1]);
      if before.Valid() then before else packets[|packets| - 1].context
  }

  lemma {:induction false} ApplyAllAppend(items: seq<SubjectState>, a: seq<Op>, b: seq<Op>)
    ensures ApplyAll(items, a + b) == ApplyAll(ApplyAll(items, a), b)
  {
    hide Apply;
    if b == [] {
      assert a + b == a;
    } else {
      ApplyAllAppend(items, a, b[..|b| - 1]);
      assert (a + b)[..|a + b| - 1] == a + b[..|b| - 1];
    }
  }

  lemma {:induction false} ReceiveAllMeaning(r: Receiver, packets: seq<Packet>)
    ensures ReceiveAll(r, packets)
         == Receiver(ApplyAll(r.items, ReadOps(r.context, packets)), ContextAfter(r.context, packets))
  {
    hide Apply, Ops;
    if packets != [] {
      var n := |packets| - 1;
      ReceiveAllMeaning(r, packets[..n]);
      var front := ReadOps(r.context, packets[..n]);
      ApplyAllAppend(r.items, front, Ops(packets[n]));
      assert front + [] == front;
    }
  }

  /** In every run of packets, where a uuid names one kind: the list is an index of the uuids in the packets read, in
      the order first seen. */
  lemma RunIndex(kindOf: string -> Kind, r: Receiver, packets: seq<Packet>)
    requires Index(kindOf, r.items) && OneKindOps(kindOf, ReadOps(r.context, packets))
    ensures var r' := ReceiveAll(r, packets);
            && Index(kindOf, r'.items)
            && Uuids(r'.items) == Seen(Uuids(r.items), ReadOps(r.context, packets))
  {
    ReceiveAllMeaning(r, packets);
    ApplyAllIndex(kindOf, r.items, ReadOps(r.context, packets));
  }

  /** The packets that are read. */
  function Kept(context: Context, packets: seq<Packet>): seq<Packet> {
    if packets == [] then []
    else
      var n := |packets| - 1;
      var front := packets[..n];
      Kept(context, front)
      + if ContextAfter(context, front).Valid() && !packets[n].context.Valid() then [] else [packets[n]]
  }

  /** Packets that are refused leave no trace: over every run the list and the context are as if they had not come. No
      packet with a valid context is refused, and once there has been one, every other is. */
  lemma {:induction false} RefusedLeaveNoTrace(r: Receiver, packets: seq<Packet>)
    ensures ReceiveAll(r, packets) == ReceiveAll(r, Kept(r.context, packets))
    ensures forall p :: p in packets && p.context.Valid() ==> p in Kept(r.context, packets)
    ensures r.context.Valid() ==> forall p :: p in Kept(r.context, packets) ==> p.context.Valid()
  {
    KeptMembers(r, packets);
    if packets != [] {
      var n := |packets| - 1;
      var front, p := packets[..n], packets[n];
      RefusedLeaveNoTrace(r, front);
      ReceiveAllMeaning(r, front);
      hide ApplyAll, Ops, ReceiveAll;
      var kept := Kept(r.context, front);
      ReceiveMore(r, front, p);
      ReceiveMore(r, kept, p);
      assert packets == front + [p] && kept + [] == kept;
    }
  }

  lemma ReceiveMore(r: Receiver, packets: seq<Packet>, p: Packet)
    ensures ReceiveAll(r, packets + [p]) == Receive(ReceiveAll(r, packets), p)
  {
    hide Receive;
    assert (packets + [p])[..|packets|] == packets;
  }

  lemma {:induction false} KeptMembers(r: Receiver, packets: seq<Packet>)
    ensures forall p :: p in packets && p.context.Valid() ==> p in Kept(r.context, packets)
    ensures r.context.Valid() ==> forall p :: p in Kept(r.context, packets) ==> p.context.Valid()
  {
    if packets != [] {
      var n := |packets| - 1;
      var front := packets[..n];
      KeptMembers(r, front);
      ReceiveAllMeaning(r, front);
      assert packets == front + [packets[n]];
      if r.context.Valid() {
        ContextFixed(r, front);
      }
      hide Context.Valid, Receive, ReceiveAll;
    }
  }

  /** A valid context never changes. */
  lemma {:induction false} ContextFixed(r: Receiver, packets: seq<Packet>)
    requires r.context.Valid()
    ensures ReceiveAll(r, packets).context == r.context
  {
    if packets != [] {
      ContextFixed(r, packets[..|packets| - 1]);
    }
  }
}
