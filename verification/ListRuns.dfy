// Runs of the objects at both ends: a receiving list over any packets, and a sending and a receiving list over any
// value changes, keyframes and updates (src/o3ds/model.cpp:1081-1434).

module ListRuns {
  import opened Contexts
  import opened Nodes
  import opened Hierarchy
  import opened Packets
  import opened StreamLaws
  import opened DeltaRuns
  import opened SubjectIndex
  import PoseLaws
  import opened Model
  import opened Lists

  // ----- A receiving list --------------------------------------------------

  /** Every transform in the packet has the matrices that its components ask for. */
  ghost predicate AllIndexable(p: Packet) {
    forall op :: op in Ops(p) ==> PoseLaws.Indexable(op)
  }

  lemma ReceivedComputable(r: Receiver, p: Packet)
    requires AllComputable(r.items) && AllIndexable(p)
    ensures AllComputable(Receive(r, p).items)
  {
    hide AllComputable, Ops, ApplyAll;
    PoseLaws.EntriesComputable(r.items, Ops(p));
  }

  lemma ReceivedOneMore(r: Receiver, packets: seq<Packet>, i: nat)
    requires i < |packets|
    ensures ReceiveAll(r, packets[..i + 1]) == Receive(ReceiveAll(r, packets[..i]), packets[i])
  {
    hide Receive;
    assert packets[..i + 1][..i] == packets[..i];
  }

  lemma ReceivedNone(r: Receiver, packets: seq<Packet>)
    ensures ReceiveAll(r, packets[..0]) == r && packets[..|packets|] == packets
  {
  }

  method NewList() returns (list: SubjectList)
    ensures fresh(list) && list.Valid() && list.AllTidy() && list.Items() == [] && list.mContext == UNSET
    ensures list.mItems == [] && TransformsOf(list.mItems) == {}
    ensures AllComputable(list.Items())
  {
    list := new SubjectList();
  }

  /** A new list, over any run of packets: it becomes what ReceiveAll describes, and nodes that are not below a root
      keep the world matrix of a new transform throughout, whether or not a parse succeeds. */
  method ParseAll(packets: seq<Packet>) returns (list: SubjectList)
    requires forall i :: 0 <= i < |packets| ==> AllIndexable(packets[i])
    ensures fresh(list) && list.Valid() && list.AllTidy()
    ensures Receiver(list.Items(), list.mContext) == ReceiveAll(Receiver([], UNSET), packets)
  {
    hide AllIndexable, AllComputable, Receive, States, TransformsOf, SubjectList.AllTidy, Separate, ReceiveAll;
    hide SubjectList.AllPosed, AllRooted, Accepts, Converts;
    ghost var none := Receiver([], UNSET);
    list := NewList();
    ReceivedNone(none, packets);
    for i := 0 to |packets|
      invariant fresh(list) && list.Valid() && list.AllTidy()
      invariant forall j :: 0 <= j < |list.mItems| ==> fresh(list.mItems[j])
      invariant forall t :: t in TransformsOf(list.mItems) ==> fresh(t)
      invariant AllComputable(list.Items())
      invariant Receiver(list.Items(), list.mContext) == ReceiveAll(none, packets[..i])
    {
      ReceivedComputable(Receiver(list.Items(), list.mContext), packets[i]);
      ReceivedOneMore(none, packets, i);
      var ok := list.Parse(packets[i]);
    }
  }

  /** In a list that has been posed, and in which nodes that are not below a root are as new, calculating again changes
      no world matrix and no flag. */
  method CalcAgain(list: SubjectList) returns (ok: bool)
    requires list.Valid() && AllComputable(list.Items()) && (list.conversion != null ==> list.conversion.Ready())
    requires list.AllPosed() && list.AllTidy() && Invertible(ConversionOf(list.conversion))
    modifies list.mItems`mError, TransformsOf(list.mItems)
    ensures list.Valid() && list.Items() == old(list.Items()) && (ok <==> AllRooted(list.Items()))
    ensures ok ==> Solvers(list) == old(Solvers(list))
  {
    hide AllComputable, AllRooted, Separate, TransformsOf, Invertible, States, PoseOf, Tidy, Views, Flags, Worlds;
    StatesView(list);
    ghost var conv, before := ConversionOf(list.conversion), Solvers(list);
    assert forall i :: 0 <= i < |list.mItems| ==> PoseAt(list.Items()[i].nodes, before[i], conv);
    ok := list.CalcMatrices();
    StatesView(list);
    if ok {
      forall i | 0 <= i < |list.mItems| ensures Solvers(list)[i] == before[i] {
        OnePose(list.Items()[i].nodes, before[i], Solvers(list)[i], conv);
      }
    }
  }

  ghost predicate PoseAt(nodes: seq<Node>, s: State, conv: Conversions)
    requires Usable(conv)
  {
    PoseOf(nodes, s, conv) && Tidy(nodes, s.worlds)
  }

  /** Flags and world matrices, subject by subject. */
  ghost function Solvers(list: SubjectList): (r: seq<State>)
    reads list, list.mItems, TransformsOf(list.mItems)
    ensures |r| == |list.mItems|
  {
    seq(|list.mItems|, i requires 0 <= i < |list.mItems| reads list, list.mItems, TransformsOf(list.mItems) =>
      OwnTransforms(list.mItems, i);
      Solver(list.mItems[i].mTransforms))
  }

  lemma StatesView(list: SubjectList)
    ensures forall i :: 0 <= i < |list.mItems| ==> list.Items()[i] == list.mItems[i].View()
  {
    forall i | 0 <= i < |list.mItems| ensures list.Items()[i] == list.mItems[i].View() {
      OwnTransforms(list.mItems, i);
    }
  }

  // ----- A sending and a receiving list ------------------------------------

  /** Nothing that one list owns is the other's. */
  ghost predicate Apart(a: SubjectList, b: SubjectList)
    reads a, b, a.mItems, b.mItems
  {
    && a != b && (forall i, j :: 0 <= i < |a.mItems| && 0 <= j < |b.mItems| ==> a.mItems[i] != b.mItems[j])
    && TransformsOf(a.mItems) !! TransformsOf(b.mItems)
  }

  /** The two lists are those of the link. */
  ghost predicate Joined(sender: SubjectList, receiver: SubjectList, l: Link, tidy: bool)
    reads sender, sender.mItems, TransformsOf(sender.mItems)
    reads receiver, receiver.mItems, TransformsOf(receiver.mItems)
  {
    && sender.Valid() && receiver.Valid() && Apart(sender, receiver)
    && l.senders == sender.Items() && l.receiver == Receiver(receiver.Items(), receiver.mContext)
    && (tidy ==> receiver.AllTidy())
  }

  /** The sender owns what it did, and what the receiver owns and did not before has been created since. */
  twostate predicate Still(sender: SubjectList, receiver: SubjectList)
    reads sender, sender.mItems, receiver, receiver.mItems
  {
    TransformsOf(sender.mItems) == old(TransformsOf(sender.mItems)) && Grown(old(receiver.mItems), receiver.mItems)
  }

  ghost predicate LinkComputable(l: Link) {
    AllComputable(l.senders) && AllComputable(l.receiver.items)
  }

  /** Every node below a root of the list has its world matrix, converted with the list's conversion. */
  ghost predicate Calculated(list: SubjectList)
    reads list, list.conversion, list.mItems, TransformsOf(list.mItems)
  {
    (list.conversion != null ==> list.conversion.Ready()) && list.AllPosed()
  }

  /** It is so if every hierarchy is good; and the conversion leads from the context given to the list's own. */
  ghost predicate UpToDate(list: SubjectList, from: Context)
    reads list, list.conversion, list.mItems, TransformsOf(list.mItems)
  {
    Bridges(ConversionOf(list.conversion), from, list.mContext) && (AllRooted(list.Items()) ==> Calculated(list))
  }

  /** The sender's packet, with the receiver left as it is. */
  method MakeKeyframe(num: Numerics, sender: SubjectList, receiver: SubjectList, ghost l: Link, ghost tidy: bool)
    returns (p: Packet)
    requires Joined(sender, receiver, l, tidy)
    modifies TransformsOf(sender.mItems)
    ensures Joined(sender, receiver, l.(senders := AfterKeyframe(num, sender.mDeltaThreshold, l.senders)), tidy)
    ensures p == Keyframe(num, sender.mDeltaThreshold, l.senders, sender.mContext)
    ensures Still(sender, receiver)
  {
    hide Keyframe, AfterKeyframe, SubjectList.AllTidy, States, Separate;
    ghost var mine, theirs := TransformsOf(sender.mItems), TransformsOf(receiver.mItems);
    p := sender.Serialize(num);
    assert TransformsOf(receiver.mItems) == theirs && TransformsOf(sender.mItems) == mine;
  }

  /** The same for an update. */
  method MakeUpdate(num: Numerics, sender: SubjectList, receiver: SubjectList, ghost l: Link, ghost tidy: bool)
    returns (p: Packet)
    requires Joined(sender, receiver, l, tidy)
    modifies TransformsOf(sender.mItems)
    ensures Joined(sender, receiver, l.(senders := AfterDelta(num, sender.mDeltaThreshold, l.senders)), tidy)
    ensures p == Delta(num, sender.mDeltaThreshold, l.senders, sender.mContext)
    ensures Still(sender, receiver)
  {
    hide Delta, AfterDelta, SubjectList.AllTidy, States, Separate;
    ghost var mine, theirs := TransformsOf(sender.mItems), TransformsOf(receiver.mItems);
    p := sender.SerializeUpdate(num);
    assert TransformsOf(receiver.mItems) == theirs && TransformsOf(sender.mItems) == mine;
  }

  /** The packet reaches the receiver, with the sender left as it is. */
  method Take(sender: SubjectList, receiver: SubjectList, p: Packet, ghost l: Link, ghost tidy: bool)
    requires Joined(sender, receiver, l, tidy) && AllComputable(Receive(l.receiver, p).items)
    modifies receiver`mItems, receiver`mContext, receiver`conversion, receiver.mItems, TransformsOf(receiver.mItems)
    ensures Joined(sender, receiver, l.(receiver := Receive(l.receiver, p)), tidy)
    ensures Still(sender, receiver)
    ensures Accepts(l.receiver, p) ==> UpToDate(receiver, p.context)
  {
    hide AllComputable, Accepts, AllRooted, Receive, SubjectList.AllTidy, SubjectList.AllPosed, States, Separate;
    ghost var mine := TransformsOf(sender.mItems);
    var ok := receiver.Parse(p);
    assert TransformsOf(sender.mItems) == mine && Apart(sender, receiver);
    hide Apart, Grown;
  }

  lemma SentComputable(num: Numerics, threshold: real, l: Link, context: Context)
    requires LinkComputable(l)
    ensures AllComputable(Receive(l.receiver, Keyframe(num, threshold, l.senders, context)).items)
    ensures AllComputable(Receive(l.receiver, Delta(num, threshold, l.senders, context)).items)
  {
    hide AllComputable, Receive, Keyframe, Delta;
    PoseLaws.SentIsComputable(num, threshold, l.senders, context, l.receiver);
  }

  // ----- The host's edits --------------------------------------------------

  method SetNode(s: Subject, j: nat, node: Node)
    requires s.Valid() && j < |s.mTransforms| && OnlyValuesNode(s.mTransforms[j].View(), node)
    modifies s.mTransforms[j]
    ensures Views(s.mTransforms) == old(Views(s.mTransforms))[j := node]
  {
    var t := s.mTransforms[j];
    t.translation := t.translation.(value := node.translation.value);
    t.rotation := t.rotation.(value := node.rotation.value);
    t.scale := t.scale.(value := node.scale.value);
  }

  method SetNodes(s: Subject, nodes: seq<Node>)
    requires s.Valid() && |nodes| == |s.mTransforms|
    requires forall j :: 0 <= j < |nodes| ==> OnlyValuesNode(Views(s.mTransforms)[j], nodes[j])
    modifies s.mTransforms
    ensures Views(s.mTransforms) == nodes
  {
    hide Views, OnlyValuesNode;
    ghost var before, now := Views(s.mTransforms), Views(s.mTransforms);
    for j := 0 to |nodes|
      invariant now == Views(s.mTransforms)
      invariant forall k :: 0 <= k < j ==> now[k] == nodes[k]
      invariant forall k :: j <= k < |nodes| ==> now[k] == before[k]
    {
      NodeAt(s.mTransforms, j);
      SetNode(s, j, nodes[j]);
      now := Views(s.mTransforms);
    }
  }

  method EditSubject(list: SubjectList, i: nat, state: SubjectState)
    requires list.Valid() && i < |list.mItems| && OnlyValuesOne(list.Items()[i], state)
    modifies list.mItems[i].mTransforms
    ensures list.Items() == old(list.Items())[i := state]
  {
    hide Views, OnlyValuesNode;
    StatesView(list);
    SetNodes(list.mItems[i], state.nodes);
    forall j | 0 <= j < |list.mItems| && j != i ensures list.Items()[j] == old(list.Items())[j] {
      assert list.mItems[j].View() == old(list.mItems[j].View());
    }
  }

  /** The host gives transforms new values. */
  method Edit(list: SubjectList, states: seq<SubjectState>)
    requires list.Valid() && OnlyValues(list.Items(), states)
    modifies TransformsOf(list.mItems)
    ensures list.Items() == states
  {
    hide States, TransformsOf, Separate, OnlyValuesOne;
    ghost var before, now := list.Items(), list.Items();
    for i := 0 to |states|
      invariant now == list.Items() && |now| == |states| && TransformsOf(list.mItems) == old(TransformsOf(list.mItems))
      invariant forall k :: 0 <= k < i ==> now[k] == states[k]
      invariant forall k :: i <= k < |states| ==> now[k] == before[k]
    {
      OwnTransforms(list.mItems, i);
      EditSubject(list, i, states[i]);
      now := list.Items();
    }
  }

  method EditApart(sender: SubjectList, receiver: SubjectList, states: seq<SubjectState>, ghost l: Link,
                   ghost tidy: bool)
    requires Joined(sender, receiver, l, tidy) && OnlyValues(l.senders, states)
    modifies TransformsOf(sender.mItems)
    ensures Joined(sender, receiver, l.(senders := states), tidy) && Still(sender, receiver)
    ensures UpToDate(receiver, sender.mContext) == old(UpToDate(receiver, sender.mContext))
  {
    hide OnlyValues, SubjectList.AllTidy, Calculated, AllRooted, States, Separate;
    ghost var mine, theirs := TransformsOf(sender.mItems), TransformsOf(receiver.mItems);
    Edit(sender, states);
    assert TransformsOf(receiver.mItems) == theirs && TransformsOf(sender.mItems) == mine;
  }

  // ----- A whole session ---------------------------------------------------

  lemma SendingComputable(num: Numerics, threshold: real, s: SubjectState)
    requires Computable(s.nodes)
    ensures Computable(KeySent(num, threshold, s).nodes) && Computable(DeltaSent(num, threshold, s).nodes)
  {
    hide MatrixCount, Moved, Turned;
    forall i | 0 <= i < |s.nodes|
      ensures KeySent(num, threshold, s).nodes[i].EnoughMatrices()
      ensures DeltaSent(num, threshold, s).nodes[i].EnoughMatrices()
    {
      assert s.nodes[i].EnoughMatrices();
    }
  }

  lemma EditingComputable(a: SubjectState, b: SubjectState)
    requires Computable(a.nodes) && OnlyValuesOne(a, b)
    ensures Computable(b.nodes)
  {
    hide MatrixCount;
    forall i | 0 <= i < |b.nodes| ensures b.nodes[i].EnoughMatrices() {
      assert a.nodes[i].EnoughMatrices() && OnlyValuesNode(a.nodes[i], b.nodes[i]);
    }
  }

  lemma StepComputable(num: Numerics, threshold: real, context: Context, l: Link, e: Event)
    requires LinkComputable(l) && (e.Change? ==> OnlyValues(l.senders, e.senders))
    ensures LinkComputable(Step(num, threshold, context, l, e))
  {
    hide Computable, KeySent, DeltaSent, Keyframe, Delta, Receive, OnlyValuesOne;
    SentComputable(num, threshold, l, context);
    var after := Step(num, threshold, context, l, e).senders;
    forall i | 0 <= i < |after| ensures Computable(after[i].nodes) {
      if e.Change? {
        EditingComputable(l.senders[i], after[i]);
      } else {
        SendingComputable(num, threshold, l.senders[i]);
      }
    }
  }

  lemma ReadableAccepts(num: Numerics, threshold: real, context: Context, l: Link)
    requires Readable(context, l.receiver)
    ensures Accepts(l.receiver, Keyframe(num, threshold, l.senders, context))
    ensures Accepts(l.receiver, Delta(num, threshold, l.senders, context))
    ensures Keyframe(num, threshold, l.senders, context).context == context
    ensures Delta(num, threshold, l.senders, context).context == context
  {
    hide KeySection, DeltaSection;
  }

  /** The sender's packet reaches the receiver. */
  method TransferKeyframe(num: Numerics, sender: SubjectList, receiver: SubjectList, ghost l: Link, ghost tidy: bool)
    requires Joined(sender, receiver, l, tidy) && LinkComputable(l) && Readable(sender.mContext, l.receiver)
    modifies TransformsOf(sender.mItems)
    modifies receiver`mItems, receiver`mContext, receiver`conversion, receiver.mItems, TransformsOf(receiver.mItems)
    ensures Joined(sender, receiver, Step(num, sender.mDeltaThreshold, sender.mContext, l, SendKeyframe), tidy)
    ensures Still(sender, receiver)
    ensures UpToDate(receiver, sender.mContext)
  {
    assert sender != receiver;
    hide LinkComputable, Keyframe, AfterKeyframe, Receive, Accepts, AllComputable, Readable;
    hide TransformsOf, UpToDate, Apart, SubjectList.AllTidy, SubjectList.Items, SubjectList.Valid;
    SentComputable(num, sender.mDeltaThreshold, l, sender.mContext);
    ReadableAccepts(num, sender.mDeltaThreshold, sender.mContext, l);
    var p := MakeKeyframe(num, sender, receiver, l, tidy);
    Take(sender, receiver, p, l.(senders := AfterKeyframe(num, sender.mDeltaThreshold, l.senders)), tidy);
  }

  method TransferUpdate(num: Numerics, sender: SubjectList, receiver: SubjectList, ghost l: Link, ghost tidy: bool)
    requires Joined(sender, receiver, l, tidy) && LinkComputable(l) && Readable(sender.mContext, l.receiver)
    modifies TransformsOf(sender.mItems)
    modifies receiver`mItems, receiver`mContext, receiver`conversion, receiver.mItems, TransformsOf(receiver.mItems)
    ensures Joined(sender, receiver, Step(num, sender.mDeltaThreshold, sender.mContext, l, SendUpdate), tidy)
    ensures Still(sender, receiver)
    ensures UpToDate(receiver, sender.mContext)
  {
    assert sender != receiver;
    hide LinkComputable, Delta, AfterDelta, Receive, Accepts, AllComputable, Readable;
    hide TransformsOf, UpToDate, Apart, SubjectList.AllTidy, SubjectList.Items, SubjectList.Valid;
    SentComputable(num, sender.mDeltaThreshold, l, sender.mContext);
    ReadableAccepts(num, sender.mDeltaThreshold, sender.mContext, l);
    var p := MakeUpdate(num, sender, receiver, l, tidy);
    Take(sender, receiver, p, l.(senders := AfterDelta(num, sender.mDeltaThreshold, l.senders)), tidy);
  }

  /** One event: the host edits the sender's list, or the sender sends. */
  method Happen(num: Numerics, sender: SubjectList, receiver: SubjectList, e: Event, ghost l: Link, ghost tidy: bool)
    requires Joined(sender, receiver, l, tidy) && LinkComputable(l) && Readable(sender.mContext, l.receiver)
    requires e.Change? ==> OnlyValues(l.senders, e.senders)
    modifies TransformsOf(sender.mItems)
    modifies receiver`mItems, receiver`mContext, receiver`conversion, receiver.mItems, TransformsOf(receiver.mItems)
    ensures Joined(sender, receiver, Step(num, sender.mDeltaThreshold, sender.mContext, l, e), tidy)
    ensures Still(sender, receiver)
    ensures (e.Change? ==> old(UpToDate(receiver, sender.mContext))) ==> UpToDate(receiver, sender.mContext)
  {
    hide LinkComputable, Keyframe, Delta, AfterKeyframe, AfterDelta, Receive, OnlyValues, Readable;
    hide Joined, TransformsOf, UpToDate, SubjectList.Items;
    match e {
      case Change(senders) => EditApart(sender, receiver, senders, l, tidy);
      case SendKeyframe => TransferKeyframe(num, sender, receiver, l, tidy);
      case SendUpdate => TransferUpdate(num, sender, receiver, l, tidy);
    }
  }

  ghost function LinkOf(sender: SubjectList, receiver: SubjectList): Link
    reads sender, sender.mItems, TransformsOf(sender.mItems)
    reads receiver, receiver.mItems, TransformsOf(receiver.mItems)
  {
    Link(sender.Items(), [], Receiver(receiver.Items(), receiver.mContext))
  }

  /** The run starts with a keyframe, from lists with the matrices their orders ask for. */
  ghost predicate Startable(num: Numerics, threshold: real, context: Context, l: Link, events: seq<Event>) {
    && Readable(context, l.receiver) && OneEach(l.senders) && AllAgree(l.receiver.items, l.senders)
    && events != [] && events[0] == SendKeyframe && Legal(num, threshold, context, l, events) && LinkComputable(l)
  }

  /** What the run keeps on the way. */
  ghost predicate OnTheWay(num: Numerics, threshold: real, context: Context, l: Link, events: seq<Event>, i: nat)
    requires i <= |events|
  {
    var after := Run(num, threshold, context, l, events[..i]);
    LinkComputable(after) && Readable(context, after.receiver)
  }

  lemma StartedInSync(num: Numerics, threshold: real, context: Context, l: Link, events: seq<Event>)
    requires Startable(num, threshold, context, l, events)
    ensures var after := Run(num, threshold, context, l, events);
            && InSync(num, after.keys, after.senders, after.receiver.items)
            && (Sane(num, threshold) && !events[|events| - 1].Change? ==> Settled(num, threshold, after.senders))
  {
    hide Run, InSync, Settled, Sane, Legal, LinkComputable;
    RunInSync(num, threshold, context, l, events);
  }

  lemma SetOut(num: Numerics, threshold: real, context: Context, l: Link, events: seq<Event>)
    requires Startable(num, threshold, context, l, events)
    ensures Run(num, threshold, context, l, events[..0]) == l && OnTheWay(num, threshold, context, l, events, 0)
    ensures events[..|events|] == events && events != [] && events[0] == SendKeyframe
  {
  }

  lemma GoOn(num: Numerics, threshold: real, context: Context, l: Link, events: seq<Event>, i: nat)
    requires Startable(num, threshold, context, l, events) && i < |events|
    requires OnTheWay(num, threshold, context, l, events, i)
    ensures OnTheWay(num, threshold, context, l, events, i + 1)
    ensures var before := Run(num, threshold, context, l, events[..i]);
            && (events[i].Change? ==> OnlyValues(before.senders, events[i].senders))
            && Run(num, threshold, context, l, events[..i + 1]) == Step(num, threshold, context, before, events[i])
  {
    assert events[..i + 1][..i] == events[..i];
    hide LinkComputable, Receive, OnlyValues, AllAgree, OneEach, Step;
    var before := Run(num, threshold, context, l, events[..i]);
    StepComputable(num, threshold, context, before, events[i]);
    PoseLaws.StepReadable(num, threshold, context, before, events[i]);
  }

  /** In every session of a sending and a receiving list, from a keyframe on: the lists are those of the run, so the
      receiver's transforms have the values last sent, narrowed, in the structure of the keyframe; nodes that are not
      below a root keep the matrix of a new transform; the receiver's conversion leads from the sender's context to its
      own; and if its hierarchies are good, every other node has its world matrix, converted. */
  method Session(num: Numerics, sender: SubjectList, receiver: SubjectList, events: seq<Event>)
    requires sender.Valid() && receiver.Valid() && Apart(sender, receiver)
    requires Startable(num, sender.mDeltaThreshold, sender.mContext, LinkOf(sender, receiver), events)
    modifies TransformsOf(sender.mItems)
    modifies receiver`mItems, receiver`mContext, receiver`conversion, receiver.mItems, TransformsOf(receiver.mItems)
    ensures var after := Run(num, sender.mDeltaThreshold, sender.mContext, old(LinkOf(sender, receiver)), events);
            && Joined(sender, receiver, after, old(receiver.AllTidy()))
            && InSync(num, after.keys, after.senders, after.receiver.items)
            && (Sane(num, sender.mDeltaThreshold) && !events[|events| - 1].Change? ==>
                  Settled(num, sender.mDeltaThreshold, after.senders))
    ensures UpToDate(receiver, sender.mContext)
  {
    hide LinkComputable, States, TransformsOf, Separate, SubjectList.AllTidy, UpToDate, OnlyValues, Readable;
    hide Step, Run, InSync, Settled, Sane, Startable;
    ghost var t, context, l := sender.mDeltaThreshold, sender.mContext, LinkOf(sender, receiver);
    ghost var tidy := receiver.AllTidy();
    assert sender != receiver && Joined(sender, receiver, l, tidy);
    hide Apart, Joined, SubjectList.Items, LinkOf;
    StartedInSync(num, t, context, l, events);
    SetOut(num, t, context, l, events);
    for i := 0 to |events|
      invariant Joined(sender, receiver, Run(num, t, context, l, events[..i]), tidy) && Still(sender, receiver)
      invariant sender.mDeltaThreshold == t && sender.mContext == context
      invariant OnTheWay(num, t, context, l, events, i)
      invariant i > 0 ==> UpToDate(receiver, context)
    {
      GoOn(num, t, context, l, events, i);
      Happen(num, sender, receiver, events[i], Run(num, t, context, l, events[..i]), tidy);
    }
  }
}
