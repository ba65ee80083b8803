// SubjectList: the objects at both ends of the stream, updated in place (src/o3ds/model.cpp:1081-1434,
// src/o3ds/model.h:478-513), tied to the packets and lists of Packets.

module Lists {
  import opened Contexts
  import opened Nodes
  import opened Packets
  import opened StreamLaws
  import opened SubjectIndex
  import opened Hierarchy
  import opened Model
  import ConversionLaws
  import PoseLaws

  ghost predicate Disjoint(a: seq<Transform>, b: seq<Transform>) {
    forall k, l :: 0 <= k < |a| && 0 <= l < |b| ==> a[k] != b[l]
  }

  /** A list owns its subjects, and each subject its transforms. */
  ghost predicate Separate(ss: seq<Subject>)
    reads ss
  {
    && (forall i :: 0 <= i < |ss| ==> ss[i].Valid())
    && (forall i, j :: 0 <= i < j < |ss| ==> ss[i] != ss[j])
    && (forall i, j :: 0 <= i < j < |ss| ==> Disjoint(ss[i].mTransforms, ss[j].mTransforms))
  }

  lemma SeparateMore(ss: seq<Subject>, s: Subject)
    requires Separate(ss) && s.Valid() && s.mTransforms == [] && forall i :: 0 <= i < |ss| ==> ss[i] != s
    ensures Separate(ss + [s])
  {
    hide NoAliases;
  }

  ghost function TransformsOf(ss: seq<Subject>): set<Transform>
    reads ss
  {
    set i, k | 0 <= i < |ss| && 0 <= k < |ss[i].mTransforms| :: ss[i].mTransforms[k]
  }

  lemma OwnTransforms(ss: seq<Subject>, i: nat)
    requires i < |ss|
    ensures forall t :: t in ss[i].mTransforms ==> t in TransformsOf(ss)
  {
  }

  ghost function States(ss: seq<Subject>): (r: seq<SubjectState>)
    reads ss, TransformsOf(ss)
    ensures |r| == |ss|
  {
    seq(|ss|, i requires 0 <= i < |ss| reads ss, TransformsOf(ss) => OwnTransforms(ss, i); ss[i].View())
  }

  lemma StatesAre(ss: seq<Subject>)
    ensures forall i :: 0 <= i < |ss| ==>
      States(ss)[i].kind == ss[i].kind && States(ss)[i].uuid == ss[i].mUuid && States(ss)[i].enabled == ss[i].mEnabled
  {
    forall i | 0 <= i < |ss| ensures States(ss)[i] == ss[i].View() {
      OwnTransforms(ss, i);
    }
  }

  /** What a list owns now and did not before has been created since. */
  twostate predicate Grown(before: seq<Subject>, new now: seq<Subject>)
    reads now
  {
    && (forall i :: 0 <= i < |now| ==> now[i] in before || fresh(now[i]))
    && (forall t :: t in TransformsOf(now) ==> t in old(TransformsOf(before)) || fresh(t))
  }

  lemma KeySectionNone(num: Numerics, threshold: real)
    ensures forall kind :: KeySection(num, threshold, [], kind) == Section([], [])
  {
  }

  lemma KeySectionMore(num: Numerics, threshold: real, items: seq<SubjectState>, i: nat)
    requires i < |items|
    ensures forall kind :: KeySection(num, threshold, items[..i + 1], kind)
                        == var front := KeySection(num, threshold, items[..i], kind);
                           if !Goes(items[i], kind) then front
                           else Section(front.full + [FullOf(num, items[i])],
                                        front.updates + [KeyUpdateOf(num, threshold, items[i])])
  {
    hide FullOf, KeyUpdateOf;
    assert items[..i + 1][..i] == items[..i];
  }

  lemma DeltaSectionNone(num: Numerics, threshold: real)
    ensures forall kind :: DeltaSection(num, threshold, [], kind) == Section([], [])
  {
  }

  lemma DeltaSectionMore(num: Numerics, threshold: real, items: seq<SubjectState>, i: nat)
    requires i < |items|
    ensures forall kind :: DeltaSection(num, threshold, items[..i + 1], kind)
                        == var front := DeltaSection(num, threshold, items[..i], kind);
                           if !Goes(items[i], kind) then front
                           else Section([], front.updates + [UpdateOf(num, threshold, items[i])])
  {
    hide UpdateOf;
    assert items[..i + 1][..i] == items[..i];
  }

  /** Applying the entries of the three kinds in turn is applying them all. */
  lemma KindByKind(items: seq<SubjectState>, p: Packet)
    ensures ApplyAll(items, Ops(p))
            == ApplyAll(ApplyAll(ApplyAll(items, SectionOps(Performer, p.performers)),
                                 SectionOps(Rigidbody, p.rigidbodies)),
                        SectionOps(Camera, p.cameras))
  {
    hide ApplyAll, SectionOps;
    var a, b := SectionOps(Performer, p.performers), SectionOps(Rigidbody, p.rigidbodies);
    ApplyAllAppend(items, a, b);
    ApplyAllAppend(items, a + b, SectionOps(Camera, p.cameras));
  }

  lemma NoneApplied(items: seq<SubjectState>, ops: seq<Op>)
    ensures ApplyAll(items, ops[..0]) == items
  {
  }

  lemma OneMoreApplied(items: seq<SubjectState>, ops: seq<Op>, i: nat)
    requires i < |ops|
    ensures ApplyAll(items, ops[..i + 1]) == Apply(ApplyAll(items, ops[..i]), ops[i])
  {
    assert ops[..i + 1][..i] == ops[..i];
  }

  ghost predicate AllRooted(items: seq<SubjectState>) {
    forall i :: 0 <= i < |items| ==> WellRooted(Parents(items[i].nodes))
  }

  /** The flags mark the nodes below the root; each of those has the product of its root path, converted. */
  ghost predicate PoseOf(nodes: seq<Node>, s: State, conv: Conversions)
    requires Usable(conv)
  {
    && Computable(nodes) && |s.flags| == |s.worlds| == |nodes|
    && forall i: nat :: i < |nodes| ==>
         && (s.flags[i] <==> Anchored(Parents(nodes), i))
         && (Anchored(Parents(nodes), i) ==> s.worlds[i] == Converted(conv, World(Parents(nodes), Locals(nodes), i)))
  }

  ghost predicate Posed(s: Subject, conv: Conversions)
    requires Usable(conv)
    reads s, s.mTransforms
  {
    PoseOf(Views(s.mTransforms), Solver(s.mTransforms), conv)
  }

  /** The pose fixes the flags and, with nodes off the root paths as new, the world matrices. */
  lemma OnePose(nodes: seq<Node>, a: State, b: State, conv: Conversions)
    requires Usable(conv) && PoseOf(nodes, a, conv) && PoseOf(nodes, b, conv)
    requires Tidy(nodes, a.worlds) && Tidy(nodes, b.worlds)
    ensures a == b
  {
    hide World, Anchored, Converted, Local;
    assert forall i :: 0 <= i < |nodes| ==> a.flags[i] == b.flags[i] && a.worlds[i] == b.worlds[i];
  }

  ghost predicate TidySubject(s: Subject)
    reads s, s.mTransforms
  {
    Tidy(Views(s.mTransforms), Worlds(s.mTransforms))
  }

  lemma NewTidy(s: Subject)
    requires forall i :: 0 <= i < |s.mTransforms| ==> New(s.mTransforms[i])
    ensures TidySubject(s)
  {
    hide Anchored;
  }

  /** Subject::calcMatrices, by what its outcome means. */
  method Pose(s: Subject, conv: ConversionContext?) returns (ok: bool)
    requires s.Valid() && Computable(Views(s.mTransforms)) && (conv != null ==> conv.Ready())
    modifies s`mError, s.mTransforms
    ensures s.View() == old(s.View())
    ensures ok <==> WellRooted(Parents(Views(s.mTransforms)))
    ensures ok ==> Posed(s, ConversionOf(conv))
    ensures old(TidySubject(s)) && Invertible(ConversionOf(conv)) ==> TidySubject(s)
  {
    hide Calc, Views, Worlds, Flags, Converted, World, Local, Invertible, Tidy;
    ghost var nodes, stale := Views(s.mTransforms), Worlds(s.mTransforms);
    ok := s.CalcMatrices(conv);
    CalcSucceeds(Parents(nodes), Locals(nodes), stale, ConversionOf(conv));
    if ok {
      CalcMeaning(Parents(nodes), Locals(nodes), stale, ConversionOf(conv));
    }
    if Tidy(nodes, stale) && Invertible(ConversionOf(conv)) {
      CalcTidy(nodes, stale, ConversionOf(conv));
    }
  }

  class SubjectList {
    var mItems: seq<Subject>
    var mContext: Context
    var mDeltaThreshold: real
    var conversion: ConversionContext?

    constructor ()
      ensures Valid() && mItems == [] && mContext == UNSET && mDeltaThreshold == 0.000001 && conversion == null
      ensures Items() == [] && AllTidy()
    {
      mItems := [];
      mContext := UNSET;
      mDeltaThreshold := 0.000001;
      conversion := null;
    }

    ghost predicate Valid()
      reads this, mItems
    {
      Separate(mItems)
    }

    ghost function Items(): seq<SubjectState>
      reads this, mItems, TransformsOf(mItems)
    {
      States(mItems)
    }

    /** Every node that is not below a root has the world matrix of a new transform. */
    ghost predicate AllTidy()
      reads this, mItems, TransformsOf(mItems)
    {
      forall i :: 0 <= i < |mItems| ==> TidySubject(mItems[i])
    }

    ghost predicate AllPosed()
      requires Usable(ConversionOf(conversion))
      reads this, conversion, mItems, TransformsOf(mItems)
    {
      forall i :: 0 <= i < |mItems| ==> Posed(mItems[i], ConversionOf(conversion))
    }

    // ----- Sending -----------------------------------------------------------

    /** One enabled subject of a keyframe. */
    method SendKey(num: Numerics, i: nat) returns (d: SubjectData, u: SubjectUpdate)
      requires Valid() && i < |mItems| && mItems[i].mEnabled
      modifies mItems[i].mTransforms
      ensures var s := old(Items())[i];
              && d == FullOf(num, s) && u == KeyUpdateOf(num, mDeltaThreshold, s)
              && Items() == old(Items())[i := KeySent(num, mDeltaThreshold, s)]
    {
      hide FullOf, UpdateOf, AllSent, AllUpdateSent;
      d := mItems[i].Serialize(num);
      var count;
      u, count := mItems[i].SerializeUpdate(num, mDeltaThreshold);
      forall j | 0 <= j < |mItems| && j != i ensures Items()[j] == old(Items())[j] {
        assert Views(mItems[j].mTransforms) == old(Views(mItems[j].mTransforms));
      }
    }

    /** serialize: every enabled subject, with its update. */
    method Serialize(num: Numerics) returns (p: Packet)
      requires Valid()
      modifies TransformsOf(mItems)
      ensures p == Keyframe(num, mDeltaThreshold, old(Items()), mContext)
      ensures Items() == AfterKeyframe(num, mDeltaThreshold, old(Items()))
    {
      hide KeyUpdateOf, FullOf, UpdateOf, AllUpdateSent, AllSent, States, TransformsOf, Separate, KeySection;
      ghost var items, now := Items(), Items();
      KeySectionNone(num, mDeltaThreshold);
      var performers, rigidbodies, cameras := Section([], []), Section([], []), Section([], []);
      for i := 0 to |mItems|
        invariant TransformsOf(mItems) == old(TransformsOf(mItems)) && now == Items()
        invariant forall j :: 0 <= j < i ==> now[j] == KeySent(num, mDeltaThreshold, items[j])
        invariant forall j :: i <= j < |now| ==> now[j] == items[j]
        invariant performers == KeySection(num, mDeltaThreshold, items[..i], Performer)
        invariant rigidbodies == KeySection(num, mDeltaThreshold, items[..i], Rigidbody)
        invariant cameras == KeySection(num, mDeltaThreshold, items[..i], Camera)
      {
        KeySectionMore(num, mDeltaThreshold, items, i);
        StatesAre(mItems);
        OwnTransforms(mItems, i);
        if mItems[i].mEnabled {
          var d, u := SendKey(num, i);
          match mItems[i].kind {
            case Performer => performers := Section(performers.full + [d], performers.updates + [u]);
            case Rigidbody => rigidbodies := Section(rigidbodies.full + [d], rigidbodies.updates + [u]);
            case Camera => cameras := Section(cameras.full + [d], cameras.updates + [u]);
          }
        }
        now := Items();
      }
      assert items[..|mItems|] == items;
      p := Packet(performers, rigidbodies, cameras, mContext);
    }

    method SendDelta(num: Numerics, i: nat) returns (u: SubjectUpdate, count: nat)
      requires Valid() && i < |mItems| && mItems[i].mEnabled
      modifies mItems[i].mTransforms
      ensures var s := old(Items())[i];
              && u == UpdateOf(num, mDeltaThreshold, s)
              && Items() == old(Items())[i := DeltaSent(num, mDeltaThreshold, s)]
      ensures count == |u.translations| + |u.rotations|
    {
      hide UpdateOf, AllUpdateSent;
      u, count := mItems[i].SerializeUpdate(num, mDeltaThreshold);
      forall j | 0 <= j < |mItems| && j != i ensures Items()[j] == old(Items())[j] {
        assert Views(mItems[j].mTransforms) == old(Views(mItems[j].mTransforms));
      }
    }

    method SerializeUpdate(num: Numerics) returns (p: Packet)
      requires Valid()
      modifies TransformsOf(mItems)
      ensures p == Delta(num, mDeltaThreshold, old(Items()), mContext)
      ensures Items() == AfterDelta(num, mDeltaThreshold, old(Items()))
    {
      hide UpdateOf, AllUpdateSent, States, TransformsOf, Separate, DeltaSection;
      ghost var items, now := Items(), Items();
      DeltaSectionNone(num, mDeltaThreshold);
      var performers, rigidbodies, cameras := Section([], []), Section([], []), Section([], []);
      for i := 0 to |mItems|
        invariant TransformsOf(mItems) == old(TransformsOf(mItems)) && now == Items()
        invariant forall j :: 0 <= j < i ==> now[j] == DeltaSent(num, mDeltaThreshold, items[j])
        invariant forall j :: i <= j < |now| ==> now[j] == items[j]
        invariant performers == DeltaSection(num, mDeltaThreshold, items[..i], Performer)
        invariant rigidbodies == DeltaSection(num, mDeltaThreshold, items[..i], Rigidbody)
        invariant cameras == DeltaSection(num, mDeltaThreshold, items[..i], Camera)
      {
        DeltaSectionMore(num, mDeltaThreshold, items, i);
        StatesAre(mItems);
        OwnTransforms(mItems, i);
        if mItems[i].mEnabled {
          var u, count := SendDelta(num, i);
          match mItems[i].kind {
            case Performer => performers := Section([], performers.updates + [u]);
            case Rigidbody => rigidbodies := Section([], rigidbodies.updates + [u]);
            case Camera => cameras := Section([], cameras.updates + [u]);
          }
        }
        now := Items();
      }
      assert items[..|mItems|] == items;
      p := Packet(performers, rigidbodies, cameras, mContext);
    }

    // ----- Receiving ---------------------------------------------------------

    /** The first subject with the uuid, if it is of the kind. */
    method FindSubjectByUuid(kind: Kind, uuid: string) returns (s: Subject?)
      ensures s == if Finds(Items(), kind, uuid) then mItems[Find(Items(), uuid)] else null
    {
      hide States, Find;
      StatesAre(mItems);
      for i := 0 to |mItems|
        invariant forall j :: 0 <= j < i ==> mItems[j].mUuid != uuid
      {
        if mItems[i].mUuid == uuid {
          FindIs(Items(), uuid, i);
          return if mItems[i].kind == kind then mItems[i] else null;
        }
      }
      FindIs(Items(), uuid, |mItems|);
      s := null;
    }

    method AddSubject(kind: Kind, uuid: string) returns (s: Subject)
      requires Valid()
      modifies this`mItems
      ensures Valid() && fresh(s) && mItems == old(mItems) + [s]
      ensures Items() == old(Items()) + [SubjectState(kind, "", uuid, true, [])]
      ensures old(AllTidy()) ==> AllTidy()
    {
      s := new Subject(kind, uuid);
      hide TidySubject;
      NewTidy(s);
      ghost var before := mItems;
      SeparateMore(mItems, s);
      mItems := mItems + [s];
      forall j | 0 <= j < |before|
        ensures Items()[j] == old(Items())[j] && TidySubject(before[j]) == old(TidySubject(before[j]))
      {
        assert before[j].View() == old(before[j].View());
      }
    }

    /** The first subject with the uuid if it is of the kind; otherwise a new one, at the end of the list. */
    method FindOrAddSubject(kind: Kind, uuid: string) returns (s: Subject, ghost i: nat)
      requires Valid()
      modifies this`mItems
      ensures Valid() && i < |mItems| && s == mItems[i]
      ensures var items := old(Items());
              if Finds(items, kind, uuid) then
                mItems == old(mItems) && i == Find(items, uuid) && Items() == items
              else
                && fresh(s) && mItems == old(mItems) + [s]
                && Items() == items + [SubjectState(kind, "", uuid, true, [])]
      ensures old(AllTidy()) ==> AllTidy()
    {
      hide Find, Separate, TidySubject;
      i := Find(Items(), uuid);
      var found := FindSubjectByUuid(kind, uuid);
      assert Items() == old(Items()) && AllTidy() == old(AllTidy());
      if found != null {
        return found, i;
      }
      i := |mItems|;
      s := AddSubject(kind, uuid);
    }

    method ParseSubject(s: Subject, ghost i: nat, d: SubjectData)
      requires Valid() && i < |mItems| && s == mItems[i]
      modifies s
      ensures Valid() && fresh(s.mTransforms)
      ensures Items()
              == old(Items())[i := old(Items())[i].(name := d.name, uuid := d.uuid, nodes := ParseNodes(d.nodes))]
      ensures old(AllTidy()) ==> AllTidy()
    {
      hide ParseNodes, TidySubject, New;
      assert s.View() == Items()[i];
      s.Parse(d);
      NewTidy(s);
      forall j | 0 <= j < |mItems| && j != i
        ensures Items()[j] == old(Items())[j] && TidySubject(mItems[j]) == old(TidySubject(mItems[j]))
      {
        assert mItems[j].View() == old(mItems[j].View());
      }
    }

    /** One subject of a full packet. */
    method ParseFull(kind: Kind, d: SubjectData)
      requires Valid()
      modifies this`mItems, mItems
      ensures Valid() && Grown(old(mItems), mItems)
      ensures Items() == ApplyFull(old(Items()), kind, d)
      ensures old(AllTidy()) ==> AllTidy()
    {
      hide Find, ParseNodes, States, AllTidy;
      var subject, i := FindOrAddSubject(kind, d.uuid);
      ParseSubject(subject, i, d);
      forall j, k | 0 <= j < |mItems| && 0 <= k < |mItems[j].mTransforms|
        ensures mItems[j].mTransforms[k] in old(TransformsOf(mItems)) || fresh(mItems[j].mTransforms[k])
      {
        if j != i {
          assert mItems[j] == old(mItems)[j] && mItems[j].mTransforms == old(mItems[j].mTransforms);
        }
      }
    }

    method UpdateSubject(s: Subject, u: SubjectUpdate)
      requires s.Valid()
      modifies s.mTransforms
      ensures s.View() == old(s.View()).(nodes := Updated(old(s.View()).nodes, u))
      ensures old(TidySubject(s)) ==> TidySubject(s)
    {
      hide Anchored, Updated, Views, Worlds, Flags, LocalMatrices;
      PoseLaws.UpdatedShape(s.View().nodes, u);
      s.ParseUpdate(u);
    }

    /** One update; it is ignored if its subject is not known. */
    method ParseUpdate(kind: Kind, u: SubjectUpdate)
      requires Valid()
      modifies TransformsOf(mItems)
      ensures Items() == ApplyUpdate(old(Items()), kind, u)
      ensures old(AllTidy()) ==> AllTidy()
    {
      hide Find, Updated, AllMatrices, TidySubject;
      var subject := FindSubjectByUuid(kind, u.uuid);
      assert Items() == old(Items());
      if subject != null {
        ghost var i := Find(Items(), u.uuid);
        OwnTransforms(mItems, i);
        assert subject.Valid();
        UpdateSubject(subject, u);
        forall j | 0 <= j < |mItems| && j != i
          ensures Items()[j] == old(Items())[j] && TidySubject(mItems[j]) == old(TidySubject(mItems[j]))
        {
          assert mItems[j].View() == old(mItems[j].View());
        }
      }
    }

    method ParseFulls(kind: Kind, ds: seq<SubjectData>)
      requires Valid()
      modifies this`mItems, mItems
      ensures Valid() && Grown(old(mItems), mItems)
      ensures Items() == ApplyAll(old(Items()), FullOps(kind, ds))
      ensures old(AllTidy()) ==> AllTidy()
    {
      hide ApplyFull, ApplyAll, States, Separate, AllTidy;
      ghost var items, ops := Items(), FullOps(kind, ds);
      NoneApplied(items, ops);
      for i := 0 to |ds|
        invariant Valid() && Grown(old(mItems), mItems) && (old(AllTidy()) ==> AllTidy())
        invariant Items() == ApplyAll(items, ops[..i])
      {
        OneMoreApplied(items, ops, i);
        ParseFull(kind, ds[i]);
      }
      assert ops[..|ops|] == ops;
    }

    method ParseUpdates(kind: Kind, us: seq<SubjectUpdate>)
      requires Valid()
      modifies TransformsOf(mItems)
      ensures Items() == ApplyAll(old(Items()), UpdateOps(kind, us))
      ensures old(AllTidy()) ==> AllTidy()
    {
      hide ApplyUpdate, ApplyAll, States, Separate, AllTidy;
      ghost var items, ops := Items(), UpdateOps(kind, us);
      NoneApplied(items, ops);
      for i := 0 to |us|
        invariant TransformsOf(mItems) == old(TransformsOf(mItems)) && (old(AllTidy()) ==> AllTidy())
        invariant Items() == ApplyAll(items, ops[..i])
      {
        OneMoreApplied(items, ops, i);
        ParseUpdate(kind, us[i]);
      }
      assert ops[..|ops|] == ops;
    }

    /** The full subjects of one kind, then the updates. */
    method ParseSection(kind: Kind, section: Section)
      requires Valid()
      modifies this`mItems, mItems, TransformsOf(mItems)
      ensures Valid() && Grown(old(mItems), mItems)
      ensures Items() == ApplyAll(old(Items()), SectionOps(kind, section))
      ensures old(AllTidy()) ==> AllTidy()
    {
      hide ApplyAll, States, Separate, AllTidy;
      ApplyAllAppend(Items(), FullOps(kind, section.full), UpdateOps(kind, section.updates));
      ParseFulls(kind, section.full);
      ParseUpdates(kind, section.updates);
    }

    method PoseItem(s: Subject, ghost i: nat, ghost conv: Conversions) returns (ok: bool)
      requires Valid() && i < |mItems| && s == mItems[i] && Computable(Items()[i].nodes)
      requires (conversion != null ==> conversion.Ready()) && conv == ConversionOf(conversion)
      modifies s`mError, s.mTransforms
      ensures Valid() && TransformsOf(mItems) == old(TransformsOf(mItems)) && Items() == old(Items())
      ensures ok <==> WellRooted(Parents(Items()[i].nodes))
      ensures ok ==> Posed(s, conv)
      ensures forall j :: 0 <= j < |mItems| && j != i && old(Posed(mItems[j], conv)) ==> Posed(mItems[j], conv)
      ensures old(AllTidy()) && Invertible(conv) ==> AllTidy()
    {
      hide Posed, WellRooted, Computable, TidySubject, Invertible;
      assert s.View() == Items()[i];
      ok := Pose(s, conversion);
      forall j | 0 <= j < |mItems| && j != i
        ensures Items()[j] == old(Items())[j] && Posed(mItems[j], conv) == old(Posed(mItems[j], conv))
        ensures TidySubject(mItems[j]) == old(TidySubject(mItems[j]))
      {
        assert mItems[j].View() == old(mItems[j].View());
      }
    }

    /** calcMatrices stops at the first subject whose hierarchy it refuses. */
    method CalcMatrices() returns (ok: bool)
      requires Valid() && AllComputable(Items()) && (conversion != null ==> conversion.Ready())
      modifies mItems`mError, TransformsOf(mItems)
      ensures Valid() && Items() == old(Items())
      ensures ok <==> AllRooted(Items())
      ensures ok ==> AllPosed()
      ensures TransformsOf(mItems) == old(TransformsOf(mItems))
      ensures old(AllTidy()) && Invertible(ConversionOf(conversion)) ==> AllTidy()
    {
      hide Posed, WellRooted, Computable, States, TransformsOf, Separate, AllTidy, Invertible;
      ghost var items, conv := Items(), ConversionOf(conversion);
      for i := 0 to |mItems|
        invariant TransformsOf(mItems) == old(TransformsOf(mItems)) && Items() == items && Valid()
        invariant forall j :: 0 <= j < i ==> WellRooted(Parents(items[j].nodes)) && Posed(mItems[j], conv)
        invariant old(AllTidy()) && Invertible(conv) ==> AllTidy()
      {
        OwnTransforms(mItems, i);
        ok := PoseItem(mItems[i], i, conv);
        if !ok {
          return;
        }
      }
      ok := true;
    }

    /** The sender's context is adopted if there is no valid one; otherwise the conversion out of it is computed. */
    method TakeContext(sender: Context) returns (ok: bool)
      modifies this`mContext, this`conversion
      ensures Items() == old(Items()) && AllTidy() == old(AllTidy())
      ensures ok <==> (old(mContext).Valid() ==> sender.Valid())
      ensures mContext == if old(mContext).Valid() then old(mContext) else sender
      ensures conversion == null <==> !old(mContext).Valid()
      ensures conversion != null ==> fresh(conversion) && conversion.Ready()
      ensures conversion != null && ok ==> Converts(conversion.conversion, sender, mContext)
    {
      hide Converts, TidySubject;
      if !mContext.Valid() {
        mContext := sender;
        conversion := null;
      } else {
        conversion := new ConversionContext(sender, mContext);
        if !conversion.mValid {
          return false;
        }
        conversion.Initialize();
      }
      ok := true;
    }

    /** The entries of the packet, kind by kind. */
    method ParseSections(p: Packet)
      requires Valid()
      modifies this`mItems, mItems, TransformsOf(mItems)
      ensures Valid() && Grown(old(mItems), mItems)
      ensures Items() == ApplyAll(old(Items()), Ops(p))
      ensures old(AllTidy()) ==> AllTidy()
    {
      hide ApplyAll, SectionOps, States, Separate, TransformsOf, AllTidy;
      ghost var items := Items();
      ParseSection(Performer, p.performers);
      ParseSection(Rigidbody, p.rigidbodies);
      ParseSection(Camera, p.cameras);
      KindByKind(items, p);
    }

    /** parse: the list becomes the one that Receive describes. It succeeds if the packet was read and every subject
        is then a hierarchy with one root. Then every node below its root has its world matrix, converted into the
        list's own context; and nodes that are not below a root keep the matrix of a new transform. */
    method Parse(p: Packet) returns (ok: bool)
      requires Valid() && AllComputable(Receive(Receiver(Items(), mContext), p).items)
      modifies this`mItems, this`mContext, this`conversion, mItems, TransformsOf(mItems)
      ensures Valid() && Grown(old(mItems), mItems)
      ensures Receiver(Items(), mContext) == Receive(Receiver(old(Items()), old(mContext)), p)
      ensures ok <==> Accepts(Receiver(old(Items()), old(mContext)), p) && AllRooted(Items())
      ensures conversion == null <==> !old(mContext).Valid()
      ensures conversion != null ==> fresh(conversion) && conversion.Ready()
      ensures Accepts(Receiver(old(Items()), old(mContext)), p) ==>
                Bridges(ConversionOf(conversion), p.context, mContext)
      ensures ok ==> AllPosed()
      ensures old(AllTidy()) ==> AllTidy()
    {
      hide States, Separate, ApplyAll, Ops, AllPosed, AllComputable, AllRooted, Converts, AllTidy, TransformsOf;
      ok := TakeContext(p.context);
      if !ok {
        return;
      }
      if conversion != null {
        ConversionLaws.ConvertsIsProper(conversion.conversion, p.context, mContext);
      }
      ParseSections(p);
      ok := CalcMatrices();
    }
  }
}
