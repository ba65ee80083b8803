// What one keyframe makes of a new receiver: which subjects it has, where and in which state
// (src/o3ds/model.h:477-513, src/o3ds/model.cpp:1081-1152, 1337-1422).

module FirstKeyframe {
  import opened Contexts
  import opened Packets
  import opened StreamLaws
  import opened SubjectIndex
  import opened WireLaws

  /** A subject as a receiver adds it. */
  function Landed(num: Numerics, s: SubjectState): SubjectState {
    SubjectState(s.kind, s.name, s.uuid, true, Mirrors(num, s.nodes))
  }

  /** The subjects of one kind that are sent, as they are added. */
  function AllLanded(num: Numerics, items: seq<SubjectState>, kind: Kind): seq<SubjectState> {
    if items == [] then []
    else
      var n := |items| - 1;
      AllLanded(num, items[..n], kind) + if Goes(items[n], kind) then [Landed(num, items[n])] else []
  }

  lemma {:induction false} LandedFrom(num: Numerics, items: seq<SubjectState>, kind: Kind, l: SubjectState)
    returns (i: nat)
    requires l in AllLanded(num, items, kind)
    ensures i < |items| && Goes(items[i], kind) && l == Landed(num, items[i])
  {
    hide Landed;
    var n := |items| - 1;
    if l in AllLanded(num, items[..n], kind) {
      i := LandedFrom(num, items[..n], kind, l);
    } else {
      i := n;
    }
  }

  lemma LandedMore(num: Numerics, items: seq<SubjectState>, kind: Kind, k: nat)
    requires k < |items|
    ensures AllLanded(num, items[..k + 1], kind)
         == AllLanded(num, items[..k], kind) + if Goes(items[k], kind) then [Landed(num, items[k])] else []
    ensures Rank(items, kind, k + 1) == Rank(items, kind, k) + if Goes(items[k], kind) then 1 else 0
  {
    hide Landed;
    assert items[..k + 1][..k] == items[..k];
  }

  lemma {:induction false} LandedAt(num: Numerics, items: seq<SubjectState>, kind: Kind, k: nat, i: nat)
    requires i < k <= |items| && Goes(items[i], kind)
    ensures |AllLanded(num, items[..k], kind)| == Rank(items, kind, k)
    ensures var a := Rank(items, kind, i);
            a < Rank(items, kind, k) && AllLanded(num, items[..k], kind)[a] == Landed(num, items[i])
  {
    LandedMore(num, items, kind, k - 1);
    LandedUpTo(num, items, kind, k - 1);
    hide Landed, AllLanded, Rank;
    if i < k - 1 {
      LandedAt(num, items, kind, k - 1, i);
    }
  }

  lemma {:induction false} LandedUpTo(num: Numerics, items: seq<SubjectState>, kind: Kind, k: nat)
    requires k <= |items|
    ensures |AllLanded(num, items[..k], kind)| == Rank(items, kind, k)
  {
    if k > 0 {
      LandedUpTo(num, items, kind, k - 1);
      LandedMore(num, items, kind, k - 1);
      hide Landed, AllLanded, Rank;
    }
  }

  /** None of the list has the uuid of a subject of the kind that is sent. */
  ghost predicate Unknown(list: seq<SubjectState>, items: seq<SubjectState>, kind: Kind) {
    forall l, s :: l in list && s in items && Goes(s, kind) ==> l.uuid != s.uuid
  }

  lemma {:induction false} FullsLand(num: Numerics, threshold: real, items: seq<SubjectState>, kind: Kind,
                                     list: seq<SubjectState>)
    requires OneEach(items) && Unknown(list, items, kind)
    ensures ApplyAll(list, FullOps(kind, KeySection(num, threshold, items, kind).full))
         == list + AllLanded(num, items, kind)
  {
    if items == [] {
      assert list + [] == list;
    } else {
      var n := |items| - 1;
      var front, s := items[..n], items[n];
      assert forall x :: x in front ==> x in items;
      FullsLand(num, threshold, front, kind, list);
      LandedMore(num, items, kind, n);
      assert items[..n + 1] == items;
      var ops, now := FullOps(kind, KeySection(num, threshold, front, kind).full), list + AllLanded(num, front, kind);
      if Goes(s, kind) {
        NotYet(num, items, kind, list);
        LastOfSection(num, threshold, items, kind);
        FullsMore(kind, KeySection(num, threshold, front, kind).full, FullOf(num, s));
        hide KeySection, Find, FullOps, ApplyAll, OneEach, Unknown, AllLanded, Landed, FullOf;
        LandsOne(num, list, ops, s, now);
        OneAtTheEnd(list, AllLanded(num, front, kind), Landed(num, s));
      } else {
        NoneOfSection(num, threshold, items, kind);
        assert AllLanded(num, front, kind) + [] == AllLanded(num, front, kind);
      }
    }
  }

  lemma OneAtTheEnd(a: seq<SubjectState>, b: seq<SubjectState>, s: SubjectState)
    ensures a + (b + [s]) == a + b + [s]
  {
  }

  /** The last subject is not in the list before it is sent. */
  lemma NotYet(num: Numerics, items: seq<SubjectState>, kind: Kind, list: seq<SubjectState>)
    requires items != [] && Goes(items[|items| - 1], kind) && OneEach(items) && Unknown(list, items, kind)
    ensures var n := |items| - 1;
            var now := list + AllLanded(num, items[..n], kind);
            Find(now, items[n].uuid) == |now|
  {
    var n := |items| - 1;
    var s, now := items[n], list + AllLanded(num, items[..n], kind);
    hide AllLanded;
    forall j | 0 <= j < |now| ensures now[j].uuid != s.uuid {
      if j >= |list| {
        var i := LandedFrom(num, items[..n], kind, now[j]);
        assert items[i] == items[..n][i];
      } else {
        assert now[j] in list && s in items;
      }
    }
    FindIs(now, s.uuid, |now|);
  }

  lemma NoneOfSection(num: Numerics, threshold: real, items: seq<SubjectState>, kind: Kind)
    requires items != [] && !Goes(items[|items| - 1], kind)
    ensures KeySection(num, threshold, items, kind) == KeySection(num, threshold, items[..|items| - 1], kind)
  {
  }

  lemma LastOfSection(num: Numerics, threshold: real, items: seq<SubjectState>, kind: Kind)
    requires items != [] && Goes(items[|items| - 1], kind)
    ensures KeySection(num, threshold, items, kind).full
         == KeySection(num, threshold, items[..|items| - 1], kind).full + [FullOf(num, items[|items| - 1])]
  {
    hide FullOf, KeyUpdateOf;
  }

  lemma FullsMore(kind: Kind, ds: seq<SubjectData>, d: SubjectData)
    ensures FullOps(kind, ds + [d]) == FullOps(kind, ds) + [Full(kind, d)]
  {
  }

  lemma LandsOne(num: Numerics, list: seq<SubjectState>, ops: seq<Op>, s: SubjectState, now: seq<SubjectState>)
    requires ApplyAll(list, ops) == now && Find(now, s.uuid) == |now|
    ensures ApplyAll(list, ops + [Full(s.kind, FullOf(num, s))]) == now + [Landed(num, s)]
  {
    var op := Full(s.kind, FullOf(num, s));
    assert (ops + [op])[..|ops|] == ops;
    hide Find, AllNodeData, ParseNodes;
  }

  lemma LandedPlace(num: Numerics, items: seq<SubjectState>, kind: Kind, i: nat)
    requires i < |items| && Goes(items[i], kind)
    ensures |AllLanded(num, items, kind)| == Rank(items, kind, |items|)
    ensures var a := Rank(items, kind, i);
            a < |AllLanded(num, items, kind)| && AllLanded(num, items, kind)[a] == Landed(num, items[i])
  {
    LandedAt(num, items, kind, |items|, i);
    assert items[..|items|] == items;
    hide AllLanded, Landed;
  }

  lemma LandedHealed(num: Numerics, items: seq<SubjectState>, kind: Kind, list: seq<SubjectState>, s: SubjectState)
    requires OneEach(items) && Unknown(list, items, kind) && s in items && Goes(s, kind)
    ensures Healed(num, list + AllLanded(num, items, kind), s)
  {
    var i :| 0 <= i < |items| && items[i] == s;
    var a, now := Rank(items, kind, i), list + AllLanded(num, items, kind);
    LandedPlace(num, items, kind, i);
    hide AllLanded, OneEach, Rank, Mirrors;
    forall j | 0 <= j < |list| + a ensures now[j].uuid != s.uuid {
      if j < |list| {
        assert now[j] in list;
      } else {
        LandedApart(num, items, kind, i, j - |list|);
      }
    }
    FindIs(now, s.uuid, |list| + a);
  }

  lemma LandedApart(num: Numerics, items: seq<SubjectState>, kind: Kind, i: nat, a: nat)
    requires OneEach(items) && i < |items| && Goes(items[i], kind) && a < Rank(items, kind, i)
    ensures a < |AllLanded(num, items, kind)| && AllLanded(num, items, kind)[a].uuid != items[i].uuid
  {
    LandedUpTo(num, items, kind, i);
    LandedPrefix(num, items, kind, i);
    var l := AllLanded(num, items[..i], kind)[a];
    var j := LandedFrom(num, items[..i], kind, l);
    assert items[j] == items[..i][j] && j < i;
  }

  lemma {:induction false} LandedPrefix(num: Numerics, items: seq<SubjectState>, kind: Kind, i: nat)
    requires i <= |items|
    ensures AllLanded(num, items[..i], kind) <= AllLanded(num, items, kind)
    decreases |items|
  {
    if i < |items| {
      var n := |items| - 1;
      LandedPrefix(num, items[..n], kind, i);
      assert items[..n][..i] == items[..i];
    } else {
      assert items[..i] == items;
    }
  }

  /** The subjects of the kind alone. */
  function OfKind(items: seq<SubjectState>, kind: Kind): (r: seq<SubjectState>)
    ensures forall s :: s in r <==> s in items && Goes(s, kind)
  {
    if items == [] then []
    else
      var n := |items| - 1;
      assert forall s :: s in items <==> s in items[..n] || s == items[n];
      OfKind(items[..n], kind) + if Goes(items[n], kind) then [items[n]] else []
  }

  lemma SectionLands(num: Numerics, threshold: real, items: seq<SubjectState>, kind: Kind, list: seq<SubjectState>)
    requires OneEach(items) && Unknown(list, items, kind)
    ensures ApplyAll(list, SectionOps(kind, KeySection(num, threshold, items, kind)))
         == list + AllLanded(num, items, kind)
  {
    var sec, now := KeySection(num, threshold, items, kind), list + AllLanded(num, items, kind);
    FullsLand(num, threshold, items, kind, list);
    forall s | s in OfKind(items, kind) ensures Healed(num, now, s) && Agrees(now, s) {
      LandedHealed(num, items, kind, list, s);
    }
    hide OneEach, Unknown, Healed, Agrees, KeySection, AllLanded, ApplyAll, FullOf, KeyUpdateOf;
    forall op | op in UpdateOps(kind, sec.updates)
      ensures exists s :: s in OfKind(items, kind) && KeyEntry(num, threshold, s, op)
    {
      assert op.update in sec.updates && op == Update(kind, op.update);
      var s := KeySectionUpdate(num, threshold, items, kind, op.update);
      assert KeyEntry(num, threshold, s, op);
    }
    hide KeyEntry;
    ApplyAllAppend(list, FullOps(kind, sec.full), UpdateOps(kind, sec.updates));
    EntriesIdle(num, threshold, OfKind(items, kind), now, UpdateOps(kind, sec.updates));
  }

  function EveryLanded(num: Numerics, items: seq<SubjectState>): seq<SubjectState> {
    AllLanded(num, items, Performer) + AllLanded(num, items, Rigidbody) + AllLanded(num, items, Camera)
  }

  lemma NewItems(num: Numerics, threshold: real, items: seq<SubjectState>, context: Context)
    requires OneEach(items)
    ensures Receive(Receiver([], UNSET), Keyframe(num, threshold, items, context))
         == Receiver(EveryLanded(num, items), context)
  {
    var ps, rs := AllLanded(num, items, Performer), AllLanded(num, items, Rigidbody);
    var p := Keyframe(num, threshold, items, context);
    KindsApart(num, items, Performer, Rigidbody, []);
    KindsApart(num, items, Performer, Camera, []);
    KindsApart(num, items, Rigidbody, Camera, ps);
    assert [] + ps == ps;
    hide Unknown, KeySection, ApplyAll, SectionOps, AllLanded, OneEach;
    SectionLands(num, threshold, items, Performer, []);
    SectionLands(num, threshold, items, Rigidbody, ps);
    SectionLands(num, threshold, items, Camera, ps + rs);
    ApplyAllAppend([], SectionOps(Performer, p.performers), SectionOps(Rigidbody, p.rigidbodies));
    ApplyAllAppend([], SectionOps(Performer, p.performers) + SectionOps(Rigidbody, p.rigidbodies),
                   SectionOps(Camera, p.cameras));
  }

  /** Where a subject is added: the performers in the sender's order, then the rigid bodies, then the cameras. */
  function Seat(items: seq<SubjectState>, i: nat): nat
    requires i < |items|
  {
    var before := match items[i].kind
      case Performer => 0
      case Rigidbody => Rank(items, Performer, |items|)
      case Camera => Rank(items, Performer, |items|) + Rank(items, Rigidbody, |items|);
    before + Rank(items, items[i].kind, i)
  }

  lemma ThreeParts<T>(a: seq<T>, b: seq<T>, c: seq<T>, k: nat)
    ensures k < |a| ==> (a + b + c)[k] == a[k]
    ensures k < |b| ==> (a + b + c)[|a| + k] == b[k]
    ensures k < |c| ==> (a + b + c)[|a| + |b| + k] == c[k]
  {
  }

  lemma LandedCount(num: Numerics, items: seq<SubjectState>, kind: Kind)
    ensures |AllLanded(num, items, kind)| == Rank(items, kind, |items|)
  {
    LandedUpTo(num, items, kind, |items|);
    assert items[..|items|] == items;
  }

  /** A new receiver has after one keyframe exactly the subjects that were sent, each in its seat. */
  lemma NewReceiver(num: Numerics, threshold: real, items: seq<SubjectState>, context: Context)
    requires OneEach(items)
    ensures var after := Receive(Receiver([], UNSET), Keyframe(num, threshold, items, context));
            && after.context == context
            && |after.items| == Rank(items, Performer, |items|) + Rank(items, Rigidbody, |items|)
                                + Rank(items, Camera, |items|)
            && forall i :: 0 <= i < |items| && items[i].enabled ==>
                 Seat(items, i) < |after.items| && after.items[Seat(items, i)] == Landed(num, items[i])
  {
    NewItems(num, threshold, items, context);
    LandedCount(num, items, Performer);
    LandedCount(num, items, Rigidbody);
    LandedCount(num, items, Camera);
    hide OneEach, AllLanded, Landed, Rank, Receive, Keyframe, Seat;
    forall i | 0 <= i < |items| && items[i].enabled
      ensures var all := Receive(Receiver([], UNSET), Keyframe(num, threshold, items, context)).items;
              Seat(items, i) < |all| && all[Seat(items, i)] == Landed(num, items[i])
    {
      InSeat(num, items, i);
    }
  }

  lemma InSeat(num: Numerics, items: seq<SubjectState>, i: nat)
    requires i < |items| && items[i].enabled
    ensures var all := EveryLanded(num, items);
            Seat(items, i) < |all| && all[Seat(items, i)] == Landed(num, items[i])
  {
    LandedCount(num, items, Performer);
    LandedCount(num, items, Rigidbody);
    LandedPlace(num, items, items[i].kind, i);
    hide AllLanded, Landed, Rank;
    ThreeParts(AllLanded(num, items, Performer), AllLanded(num, items, Rigidbody), AllLanded(num, items, Camera),
               Rank(items, items[i].kind, i));
  }

  lemma KindsApart(num: Numerics, items: seq<SubjectState>, a: Kind, b: Kind, list: seq<SubjectState>)
    requires OneEach(items) && a != b && Unknown(list, items, b)
    ensures Unknown(list + AllLanded(num, items, a), items, b)
  {
    forall l, s | l in AllLanded(num, items, a) && s in items && Goes(s, b) ensures l.uuid != s.uuid {
      var i := LandedFrom(num, items, a, l);
      var j :| 0 <= j < |items| && items[j] == s;
    }
  }
}
