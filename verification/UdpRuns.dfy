// Runs of the UDP mapper over a network that loses, reorders, duplicates and interleaves fragments
// (src/o3ds/udp_fragment.cpp, UOpen3DServer.cpp:120-125).

module UdpRuns {
  import opened Bytes
  import opened UdpFragment

  // ----- One message -------------------------------------------------------

  lemma HeaderFields(a: uint32, b: uint32, c: uint32, d: uint32, rest: seq<byte>)
    ensures var data := PutU32(a) + PutU32(b) + PutU32(c) + PutU32(d) + rest;
            && |data| == HEADER_SIZE + |rest| && data[HEADER_SIZE..] == rest
            && Id(data) == a && Sequence(data) == b && Size(data) == c && FragmentSize(data) == d
  {
    var data := PutU32(a) + PutU32(b) + PutU32(c) + PutU32(d) + rest;
    assert data[0..4] == PutU32(a) && data[4..8] == PutU32(b);
    assert data[8..12] == PutU32(c) && data[12..16] == PutU32(d);
    hide PutU32, GetU32;
    U32RoundTrip(a, data, 0);
    U32RoundTrip(b, data, 4);
    U32RoundTrip(c, data, 8);
    U32RoundTrip(d, data, 12);
  }

  lemma FragmentHeader(id: uint32, m: Message, k: nat)
    requires m.Sendable() && k < m.Frames()
    ensures var d := Fragment(id, m, k);
            && |d| == HEADER_SIZE + m.End(k) - m.Start(k) && d[HEADER_SIZE..] == Slot(m, k)
            && Id(d) == id && Sequence(d) == k && Size(d) == |m.payload| && FragmentSize(d) == m.fragmentSize
  {
    SlotBounds(m, k);
    WrapNothing(|m.payload|);
    WrapNothing(m.fragmentSize);
    HeaderFields(id, k, |m.payload|, m.fragmentSize, Slot(m, k));
    hide PutU32, Id, Sequence, Size, FragmentSize, Wrap, Message.Frames;
  }

  /** The datagram, byte by byte: id, sequence number, length of the payload and fragment size, four bytes each, and
      then the bytes of the payload from k times the fragment size on, as many as that, or those that are left. */
  lemma FragmentBytes(id: uint32, m: Message, k: nat)
    requires m.Sendable() && k < m.Frames()
    ensures k * m.fragmentSize < |m.payload|
    ensures var d, start := Fragment(id, m, k), k * m.fragmentSize;
            var end := if start + m.fragmentSize < |m.payload| then start + m.fragmentSize else |m.payload|;
            && |d| == 16 + end - start && d[16..] == m.payload[start..end]
            && d[..4] == PutU32(id) && d[4..8] == PutU32(k)
            && d[8..12] == PutU32(|m.payload|) && d[12..16] == PutU32(m.fragmentSize)
  {
    SlotBounds(m, k);
    WrapNothing(|m.payload|);
    WrapNothing(m.fragmentSize);
    HeaderSlices(PutU32(id), PutU32(k), PutU32(|m.payload|), PutU32(m.fragmentSize), Slot(m, k));
    hide PutU32, Wrap, Message.Frames;
  }

  lemma HeaderSlices(a: seq<byte>, b: seq<byte>, c: seq<byte>, d: seq<byte>, rest: seq<byte>)
    requires |a| == |b| == |c| == |d| == 4
    ensures var s := a + b + c + d + rest;
            && |s| == 16 + |rest| && s[..4] == a && s[4..8] == b && s[8..12] == c && s[12..16] == d && s[16..] == rest
  {
  }

  lemma Shrink(k: nat, f: nat)
    requires f > 0
    ensures k * (f - 1) == k * f - k
  {
  }

  lemma WrapNothing(n: nat)
    requires n < 0x1_0000_0000
    ensures Wrap(n) == n
  {
  }

  /** A genuine fragment passes the receiver's checks, and its arithmetic does not wrap. */
  lemma FragmentShape(id: uint32, m: Message, k: nat)
    requires m.Sendable() && k < m.Frames()
    ensures var d := Fragment(id, m, k);
            && Datagram(d) && FragmentSize(d) > 0 && FrameCount(d) == m.Frames() && !WrongLength(d)
            && Offset(d) == m.Start(k) && Product(k, m.fragmentSize - 1) <= |m.payload|
  {
    SlotBounds(m, k);
    FragmentHeader(id, m, k);
    hide Id, Sequence, Size, FragmentSize, Fragment, Product, Wrap, Quotient;
    WrapNothing(|m.payload| + m.fragmentSize - 1);
    WrapNothing(m.fragmentSize + HEADER_SIZE);
    QuotientIs(|m.payload| + m.fragmentSize - 1, m.fragmentSize);
    ProductBelow(k, m.fragmentSize, |m.payload|);
  }

  lemma QuotientIs(n: uint32, d: uint32)
    requires d > 0
    ensures Quotient(n, d) == n / d
  {
  }

  lemma ProductBelow(k: uint32, f: uint32, n: uint32)
    requires f > 0 && k * f <= n
    ensures Product(k, f) == k * f && Product(k, f - 1) <= n
  {
    Shrink(k, f);
    NotNegative(k, f - 1);
    WrapNothing(k * f);
    WrapNothing(k * (f - 1));
    hide Wrap;
  }

  /** The combiner holds exactly the slots in `got`. */
  ghost predicate Tracks(a: Assembly, m: Message, got: set<nat>)
    requires m.Sendable()
  {
    if got == {} then a == NOTHING
    else
      && a.size == |m.payload| == |a.bytes| && |a.found| == m.Frames()
      && (forall k :: k in got ==> k < m.Frames())
      && (forall k: nat :: k < m.Frames() ==> (a.found[k] <==> k in got))
      && (forall k: nat :: k < m.Frames() && k in got ==> Holds(a, m, k))
  }

  ghost predicate Holds(a: Assembly, m: Message, k: nat)
    requires m.Sendable() && k < m.Frames() && |a.bytes| == |m.payload|
  {
    SlotBounds(m, k);
    a.bytes[m.Start(k)..m.End(k)] == Slot(m, k)
  }

  lemma SlotsDisjoint(m: Message, j: nat, k: nat)
    requires m.Sendable() && j < k < m.Frames()
    ensures m.End(j) <= m.Start(k)
  {
    SlotBounds(m, j);
    TimesMonotone(j + 1, k, m.fragmentSize);
  }

  /** Every fragment of the message is accepted in every state that tracks it, and never written past the buffer. */
  lemma FragmentFits(a: Assembly, m: Message, got: set<nat>, id: uint32, k: nat)
    requires m.Sendable() && k < m.Frames() && Tracks(a, m, got)
    ensures Fitting(a, Fragment(id, m, k)) && !Refused(a, Fragment(id, m, k))
  {
    FragmentHeader(id, m, k);
    FragmentShape(id, m, k);
    SlotBounds(m, k);
  }

  /** Taking a fragment, new or repeated, in any order, adds its slot and keeps the others. */
  lemma AddTracks(a: Assembly, m: Message, got: set<nat>, id: uint32, k: nat, b: Assembly, ok: bool)
    requires m.Sendable() && k < m.Frames() && Tracks(a, m, got)
    requires Fitting(a, Fragment(id, m, k)) && Added(a, Fragment(id, m, k), b, ok)
    ensures ok && Tracks(b, m, got + {k})
  {
    FragmentHeader(id, m, k);
    FragmentShape(id, m, k);
    FragmentFits(a, m, got, id, k);
    SlotBounds(m, k);
    assert b.bytes[m.Start(k)..m.End(k)] == Slot(m, k);
    hide Added, Fitting, Refused;
    assert |b.found| == m.Frames();
    forall j: nat | j < m.Frames() && j in got && j != k ensures Holds(b, m, j) {
      SlotKept(a, m, k, b, j);
    }
  }

  /** Writing one slot leaves what another one holds. */
  lemma SlotKept(a: Assembly, m: Message, k: nat, b: Assembly, j: nat)
    requires m.Sendable() && j < m.Frames() && k < m.Frames() && j != k
    requires |a.bytes| == |b.bytes| == |m.payload| && Holds(a, m, j)
    requires forall p :: 0 <= p < |m.payload| && !(m.Start(k) <= p < m.End(k)) ==> b.bytes[p] == a.bytes[p]
    ensures Holds(b, m, j)
  {
    SlotBounds(m, j);
    SlotsDisjoint(m, if j < k then j else k, if j < k then k else j);
    assert b.bytes[m.Start(j)..m.End(j)] == a.bytes[m.Start(j)..m.End(j)];
  }

  ghost predicate Whole(m: Message, got: set<nat>) {
    forall k: nat :: k < m.Frames() ==> k in got
  }

  /** isComplete holds exactly when every slot has arrived, and the buffer is then the payload. */
  lemma CompleteMeaning(a: Assembly, m: Message, got: set<nat>)
    requires m.Sendable() && got != {} && Tracks(a, m, got)
    ensures a.Complete() <==> Whole(m, got)
    ensures a.Complete() ==> a.bytes == m.payload
  {
    if a.Complete() {
      forall p: nat | p < |m.payload| ensures a.bytes[p] == m.payload[p] {
        var k := SlotOf(m, p);
        ByteReceived(a, m, p, k);
      }
    }
  }

  lemma ByteReceived(a: Assembly, m: Message, p: nat, k: nat)
    requires m.Sendable() && p < |m.payload| == |a.bytes| && k < m.Frames() && Holds(a, m, k)
    requires m.Start(k) <= p < m.End(k)
    ensures a.bytes[p] == m.payload[p]
  {
    SlotBounds(m, k);
    hide Message.Start, Message.End, Message.Frames;
    assert a.bytes[p] == a.bytes[m.Start(k)..m.End(k)][p - m.Start(k)];
  }

  /** Every byte is in a slot. */
  lemma SlotOf(m: Message, p: nat) returns (k: nat)
    requires m.Sendable() && p < |m.payload|
    ensures k < m.Frames() && m.Start(k) <= p < m.End(k)
  {
    var f, size := m.fragmentSize, |m.payload|;
    DivisionBounds(p, f);
    DivisionBounds(size + f - 1, f);
    NotLarger(p / f, f);
    SlotBelow(p, f, size, p / f, (size + f - 1) / f);
    k := p / f;
  }

  lemma SlotBelow(p: nat, f: nat, size: nat, k: int, frames: int)
    requires f > 0 && p < size && k * f <= p && size + f - 1 < frames * f + f
    ensures k < frames
  {
    if frames <= k {
      TimesMonotone(frames, k, f);
    }
  }

  function Elements(ks: seq<nat>): set<nat> {
    set k | k in ks
  }

  /** One call of addFragment with fragment k, from its contract. */
  ghost predicate Takes(a: Assembly, id: uint32, m: Message, k: nat, b: Assembly)
    requires m.Sendable() && k < m.Frames()
  {
    Fitting(a, Fragment(id, m, k)) ==> exists ok :: Added(a, Fragment(id, m, k), b, ok)
  }

  /** In any order, with any repeats: the slots received are the ones found, and the last one missing completes it. */
  lemma {:induction false} AnyOrder(m: Message, id: uint32, ks: seq<nat>, states: seq<Assembly>)
    requires m.Sendable() && (forall i :: 0 <= i < |ks| ==> ks[i] < m.Frames())
    requires |states| == |ks| + 1 && states[0] == NOTHING
    requires forall i :: 0 <= i < |ks| ==> Takes(states[i], id, m, ks[i], states[i + 1])
    ensures Tracks(states[|ks|], m, Elements(ks))
    ensures ks != [] ==> (states[|ks|].Complete() <==> Whole(m, Elements(ks)))
    ensures ks != [] && states[|ks|].Complete() ==> states[|ks|].bytes == m.payload
  {
    hide Takes, Tracks, Whole, Elements;
    if ks == [] {
      NothingTracks(m);
      assert Elements(ks) == {} by { NoElements(); }
    } else {
      var n := |ks| - 1;
      var front := ks[..n];
      assert ks == front + [ks[n]];
      AnyOrder(m, id, front, states[..n + 1]);
      assert Takes(states[n], id, m, ks[n], states[n + 1]);
      ElementsMore(front, ks[n]);
      TakeTracks(states[n], m, Elements(front), id, ks[n], states[n + 1]);
      CompleteMeaning(states[n + 1], m, Elements(ks));
    }
  }

  lemma NoElements()
    ensures Elements([]) == {}
  {
  }

  lemma ElementsMore(ks: seq<nat>, k: nat)
    ensures Elements(ks + [k]) == Elements(ks) + {k}
  {
  }

  lemma NothingTracks(m: Message)
    requires m.Sendable()
    ensures Tracks(NOTHING, m, {})
  {
  }

  lemma TakeTracks(a: Assembly, m: Message, got: set<nat>, id: uint32, k: nat, b: Assembly)
    requires m.Sendable() && k < m.Frames() && Tracks(a, m, got) && Takes(a, id, m, k, b)
    ensures Tracks(b, m, got + {k})
  {
    FragmentFits(a, m, got, id, k);
    var ok :| Added(a, Fragment(id, m, k), b, ok);
    AddTracks(a, m, got, id, k, b, ok);
  }

  // ----- Many messages -----------------------------------------------------

  type Messages = map<uint32, Message>

  ghost predicate AllSendable(msgs: Messages) {
    forall id :: id in msgs ==> msgs[id].Sendable()
  }

  /** The network delivers fragment k of message id; or the receiver polls. */
  datatype Event = Deliver(id: uint32, k: nat) | Poll

  predicate Genuine(msgs: Messages, e: Event) {
    e.Deliver? ==> e.id in msgs && e.k < msgs[e.id].Frames()
  }

  /** What has arrived and is waiting, and which messages have been handed over, in order. */
  datatype Tracker = Tracker(waiting: map<uint32, set<nat>>, released: seq<uint32>)

  ghost predicate Ready(msgs: Messages, t: Tracker, id: uint32) {
    id in t.waiting && id in msgs && Whole(msgs[id], t.waiting[id])
  }

  ghost predicate LeastReady(msgs: Messages, t: Tracker, id: uint32) {
    Ready(msgs, t, id) && forall j: uint32 :: j < id ==> !Ready(msgs, t, j)
  }

  ghost function Step(msgs: Messages, t: Tracker, e: Event): Tracker {
    match e
    case Deliver(id, k) => t.(waiting := t.waiting[id := Got(t, id) + {k}])
    case Poll =>
      if id: uint32 :| LeastReady(msgs, t, id) then
        Tracker(map j | j in t.waiting && j > id :: t.waiting[j], t.released + [id])
      else t
  }

  ghost function Run(msgs: Messages, events: seq<Event>): Tracker {
    if events == [] then Tracker(map[], [])
    else Step(msgs, Run(msgs, events[..|events| - 1]), events[|events| - 1])
  }

  /** The payloads of the messages, in order. */
  function Payloads(msgs: Messages, ids: seq<uint32>): seq<byte> {
    if ids == [] then []
    else Payloads(msgs, ids[..|ids| - 1]) + (if ids[|ids| - 1] in msgs then msgs[ids[|ids| - 1]].payload else [])
  }

  /** The mapper's combiners hold exactly what is waiting. */
  ghost predicate Mirrors(msgs: Messages, items: map<uint32, Assembly>, t: Tracker)
    requires AllSendable(msgs)
  {
    && items.Keys == t.waiting.Keys <= msgs.Keys
    && forall id :: id in items ==> t.waiting[id] != {} && Tracks(items[id], msgs[id], t.waiting[id])
  }

  /** One call of addFragment or getFrame, from its contract. */
  ghost predicate Call(msgs: Messages, items: map<uint32, Assembly>, out: seq<byte>, e: Event,
                       items': map<uint32, Assembly>, out': seq<byte>)
    requires AllSendable(msgs) && Genuine(msgs, e)
  {
    match e
    case Deliver(id, k) =>
      var d := Fragment(id, msgs[id], k);
      (Datagram(d) ==> Fitting(At(items, Id(d)), d)) ==> out' == out && Delivered(items, d, items')
    case Poll =>
      if exists id :: LeastComplete(items, id) then exists id :: Released(items, id, out, out', items')
      else out' == out && items' == items
  }

  function Got(t: Tracker, id: uint32): set<nat> {
    if id in t.waiting then t.waiting[id] else {}
  }

  lemma MirrorsAt(msgs: Messages, items: map<uint32, Assembly>, t: Tracker, id: uint32)
    requires AllSendable(msgs) && Mirrors(msgs, items, t) && id in msgs
    ensures Tracks(At(items, id), msgs[id], Got(t, id))
  {
  }

  lemma DeliverMirrors(msgs: Messages, items: map<uint32, Assembly>, out: seq<byte>, t: Tracker, id: uint32, k: nat,
                       items': map<uint32, Assembly>, out': seq<byte>)
    requires AllSendable(msgs) && Genuine(msgs, Deliver(id, k)) && Mirrors(msgs, items, t)
    requires Call(msgs, items, out, Deliver(id, k), items', out')
    ensures Mirrors(msgs, items', Step(msgs, t, Deliver(id, k))) && out' == out
  {
    hide Added, Fitting, Tracks, Datagram, Id, Fragment, Message.Frames;
    var m, d := msgs[id], Fragment(id, msgs[id], k);
    FragmentHeader(id, m, k);
    FragmentShape(id, m, k);
    MirrorsAt(msgs, items, t, id);
    FragmentFits(At(items, id), m, Got(t, id), id, k);
    var ok :| Added(At(items, id), d, items'[id], ok);
    AddTracks(At(items, id), m, Got(t, id), id, k, items'[id], ok);
  }

  lemma ReadyMeaning(msgs: Messages, items: map<uint32, Assembly>, t: Tracker, id: uint32)
    requires AllSendable(msgs) && Mirrors(msgs, items, t)
    ensures (id in items && items[id].Complete()) <==> Ready(msgs, t, id)
    ensures Ready(msgs, t, id) ==> items[id].bytes == msgs[id].payload
  {
    if id in items {
      CompleteMeaning(items[id], msgs[id], t.waiting[id]);
    }
  }

  lemma LeastIsLeast(msgs: Messages, items: map<uint32, Assembly>, t: Tracker)
    requires AllSendable(msgs) && Mirrors(msgs, items, t)
    ensures forall id :: LeastComplete(items, id) <==> LeastReady(msgs, t, id)
    ensures forall i, j :: LeastReady(msgs, t, i) && LeastReady(msgs, t, j) ==> i == j
  {
    forall id: uint32 ensures (id in items && items[id].Complete()) <==> Ready(msgs, t, id) {
      ReadyMeaning(msgs, items, t, id);
    }
    hide Mirrors, Ready, Assembly.Complete, AllSendable;
    forall i, j | LeastReady(msgs, t, i) && LeastReady(msgs, t, j) ensures i == j {
      assert !(i < j) && !(j < i);
    }
  }

  lemma PayloadsMore(msgs: Messages, ids: seq<uint32>, id: uint32)
    requires id in msgs
    ensures Payloads(msgs, ids + [id]) == Payloads(msgs, ids) + msgs[id].payload
  {
    assert (ids + [id])[..|ids|] == ids;
  }

  lemma StepPoll(msgs: Messages, t: Tracker, r: uint32)
    requires LeastReady(msgs, t, r)
    requires forall i, j :: LeastReady(msgs, t, i) && LeastReady(msgs, t, j) ==> i == j
    ensures Step(msgs, t, Poll) == Tracker(map j | j in t.waiting && j > r :: t.waiting[j], t.released + [r])
  {
    hide LeastReady;
  }

  lemma ReleaseMirrors(msgs: Messages, items: map<uint32, Assembly>, t: Tracker, r: uint32)
    requires AllSendable(msgs) && Mirrors(msgs, items, t)
    ensures Mirrors(msgs, Above(items, r), t.(waiting := map j | j in t.waiting && j > r :: t.waiting[j]))
  {
    hide Tracks;
  }

  lemma PollMirrors(msgs: Messages, items: map<uint32, Assembly>, out: seq<byte>, t: Tracker,
                    items': map<uint32, Assembly>, out': seq<byte>)
    requires AllSendable(msgs) && Mirrors(msgs, items, t) && Call(msgs, items, out, Poll, items', out')
    requires out == Payloads(msgs, t.released)
    ensures var t' := Step(msgs, t, Poll); Mirrors(msgs, items', t') && out' == Payloads(msgs, t'.released)
  {
    hide LeastComplete, LeastReady, Tracks, Payloads, Ready, Assembly.Complete, Above;
    LeastIsLeast(msgs, items, t);
    if id :| LeastComplete(items, id) {
      var r :| Released(items, r, out, out', items');
      ReleasedMirrors(msgs, items, out, t, r, items', out');
    }
  }

  lemma ReleasedMirrors(msgs: Messages, items: map<uint32, Assembly>, out: seq<byte>, t: Tracker, r: uint32,
                        items': map<uint32, Assembly>, out': seq<byte>)
    requires AllSendable(msgs) && Mirrors(msgs, items, t) && Released(items, r, out, out', items')
    requires out == Payloads(msgs, t.released)
    ensures var t' := Step(msgs, t, Poll); Mirrors(msgs, items', t') && out' == Payloads(msgs, t'.released)
  {
    LeastIsLeast(msgs, items, t);
    ReadyMeaning(msgs, items, t, r);
    assert r in msgs;
    hide LeastReady, Tracks, Payloads, Ready, Assembly.Complete, Above, Mirrors, Step;
    StepPoll(msgs, t, r);
    PayloadsMore(msgs, t.released, r);
    ReleaseMirrors(msgs, items, t, r);
    MirrorsIgnoresReleased(msgs, items', t.(waiting := map j | j in t.waiting && j > r :: t.waiting[j]),
                           t.released + [r]);
  }

  lemma MirrorsIgnoresReleased(msgs: Messages, items: map<uint32, Assembly>, t: Tracker, released: seq<uint32>)
    requires AllSendable(msgs) && Mirrors(msgs, items, t)
    ensures Mirrors(msgs, items, t.(released := released))
  {
  }

  /** In every run, the mapper mirrors the tracker and has appended exactly the released payloads. */
  lemma {:induction false} RunMirrors(msgs: Messages, events: seq<Event>,
                                      states: seq<map<uint32, Assembly>>, outs: seq<seq<byte>>)
    requires AllSendable(msgs) && (forall i :: 0 <= i < |events| ==> Genuine(msgs, events[i]))
    requires |states| == |outs| == |events| + 1 && states[0] == map[] && outs[0] == []
    requires forall i :: 0 <= i < |events| ==> Call(msgs, states[i], outs[i], events[i], states[i + 1], outs[i + 1])
    ensures Mirrors(msgs, states[|events|], Run(msgs, events))
    ensures outs[|events|] == Payloads(msgs, Run(msgs, events).released)
  {
    if events != [] {
      var n := |events| - 1;
      RunMirrors(msgs, events[..n], states[..n + 1], outs[..n + 1]);
      var t, e := Run(msgs, events[..n]), events[n];
      assert Call(msgs, states[n], outs[n], e, states[n + 1], outs[n + 1]);
      match e {
        case Deliver(id, k) => DeliverMirrors(msgs, states[n], outs[n], t, id, k, states[n + 1], outs[n + 1]);
        case Poll => PollMirrors(msgs, states[n], outs[n], t, states[n + 1], outs[n + 1]);
      }
    }
  }

  /** In every run, a poll that hands something over appends exactly the payload sent under the least complete id, and
      leaves only larger ids; a poll that does not leaves no complete message. */
  lemma PollInRun(msgs: Messages, events: seq<Event>, states: seq<map<uint32, Assembly>>, outs: seq<seq<byte>>, i: nat)
    requires AllSendable(msgs) && (forall j :: 0 <= j < |events| ==> Genuine(msgs, events[j]))
    requires |states| == |outs| == |events| + 1 && states[0] == map[] && outs[0] == []
    requires forall j :: 0 <= j < |events| ==> Call(msgs, states[j], outs[j], events[j], states[j + 1], outs[j + 1])
    requires i < |events| && events[i] == Poll
    ensures var t := Run(msgs, events[..i]);
            if exists id: uint32 :: Ready(msgs, t, id) then
              exists id :: LeastReady(msgs, t, id) && outs[i + 1] == outs[i] + msgs[id].payload
                && forall j :: j in states[i + 1] <==> j in states[i] && j > id
            else outs[i + 1] == outs[i] && states[i + 1] == states[i]
  {
    RunMirrors(msgs, events[..i], states[..i + 1], outs[..i + 1]);
    var t, items := Run(msgs, events[..i]), states[i];
    assert Call(msgs, items, outs[i], events[i], states[i + 1], outs[i + 1]);
    LeastIsLeast(msgs, items, t);
    hide LeastComplete, Tracks, Run, Ready, LeastReady, Mirrors;
    if id: uint32 :| Ready(msgs, t, id) {
      var least := LeastOfReady(msgs, t, id);
      assert LeastComplete(items, least);
      var r :| Released(items, r, outs[i], outs[i + 1], states[i + 1]);
      ReadyMeaning(msgs, items, t, r);
      LeastImpliesReady(msgs, t, r);
    } else {
      forall id ensures !LeastComplete(items, id) {
        if LeastReady(msgs, t, id) {
          LeastImpliesReady(msgs, t, id);
        }
      }
    }
  }

  lemma LeastImpliesReady(msgs: Messages, t: Tracker, id: uint32)
    requires LeastReady(msgs, t, id)
    ensures Ready(msgs, t, id)
  {
  }

  lemma {:induction false} LeastOfReady(msgs: Messages, t: Tracker, id: uint32) returns (r: uint32)
    requires Ready(msgs, t, id)
    ensures LeastReady(msgs, t, r)
    decreases id
  {
    if j: uint32 :| j < id && Ready(msgs, t, j) {
      r := LeastOfReady(msgs, t, j);
    } else {
      r := id;
    }
  }

  // ----- Releases ----------------------------------------------------------

  predicate NoRepeats(events: seq<Event>) {
    forall i, j :: 0 <= i < j < |events| && events[i].Deliver? ==> events[i] != events[j]
  }

  ghost predicate DeliveredWhole(msgs: Messages, events: seq<Event>, id: uint32) {
    id in msgs && forall k: nat :: k < msgs[id].Frames() ==> Deliver(id, k) in events
  }

  /** What waits was delivered; a released message was delivered whole and, with no repeats, never waits again. */
  ghost predicate Spent(msgs: Messages, events: seq<Event>, t: Tracker) {
    && (forall id, k :: id in t.waiting && k in t.waiting[id] ==> Deliver(id, k) in events)
    && (forall i :: 0 <= i < |t.released| ==>
          t.released[i] !in t.waiting && DeliveredWhole(msgs, events, t.released[i]))
    && forall i, j :: 0 <= i < j < |t.released| ==> t.released[i] != t.released[j]
  }

  /** If every fragment arrives at most once, every message is released at most once. */
  lemma {:induction false} ReleasedOnce(msgs: Messages, events: seq<Event>)
    requires (forall i :: 0 <= i < |events| ==> Genuine(msgs, events[i])) && NoRepeats(events)
    ensures Spent(msgs, events, Run(msgs, events))
  {
    if events != [] {
      var n := |events| - 1;
      var front, e := events[..n], events[n];
      var t := Run(msgs, front);
      ReleasedOnce(msgs, front);
      assert e.Deliver? ==> e !in front;
      assert forall x :: x in front ==> x in events;
      var t' := Step(msgs, t, e);
      if e.Poll? && t' != t {
        var id: uint32 :| LeastReady(msgs, t, id)
          && t' == Tracker(map j | j in t.waiting && j > id :: t.waiting[j], t.released + [id]);
      }
    }
  }

  /** A fragment that arrived is waiting, unless a message with an id at least as large has been released. */
  lemma {:induction false} NothingElseLost(msgs: Messages, events: seq<Event>, id: uint32, k: nat)
    requires Deliver(id, k) in events
    ensures var t := Run(msgs, events);
            k in Got(t, id) || exists i :: 0 <= i < |t.released| && t.released[i] >= id
  {
    var n := |events| - 1;
    var front, e := events[..n], events[n];
    assert events == front + [e];
    var t := Run(msgs, front);
    var t' := Step(msgs, t, e);
    if Deliver(id, k) in front {
      NothingElseLost(msgs, front, id, k);
      if i :| 0 <= i < |t.released| && t.released[i] >= id {
        assert t'.released[i] >= id;
      }
      if e.Poll? && t' != t {
        var r: uint32 :| LeastReady(msgs, t, r)
          && t' == Tracker(map j | j in t.waiting && j > r :: t.waiting[j], t.released + [r]);
        assert t'.released[|t.released|] == r;
      }
    }
  }

  // ----- Driving the mapper ------------------------------------------------

  /** The receiver polls once after each datagram. */
  function Drive(fragments: seq<(uint32, nat)>): (events: seq<Event>) {
    if fragments == [] then []
    else
      var n := |fragments| - 1;
      Drive(fragments[..n]) + [Deliver(fragments[n].0, fragments[n].1)] + [Poll]
  }

  lemma {:induction false} DriveDelivers(fragments: seq<(uint32, nat)>, f: (uint32, nat))
    requires f in fragments
    ensures Deliver(f.0, f.1) in Drive(fragments)
  {
    var n := |fragments| - 1;
    if f in fragments[..n] {
      DriveDelivers(fragments[..n], f);
    }
  }

  lemma StepTwice(msgs: Messages, events: seq<Event>, d: Event, p: Event)
    ensures Run(msgs, events + [d] + [p]) == Step(msgs, Step(msgs, Run(msgs, events), d), p)
  {
    assert (events + [d] + [p])[..|events| + 1] == events + [d];
    assert (events + [d])[..|events|] == events;
  }

  /** Driven this way, no complete message is left waiting. */
  lemma {:induction false} NoneLeftWaiting(msgs: Messages, fragments: seq<(uint32, nat)>, id: uint32)
    ensures !Ready(msgs, Run(msgs, Drive(fragments)), id)
  {
    if fragments != [] {
      var n := |fragments| - 1;
      var f := fragments[n];
      var events := Drive(fragments[..n]);
      var t := Run(msgs, events);
      var t1 := Step(msgs, t, Deliver(f.0, f.1));
      StepTwice(msgs, events, Deliver(f.0, f.1), Poll);
      forall j: uint32 | j != f.0 ensures !Ready(msgs, t1, j) {
        NoneLeftWaiting(msgs, fragments[..n], j);
      }
      if Ready(msgs, t1, f.0) {
        assert LeastReady(msgs, t1, f.0);
        StepPoll(msgs, t1, f.0);
      }
      assert id != f.0 ==> !Ready(msgs, t1, id);
    }
  }

  /** So a message all of whose fragments arrived has been released, or passed over for a larger id. */
  lemma WholeIsReleased(msgs: Messages, fragments: seq<(uint32, nat)>, id: uint32)
    requires id in msgs && msgs[id].Frames() > 0
    requires forall k: nat :: k < msgs[id].Frames() ==> (id, k) in fragments
    ensures var t := Run(msgs, Drive(fragments));
            exists i :: 0 <= i < |t.released| && t.released[i] >= id
  {
    var t := Run(msgs, Drive(fragments));
    if k: nat :| k < msgs[id].Frames() && k !in Got(t, id) {
      DriveDelivers(fragments, (id, k));
      NothingElseLost(msgs, Drive(fragments), id, k);
    } else {
      assert 0 in Got(t, id);
      NoneLeftWaiting(msgs, fragments, id);
    }
  }

  /** What one datagram does to the mapper, and what is handed on. */
  ghost predicate Handled(items: map<uint32, Assembly>, data: seq<byte>, mid: map<uint32, Assembly>,
                          delivered: bool, frame: seq<byte>, items': map<uint32, Assembly>)
    requires Datagram(data) ==> Fitting(At(items, Id(data)), data)
  {
    && Delivered(items, data, mid)
    && if delivered then exists id :: Released(mid, id, [], frame, items')
       else items' == mid && forall id :: !LeastComplete(mid, id)
  }

  /** The datagram callback: one addFragment, then one getFrame into an empty buffer. */
  method OnDatagram(mapper: UdpMapper, data: seq<byte>) returns (delivered: bool, frame: seq<byte>)
    requires mapper.Valid()
    requires Datagram(data) ==> Fitting(At(mapper.View(), Id(data)), data)
    modifies mapper, mapper.items.Values, set c | c in mapper.items.Values :: c.mBuffer
    ensures mapper.Valid() && mapper.Grown()
    ensures exists mid :: Handled(old(mapper.View()), data, mid, delivered, frame, mapper.View())
  {
    hide Fitting, Delivered, Released;
    ghost var items := mapper.View();
    var added := mapper.AddFragment(data);
    ghost var mid := mapper.View();
    hide UdpMapper.View, UdpMapper.Valid, Assembly.Complete;
    delivered, frame := mapper.GetFrame([]);
    assert Handled(items, data, mid, delivered, frame, mapper.View());
  }

  // ----- Sessions of the objects -------------------------------------------

  ghost predicate AllGenuine(msgs: Messages, events: seq<Event>) {
    forall i :: 0 <= i < |events| ==> Genuine(msgs, events[i])
  }

  lemma SendableAt(msgs: Messages, id: uint32, k: nat)
    requires AllSendable(msgs) && Genuine(msgs, Deliver(id, k))
    ensures msgs[id].Sendable() && k < 0x1_0000_0000
  {
  }

  lemma RunMore(msgs: Messages, events: seq<Event>, i: nat)
    requires i < |events|
    ensures Run(msgs, events[..i + 1]) == Step(msgs, Run(msgs, events[..i]), events[i])
  {
    assert events[..i + 1][..i] == events[..i];
  }

  lemma MirrorsNothing(msgs: Messages)
    requires AllSendable(msgs)
    ensures Mirrors(msgs, map[], Run(msgs, [])) && Payloads(msgs, Run(msgs, []).released) == []
  {
  }

  /** The sender's object makes a fragment. */
  method MakeOne(m: Message, id: uint32, k: uint32) returns (data: seq<byte>)
    requires m.Sendable() && k < m.Frames()
    ensures data == Fragment(id, m, k)
  {
    hide Fragment, Message.Frames;
    var fragmenter := new UdpFragmenter(m.payload, m.fragmentSize);
    data := fragmenter.MakeFragment(id, k);
  }

  /** It reaches the mapper. */
  method DeliverFragment(mapper: UdpMapper, data: seq<byte>, ghost id: uint32, ghost k: nat,
                         ghost msgs: Messages, ghost t: Tracker)
    requires mapper.Valid() && AllSendable(msgs) && Mirrors(msgs, mapper.View(), t)
    requires Genuine(msgs, Deliver(id, k)) && msgs[id].Sendable() && data == Fragment(id, msgs[id], k)
    modifies mapper, mapper.items.Values, set c | c in mapper.items.Values :: c.mBuffer
    ensures mapper.Valid() && mapper.Grown() && Mirrors(msgs, mapper.View(), Step(msgs, t, Deliver(id, k)))
  {
    ghost var items := mapper.View();
    GenuineFits(msgs, items, t, id, k);
    hide Fitting, Delivered, Mirrors, Step, Fragment, Message.Frames, Id, Datagram, UdpMapper.View, UdpMapper.Valid,
         AllSendable;
    hide UdpMapper.Grown, Message.Sendable, At;
    var added := mapper.AddFragment(data);
    DeliverMirrors(msgs, items, [], t, id, k, mapper.View(), []);
  }

  lemma GenuineFits(msgs: Messages, items: map<uint32, Assembly>, t: Tracker, id: uint32, k: nat)
    requires AllSendable(msgs) && Genuine(msgs, Deliver(id, k)) && Mirrors(msgs, items, t)
    ensures msgs[id].Sendable()
    ensures var d := Fragment(id, msgs[id], k); Datagram(d) && Id(d) == id && Fitting(At(items, id), d)
  {
    MirrorsAt(msgs, items, t, id);
    FragmentHeader(id, msgs[id], k);
    FragmentShape(id, msgs[id], k);
    FragmentFits(At(items, id), msgs[id], Got(t, id), id, k);
  }

  /** One poll of the mapper. */
  method PollMapper(mapper: UdpMapper, out: seq<byte>, ghost msgs: Messages, ghost t: Tracker) returns (out': seq<byte>)
    requires mapper.Valid() && AllSendable(msgs) && Mirrors(msgs, mapper.View(), t)
    requires out == Payloads(msgs, t.released)
    modifies mapper
    ensures mapper.Valid() && mapper.Grown() && Mirrors(msgs, mapper.View(), Step(msgs, t, Poll))
    ensures out' == Payloads(msgs, Step(msgs, t, Poll).released)
    ensures forall j :: j in mapper.items ==> j in old(mapper.items) && mapper.items[j] == old(mapper.items)[j]
  {
    ghost var items := mapper.View();
    var found;
    hide Mirrors, Step, Payloads, Released, LeastComplete, Assembly.Complete, AllSendable, UdpMapper.Valid;
    found, out' := mapper.GetFrame(out);
    hide UdpMapper.View;
    PollCalled(msgs, items, out, mapper.View(), out', found);
    PollMirrors(msgs, items, out, t, mapper.View(), out');
  }

  lemma PollCalled(msgs: Messages, items: map<uint32, Assembly>, out: seq<byte>,
                   items': map<uint32, Assembly>, out': seq<byte>, found: bool)
    requires AllSendable(msgs)
    requires found ==> exists id :: Released(items, id, out, out', items')
    requires !found ==> out' == out && items' == items && forall id :: id in items' ==> !items'[id].Complete()
    ensures Call(msgs, items, out, Poll, items', out')
  {
  }

  /** In every session of a sender's and a receiver's objects, over a network that delivers fragments in any order, with
      repeats and losses, the combiners hold exactly what has arrived and waits, and the output is the released
      payloads. */
  method Session(mapper: UdpMapper, msgs: Messages, events: seq<Event>) returns (out: seq<byte>)
    requires mapper.Valid() && mapper.items == map[] && AllSendable(msgs) && AllGenuine(msgs, events)
    modifies mapper
    ensures mapper.Valid() && Mirrors(msgs, mapper.View(), Run(msgs, events))
    ensures out == Payloads(msgs, Run(msgs, events).released)
  {
    hide AllSendable, Mirrors, Run, Step, UdpMapper.View, UdpMapper.Valid, Payloads, Message.Frames;
    EmptyView(mapper);
    MirrorsNothing(msgs);
    assert events[..0] == [];
    out := [];
    for i := 0 to |events|
      invariant mapper.Valid() && Mirrors(msgs, mapper.View(), Run(msgs, events[..i]))
      invariant out == Payloads(msgs, Run(msgs, events[..i]).released)
      invariant forall j :: j in mapper.items ==> fresh(mapper.items[j]) && fresh(mapper.items[j].mBuffer)
    {
      RunMore(msgs, events, i);
      ghost var t := Run(msgs, events[..i]);
      match events[i] {
        case Deliver(id, k) =>
          SendableAt(msgs, id, k);
          var data := MakeOne(msgs[id], id, k);
          DeliverFragment(mapper, data, id, k, msgs, t);
          DeliverReleases(msgs, t, id, k);
        case Poll =>
          out := PollMapper(mapper, out, msgs, t);
      }
    }
    assert events[..|events|] == events;
  }

  lemma EmptyView(mapper: UdpMapper)
    requires mapper.items == map[]
    ensures mapper.View() == map[]
  {
  }

  lemma DeliverReleases(msgs: Messages, t: Tracker, id: uint32, k: nat)
    ensures Step(msgs, t, Deliver(id, k)).released == t.released
  {
  }

  /** The payloads of the messages, one by one. */
  ghost function PayloadList(msgs: Messages, ids: seq<uint32>): seq<seq<byte>> {
    seq(|ids|, i requires 0 <= i < |ids| => if ids[i] in msgs then msgs[ids[i]].payload else [])
  }

  lemma ReleasedOnto(items: map<uint32, Assembly>, r: uint32, out: seq<byte>, frame: seq<byte>,
                     items': map<uint32, Assembly>)
    requires Released(items, r, [], frame, items')
    ensures Released(items, r, out, out + frame, items') && items[r].bytes == frame
  {
    assert [] + items[r].bytes == items[r].bytes;
  }

  lemma PollHandled(msgs: Messages, mid: map<uint32, Assembly>, t: Tracker, delivered: bool, frame: seq<byte>,
                    items': map<uint32, Assembly>)
    requires AllSendable(msgs) && Mirrors(msgs, mid, t)
    requires if delivered then exists id :: Released(mid, id, [], frame, items')
             else items' == mid && forall id :: !LeastComplete(mid, id)
    ensures var t' := Step(msgs, t, Poll);
            && Mirrors(msgs, items', t')
            && PayloadList(msgs, t'.released) == PayloadList(msgs, t.released) + if delivered then [frame] else []
  {
    if delivered {
      var r :| Released(mid, r, [], frame, items');
      hide Released, Mirrors, Step;
      PollReleased(msgs, mid, t, r, frame, items');
    } else {
      LeastIsLeast(msgs, mid, t);
      hide LeastComplete, Ready, Mirrors;
    }
  }

  lemma PollReleased(msgs: Messages, mid: map<uint32, Assembly>, t: Tracker, r: uint32, frame: seq<byte>,
                     items': map<uint32, Assembly>)
    requires AllSendable(msgs) && Mirrors(msgs, mid, t) && Released(mid, r, [], frame, items')
    ensures var t' := Step(msgs, t, Poll);
            Mirrors(msgs, items', t') && PayloadList(msgs, t'.released) == PayloadList(msgs, t.released) + [frame]
  {
    var out := Payloads(msgs, t.released);
    LeastIsLeast(msgs, mid, t);
    ReleasedOnto(mid, r, out, frame, items');
    ReleasedMirrors(msgs, mid, out, t, r, items', out + frame);
    ReadyMeaning(msgs, mid, t, r);
    hide LeastComplete, LeastReady, Ready, Mirrors, Step, Assembly.Complete, Payloads;
    StepPoll(msgs, t, r);
  }

  lemma DriveMore(fragments: seq<(uint32, nat)>, msgs: Messages, i: nat)
    requires i < |fragments|
    ensures Run(msgs, Drive(fragments[..i + 1]))
         == Step(msgs, Step(msgs, Run(msgs, Drive(fragments[..i])), Deliver(fragments[i].0, fragments[i].1)), Poll)
  {
    assert fragments[..i + 1][..i] == fragments[..i];
    StepTwice(msgs, Drive(fragments[..i]), Deliver(fragments[i].0, fragments[i].1), Poll);
  }

  /** A datagram that a sender made reaches the callback. */
  method HandleFragment(mapper: UdpMapper, data: seq<byte>, ghost id: uint32, ghost k: nat,
                        ghost msgs: Messages, ghost t: Tracker) returns (delivered: bool, frame: seq<byte>)
    requires mapper.Valid() && AllSendable(msgs) && Mirrors(msgs, mapper.View(), t)
    requires Genuine(msgs, Deliver(id, k)) && msgs[id].Sendable() && data == Fragment(id, msgs[id], k)
    modifies mapper, mapper.items.Values, set c | c in mapper.items.Values :: c.mBuffer
    ensures mapper.Valid() && mapper.Grown()
    ensures var t' := Step(msgs, Step(msgs, t, Deliver(id, k)), Poll);
            && Mirrors(msgs, mapper.View(), t')
            && PayloadList(msgs, t'.released) == PayloadList(msgs, t.released) + if delivered then [frame] else []
  {
    ghost var items := mapper.View();
    GenuineFits(msgs, items, t, id, k);
    DeliverReleases(msgs, t, id, k);
    hide Fitting, Delivered, Mirrors, Step, Fragment, Message.Frames, Id, Datagram, UdpMapper.View, UdpMapper.Valid;
    hide AllSendable, Released, LeastComplete, PayloadList, UdpMapper.Grown, Message.Sendable, At, Handled;
    delivered, frame := OnDatagram(mapper, data);
    HandledMirrors(msgs, items, t, id, k, data, delivered, frame, mapper.View());
  }

  lemma HandledMirrors(msgs: Messages, items: map<uint32, Assembly>, t: Tracker, id: uint32, k: nat, data: seq<byte>,
                       delivered: bool, frame: seq<byte>, items': map<uint32, Assembly>)
    requires AllSendable(msgs) && Mirrors(msgs, items, t) && Genuine(msgs, Deliver(id, k)) && msgs[id].Sendable()
    requires data == Fragment(id, msgs[id], k) && (Datagram(data) ==> Fitting(At(items, Id(data)), data))
    requires exists mid :: Handled(items, data, mid, delivered, frame, items')
    ensures var t' := Step(msgs, Step(msgs, t, Deliver(id, k)), Poll);
            && Mirrors(msgs, items', t')
            && PayloadList(msgs, t'.released) == PayloadList(msgs, t.released) + if delivered then [frame] else []
  {
    DeliverReleases(msgs, t, id, k);
    hide Fitting, Delivered, Mirrors, Step, Fragment, Message.Frames, Id, Datagram, AllSendable, Released,
         LeastComplete;
    hide PayloadList, Message.Sendable, At;
    var mid :| Handled(items, data, mid, delivered, frame, items');
    DeliverMirrors(msgs, items, [], t, id, k, mid, []);
    PollHandled(msgs, mid, Step(msgs, t, Deliver(id, k)), delivered, frame, items');
  }

  /** Driven datagram by datagram, the mapper has handed over the released payloads, one by one, and none of its
      combiners is left holding a complete message. */
  method Driven(mapper: UdpMapper, msgs: Messages, fragments: seq<(uint32, nat)>) returns (frames: seq<seq<byte>>)
    requires mapper.Valid() && mapper.items == map[] && AllSendable(msgs)
    requires forall i :: 0 <= i < |fragments| ==> Genuine(msgs, Deliver(fragments[i].0, fragments[i].1))
    modifies mapper
    ensures mapper.Valid() && Mirrors(msgs, mapper.View(), Run(msgs, Drive(fragments)))
    ensures frames == PayloadList(msgs, Run(msgs, Drive(fragments)).released)
    ensures forall id :: id in mapper.items ==> !mapper.items[id].View().Complete()
  {
    hide AllSendable, Mirrors, Run, Step, UdpMapper.View, UdpMapper.Valid, PayloadList, Message.Frames,
         Assembly.Complete;
    EmptyView(mapper);
    MirrorsNothing(msgs);
    NoPayloads(msgs);
    assert fragments[..0] == [];
    frames := [];
    for i := 0 to |fragments|
      invariant mapper.Valid() && Mirrors(msgs, mapper.View(), Run(msgs, Drive(fragments[..i])))
      invariant frames == PayloadList(msgs, Run(msgs, Drive(fragments[..i])).released)
      invariant forall j :: j in mapper.items ==> fresh(mapper.items[j]) && fresh(mapper.items[j].mBuffer)
    {
      hide Drive;
      DriveMore(fragments, msgs, i);
      var id, k := fragments[i].0, fragments[i].1;
      ghost var t := Run(msgs, Drive(fragments[..i]));
      SendableAt(msgs, id, k);
      var data := MakeOne(msgs[id], id, k);
      var delivered, frame := HandleFragment(mapper, data, id, k, msgs, t);
      frames := frames + if delivered then [frame] else [];
    }
    assert fragments[..|fragments|] == fragments;
    NoneComplete(msgs, fragments, mapper.View());
    ViewIs(mapper);
  }

  lemma NoPayloads(msgs: Messages)
    ensures PayloadList(msgs, Run(msgs, []).released) == []
  {
  }

  lemma ViewIs(mapper: UdpMapper)
    ensures mapper.View().Keys == mapper.items.Keys
    ensures forall id :: id in mapper.items ==> mapper.View()[id] == mapper.items[id].View()
  {
  }

  lemma NoneComplete(msgs: Messages, fragments: seq<(uint32, nat)>, items: map<uint32, Assembly>)
    requires AllSendable(msgs) && Mirrors(msgs, items, Run(msgs, Drive(fragments)))
    ensures forall id :: id in items ==> !items[id].Complete()
  {
    hide Mirrors, Run, Drive, Ready, Assembly.Complete, AllSendable;
    var t := Run(msgs, Drive(fragments));
    forall id | id in items ensures !items[id].Complete() {
      NoneLeftWaiting(msgs, fragments, id);
      ReadyMeaning(msgs, items, t, id);
    }
  }
}
