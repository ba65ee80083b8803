// Whole conversations over TCP: any list of packets written, any split of the bytes over reads and ticks.

module TcpRuns {
  import opened Bytes
  import opened TcpFraming

  predicate Sized(packets: seq<seq<byte>>) {
    forall p :: p in packets ==> |p| < 0x1_0000_0000
  }

  /** The bytes that writing the packets puts on the wire. */
  function Wire(packets: seq<seq<byte>>): seq<byte>
    requires Sized(packets)
  {
    if packets == [] then [] else Frame(packets[0]) + Wire(packets[1..])
  }

  ghost predicate Deliverable(packets: seq<seq<byte>>) {
    forall p :: p in packets ==> |p| <= LARGEST_BUCKET
  }

  // ----- What a scan makes of written frames -------------------------------

  lemma FrameScan(p: seq<byte>, y: seq<byte>)
    requires |p| <= LARGEST_BUCKET
    ensures Scan(Frame(p) + y) == Scan(y).After([p])
  {
    HeaderAccepted(|p|);
    assert Frame(p)[..HEADER_SIZE] == Header(|p|) && Frame(p)[HEADER_SIZE..] == p;
    assert Frame(p)[14..18] == PutU32(|p|);
    U32RoundTrip(|p|, Frame(p), 14);
    hide Accepted, Header, Scan, PutU32, GetU32;
    ScanFrame(Frame(p), p, y);
  }

  lemma LargeFrameScan(p: seq<byte>, y: seq<byte>)
    requires LARGEST_BUCKET < |p| < 0x1_0000_0000
    ensures Scan(Frame(p) + y) == Scanned([], Frame(p) + y, true)
  {
    HeaderAccepted(|p|);
    assert (Frame(p) + y)[..HEADER_SIZE] == Header(|p|);
    hide Accepted, Header;
  }

  lemma PartFrameScan(p: seq<byte>, n: nat)
    requires |p| <= LARGEST_BUCKET && n < |Frame(p)|
    ensures Scan(Frame(p)[..n]) == Scanned([], Frame(p)[..n], false)
  {
    var b := Frame(p)[..n];
    if n >= HEADER_SIZE {
      HeaderAccepted(|p|);
      assert b[..HEADER_SIZE] == Header(|p|) && b[14..18] == PutU32(|p|);
      U32RoundTrip(|p|, b, 14);
      hide Accepted, Header;
    }
  }

  /** b scans to the first k packets and the part of a frame that follows them; no byte is lost or made up. */
  ghost predicate ScansTo(packets: seq<seq<byte>>, b: seq<byte>, k: nat) {
    && k <= |packets| && Sized(packets[..k])
    && !Scan(b).bad && Scan(b).frames == packets[..k]
    && Wire(packets[..k]) + Scan(b).rest == b
  }

  lemma WireMore(p: seq<byte>, rest: seq<seq<byte>>, k: nat)
    requires |p| < 0x1_0000_0000 && k <= |rest| && Sized(rest[..k])
    ensures ([p] + rest)[..k + 1] == [p] + rest[..k]
    ensures Sized([p] + rest[..k])
    ensures Wire([p] + rest[..k]) == Frame(p) + Wire(rest[..k])
  {
    hide Frame;
    assert ([p] + rest[..k])[1..] == rest[..k];
  }

  lemma ScansToMore(p: seq<byte>, rest: seq<seq<byte>>, b: seq<byte>, k: nat)
    requires |p| <= LARGEST_BUCKET && ScansTo(rest, b, k)
    ensures ScansTo([p] + rest, Frame(p) + b, k + 1)
  {
    hide Scan, Frame, Wire, Sized;
    FrameScan(p, b);
    WireMore(p, rest, k);
    Associate(Frame(p), Wire(rest[..k]), Scan(b).rest);
  }

  lemma Associate(a: seq<byte>, b: seq<byte>, c: seq<byte>)
    ensures a + b + c == a + (b + c)
  {
  }

  lemma ScansToPart(packets: seq<seq<byte>>, n: nat)
    requires packets != [] && |packets[0]| <= LARGEST_BUCKET && n < |Frame(packets[0])|
    ensures ScansTo(packets, Frame(packets[0])[..n], 0)
  {
    PartFrameScan(packets[0], n);
    hide Scan, Frame;
    assert packets[..0] == [] && Wire([]) == [];
  }

  lemma Slices(a: seq<byte>, b: seq<byte>, n: nat)
    requires n <= |a| + |b|
    ensures (a + b)[..n] == if n < |a| then a[..n] else a + b[..n - |a|]
  {
  }

  /** Every prefix of what was written scans to some of the first packets. */
  lemma {:induction false} PrefixScan(packets: seq<seq<byte>>, n: nat) returns (k: nat)
    requires Deliverable(packets) && n <= |Wire(packets)|
    ensures ScansTo(packets, Wire(packets)[..n], k)
  {
    if packets == [] {
      k := 0;
      assert Wire(packets)[..n] == [];
    } else {
      var p, rest := packets[0], packets[1..];
      DeliverableMore(packets);
      WireOf(packets);
      hide ScansTo, Frame, Wire, Deliverable, Sized, Scan;
      assert packets == [p] + rest;
      Slices(Frame(p), Wire(rest), n);
      if n < |Frame(p)| {
        k := 0;
        ScansToPart(packets, n);
      } else {
        k := PrefixScan(rest, n - |Frame(p)|);
        ScansToMore(p, rest, Wire(rest)[..n - |Frame(p)|], k);
        k := k + 1;
      }
    }
  }

  lemma WireOf(packets: seq<seq<byte>>)
    requires packets != [] && Deliverable(packets)
    ensures Deliverable(packets[1..]) && Sized(packets[1..]) && |packets[0]| < 0x1_0000_0000
    ensures Wire(packets) == Frame(packets[0]) + Wire(packets[1..])
  {
    DeliverableMore(packets);
    hide Frame;
  }

  lemma DeliverableMore(packets: seq<seq<byte>>)
    requires packets != []
    ensures Deliverable(packets) <==> |packets[0]| <= LARGEST_BUCKET && Deliverable(packets[1..])
    ensures Sized(packets) ==> |packets[0]| < 0x1_0000_0000 && Sized(packets[1..])
  {
    assert packets == [packets[0]] + packets[1..];
    assert forall q :: q in packets[1..] ==> q in packets;
  }

  /** All of it is delivered exactly when no packet is too large: the receiver refuses the first one that is. */
  lemma {:induction false} WireScan(packets: seq<seq<byte>>)
    requires Sized(packets)
    ensures !Scan(Wire(packets)).bad <==> Deliverable(packets)
    ensures Deliverable(packets) ==> Scan(Wire(packets)) == Scanned(packets, [], false)
  {
    if packets != [] {
      var p, rest := packets[0], packets[1..];
      DeliverableMore(packets);
      WireScan(rest);
      hide Scan, Frame, Deliverable, Sized;
      assert packets == [p] + rest;
      if |p| <= LARGEST_BUCKET {
        FrameScan(p, Wire(rest));
      } else {
        LargeFrameScan(p, Wire(rest));
      }
    }
  }

  /** One byte too many. */
  lemma OversizeExample()
    ensures var p: seq<byte> := seq(51201, i => 0); Sized([p]) && Scan(Wire([p])).bad
  {
    var p: seq<byte> := seq(51201, i => 0);
    assert p in [p];
    hide Scan, Wire;
    WireScan([p]);
  }

  // ----- Ticks -------------------------------------------------------------

  lemma CutMore(b: seq<byte>, end: nat, f: seq<byte>, frames: seq<seq<byte>>, rest: seq<byte>)
    requires end <= |b| && IsFrame(b[..end], f) && Cut(b[end..], frames, rest)
    ensures Cut(b, [f] + frames, rest)
  {
    hide Scan, IsFrame;
    forall y: seq<byte> ensures Scan(b + y) == Scan(rest + y).After([f] + frames) {
      assert b + y == b[..end] + (b[end..] + y);
      ScanFrame(b[..end], f, b[end..] + y);
      assert Scan(b[end..] + y) == Scan(rest + y).After(frames);
      assert [f] + (frames + Scan(rest + y).frames) == [f] + frames + Scan(rest + y).frames;
    }
  }

  /** A scan that was not refused can be taken up where it left off. */
  lemma {:induction false} ScanCuts(b: seq<byte>)
    requires !Scan(b).bad
    ensures Cut(b, Scan(b).frames, Scan(b).rest)
    decreases |b|
  {
    hide Accepted, Cut, IsFrame;
    if |b| < HEADER_SIZE || |b| < HEADER_SIZE + GetU32(b, 14) {
      CutStart(b);
    } else {
      var end := HEADER_SIZE + GetU32(b, 14);
      ScanCuts(b[end..]);
      FirstFrame(b, end);
      CutMore(b, end, b[HEADER_SIZE..end], Scan(b[end..]).frames, Scan(b[end..]).rest);
    }
  }

  lemma FirstFrame(b: seq<byte>, end: nat)
    requires HEADER_SIZE <= |b| && Accepted(b[..HEADER_SIZE]) && end == HEADER_SIZE + GetU32(b, 14) <= |b|
    ensures IsFrame(b[..end], b[HEADER_SIZE..end])
  {
    assert b[..end][..HEADER_SIZE] == b[..HEADER_SIZE] && b[..end][HEADER_SIZE..] == b[HEADER_SIZE..end];
    hide Accepted;
  }

  /** Since position `base`, a frame boundary, the server has delivered and holds what the bytes read mean. */
  ghost predicate InStep(server: O3DSServer, base: nat, first: nat)
    reads server, server.mTcp, server.mBuffer
  {
    && server.Valid() && server.mState != SYNC && base <= server.mTcp.pos && first <= |server.delivered|
    && Scan(server.mTcp.stream[base..server.mTcp.pos]) == Scanned(server.delivered[first..], server.Held(), false)
  }

  /** Scanning b and then, from what b left over, x, is scanning b + x. */
  lemma ScanOn(b: seq<byte>, x: seq<byte>, s: Scanned)
    requires Scan(b) == s && !s.bad
    ensures Scan(b + x) == Scan(s.rest + x).After(s.frames)
  {
    ScanCuts(b);
    hide Scan;
  }

  /** What a tick does, from its contract, keeps in step. */
  lemma StepOn(stream: seq<byte>, base: nat, at: nat, pos: nat, s: Scanned, t: Scanned)
    requires base <= at <= pos <= |stream| && Scan(stream[base..at]) == s && !s.bad
    requires !Scan(stream[base..]).bad
    requires !Scan(s.rest + stream[at..]).bad ==> Scan(s.rest + stream[at..pos]) == t && !t.bad
    ensures Scan(stream[base..pos]) == t.After(s.frames)
    ensures !Scan(s.rest + stream[at..]).bad
  {
    ScanOn(stream[base..at], stream[at..|stream|], s);
    ScanOn(stream[base..at], stream[at..pos], s);
    hide Scan;
    Join(stream, base, at, |stream|);
    Join(stream, base, at, pos);
    assert stream[base..] == stream[base..|stream|] && stream[at..] == stream[at..|stream|];
  }

  /** Looking for the magic, with nothing left to read. */
  ghost predicate Waiting(server: O3DSServer)
    reads server, server.mTcp, server.mBuffer
  {
    server.Valid() && server.mState == SYNC && server.mTcp.pos == |server.mTcp.stream|
  }

  ghost predicate HasMagic(bytes: seq<byte>) {
    exists i: nat :: O3DSServer.FoundAt(bytes, 0, i, |bytes|)
  }

  /** Bytes arrive and the server ticks. In step it stays in step, unless the bytes that have arrived hold a header
      that the receiver refuses. Waiting, it gets in step if the bytes start with the magic; it loses a part of the
      magic; and without a magic it delivers nothing. */
  method ArriveAndTick(server: O3DSServer, bytes: seq<byte>, ghost base: nat, ghost first: nat)
    requires server.Valid() && base <= |server.mTcp.stream|
    modifies server, server.mTcp, server.mBuffer
    ensures server.Valid() && (server.mBuffer == old(server.mBuffer) || fresh(server.mBuffer))
    ensures server.mTcp.stream == old(server.mTcp.stream) + bytes && old(server.delivered) <= server.delivered
    ensures old(server.mTcp.failures) <= server.mTcp.failures
    ensures server.mState != SYNC && server.mTcp.failures == old(server.mTcp.failures) ==>
              server.mTcp.pos == |server.mTcp.stream|
    ensures old(InStep(server, base, first)) && !Scan(old(server.mTcp.stream)[base..] + bytes).bad ==>
              InStep(server, base, first)
    ensures old(Waiting(server)) && Magic() <= bytes && !Scan(bytes).bad
            && server.mTcp.failures == old(server.mTcp.failures) ==>
              InStep(server, |old(server.mTcp.stream)|, |old(server.delivered)|)
    ensures old(Waiting(server)) && bytes < Magic() ==>
              server.mState == SYNC && server.delivered == old(server.delivered)
              && (server.mTcp.failures == old(server.mTcp.failures) ==> Waiting(server))
    ensures old(Waiting(server)) && !HasMagic(bytes) ==>
              server.mState == SYNC && server.delivered == old(server.delivered)
  {
    hide Scan, Carves, Accepted, Magic, HasMagic, O3DSServer.Continued, O3DSServer.Sought, O3DSServer.Settled;
    ghost var at, before, held, state := server.mTcp.pos, server.mTcp.stream, server.Held(), server.mState;
    server.mTcp.Arrive(bytes);
    ghost var stream := server.mTcp.stream;
    assert stream[..at] == before[..at];
    server.Tick();
    ghost var pos, failed := server.mTcp.pos, server.mTcp.failures > old(server.mTcp.failures);
    if old(InStep(server, base, first)) && !Scan(before[base..] + bytes).bad {
      StillInStep(before, bytes, stream, base, at, pos, first, held, old(server.delivered), server.mState,
                  server.Held(), server.delivered);
    }
    if old(Waiting(server)) {
      Seeking(before, bytes, stream, pos, old(server.delivered), failed, server.mState, server.Held(),
              server.delivered);
    }
  }

  lemma StillInStep(before: seq<byte>, bytes: seq<byte>, stream: seq<byte>, base: nat, at: nat, pos: nat, first: nat,
                    held: seq<byte>, was: seq<seq<byte>>, state: Phase, held': seq<byte>, now: seq<seq<byte>>)
    requires base <= at <= |before| && at <= pos <= |stream| && stream == before + bytes && first <= |was| && was <= now
    requires Scan(before[base..at]) == Scanned(was[first..], held, false) && !Scan(before[base..] + bytes).bad
    requires O3DSServer.Continued(held, stream, at, pos, was, state, held', now)
    ensures state != SYNC && Scan(stream[base..pos]) == Scanned(now[first..], held', false)
  {
    hide Scan;
    assert stream[base..at] == before[base..at] && stream[base..] == before[base..] + bytes;
    var s, t := Scanned(was[first..], held, false), Scanned(now[|was|..], held', false);
    StepOn(stream, base, at, pos, s, t);
    assert now[first..] == s.frames + t.frames;
  }

  lemma Seeking(before: seq<byte>, bytes: seq<byte>, stream: seq<byte>, pos: nat, was: seq<seq<byte>>, failed: bool,
                state: Phase, held: seq<byte>, now: seq<seq<byte>>)
    requires stream == before + bytes && |before| <= pos <= |stream| && was <= now
    requires O3DSServer.Sought(stream, |before|, pos, was, failed, state, held, now)
    ensures Magic() <= bytes && !Scan(bytes).bad && !failed ==>
              state != SYNC && Scan(stream[|before|..pos]) == Scanned(now[|was|..], held, false)
    ensures bytes < Magic() ==> state == SYNC && now == was && (!failed ==> pos == |stream|)
    ensures !HasMagic(bytes) ==> state == SYNC && now == was
  {
    hide Scan, Magic;
    assert stream[|before|..] == bytes;
    if i: nat :| O3DSServer.FoundAt(stream, |before|, i, pos) {
      assert stream[i..i + 14] == bytes[i - |before|..i - |before| + 14];
      assert O3DSServer.FoundAt(bytes, 0, i - |before|, |bytes|);
    }
  }

  function Concat(chunks: seq<seq<byte>>): seq<byte> {
    if chunks == [] then [] else Concat(chunks[..|chunks| - 1]) + chunks[|chunks| - 1]
  }

  /** In step since `base`, with all that has arrived since. */
  ghost predicate Going(server: O3DSServer, base: nat, was: seq<seq<byte>>, sofar: seq<byte>)
    reads server, server.mTcp, server.mBuffer
  {
    && base <= |server.mTcp.stream| && server.mTcp.stream[base..] == sofar
    && InStep(server, base, |was|) && was <= server.delivered
  }

  method KeepGoing(server: O3DSServer, bytes: seq<byte>, ghost base: nat, ghost was: seq<seq<byte>>,
                   ghost sofar: seq<byte>)
    requires Going(server, base, was, sofar) && !Scan(sofar + bytes).bad
    modifies server, server.mTcp, server.mBuffer
    ensures Going(server, base, was, sofar + bytes) && (server.mBuffer == old(server.mBuffer) || fresh(server.mBuffer))
    ensures old(server.mTcp.failures) <= server.mTcp.failures
    ensures server.mTcp.failures == old(server.mTcp.failures) ==> server.mTcp.pos == |server.mTcp.stream|
  {
    hide Scan, Magic, HasMagic;
    ghost var before := server.mTcp.stream;
    ArriveAndTick(server, bytes, base, |was|);
    Tail(before, bytes, base);
  }

  /** The host's loop: bytes arrive, in any chunks, and each time the server ticks. From a frame boundary, whatever
      the chunks and whatever each Recv returns, the packets delivered are a prefix of those written, and their frames,
      the buffer and the unread bytes are always together what was sent. As long as no Recv fails nothing is left
      unread, and once all has been sent all has been delivered. */
  method Session(server: O3DSServer, chunks: seq<seq<byte>>, ghost packets: seq<seq<byte>>) returns (ghost k: nat)
    requires server.Valid() && server.mState == HEADER && server.mPtr == 0
    requires server.mTcp.pos == |server.mTcp.stream|
    requires Deliverable(packets) && Concat(chunks) <= Wire(packets)
    modifies server, server.mTcp, server.mBuffer
    ensures server.Valid() && server.mState != SYNC && old(server.mTcp.failures) <= server.mTcp.failures
    ensures k <= |packets| && Sized(packets[..k])
    ensures server.delivered == old(server.delivered) + packets[..k]
    ensures Wire(packets[..k]) + server.Held() + server.mTcp.stream[server.mTcp.pos..] == Concat(chunks)
    ensures server.mTcp.failures == old(server.mTcp.failures) ==> server.mTcp.pos == |server.mTcp.stream|
    ensures server.mTcp.failures == old(server.mTcp.failures) && Concat(chunks) == Wire(packets) ==> k == |packets|
  {
    ghost var base, was := server.mTcp.pos, server.delivered;
    ConcatNothing(chunks);
    StartGoing(server);
    hide Scan, Carves, Accepted, Concat, Wire, Deliverable, Sized, Magic, Going;
    var i := 0;
    while i < |chunks|
      invariant i <= |chunks| && Going(server, base, was, Concat(chunks[..i]))
      invariant server.mBuffer == old(server.mBuffer) || fresh(server.mBuffer)
      invariant old(server.mTcp.failures) <= server.mTcp.failures
      invariant server.mTcp.failures == old(server.mTcp.failures) ==> server.mTcp.pos == |server.mTcp.stream|
    {
      ArrivedScan(packets, chunks, i);
      KeepGoing(server, chunks[i], base, was, Concat(chunks[..i]));
      i := i + 1;
    }
    assert chunks[..i] == chunks;
    k := SessionEnd(server, base, was, Concat(chunks), packets);
  }

  lemma StartGoing(server: O3DSServer)
    requires server.Valid() && server.mState == HEADER && server.mPtr == 0
    requires server.mTcp.pos == |server.mTcp.stream|
    ensures Going(server, server.mTcp.pos, server.delivered, [])
  {
    hide Scan, Carves, Accepted;
    EmptyScan();
    ghost var pos := server.mTcp.pos;
    assert server.mTcp.stream[pos..] == [] && server.mTcp.stream[pos..pos] == [] && server.Held() == [];
    assert server.delivered[|server.delivered|..] == [];
  }

  lemma SessionEnd(server: O3DSServer, base: nat, was: seq<seq<byte>>, sent: seq<byte>, packets: seq<seq<byte>>)
    returns (k: nat)
    requires Going(server, base, was, sent) && Deliverable(packets) && sent <= Wire(packets)
    ensures k <= |packets| && Sized(packets[..k])
    ensures server.Valid() && server.mState != SYNC && server.mTcp.pos <= |server.mTcp.stream|
    ensures server.delivered == was + packets[..k]
    ensures Wire(packets[..k]) + server.Held() + server.mTcp.stream[server.mTcp.pos..] == sent
    ensures server.mTcp.pos == |server.mTcp.stream| && sent == Wire(packets) ==> k == |packets|
  {
    hide Scan, Carves, Accepted, Wire, Deliverable, Sized, Magic;
    k := Accounted(packets, sent, server.mTcp.stream, base, server.mTcp.pos);
    assert server.delivered == was + server.delivered[|was|..];
    AllArrived(packets, server.mTcp.stream, base, server.mTcp.pos, k);
  }

  lemma AllArrived(packets: seq<seq<byte>>, stream: seq<byte>, base: nat, pos: nat, k: nat)
    requires Deliverable(packets) && base <= pos <= |stream| && k <= |packets|
    requires Scan(stream[base..pos]).frames == packets[..k]
    ensures pos == |stream| && stream[base..] == Wire(packets) ==> k == |packets|
  {
    WireScan(packets);
    hide Scan, Wire, Deliverable;
    assert stream[base..|stream|] == stream[base..];
  }

  // ----- From the start ----------------------------------------------------

  lemma WireStarts(packets: seq<seq<byte>>, bytes: seq<byte>)
    requires Deliverable(packets) && bytes <= Wire(packets)
    ensures if |bytes| >= 14 then Magic() <= bytes else bytes < Magic()
    ensures !Scan(bytes).bad
  {
    var k := PrefixScan(packets, |bytes|);
    hide Scan, Magic, PutU32;
    if packets != [] {
      assert packets[0] in packets;
      assert Wire(packets)[..14] == Magic();
      assert bytes == Wire(packets)[..|bytes|];
      if |bytes| >= 14 {
        assert bytes[..14] == Magic();
      } else {
        assert bytes == Magic()[..|bytes|];
      }
    } else {
      assert bytes == [];
    }
  }

  /** The first tick to see any of the stream gets the server in step exactly when it sees the whole magic; otherwise
      what it has seen is lost. */
  method FirstTick(server: O3DSServer, bytes: seq<byte>, ghost packets: seq<seq<byte>>)
    requires Waiting(server) && Deliverable(packets) && bytes <= Wire(packets)
    modifies server, server.mTcp, server.mBuffer
    ensures server.Valid() && (server.mBuffer == old(server.mBuffer) || fresh(server.mBuffer))
    ensures server.mTcp.failures == old(server.mTcp.failures) ==>
              && server.mTcp.pos == |server.mTcp.stream| == |old(server.mTcp.stream)| + |bytes|
              && (server.mState != SYNC <==> |bytes| >= 14)
              && (server.mState != SYNC ==> InStep(server, |old(server.mTcp.stream)|, |old(server.delivered)|))
    ensures |bytes| < 14 ==> server.mState == SYNC && server.delivered == old(server.delivered)
  {
    hide Scan, Carves, Accepted, Wire, Deliverable, Magic, HasMagic;
    WireStarts(packets, bytes);
    ArriveAndTick(server, bytes, 0, 0);
  }

  /** A magic that comes in two ticks is missed: the first m bytes of the frame are lost with the first tick, and then
      nothing is delivered of a packet that does not itself hold a magic. */
  method SplitMagic(server: O3DSServer, packet: seq<byte>, m: nat)
    requires Waiting(server) && |packet| <= LARGEST_BUCKET && 0 < m < 14 && !HasMagic(PutU32(|packet|) + packet)
    modifies server, server.mTcp, server.mBuffer
    ensures server.mTcp.failures == old(server.mTcp.failures) ==>
              server.mState == SYNC && server.delivered == old(server.delivered)
              && server.mTcp.stream == old(server.mTcp.stream) + Frame(packet)
  {
    hide Scan, Carves, Accepted, Magic, HasMagic, Frame, PutU32;
    FrameParts(packet, m);
    ArriveAndTick(server, Frame(packet)[..m], 0, 0);
    ArriveAndTick(server, Frame(packet)[m..], 0, 0);
    assert Frame(packet)[..m] + Frame(packet)[m..] == Frame(packet);
    assert old(server.mTcp.stream) + Frame(packet)[..m] + Frame(packet)[m..]
        == old(server.mTcp.stream) + (Frame(packet)[..m] + Frame(packet)[m..]);
  }

  lemma FrameParts(packet: seq<byte>, m: nat)
    requires |packet| <= LARGEST_BUCKET && 0 < m < 14 && !HasMagic(PutU32(|packet|) + packet)
    ensures m <= |Frame(packet)| && Frame(packet)[..m] < Magic() && !HasMagic(Frame(packet)[m..])
  {
    var rest := Frame(packet)[m..];
    assert Frame(packet) == Magic() + (PutU32(|packet|) + packet);
    forall i: nat ensures !O3DSServer.FoundAt(rest, 0, i, |rest|) {
      NoMagicAt(packet, m, i);
    }
  }

  lemma NoMagicAt(packet: seq<byte>, m: nat, i: nat)
    requires |packet| <= LARGEST_BUCKET && 0 < m < 14 && !HasMagic(PutU32(|packet|) + packet)
    ensures var rest := Frame(packet)[m..]; !O3DSServer.FoundAt(rest, 0, i, |rest|)
  {
    var rest, body := Frame(packet)[m..], PutU32(|packet|) + packet;
    assert Frame(packet) == Magic() + body;
    MagicBytes();
    hide PutU32, Magic, Frame;
    if i + 14 <= |rest| {
      if m + i < 14 {
        TailAt(Magic(), body, m, i);
        assert rest[i..i + 14][0] == rest[i];
      } else {
        TailSlice(Magic(), body, m, i);
        assert !O3DSServer.FoundAt(body, 0, m + i - 14, |body|);
      }
    }
  }

  lemma MagicBytes()
    ensures Magic()[0] == 0 && forall i :: 0 < i < 14 ==> Magic()[i] != 0
  {
  }

  lemma TailAt(a: seq<byte>, b: seq<byte>, m: nat, i: nat)
    requires m + i < |a|
    ensures (a + b)[m..][i] == a[m + i]
  {
  }

  lemma TailSlice(a: seq<byte>, b: seq<byte>, m: nat, i: nat)
    requires |a| == 14 <= m + i && m < 14 && m + i + 14 <= |a| + |b|
    ensures (a + b)[m..][i..i + 14] == b[m + i - 14..m + i]
  {
  }

  lemma SmallPacketQuiet(packet: seq<byte>)
    requires |packet| < 10
    ensures !HasMagic(PutU32(|packet|) + packet)
  {
  }

  /** A small packet has no room for a magic, so it is always lost in this way. */
  method SmallPacketLost(server: O3DSServer, packet: seq<byte>, m: nat)
    requires Waiting(server) && |packet| < 10 && 0 < m < 14
    modifies server, server.mTcp, server.mBuffer
    ensures server.mTcp.failures == old(server.mTcp.failures) ==>
              server.mState == SYNC && server.delivered == old(server.delivered)
              && server.mTcp.stream == old(server.mTcp.stream) + Frame(packet)
  {
    SmallPacketQuiet(packet);
    hide Scan, Carves, Accepted, Magic, HasMagic, Frame, PutU32;
    SplitMagic(server, packet, m);
  }

  /** The first bytes to arrive hold the whole magic. */
  ghost predicate Opens(chunks: seq<seq<byte>>) {
    forall i :: 0 <= i < |chunks| && Concat(chunks[..i]) == [] && chunks[i] != [] ==> |chunks[i]| >= 14
  }

  /** Waiting until the first byte, then in step, with nothing unread. */
  ghost predicate Started(server: O3DSServer, base: nat, was: seq<seq<byte>>, sofar: seq<byte>)
    reads server, server.mTcp, server.mBuffer
  {
    && |server.mTcp.stream| == base + |sofar|
    && if sofar == [] then Waiting(server) && server.delivered == was
       else Going(server, base, was, sofar) && server.mTcp.pos == |server.mTcp.stream|
  }

  method FreshTick(server: O3DSServer, bytes: seq<byte>, ghost base: nat, ghost was: seq<seq<byte>>,
                   ghost sofar: seq<byte>)
    requires server.Valid() && base <= |server.mTcp.stream| && !Scan(sofar + bytes).bad
    requires sofar == [] ==> if bytes == [] then bytes < Magic() else Magic() <= bytes
    modifies server, server.mTcp, server.mBuffer
    ensures server.Valid() && (server.mBuffer == old(server.mBuffer) || fresh(server.mBuffer))
    ensures server.mTcp.stream == old(server.mTcp.stream) + bytes && old(server.delivered) <= server.delivered
    ensures old(server.mTcp.failures) <= server.mTcp.failures
    ensures old(Started(server, base, was, sofar)) && server.mTcp.failures == old(server.mTcp.failures) ==>
              Started(server, base, was, sofar + bytes)
  {
    hide Scan, Magic, HasMagic;
    assert sofar == [] ==> sofar + bytes == bytes;
    ghost var before := server.mTcp.stream;
    ArriveAndTick(server, bytes, base, |was|);
    Tail(before, bytes, base);
  }

  /** From the state of a new server: as long as the first bytes to arrive hold the whole magic, and no Recv fails, the
      session goes as from a frame boundary. */
  method FreshSession(server: O3DSServer, chunks: seq<seq<byte>>, ghost packets: seq<seq<byte>>) returns (ghost k: nat)
    requires Waiting(server) && Deliverable(packets) && Concat(chunks) <= Wire(packets) && Opens(chunks)
    modifies server, server.mTcp, server.mBuffer
    ensures server.Valid() && k <= |packets| && Sized(packets[..k])
    ensures server.mTcp.failures == old(server.mTcp.failures) && Concat(chunks) != [] ==>
              && server.mState != SYNC && server.mTcp.pos == |server.mTcp.stream|
              && server.delivered == old(server.delivered) + packets[..k]
              && Wire(packets[..k]) + server.Held() == Concat(chunks)
              && (Concat(chunks) == Wire(packets) ==> k == |packets|)
  {
    ghost var base, was, failures := server.mTcp.pos, server.delivered, server.mTcp.failures;
    ConcatNothing(chunks);
    NoneSized(packets);
    StartWaiting(server);
    hide Scan, Carves, Accepted, Concat, Wire, Deliverable, Sized, Magic, HasMagic, Opens, Started, Going, InStep,
         Waiting;
    hide O3DSServer.Valid;
    var i := 0;
    while i < |chunks|
      invariant i <= |chunks| && server.Valid() && (server.mBuffer == old(server.mBuffer) || fresh(server.mBuffer))
      invariant base <= |server.mTcp.stream| && failures <= server.mTcp.failures
      invariant server.mTcp.failures == failures ==> Started(server, base, was, Concat(chunks[..i]))
    {
      NextChunk(packets, chunks, i);
      FreshTick(server, chunks[i], base, was, Concat(chunks[..i]));
      i := i + 1;
    }
    assert chunks[..i] == chunks;
    k := 0;
    if server.mTcp.failures == failures && Concat(chunks) != [] {
      k := FreshEnd(server, base, was, Concat(chunks), packets);
    }
  }

  lemma StartWaiting(server: O3DSServer)
    requires Waiting(server)
    ensures server.Valid() && Started(server, server.mTcp.pos, server.delivered, [])
  {
  }

  lemma NextChunk(packets: seq<seq<byte>>, chunks: seq<seq<byte>>, i: nat)
    requires i < |chunks| && Deliverable(packets) && Concat(chunks) <= Wire(packets) && Opens(chunks)
    ensures Concat(chunks[..i + 1]) == Concat(chunks[..i]) + chunks[i] && !Scan(Concat(chunks[..i + 1])).bad
    ensures Concat(chunks[..i]) == [] ==> if chunks[i] == [] then chunks[i] < Magic() else Magic() <= chunks[i]
  {
    hide Scan, Concat, Wire, Deliverable, Magic, Opens;
    ConcatPrefix(chunks, i + 1);
    ArrivedScan(packets, chunks, i);
    FirstBytes(packets, chunks, i);
  }

  lemma FreshEnd(server: O3DSServer, base: nat, was: seq<seq<byte>>, sent: seq<byte>, packets: seq<seq<byte>>)
    returns (k: nat)
    requires Started(server, base, was, sent) && sent != [] && Deliverable(packets) && sent <= Wire(packets)
    ensures k <= |packets| && Sized(packets[..k])
    ensures server.mState != SYNC && server.mTcp.pos == |server.mTcp.stream|
    ensures server.delivered == was + packets[..k]
    ensures Wire(packets[..k]) + server.Held() == sent
    ensures sent == Wire(packets) ==> k == |packets|
  {
    hide Scan, Carves, Accepted, Wire, Deliverable, Sized, Going;
    StartedGoing(server, base, was, sent);
    k := SessionEnd(server, base, was, sent, packets);
    NothingUnread(Wire(packets[..k]), server.Held(), server.mTcp.stream);
  }

  lemma StartedGoing(server: O3DSServer, base: nat, was: seq<seq<byte>>, sofar: seq<byte>)
    requires Started(server, base, was, sofar) && sofar != []
    ensures Going(server, base, was, sofar) && server.mTcp.pos == |server.mTcp.stream|
  {
  }

  lemma NoneSized(packets: seq<seq<byte>>)
    ensures Sized(packets[..0])
  {
  }

  lemma NothingUnread(a: seq<byte>, b: seq<byte>, s: seq<byte>)
    ensures a + b + s[|s|..] == a + b
  {
  }

  lemma FirstBytes(packets: seq<seq<byte>>, chunks: seq<seq<byte>>, i: nat)
    requires i < |chunks| && Deliverable(packets) && Concat(chunks) <= Wire(packets) && Opens(chunks)
    requires Concat(chunks[..i + 1]) == Concat(chunks[..i]) + chunks[i] <= Concat(chunks)
    ensures Concat(chunks[..i]) == [] ==> if chunks[i] == [] then chunks[i] < Magic() else Magic() <= chunks[i]
  {
    hide Scan, Magic, Wire, Deliverable, Concat;
    if Concat(chunks[..i]) == [] {
      assert Concat(chunks[..i]) + chunks[i] == chunks[i];
      WireStarts(packets, chunks[i]);
    }
  }

  lemma Tail(s: seq<byte>, x: seq<byte>, base: nat)
    requires base <= |s|
    ensures (s + x)[base..] == s[base..] + x
  {
  }

  lemma ConcatNothing(chunks: seq<seq<byte>>)
    ensures Concat(chunks[..0]) == [] && chunks[..|chunks|] == chunks
  {
  }

  lemma EmptyScan()
    ensures Scan([]) == Scanned([], [], false)
  {
  }

  lemma ArrivedScan(packets: seq<seq<byte>>, chunks: seq<seq<byte>>, i: nat)
    requires i < |chunks| && Deliverable(packets) && Concat(chunks) <= Wire(packets)
    ensures !Scan(Concat(chunks[..i]) + chunks[i]).bad && Concat(chunks[..i + 1]) == Concat(chunks[..i]) + chunks[i]
  {
    assert chunks[..i + 1][..i] == chunks[..i];
    assert Concat(chunks[..i + 1]) == Concat(chunks[..i]) + chunks[i];
    hide Concat, Wire, Scan, Deliverable;
    ConcatPrefix(chunks, i + 1);
    var b := Concat(chunks[..i + 1]);
    PrefixAccepted(packets, b);
  }

  lemma PrefixAccepted(packets: seq<seq<byte>>, b: seq<byte>)
    requires Deliverable(packets) && b <= Wire(packets)
    ensures !Scan(b).bad
  {
    var k := PrefixScan(packets, |b|);
    hide Scan, Wire, Deliverable, Sized;
    assert Wire(packets)[..|b|] == b;
  }

  lemma Accounted(packets: seq<seq<byte>>, sent: seq<byte>, stream: seq<byte>, base: nat, pos: nat) returns (k: nat)
    requires Deliverable(packets) && sent <= Wire(packets) && base <= pos <= |stream| && stream[base..] == sent
    ensures k <= |packets| && Sized(packets[..k])
    ensures Scan(stream[base..pos]).frames == packets[..k]
    ensures Wire(packets[..k]) + Scan(stream[base..pos]).rest + stream[pos..] == sent
  {
    hide Scan, Wire;
    k := PrefixScan(packets, pos - base);
    assert Wire(packets)[..pos - base] == sent[..pos - base] == stream[base..pos];
    assert sent == sent[..pos - base] + stream[pos..];
  }

  lemma {:induction false} ConcatPrefix(chunks: seq<seq<byte>>, i: nat)
    requires i <= |chunks|
    ensures Concat(chunks[..i]) <= Concat(chunks)
  {
    if i < |chunks| {
      var n := |chunks| - 1;
      ConcatPrefix(chunks[..n], i);
      assert chunks[..n][..i] == chunks[..i];
    } else {
      assert chunks[..i] == chunks;
    }
  }
}
