// Frames on a TCP stream: the writer (plugins/mobu/device.cpp:357-382) and the resumable receiver
// (UOpen3DServer.cpp:226-357), over a socket that hands out any number of the bytes that have arrived.

module TcpFraming {
  import opened Bytes

  function Magic(): (m: seq<byte>)
    ensures |m| == 14
  {
    [0x00, 0xff, 0x03, 0xfe, 0x4f, 0x33, 0x44, 0x53, 0x2d, 0x53, 0x54, 0x41, 0x52, 0x54]
  }

  const HEADER_SIZE := 18
  const LARGEST_BUCKET := 51200

  function Header(size: uint32): seq<byte> {
    Magic() + PutU32(size)
  }

  function Frame(data: seq<byte>): seq<byte>
    requires |data| < 0x1_0000_0000
  {
    Header(|data|) + data
  }

  /** A frame is four bytes, the text, the length in four bytes and the packet. */
  lemma FrameBytes(data: seq<byte>)
    requires |data| < 0x1_0000_0000
    ensures var b, text := Frame(data), "O3DS-START";
            && |b| == 18 + |data| && b[..4] == [0, 255, 3, 254] && b[14..18] == PutU32(|data|) && b[18..] == data
            && forall i :: 0 <= i < 10 ==> b[4 + i] as int == text[i] as int
  {
    assert Frame(data)[..14] == Magic();
    assert Frame(data)[..4] == Magic()[..4];
    hide PutU32;
  }

  // ----- Writing -----------------------------------------------------------

  /** Send sends all of the bytes, or throws after some proper prefix of them, or would block: then it returns as if it
      had sent them, and has sent none. */
  datatype SendResult = Sent | WouldBlock | Threw

  class TcpSocket {
    var sent: seq<byte>
    var blocked: nat
    var connected: bool

    method Send(data: seq<byte>) returns (r: SendResult)
      modifies this
      ensures connected == old(connected) && blocked == old(blocked) + Ones(r == WouldBlock)
      ensures r == Sent ==> sent == old(sent) + data
      ensures r == WouldBlock ==> sent == old(sent)
      ensures r == Threw ==> exists n: nat :: n <= |data| && sent == old(sent) + data[..n]
    {
      if * {
        blocked := blocked + 1;
        return WouldBlock;
      }
      var n: nat :| n <= |data|;
      sent := sent + data[..n];
      r := if n == |data| then Sent else Threw;
    }

    method DestroySocket()
      modifies this
      ensures sent == old(sent) && blocked == old(blocked) && !connected
    {
      connected := false;
    }
  }

  function Ones(b: bool): nat {
    if b then 1 else 0
  }

  /** A frame, without the parts for which Send would have blocked. */
  function Parts(data: seq<byte>, first: bool, second: bool, third: bool): seq<byte>
    requires |data| < 0x1_0000_0000
  {
    (if first then [] else Magic()) + (if second then [] else PutU32(|data|)) + (if third then [] else data)
  }

  ghost predicate Written(before: seq<byte>, data: seq<byte>, missed: int, after: seq<byte>)
    requires |data| < 0x1_0000_0000
  {
    exists a: bool, b: bool, c: bool :: after == before + Parts(data, a, b, c) && missed == Ones(a) + Ones(b) + Ones(c)
  }

  ghost predicate Torn(before: seq<byte>, data: seq<byte>, missed: int, after: seq<byte>)
    requires |data| < 0x1_0000_0000
  {
    exists a: bool, b: bool, n: nat :: n <= |Parts(data, a, b, false)| && missed == Ones(a) + Ones(b)
      && after == before + Parts(data, a, b, false)[..n]
  }

  /** If no Send would block, the whole frame is written, or part of it, the socket is closed and 0 returned. A part of
      the frame for which Send would block is left out, and counted in the total all the same. */
  method WriteTcp(socket: TcpSocket, data: seq<byte>) returns (total: uint32)
    requires |data| + HEADER_SIZE < 0x8000_0000
    modifies socket
    ensures total != 0 ==> total == |Frame(data)| && socket.connected == old(socket.connected)
                           && Written(old(socket.sent), data, socket.blocked - old(socket.blocked), socket.sent)
    ensures total == 0 ==> !socket.connected
                           && Torn(old(socket.sent), data, socket.blocked - old(socket.blocked), socket.sent)
  {
    hide Magic, PutU32, Written, Torn;
    ghost var before := socket.sent;
    total := 0;
    var r := socket.Send(Magic());
    ghost var one := r == WouldBlock;
    if r != Threw {
      total := total + 14;
      assert socket.sent == before + if one then [] else Magic();
      r := socket.Send(PutU32(|data|));
      ghost var two := r == WouldBlock;
      if r != Threw {
        total := total + 4;
        ghost var mid := socket.sent;
        assert mid == before + (if one then [] else Magic()) + (if two then [] else PutU32(|data|));
        r := socket.Send(data);
        if r != Threw {
          total := total + |data|;
          WrittenAll(before, data, one, two, r == WouldBlock, socket.sent);
          return total;
        }
        TornData(before, data, one, two, mid, socket.sent);
      } else {
        TornSize(before, data, one, socket.sent);
      }
    } else {
      TornMagic(before, data, socket.sent);
    }
    socket.DestroySocket();
    total := 0;
  }

  lemma WrittenAll(before: seq<byte>, data: seq<byte>, a: bool, b: bool, c: bool, after: seq<byte>)
    requires |data| < 0x1_0000_0000
    requires after == before + (if a then [] else Magic()) + (if b then [] else PutU32(|data|)) + if c then [] else data
    ensures Written(before, data, Ones(a) + Ones(b) + Ones(c), after)
  {
    hide Magic, PutU32;
    assert after == before + Parts(data, a, b, c);
  }

  lemma JoinedPrefix(before: seq<byte>, a: seq<byte>, b: seq<byte>, c: seq<byte>, n: nat)
    requires n <= |c|
    ensures before + a + b + c[..n] == before + (a + b + c)[..|a| + |b| + n]
  {
    assert (a + b + c)[..|a| + |b| + n] == a + b + c[..n];
  }

  lemma TornData(before: seq<byte>, data: seq<byte>, a: bool, b: bool, mid: seq<byte>, after: seq<byte>)
    requires |data| < 0x1_0000_0000
    requires mid == before + (if a then [] else Magic()) + (if b then [] else PutU32(|data|))
    requires exists n: nat :: n <= |data| && after == mid + data[..n]
    ensures Torn(before, data, Ones(a) + Ones(b), after)
  {
    hide Magic, PutU32;
    var n: nat :| n <= |data| && after == mid + data[..n];
    var first := if a then [] else Magic();
    var second := if b then [] else PutU32(|data|);
    JoinedPrefix(before, first, second, data, n);
    assert after == before + Parts(data, a, b, false)[..|first| + |second| + n];
  }

  lemma TornSize(before: seq<byte>, data: seq<byte>, a: bool, after: seq<byte>)
    requires |data| < 0x1_0000_0000
    requires exists n: nat :: n <= 4 && after == before + (if a then [] else Magic()) + PutU32(|data|)[..n]
    ensures Torn(before, data, Ones(a), after)
  {
    hide Magic, PutU32;
    var n: nat :| n <= 4 && after == before + (if a then [] else Magic()) + PutU32(|data|)[..n];
    var first := if a then [] else Magic();
    JoinedPrefix(before, [], first, PutU32(|data|) + data, n);
    assert [] + first + (PutU32(|data|) + data) == Parts(data, a, false, false);
    assert (PutU32(|data|) + data)[..n] == PutU32(|data|)[..n];
    assert before + [] + first == before + first;
    assert after == before + Parts(data, a, false, false)[..|first| + n];
  }

  lemma TornMagic(before: seq<byte>, data: seq<byte>, after: seq<byte>)
    requires |data| < 0x1_0000_0000
    requires exists n: nat :: n <= 14 && after == before + Magic()[..n]
    ensures Torn(before, data, 0, after)
  {
    hide Magic, PutU32;
    var n: nat :| n <= 14 && after == before + Magic()[..n];
    assert after == before + Parts(data, false, false, false)[..n];
  }

  /** With nothing left out, what is written is the frame, or a prefix of it; with a part left out, it is not the
      frame. */
  lemma WrittenMeaning(before: seq<byte>, data: seq<byte>, missed: nat, after: seq<byte>)
    requires |data| < 0x1_0000_0000
    ensures Written(before, data, 0, after) <==> after == before + Frame(data)
    ensures data != [] && missed > 0 && Written(before, data, missed, after) ==> after != before + Frame(data)
    ensures Torn(before, data, 0, after) <==> exists n: nat :: n <= |Frame(data)| && after == before + Frame(data)[..n]
  {
    hide Magic, PutU32;
    assert Parts(data, false, false, false) == Frame(data);
    if n: nat :| n <= |Frame(data)| && after == before + Frame(data)[..n] {
      assert after == before + Parts(data, false, false, false)[..n];
    }
  }

  // ----- Reading -----------------------------------------------------------

  datatype Phase = SYNC | HEADER | DATA

  /** The receiving end: everything that has arrived, how much of it has been read, and how often a read has failed. */
  class FSocket {
    var stream: seq<byte>
    var pos: nat
    var failures: nat

    ghost predicate Valid()
      reads this
    {
      pos <= |stream|
    }

    constructor ()
      ensures Valid() && stream == [] && pos == 0 && failures == 0
    {
      stream := [];
      pos := 0;
      failures := 0;
    }

    /** The network, between ticks. */
    method Arrive(bytes: seq<byte>)
      requires Valid()
      modifies this
      ensures Valid() && stream == old(stream) + bytes && pos == old(pos) && failures == old(failures)
    {
      stream := stream + bytes;
    }

    /** Non-blocking: some of the bytes asked for, none only if there are none, or if it fails. */
    method Recv(want: nat) returns (ok: bool, bytes: seq<byte>)
      requires Valid()
      modifies this
      ensures Valid() && stream == old(stream) && pos == old(pos) + |bytes|
      ensures |bytes| <= want && bytes == stream[old(pos)..pos]
      ensures if ok then failures == old(failures) && (want > 0 && old(pos) < |stream| ==> bytes != [])
              else failures == old(failures) + 1 && bytes == []
    {
      ok := *;
      if !ok {
        failures := failures + 1;
        return false, [];
      }
      var most := if want < |stream| - pos then want else |stream| - pos;
      var n: nat :| n <= most && (most > 0 ==> n > 0);
      bytes := stream[pos..pos + n];
      pos := pos + n;
    }
  }

  /** strncmp of two buffers being zero: it stops at the first difference, at a NUL that both share, or after n. */
  predicate SameCString(a: seq<byte>, b: seq<byte>, n: nat)
    requires n <= |a| && n <= |b|
    decreases n
  {
    n == 0 || (a[0] == b[0] && (a[0] == 0 || SameCString(a[1..], b[1..], n - 1)))
  }

  /** What the receiver takes for the header of a frame of `size` bytes. */
  predicate Accepted(h: seq<byte>) {
    |h| == HEADER_SIZE && SameCString(h, Magic(), 14) && GetU32(h, 14) <= LARGEST_BUCKET
  }

  /** The magic starts with a NUL, so the comparison looks at one byte. */
  lemma AcceptedMeaning(h: seq<byte>)
    requires |h| == HEADER_SIZE
    ensures Accepted(h) <==> h[0] == 0 && GetU32(h, 14) <= 51200
  {
  }

  /** Every written header of a packet that is not too large is accepted, and carries its size; so are others. */
  lemma HeaderAccepted(size: uint32)
    ensures |Header(size)| == HEADER_SIZE && GetU32(Header(size), 14) == size
    ensures Accepted(Header(size)) <==> size <= 51200
  {
    U32RoundTrip(size, Header(size), 14);
    AcceptedMeaning(Header(size));
  }

  /** A header of zeros is accepted as one. */
  lemma CorruptHeaderAccepted()
    ensures var h: seq<byte> := seq(HEADER_SIZE, i => 0); Accepted(h) && h[..14] != Magic()
  {
    var h: seq<byte> := seq(HEADER_SIZE, i => 0);
    AcceptedMeaning(h);
    assert h[..14][1] != Magic()[1];
  }

  predicate IsFrame(bytes: seq<byte>, f: seq<byte>) {
    && |bytes| == HEADER_SIZE + |f|
    && Accepted(bytes[..HEADER_SIZE])
    && GetU32(bytes, 14) == |f|
    && bytes[HEADER_SIZE..] == f
  }

  /** The frames sit in the bytes in order and apart, each behind its own header. */
  ghost predicate Carved(b: seq<byte>, frames: seq<seq<byte>>)
    decreases |frames|, 1
  {
    frames == [] || exists i: nat :: LastAt(b, frames, i)
  }

  ghost predicate LastAt(b: seq<byte>, frames: seq<seq<byte>>, i: nat)
    requires frames != []
    decreases |frames|, 0
  {
    var f := frames[|frames| - 1];
    && i + HEADER_SIZE + |f| <= |b|
    && IsFrame(b[i..i + HEADER_SIZE + |f|], f)
    && Carved(b[..i], frames[..|frames| - 1])
  }

  /** The frames delivered are carved from the bytes read, and `tail` is what was read after that. */
  ghost predicate Carves(read: seq<byte>, frames: seq<seq<byte>>, tail: seq<byte>) {
    && |tail| <= |read| && read[|read| - |tail|..] == tail
    && Carved(read[..|read| - |tail|], frames)
  }

  lemma CarvesRead(read: seq<byte>, frames: seq<seq<byte>>, tail: seq<byte>, more: seq<byte>)
    requires Carves(read, frames, tail)
    ensures Carves(read + more, frames, tail + more)
  {
    assert (read + more)[..|read| - |tail|] == read[..|read| - |tail|];
  }

  lemma CarvedMore(b: seq<byte>, frames: seq<seq<byte>>, more: seq<byte>)
    requires Carved(b, frames)
    ensures Carved(b + more, frames)
  {
    hide IsFrame;
    if frames != [] {
      var f := frames[|frames| - 1];
      var i: nat :| LastAt(b, frames, i);
      assert (b + more)[i..i + HEADER_SIZE + |f|] == b[i..i + HEADER_SIZE + |f|] && (b + more)[..i] == b[..i];
      assert LastAt(b + more, frames, i);
    }
  }

  lemma CarvesDrop(read: seq<byte>, frames: seq<seq<byte>>, tail: seq<byte>)
    requires Carves(read, frames, tail)
    ensures Carves(read, frames, [])
  {
    CarvedMore(read[..|read| - |tail|], frames, tail);
    assert read[..|read| - |tail|] + tail == read && read[..|read|] == read;
  }

  lemma CarvesDeliver(read: seq<byte>, frames: seq<seq<byte>>, tail: seq<byte>, f: seq<byte>)
    requires Carves(read, frames, tail) && IsFrame(tail, f)
    ensures Carves(read, frames + [f], [])
  {
    var i := |read| - |tail|;
    assert |tail| == HEADER_SIZE + |f|;
    hide IsFrame;
    assert read[i..i + HEADER_SIZE + |f|] == tail && (frames + [f])[..|frames|] == frames;
    assert LastAt(read, frames + [f], i);
    assert read[..|read|] == read;
  }

  // ----- The simple form of the receiver ------------------------------------

  /** What a stream of whole bytes means, read from a frame boundary in one go: the packets, what is left of an
      unfinished frame, and whether a header was refused. */
  datatype Scanned = Scanned(frames: seq<seq<byte>>, rest: seq<byte>, bad: bool) {
    function After(first: seq<seq<byte>>): Scanned {
      Scanned(first + frames, rest, bad)
    }
  }

  function Scan(b: seq<byte>): Scanned
    decreases |b|
  {
    if |b| < HEADER_SIZE then Scanned([], b, false)
    else if !Accepted(b[..HEADER_SIZE]) then Scanned([], b, true)
    else
      var end := HEADER_SIZE + GetU32(b, 14);
      if |b| < end then Scanned([], b, false)
      else Scan(b[end..]).After([b[HEADER_SIZE..end]])
  }

  /** The frames cut from b so far, with `held` still to be looked at: whatever comes next, b means the same. */
  ghost predicate Cut(b: seq<byte>, frames: seq<seq<byte>>, held: seq<byte>) {
    forall y: seq<byte> :: Scan(b + y) == Scan(held + y).After(frames)
  }

  lemma CutStart(b: seq<byte>)
    ensures Cut(b, [], b)
  {
    forall y: seq<byte> ensures Scan(b + y) == Scan(b + y).After([]) {
    }
  }

  lemma CutRead(b: seq<byte>, frames: seq<seq<byte>>, held: seq<byte>, x: seq<byte>)
    requires Cut(b, frames, held)
    ensures Cut(b + x, frames, held + x)
  {
    hide Scan;
    forall y: seq<byte> ensures Scan(b + x + y) == Scan(held + x + y).After(frames) {
      assert b + x + y == b + (x + y) && held + x + y == held + (x + y);
    }
  }

  lemma ScanFrame(held: seq<byte>, f: seq<byte>, y: seq<byte>)
    requires IsFrame(held, f)
    ensures Scan(held + y) == Scan(y).After([f])
  {
    var b := held + y;
    var end := HEADER_SIZE + |f|;
    assert |held| == end && Accepted(held[..HEADER_SIZE]) && GetU32(b, 14) == GetU32(held, 14) == |f|;
    assert b[..HEADER_SIZE] == held[..HEADER_SIZE] && b[HEADER_SIZE..end] == f && b[end..] == y;
    hide Accepted, GetU32, IsFrame;
  }

  lemma CutDeliver(b: seq<byte>, frames: seq<seq<byte>>, held: seq<byte>, f: seq<byte>)
    requires Cut(b, frames, held) && IsFrame(held, f)
    ensures Cut(b, frames + [f], [])
  {
    hide Scan, IsFrame;
    forall y: seq<byte> ensures Scan(b + y) == Scan([] + y).After(frames + [f]) {
      ScanFrame(held, f, y);
      assert [] + y == y && frames + ([f] + Scan(y).frames) == frames + [f] + Scan(y).frames;
    }
  }

  lemma CutRefused(b: seq<byte>, frames: seq<seq<byte>>, held: seq<byte>, y: seq<byte>)
    requires Cut(b, frames, held) && |held| >= HEADER_SIZE && !Accepted(held[..HEADER_SIZE])
    ensures Scan(b + y).bad
  {
    assert (held + y)[..HEADER_SIZE] == held[..HEADER_SIZE];
    assert Scan(held + y).bad;
    hide Scan, Accepted;
  }

  lemma CutEnd(b: seq<byte>, frames: seq<seq<byte>>, held: seq<byte>)
    requires Cut(b, frames, held)
    requires |held| < HEADER_SIZE || (Accepted(held[..HEADER_SIZE]) && |held| < HEADER_SIZE + GetU32(held, 14))
    ensures Scan(b) == Scanned(frames, held, false)
  {
    assert Scan(held) == Scanned([], held, false);
    hide Scan, Accepted;
    assert b + [] == b && held + [] == held && frames + [] == frames;
    assert Scan(b + []) == Scan(held + []).After(frames);
  }

  // ----- The receiver ------------------------------------------------------

  datatype Sync = Stopped | Again | Mismatch | Found

  /** The bytes `lead` and those from `from` on have been cut to `got`, delivered behind the first k packets; `lost` if
      the boundary has been lost since the tick began. */
  datatype Course = Course(lead: seq<byte>, from: nat, k: nat, got: seq<seq<byte>>, lost: bool)

  class O3DSServer {
    const mTcp: FSocket
    var mState: Phase
    var mBuffer: array?<byte>
    var mBufferSize: nat
    var mPtr: nat
    /** The packets passed to OnData. */
    var delivered: seq<seq<byte>>

    ghost predicate BufferValid()
      reads this, mTcp, mBuffer
    {
      && mTcp.Valid()
      && (mBuffer == null ==> mBufferSize == 0)
      && (mBuffer != null ==> mBuffer.Length == mBufferSize)
      && mPtr <= mBufferSize
      && Carves(mTcp.stream[..mTcp.pos], delivered, Held())
    }

    /** Whether reading stops because a read has failed since, or because there is nothing more. */
    ghost predicate Drained(failures: nat)
      reads mTcp
    {
      mTcp.failures > failures || (mTcp.failures == failures && mTcp.pos == |mTcp.stream|)
    }

    /** mBuffer[..mPtr]. */
    ghost function Held(): seq<byte>
      reads this, mBuffer
    {
      if mBuffer == null || mPtr > mBuffer.Length then [] else mBuffer[..mPtr]
    }

    constructor (tcp: FSocket)
      requires tcp.Valid() && tcp.pos == 0
      ensures BufferValid() && mTcp == tcp && mState == SYNC && Held() == [] && delivered == []
    {
      mTcp := tcp;
      mState := SYNC;
      mBuffer := null;
      mBufferSize := 0;
      mPtr := 0;
      delivered := [];
    }

    /** Room for len more than is held; what is held is kept. */
    method Reserve(len: nat)
      requires BufferValid()
      modifies this
      ensures BufferValid() && Held() == old(Held()) && mBuffer != null && len <= mBufferSize
      ensures mBuffer == old(mBuffer) || fresh(mBuffer)
      ensures mPtr == old(mPtr) && mState == old(mState) && delivered == old(delivered)
    {
      hide Carves;
      if mBuffer == null {
        var size := if len < 4096 then 4096 else len;
        mBuffer := new byte[size];
        mBufferSize := size;
        mPtr := 0;
      } else if len + mPtr > mBufferSize {
        var bigger := new byte[len + mPtr];
        forall i | 0 <= i < mBufferSize {
          bigger[i] := mBuffer[i];
        }
        mBuffer := bigger;
        mBufferSize := len + mPtr;
      }
      assert Held() == old(Held());
    }

    /** Reads towards len bytes in the buffer; false means that nothing came. */
    method ReadTcp(len: nat) returns (more: bool)
      requires BufferValid()
      modifies this, mTcp, mBuffer
      ensures BufferValid() && (mBuffer == old(mBuffer) || fresh(mBuffer))
      ensures mState == old(mState) && delivered == old(delivered) && mTcp.stream == old(mTcp.stream)
      ensures old(mTcp.pos) <= mTcp.pos && Held() == old(Held()) + mTcp.stream[old(mTcp.pos)..mTcp.pos]
      ensures mPtr - old(mPtr) == mTcp.pos - old(mTcp.pos)
      ensures len <= old(mPtr) ==> more && mPtr == old(mPtr)
      ensures len > old(mPtr) ==> mPtr <= len && (more <==> mPtr > old(mPtr))
      ensures if more then mTcp.failures == old(mTcp.failures) else Drained(old(mTcp.failures))
    {
      if len <= mPtr {
        return true;
      }
      Reserve(len);
      more := Fill(len);
    }

    method Fill(len: nat) returns (more: bool)
      requires BufferValid() && mBuffer != null && mPtr < len <= mBufferSize
      modifies this`mPtr, mTcp, mBuffer
      ensures BufferValid() && mTcp.stream == old(mTcp.stream)
      ensures old(mTcp.pos) <= mTcp.pos && Held() == old(Held()) + mTcp.stream[old(mTcp.pos)..mTcp.pos]
      ensures mPtr - old(mPtr) == mTcp.pos - old(mTcp.pos)
      ensures mPtr <= len && (more <==> mPtr > old(mPtr))
      ensures if more then mTcp.failures == old(mTcp.failures) else Drained(old(mTcp.failures))
    {
      hide Carves;
      ghost var held := Held();
      var ok, bytes := mTcp.Recv(len - mPtr);
      forall i | 0 <= i < |bytes| {
        mBuffer[mPtr + i] := bytes[i];
      }
      mPtr := mPtr + |bytes|;
      assert Held() == held + bytes;
      CarvesRead(mTcp.stream[..old(mTcp.pos)], delivered, held, bytes);
      assert mTcp.stream[..mTcp.pos] == mTcp.stream[..old(mTcp.pos)] + bytes;
      more := ok && |bytes| != 0;
    }

    /** An accepted header, with its packet not all there. */
    static predicate Awaiting(held: seq<byte>) {
      |held| >= HEADER_SIZE && Accepted(held[..HEADER_SIZE]) && |held| < HEADER_SIZE + GetU32(held, 14)
    }

    /** The buffer between ticks: a partial header, or a header and part of its packet. */
    ghost predicate Valid()
      reads this, mTcp, mBuffer
    {
      && BufferValid()
      && (mState == HEADER ==> mPtr == |Held()| < HEADER_SIZE)
      && (mState == DATA ==> Awaiting(Held()) && mPtr == |Held()|)
    }

    /** The magic, at i. */
    static ghost predicate FoundAt(stream: seq<byte>, from: nat, i: int, pos: nat) {
      from <= i && i + 14 <= pos <= |stream| && stream[i..i + 14] == Magic()
    }

    /** One more byte, held at i. */
    method ReadNext(i: nat) returns (more: bool)
      requires BufferValid() && mBuffer != null && mPtr == i < 14
      modifies this, mTcp, mBuffer
      ensures BufferValid() && mBuffer != null && (mBuffer == old(mBuffer) || fresh(mBuffer))
      ensures mState == old(mState) && delivered == old(delivered) && mTcp.stream == old(mTcp.stream)
      ensures old(mTcp.pos) <= mTcp.pos
      ensures more ==> mPtr == i + 1 && mPtr <= mBuffer.Length && mTcp.pos == old(mTcp.pos) + 1
      ensures more ==> Held() == old(Held()) + [mBuffer[i]] && mBuffer[i] == mTcp.stream[old(mTcp.pos)]
      ensures more ==> mTcp.failures == old(mTcp.failures)
      ensures !more ==> Drained(old(mTcp.failures)) && mTcp.pos == old(mTcp.pos)
    {
      hide Carves;
      more := ReadTcp(i + 1);
      if more {
        assert mBuffer[i] == Held()[i];
      }
    }

    /** Looking for the magic from `at`, the bytes up to `pos` are a part of it, after which there is nothing more, or
        not a part of it. */
    static ghost predicate Unsynced(r: Sync, stream: seq<byte>, at: nat, pos: nat) {
      && at <= pos <= |stream| && pos - at <= 14
      && match r
         case Stopped => pos - at < 14 && stream[at..pos] == Magic()[..pos - at]
         case Again | Mismatch => pos > at && stream[at..pos] != Magic()[..pos - at]
         case Found => false
    }

    /** Looks for the magic, byte by byte. It drops what it held, even a part of the magic. */
    method SyncPhase() returns (r: Sync)
      requires BufferValid() && mState == SYNC
      modifies this, mTcp, mBuffer
      ensures BufferValid() && (mBuffer == old(mBuffer) || fresh(mBuffer))
      ensures delivered == old(delivered) && mTcp.stream == old(mTcp.stream) && old(mTcp.pos) <= mTcp.pos
      ensures r == Found ==> mState == HEADER && Held() == Magic() && mPtr == 14
      ensures r == Found ==> mTcp.pos == old(mTcp.pos) + 14 && mTcp.stream[old(mTcp.pos)..mTcp.pos] == Magic()
      ensures r != Found ==> mState == SYNC && Unsynced(r, mTcp.stream, old(mTcp.pos), mTcp.pos)
      ensures if r == Stopped then Drained(old(mTcp.failures)) else mTcp.failures == old(mTcp.failures)
    {
      hide Carves;
      CarvesDrop(mTcp.stream[..mTcp.pos], delivered, Held());
      mPtr := 0;
      assert Held() == [];
      ghost var from := mTcp.pos;
      var more := ReadTcp(1);
      if !more {
        return Stopped;
      }
      assert mBuffer[0] == Held()[0] == mTcp.stream[from];
      if mBuffer[0] != 0x00 {
        OtherByte(mTcp.stream, from, 0);
        return Again;
      }
      assert Held() == Magic()[..1] == mTcp.stream[from..mTcp.pos];
      r := MatchRest(from);
      if r == Found {
        mState := HEADER;
      }
    }

    /** The bytes of the magic after the first. */
    method MatchRest(ghost from: nat) returns (r: Sync)
      requires BufferValid() && mBuffer != null && mPtr == 1 && mTcp.pos == from + 1
      requires Held() == Magic()[..1] == mTcp.stream[from..mTcp.pos]
      modifies this, mTcp, mBuffer
      ensures BufferValid() && (mBuffer == old(mBuffer) || fresh(mBuffer)) && mState == old(mState)
      ensures delivered == old(delivered) && mTcp.stream == old(mTcp.stream) && old(mTcp.pos) <= mTcp.pos
      ensures r == Found ==> Held() == Magic() && mPtr == 14
      ensures r == Found ==> mTcp.pos == from + 14 && mTcp.stream[from..mTcp.pos] == Magic()
      ensures r == Stopped || r == Mismatch || r == Found
      ensures r != Found ==> Unsynced(r, mTcp.stream, from, mTcp.pos)
      ensures if r == Stopped then Drained(old(mTcp.failures)) else mTcp.failures == old(mTcp.failures)
    {
      hide Carves, Unsynced, Magic;
      ghost var stream := mTcp.stream;
      var i := 1;
      r := Found;
      while i < 14 && r == Found
        invariant 1 <= i <= 14 && BufferValid() && mBuffer != null && (mBuffer == old(mBuffer) || fresh(mBuffer))
        invariant mState == old(mState) && delivered == old(delivered) && mTcp.stream == stream
        invariant old(mTcp.pos) <= mTcp.pos && (r == Stopped || r == Mismatch || r == Found)
        invariant if r == Stopped then Drained(old(mTcp.failures)) else mTcp.failures == old(mTcp.failures)
        invariant r == Found ==> mPtr == i && mTcp.pos == from + i && Held() == stream[from..from + i] == Magic()[..i]
        invariant r != Found ==> Unsynced(r, stream, from, mTcp.pos)
        decreases 14 - i, r == Found
      {
        r := MatchOne(from, i);
        if r == Found {
          i := i + 1;
        }
      }
    }

    /** One of them. */
    method MatchOne(ghost from: nat, i: nat) returns (r: Sync)
      requires BufferValid() && mBuffer != null && mPtr == i < 14 && mTcp.pos == from + i
      requires Held() == mTcp.stream[from..from + i] == Magic()[..i]
      modifies this, mTcp, mBuffer
      ensures BufferValid() && mBuffer != null && (mBuffer == old(mBuffer) || fresh(mBuffer)) && mState == old(mState)
      ensures delivered == old(delivered) && mTcp.stream == old(mTcp.stream) && old(mTcp.pos) <= mTcp.pos
      ensures r == Stopped || r == Mismatch || r == Found
      ensures if r == Stopped then Drained(old(mTcp.failures)) else mTcp.failures == old(mTcp.failures)
      ensures r == Found ==> mPtr == i + 1 && mTcp.pos == from + i + 1
      ensures r == Found ==> Held() == mTcp.stream[from..from + i + 1] == Magic()[..i + 1]
      ensures r != Found ==> Unsynced(r, mTcp.stream, from, mTcp.pos)
    {
      hide Carves, Unsynced, Magic;
      var more := ReadNext(i);
      if !more {
        PartRead(mTcp.stream, from, i);
        return Stopped;
      }
      OneMore(mTcp.stream, from, i);
      if mBuffer[i] != Magic()[i] {
        OtherByte(mTcp.stream, from, i);
        return Mismatch;
      }
      r := Found;
    }

    /** The loop that HEADER and DATA share: read until len bytes are held or nothing comes. */
    method FillTo(len: nat) returns (full: bool)
      requires BufferValid() && mPtr <= len && mPtr == |Held()|
      modifies this, mTcp, mBuffer
      ensures BufferValid() && (mBuffer == old(mBuffer) || fresh(mBuffer)) && mPtr == |Held()|
      ensures mState == old(mState) && delivered == old(delivered) && mTcp.stream == old(mTcp.stream)
      ensures old(mTcp.pos) <= mTcp.pos && Held() == old(Held()) + mTcp.stream[old(mTcp.pos)..mTcp.pos]
      ensures mPtr <= len && (full <==> mPtr == len)
      ensures if full then mTcp.failures == old(mTcp.failures) else Drained(old(mTcp.failures))
    {
      hide Carves;
      while mPtr < len
        invariant BufferValid() && mPtr <= len && (mBuffer == old(mBuffer) || fresh(mBuffer)) && mPtr == |Held()|
        invariant mState == old(mState) && delivered == old(delivered) && mTcp.stream == old(mTcp.stream)
        invariant mTcp.failures == old(mTcp.failures)
        invariant old(mTcp.pos) <= mTcp.pos && Held() == old(Held()) + mTcp.stream[old(mTcp.pos)..mTcp.pos]
      {
        ghost var from := mTcp.pos;
        var more := ReadTcp(len);
        JoinHeld(old(Held()), mTcp.stream, old(mTcp.pos), from, mTcp.pos);
        if !more {
          return false;
        }
      }
      full := true;
    }

    method HeaderPhase() returns (r: Sync)
      requires BufferValid() && mState == HEADER && mPtr == |Held()| < HEADER_SIZE
      modifies this, mTcp, mBuffer
      ensures BufferValid() && (mBuffer == old(mBuffer) || fresh(mBuffer))
      ensures delivered == old(delivered) && mTcp.stream == old(mTcp.stream) && old(mTcp.pos) <= mTcp.pos
      ensures Held() == old(Held()) + mTcp.stream[old(mTcp.pos)..mTcp.pos]
      ensures r == Stopped ==> mState == HEADER && mPtr < HEADER_SIZE
      ensures r != Stopped ==> mPtr == |Held()| == HEADER_SIZE && mTcp.pos > old(mTcp.pos)
      ensures r != Stopped ==> mState == (if SameCString(Held(), Magic(), 14) then DATA else SYNC)
      ensures r != Stopped ==> r == (if mState == DATA then Found else Again)
      ensures if r == Stopped then Drained(old(mTcp.failures)) else mTcp.failures == old(mTcp.failures)
    {
      hide Carves;
      var full := FillTo(HEADER_SIZE);
      if !full {
        return Stopped;
      }
      if !SameCString(mBuffer[..mPtr], Magic(), 14) {
        mState := SYNC;
        return Again;
      }
      mState := DATA;
      r := Found;
    }

    method DataPhase() returns (r: Sync)
      requires BufferValid() && mState == DATA && HEADER_SIZE <= mPtr == |Held()| && SameCString(Held(), Magic(), 14)
      requires mPtr == HEADER_SIZE || mPtr < HEADER_SIZE + GetU32(Held(), 14) <= HEADER_SIZE + LARGEST_BUCKET
      modifies this, mTcp, mBuffer
      ensures BufferValid() && (mBuffer == old(mBuffer) || fresh(mBuffer))
      ensures mTcp.stream == old(mTcp.stream) && old(mTcp.pos) <= mTcp.pos
      ensures r == Again <==> old(GetU32(Held(), 14)) > LARGEST_BUCKET
      ensures r == Again ==> mState == SYNC && delivered == old(delivered)
      ensures r == Stopped ==> mState == DATA && delivered == old(delivered)
      ensures r == Stopped ==> Held() == old(Held()) + mTcp.stream[old(mTcp.pos)..mTcp.pos]
      ensures r == Stopped ==> mPtr == |Held()| < HEADER_SIZE + old(GetU32(Held(), 14))
      ensures r == Again || r == Stopped || r == Found
      ensures r == Found ==> mState == HEADER && mPtr == 0 && Held() == []
      ensures r == Found ==> mTcp.pos - old(mTcp.pos) + old(mPtr) == HEADER_SIZE + old(GetU32(Held(), 14))
      ensures r == Found ==>
                delivered == old(delivered) + [(old(Held()) + mTcp.stream[old(mTcp.pos)..mTcp.pos])[HEADER_SIZE..]]
      ensures if r == Stopped then Drained(old(mTcp.failures)) else mTcp.failures == old(mTcp.failures)
    {
      hide Carves;
      var bucketSize := GetU32(mBuffer[..mPtr], 14);
      if bucketSize > LARGEST_BUCKET {
        mState := SYNC;
        return Again;
      }
      var full := FillTo(bucketSize + HEADER_SIZE);
      if !full {
        return Stopped;
      }
      var data := mBuffer[HEADER_SIZE..HEADER_SIZE + bucketSize];
      HeldIsFrame(old(Held()), Held(), data);
      CarvesDeliver(mTcp.stream[..mTcp.pos], delivered, Held(), data);
      delivered := delivered + [data];
      mState := HEADER;
      mPtr := 0;
      assert Held() == [];
      r := Found;
    }

    /** What one turn makes of the bytes read since the last boundary: part of a frame, a refused header, or a frame. */
    static ghost predicate Turn(r: Sync, state: Phase, read: seq<byte>, held: seq<byte>,
                                before: seq<seq<byte>>, after: seq<seq<byte>>) {
      match r
      case Stopped => state != SYNC && held == read && after == before
      case Again => state == SYNC && |read| >= HEADER_SIZE && !Accepted(read[..HEADER_SIZE]) && after == before
      case Found => state == HEADER && held == [] && exists f :: IsFrame(read, f) && after == before + [f]
      case Mismatch => false
    }

    /** The HEADER and DATA blocks of one turn of the loop. */
    method ReceiveFrame() returns (r: Sync)
      requires Valid() && mState != SYNC
      modifies this, mTcp, mBuffer
      ensures Valid() && (mBuffer == old(mBuffer) || fresh(mBuffer))
      ensures mTcp.stream == old(mTcp.stream) && old(mTcp.pos) <= mTcp.pos
      ensures r != Stopped ==> mTcp.pos > old(mTcp.pos)
      ensures Turn(r, mState, old(Held()) + mTcp.stream[old(mTcp.pos)..mTcp.pos], Held(), old(delivered), delivered)
      ensures if r == Stopped then Drained(old(mTcp.failures)) else mTcp.failures == old(mTcp.failures)
    {
      hide Carves, Accepted, IsFrame, Turn;
      if mState == HEADER {
        r := HeaderPhase();
        if r == Stopped {
          TurnStopped(mState, Held(), delivered);
          return;
        }
        if r == Again {
          NotAccepted(Held());
          assert Held()[..HEADER_SIZE] == Held();
          TurnAgain(Held(), Held(), delivered);
          return;
        }
      }
      ghost var held, at := Held(), mTcp.pos;
      AwaitingMeaning(held);
      r := ReceiveData();
      JoinHeld(old(Held()), mTcp.stream, old(mTcp.pos), at, mTcp.pos);
    }

    method ReceiveData() returns (r: Sync)
      requires BufferValid() && mState == DATA && HEADER_SIZE <= mPtr == |Held()| && SameCString(Held(), Magic(), 14)
      requires mPtr == HEADER_SIZE || Awaiting(Held())
      modifies this, mTcp, mBuffer
      ensures Valid() && (mBuffer == old(mBuffer) || fresh(mBuffer))
      ensures mTcp.stream == old(mTcp.stream) && old(mTcp.pos) <= mTcp.pos
      ensures r != Stopped && Awaiting(old(Held())) ==> mTcp.pos > old(mTcp.pos)
      ensures Turn(r, mState, old(Held()) + mTcp.stream[old(mTcp.pos)..mTcp.pos], Held(), old(delivered), delivered)
      ensures if r == Stopped then Drained(old(mTcp.failures)) else mTcp.failures == old(mTcp.failures)
    {
      hide Carves, Accepted, IsFrame, Turn;
      ghost var held := Held();
      AwaitingMeaning(held);
      r := DataPhase();
      ghost var read := held + mTcp.stream[old(mTcp.pos)..mTcp.pos];
      if r == Again {
        NotAccepted(held);
        assert read[..HEADER_SIZE] == held[..HEADER_SIZE];
        TurnAgain(read, Held(), delivered);
      } else if r == Found {
        HeldIsFrame(held, read, read[HEADER_SIZE..]);
        TurnFound(read, read[HEADER_SIZE..], old(delivered), delivered);
      } else {
        AwaitingMore(held, Held());
        TurnStopped(mState, read, delivered);
      }
    }

    static lemma TurnAgain(read: seq<byte>, held: seq<byte>, delivered: seq<seq<byte>>)
      requires |read| >= HEADER_SIZE && !Accepted(read[..HEADER_SIZE])
      ensures Turn(Again, SYNC, read, held, delivered, delivered)
    {
    }

    static lemma TurnFound(read: seq<byte>, f: seq<byte>, before: seq<seq<byte>>, after: seq<seq<byte>>)
      requires IsFrame(read, f) && after == before + [f]
      ensures Turn(Found, HEADER, read, [], before, after)
    {
    }

    static lemma TurnStopped(state: Phase, read: seq<byte>, delivered: seq<seq<byte>>)
      requires state != SYNC
      ensures Turn(Stopped, state, read, read, delivered, delivered)
    {
    }

    /** Where the bytes are counted from, since the last boundary that was lost; what was delivered before and since. */
    static ghost predicate OnCourse(c: Course, held0: seq<byte>, from: nat, first: seq<seq<byte>>,
                                    state: Phase, stream: seq<byte>, pos: nat, held: seq<byte>,
                                    delivered: seq<seq<byte>>) {
      state != SYNC ==>
        && c.from <= pos <= |stream| && Cut(c.lead + stream[c.from..pos], c.got, held)
        && |first| <= c.k <= |delivered| && delivered[c.k..] == c.got
        && if c.lost then c.lead == [] && FoundAt(stream, from, c.from, pos)
           else c.lead == held0 && c.from == from && c.k == |first|
    }

    static lemma Begin(state: Phase, stream: seq<byte>, pos: nat, held: seq<byte>,
                       delivered: seq<seq<byte>>) returns (c: Course)
      requires pos <= |stream|
      ensures OnCourse(c, held, pos, delivered, state, stream, pos, held, delivered) && c.lost == (state == SYNC)
    {
      hide Cut;
      c := Course(held, pos, |delivered|, [], state == SYNC);
      CutStart(held);
      assert held + stream[pos..pos] == held;
    }

    static lemma Proceed(c: Course, held0: seq<byte>, from: nat, first: seq<seq<byte>>,
                         r: Sync, was: Phase, state: Phase, stream: seq<byte>, at: nat, pos: nat,
                         held: seq<byte>, held': seq<byte>, before: seq<seq<byte>>, after: seq<seq<byte>>)
      returns (c': Course)
      requires from <= at && |first| <= |before|
      requires OnCourse(c, held0, from, first, was, stream, at, held, before)
      requires Passed(r, was, state, stream, at, pos, held, held', before, after)
      ensures OnCourse(c', held0, from, first, state, stream, pos, held', after)
      ensures c.lost || was == SYNC ==> c'.lost
      ensures was != SYNC && !Scan(c.lead + stream[c.from..]).bad ==> state != SYNC && c' == c.(got := c'.got)
      ensures was == SYNC && state != SYNC ==> c' == Course([], at, |before|, c'.got, true)
    {
      hide Cut, Scan, Accepted, IsFrame, Turn;
      c' := c;
      if was != SYNC {
        TurnDelivers(r, state, held + stream[at..pos], held', before, after);
        if r == Again {
          TurnRefused(state, c.lead, stream, c.from, at, pos, c.got, held, held', before, after);
          c' := c.(lost := true);
        } else {
          var got := TurnCut(r, state, c.lead, stream, c.from, at, pos, c.got, held, held', before, after, c.k);
          c' := c.(got := got);
        }
      } else if state != SYNC {
        TurnDelivers(r, state, stream[at..pos], held', before, after);
        var got := TurnFresh(r, state, stream, at, pos, held', before, after);
        c' := Course([], at, |before|, got, true);
      } else {
        c' := c.(lost := true);
      }
    }

    static lemma Arrived(c: Course, held0: seq<byte>, from: nat, first: seq<seq<byte>>,
                         state: Phase, stream: seq<byte>, pos: nat, held: seq<byte>, delivered: seq<seq<byte>>)
      requires from <= pos <= |stream| && state != SYNC && (|held| < HEADER_SIZE || Awaiting(held))
      requires OnCourse(c, held0, from, first, state, stream, pos, held, delivered)
      ensures |first| <= c.k <= |delivered|
      ensures if c.lost then Resynced(stream, from, c.from, pos, delivered, c.k, held)
              else c.k == |first| && Scan(held0 + stream[from..pos]) == Scanned(delivered[c.k..], held, false)
    {
      AwaitingMeaning(held);
      hide Cut, Scan, Accepted;
      CutEnd(c.lead + stream[c.from..pos], c.got, held);
      if c.lost {
        assert [] + stream[c.from..pos] == stream[c.from..pos];
        assert Resynced(stream, from, c.from, pos, delivered, c.k, held);
      }
    }

    /** Having found the magic at i, the server has delivered, after its first k packets, what the bytes from i mean. */
    static ghost predicate Resynced(stream: seq<byte>, from: nat, i: nat, pos: nat,
                                    delivered: seq<seq<byte>>, k: nat, held: seq<byte>) {
      FoundAt(stream, from, i, pos) && k <= |delivered| && Scan(stream[i..pos]) == Scanned(delivered[k..], held, false)
    }

    /** What a tick from a boundary or from inside a frame does: it delivers the packets of the bytes read, however they
        were split, and holds what is left of the last, unless the bytes to come hold a header that it refuses. */
    static ghost predicate Continued(held: seq<byte>, stream: seq<byte>, from: nat, pos: nat, before: seq<seq<byte>>,
                                     state: Phase, held': seq<byte>, after: seq<seq<byte>>) {
      from <= pos <= |stream| && before <= after && !Scan(held + stream[from..]).bad ==>
        state != SYNC && Scan(held + stream[from..pos]) == Scanned(after[|before|..], held', false)
    }

    /** What a tick from SYNC does: with the magic at hand it is as if it had been at a boundary, as long as no read
        fails; with a part of the magic and no more, that part is gone; and it does nothing without a magic. */
    static ghost predicate Sought(stream: seq<byte>, from: nat, pos: nat, before: seq<seq<byte>>, failed: bool,
                                  state: Phase, held': seq<byte>, after: seq<seq<byte>>) {
      from <= pos <= |stream| && before <= after ==>
        && (Magic() <= stream[from..] && !Scan(stream[from..]).bad && !failed ==>
              state != SYNC && Scan(stream[from..pos]) == Scanned(after[|before|..], held', false))
        && (stream[from..] < Magic() ==> state == SYNC && after == before && (!failed ==> pos == |stream|))
        && (state != SYNC || after != before ==> exists i: nat :: FoundAt(stream, from, i, pos))
    }

    /** Out of SYNC after a tick, the server has kept its boundary, or found the magic and delivered what the bytes from
        there mean. */
    static ghost predicate Settled(was: Phase, held: seq<byte>, stream: seq<byte>, from: nat, pos: nat,
                                   before: seq<seq<byte>>, held': seq<byte>, after: seq<seq<byte>>) {
      from <= pos <= |stream| && before <= after ==>
        || (was != SYNC && Scan(held + stream[from..pos]) == Scanned(after[|before|..], held', false))
        || exists i: nat, k: nat :: |before| <= k && Resynced(stream, from, i, pos, after, k, held')
    }

    /** Reads until a read fails, there is no more, or it has seen that what it took for the magic is none. */
    method Tick()
      requires Valid()
      modifies this, mTcp, mBuffer
      ensures Valid() && (mBuffer == old(mBuffer) || fresh(mBuffer))
      ensures mTcp.stream == old(mTcp.stream) && old(mTcp.pos) <= mTcp.pos && old(delivered) <= delivered
      ensures old(mTcp.failures) <= mTcp.failures
      ensures mState != SYNC ==> Drained(old(mTcp.failures))
      ensures old(mState) != SYNC ==>
                Continued(old(Held()), mTcp.stream, old(mTcp.pos), mTcp.pos, old(delivered), mState, Held(), delivered)
      ensures old(mState) == SYNC ==>
                Sought(mTcp.stream, old(mTcp.pos), mTcp.pos, old(delivered), mTcp.failures > old(mTcp.failures),
                       mState, Held(), delivered)
      ensures mState != SYNC ==>
                Settled(old(mState), old(Held()), mTcp.stream, old(mTcp.pos), mTcp.pos, old(delivered), Held(),
                        delivered)
    {
      ghost var held, from, state, first, failures := Held(), mTcp.pos, mState, delivered, mTcp.failures;
      ghost var stream := mTcp.stream;
      ghost var c := Begin(state, stream, from, held, first);
      StartProgress(c, state, held, stream, from, first);
      hide Scan, Carves, Accepted, Awaiting, Magic, GetU32, OnCourse, Progress, Continued, Sought, Settled;
      var r := Again;
      while r == Again || r == Found
        invariant Valid() && (mBuffer == old(mBuffer) || fresh(mBuffer))
        invariant mTcp.stream == stream && from <= mTcp.pos && first <= delivered
        invariant if r == Stopped then Drained(failures) else mTcp.failures == failures
        invariant r == Mismatch ==> mState == SYNC
        invariant OnCourse(c, held, from, first, mState, stream, mTcp.pos, Held(), delivered)
        invariant Progress(c, if r == Found then Again else r, state, held, stream, from, first, mState, mTcp.pos,
                           delivered)
        decreases r == Again || r == Found, |mTcp.stream| - mTcp.pos
      {
        r, c := OnePass(c, state, held, from, first);
      }
      EndProgress(c, r, state, held, stream, from, first, mState, mTcp.pos, Held(), delivered,
                  mTcp.failures > failures);
    }

    /** A pass, with the account of the tick brought forward. */
    method OnePass(ghost c: Course, ghost was: Phase, ghost held: seq<byte>, ghost from: nat,
                   ghost first: seq<seq<byte>>)
      returns (r: Sync, ghost c': Course)
      requires Valid() && from <= mTcp.pos && first <= delivered
      requires OnCourse(c, held, from, first, mState, mTcp.stream, mTcp.pos, Held(), delivered)
      requires Progress(c, Again, was, held, mTcp.stream, from, first, mState, mTcp.pos, delivered)
      modifies this, mTcp, mBuffer
      ensures Valid() && (mBuffer == old(mBuffer) || fresh(mBuffer))
      ensures mTcp.stream == old(mTcp.stream) && old(mTcp.pos) <= mTcp.pos && old(delivered) <= delivered
      ensures if r == Stopped then Drained(old(mTcp.failures)) else mTcp.failures == old(mTcp.failures)
      ensures r != Stopped ==> mTcp.pos > old(mTcp.pos)
      ensures r == Mismatch ==> mState == SYNC
      ensures OnCourse(c', held, from, first, mState, mTcp.stream, mTcp.pos, Held(), delivered)
      ensures Progress(c', if r == Found then Again else r, was, held, mTcp.stream, from, first, mState, mTcp.pos,
                       delivered)
    {
      hide Scan, Carves, Accepted, Awaiting, OnCourse, Passed, Progress;
      ghost var state, held', at, before := mState, Held(), mTcp.pos, delivered;
      r := Pass();
      c' := Proceed(c, held, from, first, r, state, mState, mTcp.stream, at, mTcp.pos, held', Held(), before,
                    delivered);
      MoreProgress(c, c', r, was, held, mTcp.stream, from, first, state, mState, at, mTcp.pos, held', Held(), before,
                   delivered);
      if r == Found {
        ProgressAgain(c', was, held, mTcp.stream, from, first, mState, mTcp.pos, delivered);
      }
    }

    /** What the passes so far, the last one with outcome r, have come to. */
    static ghost predicate Progress(c: Course, r: Sync, was: Phase, held: seq<byte>, stream: seq<byte>, from: nat,
                                    first: seq<seq<byte>>, state: Phase, pos: nat, delivered: seq<seq<byte>>) {
      && from <= pos <= |stream|
      && (was != SYNC && !Scan(held + stream[from..]).bad ==> state != SYNC && !c.lost)
      && (was == SYNC ==> c.lost)
      && (was == SYNC && Magic() <= stream[from..] && !Scan(stream[from..]).bad ==>
            if state == SYNC
            then delivered == first && (if r == Stopped then pos < |stream| else r == Again && pos == from)
            else c.from == from && c.k == |first|)
      && (was == SYNC && stream[from..] < Magic() ==>
            state == SYNC && delivered == first && (r == Stopped || (r == Again && pos == from)))
      && (was == SYNC && (state != SYNC || delivered != first) ==> exists i: nat :: FoundAt(stream, from, i, pos))
    }

    static lemma ProgressAgain(c: Course, was: Phase, held: seq<byte>, stream: seq<byte>, from: nat,
                               first: seq<seq<byte>>, state: Phase, pos: nat, delivered: seq<seq<byte>>)
      requires Progress(c, Found, was, held, stream, from, first, state, pos, delivered)
      ensures Progress(c, Again, was, held, stream, from, first, state, pos, delivered)
    {
    }

    static lemma StartProgress(c: Course, was: Phase, held: seq<byte>, stream: seq<byte>, from: nat,
                               first: seq<seq<byte>>)
      requires from <= |stream| && c.lost == (was == SYNC)
      ensures Progress(c, Again, was, held, stream, from, first, was, from, first)
    {
    }

    static lemma MoreProgress(c: Course, c': Course, r: Sync, was0: Phase, held0: seq<byte>, stream: seq<byte>,
                              from: nat, first: seq<seq<byte>>, was: Phase, state: Phase, at: nat, pos: nat,
                              held: seq<byte>, held': seq<byte>, before: seq<seq<byte>>, after: seq<seq<byte>>)
      requires Progress(c, Again, was0, held0, stream, from, first, was, at, before)
      requires OnCourse(c, held0, from, first, was, stream, at, held, before)
      requires Passed(r, was, state, stream, at, pos, held, held', before, after)
      requires c.lost || was == SYNC ==> c'.lost
      requires was != SYNC && !Scan(c.lead + stream[c.from..]).bad ==> state != SYNC && c' == c.(got := c'.got)
      requires was == SYNC && state != SYNC ==> c' == Course([], at, |before|, c'.got, true)
      ensures Progress(c', r, was0, held0, stream, from, first, state, pos, after)
    {
      hide Cut, Scan, Turn, Unsynced;
      if i: nat :| FoundAt(stream, from, i, at) {
        assert FoundAt(stream, from, i, pos);
      }
      if was == SYNC {
        if FoundAt(stream, at, at, pos) && Turn(r, state, stream[at..pos], held', before, after) {
          TurnDelivers(r, state, stream[at..pos], held', before, after);
          assert FoundAt(stream, from, at, pos);
          if r == Again {
            FreshRefused(state, stream, at, pos, held', before, after);
          }
          if was0 == SYNC && stream[from..] < Magic() {
            PartMagic(r, stream, at, pos);
          }
        } else if was0 == SYNC && Magic() <= stream[from..] && at == from {
          WholeMagic(r, stream, at, pos);
        } else if was0 == SYNC && stream[from..] < Magic() {
          PartMagic(r, stream, at, pos);
        }
      } else {
        TurnDelivers(r, state, held + stream[at..pos], held', before, after);
        if c.lost {
          assert c.lead + stream[c.from..] == stream[c.from..];
          assert FoundAt(stream, from, c.from, pos);
        }
      }
    }

    static lemma WholeMagic(r: Sync, stream: seq<byte>, at: nat, pos: nat)
      requires Unsynced(r, stream, at, pos) && Magic() <= stream[at..]
      ensures r == Stopped && pos < |stream|
    {
      hide Magic;
      PrefixSlice(Magic(), stream, at, pos - at);
    }

    static lemma PartMagic(r: Sync, stream: seq<byte>, at: nat, pos: nat)
      requires at <= pos <= |stream| && stream[at..] < Magic()
      ensures Unsynced(r, stream, at, pos) ==> r == Stopped
      ensures !FoundAt(stream, at, at, pos)
    {
      hide Magic;
      SlicePrefix(Magic(), stream, at, pos - at);
    }

    static lemma EndProgress(c: Course, r: Sync, was: Phase, held: seq<byte>, stream: seq<byte>, from: nat,
                             first: seq<seq<byte>>, state: Phase, pos: nat, held': seq<byte>, delivered: seq<seq<byte>>,
                             failed: bool)
      requires Progress(c, r, was, held, stream, from, first, state, pos, delivered)
      requires OnCourse(c, held, from, first, state, stream, pos, held', delivered)
      requires (r == Stopped && (failed || pos == |stream|)) || (r == Mismatch && state == SYNC)
      requires state != SYNC ==> |held'| < HEADER_SIZE || Awaiting(held')
      ensures was != SYNC ==> Continued(held, stream, from, pos, first, state, held', delivered)
      ensures was == SYNC ==> Sought(stream, from, pos, first, failed, state, held', delivered)
      ensures state != SYNC ==> Settled(was, held, stream, from, pos, first, held', delivered)
    {
      if state != SYNC {
        Arrived(c, held, from, first, state, stream, pos, held', delivered);
      }
    }

    /** What one pass does: a turn, behind the magic if that had to be found first. */
    static ghost predicate Passed(r: Sync, was: Phase, state: Phase, stream: seq<byte>, at: nat, pos: nat,
                                  held: seq<byte>, held': seq<byte>, before: seq<seq<byte>>, after: seq<seq<byte>>) {
      && at <= pos <= |stream|
      && (was != SYNC ==> Turn(r, state, held + stream[at..pos], held', before, after))
      && (was == SYNC ==>
            || (state == SYNC && after == before && Unsynced(r, stream, at, pos))
            || (FoundAt(stream, at, at, pos) && Turn(r, state, stream[at..pos], held', before, after)))
    }

    /** One pass of the outer loop; it reads something or is the last. */
    method Pass() returns (r: Sync)
      requires Valid()
      modifies this, mTcp, mBuffer
      ensures Valid() && (mBuffer == old(mBuffer) || fresh(mBuffer))
      ensures mTcp.stream == old(mTcp.stream) && old(mTcp.pos) <= mTcp.pos && old(delivered) <= delivered
      ensures if r == Stopped then Drained(old(mTcp.failures)) else mTcp.failures == old(mTcp.failures)
      ensures r != Stopped ==> mTcp.pos > old(mTcp.pos)
      ensures r == Mismatch ==> mState == SYNC
      ensures Passed(r, old(mState), mState, mTcp.stream, old(mTcp.pos), mTcp.pos, old(Held()), Held(), old(delivered),
                     delivered)
    {
      hide Carves, Accepted, IsFrame, Awaiting, Turn;
      if mState == SYNC {
        r := SyncPhase();
        if r != Found {
          return;
        }
        ghost var at := mTcp.pos;
        r := ReceiveFrame();
        Join(mTcp.stream, old(mTcp.pos), at, mTcp.pos);
        TurnDelivers(r, mState, mTcp.stream[old(mTcp.pos)..mTcp.pos], Held(), old(delivered), delivered);
      } else {
        r := ReceiveFrame();
        TurnDelivers(r, mState, old(Held()) + mTcp.stream[old(mTcp.pos)..mTcp.pos], Held(), old(delivered), delivered);
      }
    }
  }

  lemma PrefixSlice(p: seq<byte>, s: seq<byte>, at: nat, n: nat)
    requires at <= |s| && p <= s[at..] && n <= |p|
    ensures at + n <= |s| && s[at..at + n] == p[..n]
  {
    assert forall i :: 0 <= i < n ==> s[at..][i] == p[i];
  }

  lemma SlicePrefix(p: seq<byte>, s: seq<byte>, at: nat, n: nat)
    requires at <= |s| && s[at..] <= p && at + n <= |s|
    ensures n <= |p| && s[at..at + n] == p[..n]
  {
    assert forall i :: 0 <= i < n ==> s[at..][i] == p[i];
  }

  lemma PartRead(stream: seq<byte>, from: nat, i: nat)
    requires i < 14 && from + i <= |stream| && stream[from..from + i] == Magic()[..i]
    ensures O3DSServer.Unsynced(Stopped, stream, from, from + i)
  {
    hide Magic;
  }

  lemma OtherByte(stream: seq<byte>, from: nat, i: nat)
    requires i < 14 && from + i < |stream| && stream[from + i] != Magic()[i]
    ensures O3DSServer.Unsynced(Again, stream, from, from + i + 1)
    ensures O3DSServer.Unsynced(Mismatch, stream, from, from + i + 1)
  {
    hide Magic;
    assert stream[from..from + i + 1][i] == stream[from + i] && Magic()[..i + 1][i] == Magic()[i];
  }

  lemma OneMore(stream: seq<byte>, from: nat, i: nat)
    requires i < 14 && from + i < |stream| && stream[from..from + i] == Magic()[..i]
    ensures stream[from..from + i] + [stream[from + i]] == stream[from..from + i + 1]
    ensures stream[from + i] == Magic()[i] ==> stream[from..from + i + 1] == Magic()[..i + 1]
  {
    hide Magic;
    assert Magic()[..i + 1] == Magic()[..i] + [Magic()[i]];
  }

  lemma CutAdvance(start: seq<byte>, stream: seq<byte>, from: nat, at: nat, pos: nat,
                   frames: seq<seq<byte>>, held: seq<byte>)
    requires from <= at <= pos <= |stream| && Cut(start + stream[from..at], frames, held)
    ensures Cut(start + stream[from..pos], frames, held + stream[at..pos])
  {
    hide Cut;
    CutRead(start + stream[from..at], frames, held, stream[at..pos]);
    Join(stream, from, at, pos);
    assert start + stream[from..at] + stream[at..pos] == start + (stream[from..at] + stream[at..pos]);
  }

  lemma TurnDelivers(r: Sync, state: Phase, read: seq<byte>, held: seq<byte>, before: seq<seq<byte>>,
                     after: seq<seq<byte>>)
    requires O3DSServer.Turn(r, state, read, held, before, after)
    ensures before <= after && (r == Again <==> state == SYNC) && r != Mismatch && (r == Again ==> after == before)
  {
  }

  /** One turn that refuses no header extends the cut. */
  lemma TurnCut(r: Sync, state: Phase, start: seq<byte>, stream: seq<byte>, from: nat, at: nat, pos: nat,
                got: seq<seq<byte>>, held: seq<byte>, held': seq<byte>,
                before: seq<seq<byte>>, after: seq<seq<byte>>, k: nat) returns (got': seq<seq<byte>>)
    requires from <= at <= pos <= |stream| && k <= |before| && before[k..] == got && r != Again
    requires O3DSServer.Turn(r, state, held + stream[at..pos], held', before, after)
    requires Cut(start + stream[from..at], got, held)
    ensures k <= |after| && after[k..] == got' && before <= after && Cut(start + stream[from..pos], got', held')
  {
    hide Cut, Scan, Accepted, IsFrame;
    var read := held + stream[at..pos];
    got' := got;
    CutAdvance(start, stream, from, at, pos, got, held);
    if r == Found {
      var f :| IsFrame(read, f) && after == before + [f];
      got' := got + [f];
      CutDeliver(start + stream[from..pos], got, read, f);
    }
  }

  /** A refused header is one that the bytes hold. */
  lemma TurnRefused(state: Phase, start: seq<byte>, stream: seq<byte>, from: nat, at: nat, pos: nat,
                    got: seq<seq<byte>>, held: seq<byte>, held': seq<byte>, before: seq<seq<byte>>,
                    after: seq<seq<byte>>)
    requires from <= at <= pos <= |stream|
    requires O3DSServer.Turn(Again, state, held + stream[at..pos], held', before, after)
    requires Cut(start + stream[from..at], got, held)
    ensures Scan(start + stream[from..]).bad
  {
    hide Cut, Scan, Accepted, IsFrame;
    CutAdvance(start, stream, from, at, pos, got, held);
    Refused(start, stream, from, pos, got, held + stream[at..pos]);
  }

  /** The first turn after the magic. */
  lemma TurnFresh(r: Sync, state: Phase, stream: seq<byte>, from: nat, pos: nat, held: seq<byte>,
                  before: seq<seq<byte>>, after: seq<seq<byte>>) returns (got: seq<seq<byte>>)
    requires from <= pos <= |stream| && r != Again
    requires O3DSServer.Turn(r, state, stream[from..pos], held, before, after)
    ensures |before| <= |after| && after[|before|..] == got && Cut([] + stream[from..pos], got, held)
  {
    hide Cut, Scan, Accepted, IsFrame, O3DSServer.Turn;
    CutStart([]);
    assert [] + stream[from..from] == [] && [] + stream[from..pos] == stream[from..pos] && before[|before|..] == [];
    got := TurnCut(r, state, [], stream, from, from, pos, [], [], held, before, after, |before|);
  }

  /** A refused header right behind a boundary. */
  lemma FreshRefused(state: Phase, stream: seq<byte>, at: nat, pos: nat, held: seq<byte>,
                     before: seq<seq<byte>>, after: seq<seq<byte>>)
    requires at <= pos <= |stream| && O3DSServer.Turn(Again, state, stream[at..pos], held, before, after)
    ensures Scan(stream[at..]).bad
  {
    hide Cut, Scan, O3DSServer.Turn;
    CutStart([]);
    assert [] + stream[at..at] == [] && [] + stream[at..pos] == stream[at..pos] && [] + stream[at..] == stream[at..];
    TurnRefused(state, [], stream, at, at, pos, [], [], held, before, after);
  }

  lemma Refused(start: seq<byte>, stream: seq<byte>, from: nat, pos: nat, frames: seq<seq<byte>>, held: seq<byte>)
    requires from <= pos <= |stream| && Cut(start + stream[from..pos], frames, held)
    requires |held| >= HEADER_SIZE && !Accepted(held[..HEADER_SIZE])
    ensures Scan(start + stream[from..]).bad
  {
    hide Cut, Scan, Accepted;
    CutRefused(start + stream[from..pos], frames, held, stream[pos..]);
    Join(stream, from, pos, |stream|);
    assert stream[from..] == stream[from..|stream|] && stream[pos..] == stream[pos..|stream|];
    assert start + stream[from..pos] + stream[pos..] == start + (stream[from..pos] + stream[pos..]);
  }

  lemma NotAccepted(held: seq<byte>)
    requires |held| >= HEADER_SIZE
    requires !SameCString(held, Magic(), 14) || GetU32(held, 14) > LARGEST_BUCKET
    ensures !Accepted(held[..HEADER_SIZE])
  {
  }

  lemma AwaitingMeaning(held: seq<byte>)
    ensures |held| >= HEADER_SIZE ==>
      (Accepted(held[..HEADER_SIZE]) <==> SameCString(held, Magic(), 14) && GetU32(held, 14) <= LARGEST_BUCKET)
  {
  }

  lemma AwaitingMore(held: seq<byte>, held': seq<byte>)
    requires |held| >= HEADER_SIZE && held <= held' && |held'| < HEADER_SIZE + GetU32(held, 14)
    requires SameCString(held, Magic(), 14) && GetU32(held, 14) <= LARGEST_BUCKET
    ensures O3DSServer.Awaiting(held')
  {
    AwaitingMeaning(held);
    assert held'[..HEADER_SIZE] == held[..HEADER_SIZE];
  }

  lemma Join(s: seq<byte>, a: nat, b: nat, c: nat)
    requires a <= b <= c <= |s|
    ensures s[a..b] + s[b..c] == s[a..c]
  {
  }

  lemma JoinHeld(held: seq<byte>, s: seq<byte>, a: nat, b: nat, c: nat)
    requires a <= b <= c <= |s|
    ensures held + s[a..b] + s[b..c] == held + s[a..c]
  {
  }

  lemma HeldIsFrame(start: seq<byte>, held: seq<byte>, data: seq<byte>)
    requires HEADER_SIZE <= |start| && start <= held && SameCString(start, Magic(), 14)
    requires GetU32(start, 14) <= LARGEST_BUCKET && |held| == HEADER_SIZE + GetU32(start, 14)
    requires data == held[HEADER_SIZE..]
    ensures IsFrame(held, data)
  {
  }
}
