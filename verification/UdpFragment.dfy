// Splitting a message into datagrams and putting it together again (src/o3ds/udp_fragment.cpp).

module UdpFragment {
  import opened Bytes

  const HEADER_SIZE := 16
  const LARGEST_DATAGRAM := 65511

  // ----- Sending -----------------------------------------------------------

  /** Unsigned 32-bit arithmetic. */
  function Wrap(n: nat): uint32 {
    n % 0x1_0000_0000
  }

  function Product(a: uint32, b: uint32): uint32 {
    NotNegative(a, b);
    Wrap(a * b)
  }

  function Quotient(n: uint32, d: uint32): uint32
    requires d > 0
  {
    DivisionBounds(n, d);
    NotLarger(n / d, d);
    n / d
  }

  lemma NotNegative(a: nat, b: nat)
    ensures a * b >= 0
  {
  }

  lemma NotLarger(q: int, d: nat)
    requires d > 0 && q * d + d > 0
    ensures 0 <= q <= q * d
  {
    if q < 0 {
      TimesMonotone(q + 1, 0, d);
      TimesMonotone(q, q + 1, d);
    } else {
      TimesMonotone(1, d, q);
    }
  }

  /** A payload and the size it is cut to. */
  datatype Message = Message(payload: seq<byte>, fragmentSize: nat) {
    /** The payloads whose fragments fit a datagram and whose header arithmetic stays in 32 bits. */
    predicate Sendable() {
      && 1 <= |payload| && 1 <= fragmentSize <= LARGEST_DATAGRAM - HEADER_SIZE
      && |payload| + fragmentSize - 1 < 0x1_0000_0000
      && Frames() < 0x8000_0000
    }

    function Frames(): nat {
      if fragmentSize == 0 then 0 else (|payload| + fragmentSize - 1) / fragmentSize
    }

    function Start(k: nat): nat {
      k * fragmentSize
    }

    function End(k: nat): nat {
      if k * fragmentSize + fragmentSize < |payload| then k * fragmentSize + fragmentSize else |payload|
    }
  }

  /** The slots cover the payload: slot k starts inside it, and only the last one is cut short. */
  lemma SlotBounds(m: Message, k: nat)
    requires k < m.Frames()
    ensures 0 <= m.Start(k) < m.End(k) <= |m.payload|
    ensures k < m.Frames() - 1 ==> m.End(k) == m.Start(k + 1) == m.Start(k) + m.fragmentSize
    ensures k == m.Frames() - 1 ==> m.End(k) == |m.payload|
  {
    var f, n := m.fragmentSize, m.Frames();
    DivisionBounds(|m.payload| + f - 1, f);
    TimesMonotone(k, n - 1, f);
    if k < n - 1 {
      TimesMonotone(k + 1, n - 1, f);
    }
  }

  lemma DivisionBounds(a: nat, f: nat)
    requires f > 0
    ensures (a / f) * f <= a < (a / f) * f + f
  {
  }

  lemma TimesMonotone(j: int, k: int, f: nat)
    requires j <= k
    ensures j * f <= k * f && (j + 1) * f == j * f + f && (k + 1) * f == k * f + f
  {
  }

  function Slot(m: Message, k: nat): seq<byte>
    requires k < m.Frames()
  {
    SlotBounds(m, k);
    m.payload[m.Start(k)..m.End(k)]
  }

  /** The datagram for slot k: id, sequence number, payload length, fragment size, bytes. The lengths are cut to 32
      bits. */
  function Fragment(id: uint32, m: Message, k: uint32): seq<byte>
    requires k < m.Frames()
  {
    PutU32(id) + PutU32(k) + PutU32(Wrap(|m.payload|)) + PutU32(Wrap(m.fragmentSize)) + Slot(m, k)
  }

  class UdpFragmenter {
    const mFragmentSize: nat
    const mBuffer: array<byte>
    const mBufferSize: nat
    const mFrames: nat

    ghost predicate Valid()
      reads this, mBuffer
    {
      mFragmentSize > 0 && mBufferSize == mBuffer.Length && mFrames == Cut().Frames()
    }

    ghost function Cut(): Message
      reads this, mBuffer
    {
      Message(mBuffer[..], mFragmentSize)
    }

    constructor (data: seq<byte>, fragmentSize: nat)
      requires fragmentSize > 0
      ensures Valid() && fresh(mBuffer) && Cut() == Message(data, fragmentSize)
    {
      mFragmentSize := fragmentSize;
      var buffer := new byte[|data|];
      for i := 0 to |data|
        invariant buffer[..i] == data[..i]
      {
        buffer[i] := data[i];
      }
      assert buffer[..] == data;
      mBuffer := buffer;
      mBufferSize := |data|;
      mFrames := (|data| + fragmentSize - 1) / fragmentSize;
    }

    method MakeFragment(id: uint32, k: uint32) returns (out: seq<byte>)
      requires Valid() && k < mFrames
      ensures out == Fragment(id, Cut(), k)
    {
      SlotBounds(Cut(), k);
      out := PutU32(id) + PutU32(k) + PutU32(Wrap(mBufferSize)) + PutU32(Wrap(mFragmentSize));
      var start := k * mFragmentSize;
      if k == mFrames - 1 {
        out := out + mBuffer[start..start + (mBufferSize - (mFrames - 1) * mFragmentSize)];
      } else {
        out := out + mBuffer[start..start + mFragmentSize];
      }
    }
  }

  // ----- Receiving ---------------------------------------------------------

  function Id(data: seq<byte>): uint32
    requires |data| >= HEADER_SIZE
  {
    GetU32(data, 0)
  }

  function Sequence(data: seq<byte>): uint32
    requires |data| >= HEADER_SIZE
  {
    GetU32(data, 4)
  }

  function Size(data: seq<byte>): uint32
    requires |data| >= HEADER_SIZE
  {
    GetU32(data, 8)
  }

  function FragmentSize(data: seq<byte>): uint32
    requires |data| >= HEADER_SIZE
  {
    GetU32(data, 12)
  }

  function FrameCount(data: seq<byte>): uint32
    requires |data| >= HEADER_SIZE && FragmentSize(data) > 0
  {
    Quotient(Wrap(Size(data) + FragmentSize(data) - 1), FragmentSize(data))
  }

  /** Where the bytes go. */
  function Offset(data: seq<byte>): uint32
    requires |data| >= HEADER_SIZE
  {
    Product(Sequence(data), FragmentSize(data))
  }

  predicate Datagram(data: seq<byte>) {
    HEADER_SIZE <= |data| <= LARGEST_DATAGRAM
  }

  /** A combiner's contents. A size of zero means nothing has been allocated. */
  datatype Assembly = Assembly(size: nat, found: seq<bool>, bytes: seq<byte>) {
    predicate Complete() {
      forall i :: 0 <= i < |found| ==> found[i]
    }
  }

  const NOTHING := Assembly(0, [], [])

  /** The checks that leave the combiner untouched. */
  predicate Refused(a: Assembly, data: seq<byte>)
    requires Datagram(data) ==> FragmentSize(data) > 0
  {
    || !Datagram(data)
    || Sequence(data) >= FrameCount(data)
    || Product(Sequence(data), FragmentSize(data) - 1) > Size(data)
    || (a.size != 0 && a.size != Size(data))
  }

  /** A fragment that is not the last must fill its slot. */
  predicate WrongLength(data: seq<byte>)
    requires Datagram(data) && FragmentSize(data) > 0
  {
    Sequence(data) != FrameCount(data) - 1 && |data| != Wrap(FragmentSize(data) + HEADER_SIZE)
  }

  /** What the source leaves to its caller: no division by zero, no allocation of a negative number of flags, and
      no access outside the flags or the buffer. */
  predicate Fitting(a: Assembly, data: seq<byte>) {
    Datagram(data) ==>
      && FragmentSize(data) > 0
      && (!Refused(a, data) ==>
            && (if a.size == 0 then FrameCount(data) < 0x8000_0000 else Sequence(data) < |a.found|)
            && (!WrongLength(data) ==> Offset(data) + (|data| - HEADER_SIZE) <= Size(data)))
  }

  function NoneFound(n: nat): seq<bool> {
    seq(n, i => false)
  }

  /** The effect of addFragment. Bytes of a new buffer that were not written are unspecified. */
  ghost predicate Added(a: Assembly, data: seq<byte>, b: Assembly, ok: bool)
    requires Fitting(a, data)
  {
    if Refused(a, data) then !ok && b == a
    else
      var start := Offset(data);
      var end := start + (|data| - HEADER_SIZE);
      && b.size == Size(data) == |b.bytes|
      && b.found == (if a.size == 0 then NoneFound(FrameCount(data)) else a.found)[Sequence(data) := true]
      && ok == !WrongLength(data)
      && (ok ==> b.bytes[start..end] == data[HEADER_SIZE..])
      && (a.size != 0 ==>
            |a.bytes| == a.size
            && forall j :: 0 <= j < a.size && !(ok && start <= j < end) ==> b.bytes[j] == a.bytes[j])
  }

  class UdpCombiner {
    var mBuffer: array<byte>
    var mBufferSize: nat
    var mFound: seq<bool>

    ghost predicate Valid()
      reads this, mBuffer
    {
      mBuffer.Length == mBufferSize
    }

    ghost function View(): Assembly
      reads this, mBuffer
    {
      Assembly(mBufferSize, mFound, mBuffer[..])
    }

    constructor ()
      ensures Valid() && fresh(mBuffer) && View() == NOTHING
    {
      mBuffer := new byte[0];
      mBufferSize := 0;
      mFound := [];
    }

    method AddFragment(data: seq<byte>) returns (ok: bool)
      requires Valid() && Fitting(View(), data)
      modifies this, mBuffer
      ensures Valid() && (mBuffer == old(mBuffer) || fresh(mBuffer))
      ensures Added(old(View()), data, View(), ok)
    {
      if |data| < HEADER_SIZE {
        return false;
      }
      if |data| > LARGEST_DATAGRAM {
        return false;
      }
      var k, size, fragmentSize := Sequence(data), Size(data), FragmentSize(data);
      var frames := Quotient(Wrap(size + fragmentSize - 1), fragmentSize);
      if k >= frames {
        return false;
      }
      if Product(k, fragmentSize - 1) > size {
        return false;
      }
      if mBufferSize == 0 {
        mFound := NoneFound(frames);
        mBuffer := new byte[size];
        mBufferSize := size;
      } else {
        if mBufferSize != size {
          return false;
        }
      }
      mFound := mFound[k := true];
      if k != frames - 1 && |data| != Wrap(fragmentSize + HEADER_SIZE) {
        return false;
      }
      CopyIn(Product(k, fragmentSize), data[HEADER_SIZE..]);
      ok := true;
    }

    method CopyIn(start: nat, bytes: seq<byte>)
      requires start + |bytes| <= mBuffer.Length
      modifies mBuffer
      ensures mBuffer[start..start + |bytes|] == bytes
      ensures forall j :: 0 <= j < mBuffer.Length && !(start <= j < start + |bytes|) ==> mBuffer[j] == old(mBuffer[j])
    {
      forall i | 0 <= i < |bytes| {
        mBuffer[start + i] := bytes[i];
      }
    }

    method IsComplete() returns (complete: bool)
      ensures complete <==> View().Complete()
    {
      for i := 0 to |mFound|
        invariant forall j :: 0 <= j < i ==> mFound[j]
      {
        if !mFound[i] {
          return false;
        }
      }
      complete := true;
    }
  }

  /** The first of a non-empty set of ids, as the ordered map iterates. */
  lemma LeastExists(s: set<uint32>) returns (i: uint32)
    requires s != {}
    ensures i in s && forall j :: j in s ==> i <= j
  {
    i :| i in s;
    var rest := s - {i};
    assert s == rest + {i};
    if rest != {} {
      var j := LeastExists(rest);
      i := if i < j then i else j;
    }
  }

  /** The least id whose message is complete. */
  predicate LeastComplete(items: map<uint32, Assembly>, id: uint32) {
    id in items && items[id].Complete() && forall j :: j in items && j < id ==> !items[j].Complete()
  }

  /** The effect of UdpMapper::addFragment: one combiner, found or new, takes the datagram. */
  ghost predicate Delivered(items: map<uint32, Assembly>, data: seq<byte>, items': map<uint32, Assembly>)
    requires Datagram(data) ==> Fitting(At(items, Id(data)), data)
  {
    if !Datagram(data) then items' == items
    else
      var id := Id(data);
      && items'.Keys == items.Keys + {id}
      && (forall j :: j in items && j != id ==> items'[j] == items[j])
      && exists ok :: Added(At(items, id), data, items'[id], ok)
  }

  lemma DeliveredBy(items: map<uint32, Assembly>, data: seq<byte>, items': map<uint32, Assembly>, ok: bool)
    requires Datagram(data) && Fitting(At(items, Id(data)), data)
    requires Id(data) in items' && items' == items[Id(data) := items'[Id(data)]]
    requires Added(At(items, Id(data)), data, items'[Id(data)], ok)
    ensures Delivered(items, data, items')
  {
  }

  function At(items: map<uint32, Assembly>, id: uint32): Assembly {
    if id in items then items[id] else NOTHING
  }

  lemma Overwritten(items: map<uint32, Assembly>, mid: map<uint32, Assembly>, items': map<uint32, Assembly>,
                    id: uint32)
    requires mid == items[id := At(items, id)] && id in items' && items' == mid[id := items'[id]]
    ensures items' == items[id := items'[id]]
  {
  }

  function Above(items: map<uint32, Assembly>, id: uint32): map<uint32, Assembly> {
    map j | j in items && j > id :: items[j]
  }

  class UdpMapper {
    var items: map<uint32, UdpCombiner>

    ghost predicate Valid()
      reads this, items.Values, set c | c in items.Values :: c.mBuffer
    {
      && (forall j :: j in items ==> items[j].Valid())
      && (forall j, k :: j in items && k in items && j != k ==>
            items[j] != items[k] && items[j].mBuffer != items[k].mBuffer)
    }

    ghost function View(): map<uint32, Assembly>
      reads this, items.Values, set c | c in items.Values :: c.mBuffer
    {
      map j | j in items :: items[j].View()
    }

    constructor ()
      ensures Valid() && View() == map[] && items == map[]
    {
      items := map[];
    }

    /** Combiners and buffers that were not the mapper's before have been created since. */
    twostate predicate Grown()
      reads this, items.Values
    {
      && (forall j :: j in items && !(j in old(items) && items[j] == old(items)[j]) ==> fresh(items[j]))
      && (forall j :: j in items
            && !(j in old(items) && items[j] == old(items)[j] && items[j].mBuffer == old(items[j].mBuffer))
            ==> fresh(items[j].mBuffer))
    }

    method GetCombiner(id: uint32) returns (c: UdpCombiner)
      requires Valid()
      modifies this
      ensures Valid() && id in items && c == items[id] && c.View() == At(old(View()), id)
      ensures id in old(items) ==> items == old(items)
      ensures id !in old(items) ==> items == old(items)[id := c] && fresh(c) && fresh(c.mBuffer)
      ensures View() == old(View())[id := At(old(View()), id)]
    {
      if id in items {
        return items[id];
      }
      c := new UdpCombiner();
      items := items[id := c];
    }

    /** One combiner of the map takes the datagram; the others are not touched. */
    method AddTo(id: uint32, data: seq<byte>, ghost a: Assembly) returns (ok: bool)
      requires Valid() && id in items && a == items[id].View() && Fitting(a, data)
      modifies items[id], items[id].mBuffer
      ensures Valid()
      ensures items[id].mBuffer == old(items[id].mBuffer) || fresh(items[id].mBuffer)
      ensures forall j :: j in items && j != id ==> items[j].mBuffer == old(items[j].mBuffer)
      ensures View() == old(View())[id := View()[id]]
      ensures Added(a, data, View()[id], ok)
    {
      hide Added, Fitting;
      ok := items[id].AddFragment(data);
      forall j | j in items && j != id
        ensures items[j].Valid() && items[j].View() == old(items[j].View())
        ensures items[j].mBuffer != items[id].mBuffer && items[j].mBuffer == old(items[j].mBuffer)
      {
        assert items[j] != items[id] && items[j].mBuffer != old(items[id].mBuffer);
      }
    }

    /** The combiner of the id, found or new, takes the datagram. */
    method Route(id: uint32, data: seq<byte>) returns (ok: bool)
      requires Valid() && Fitting(At(View(), id), data)
      modifies this, items.Values, set c | c in items.Values :: c.mBuffer
      ensures Valid() && Grown() && id in items && View() == old(View())[id := View()[id]]
      ensures Added(At(old(View()), id), data, View()[id], ok)
    {
      hide Fitting, Added, View, Valid, At, UdpCombiner.View;
      ghost var before := View();
      var c := GetCombiner(id);
      ghost var mid := View();
      ok := AddTo(id, data, At(before, id));
      forall j | j in items && j != id
        ensures j in old(items) && items[j] == old(items)[j] && items[j].mBuffer == old(items[j].mBuffer)
      {
      }
      Overwritten(before, mid, View(), id);
    }

    method AddFragment(data: seq<byte>) returns (ok: bool)
      requires Valid()
      requires Datagram(data) ==> Fitting(At(View(), Id(data)), data)
      modifies this, items.Values, set c | c in items.Values :: c.mBuffer
      ensures Valid() && Grown()
      ensures ok == Datagram(data)
      ensures Delivered(old(View()), data, View())
    {
      if |data| < HEADER_SIZE {
        return false;
      }
      if |data| > LARGEST_DATAGRAM {
        return false;
      }
      hide Fitting, Added, Id, Valid, View;
      var added := Route(Id(data), data);
      ok := true;
      DeliveredBy(old(View()), data, View(), added);
    }

    /** The scan of getFrame, in the order of the ids. */
    method FindComplete() returns (found: bool, id: uint32)
      requires Valid()
      ensures found ==> LeastComplete(View(), id)
      ensures !found ==> forall j :: j in items ==> !items[j].View().Complete()
    {
      var rest := items.Keys;
      while rest != {}
        invariant rest <= items.Keys
        invariant forall j :: j in items && j !in rest ==> !items[j].View().Complete()
        invariant forall j, k :: j in items && j !in rest && k in rest ==> j < k
      {
        ghost var least := LeastExists(rest);
        id :| id in rest && forall j :: j in rest ==> id <= j;
        found := items[id].IsComplete();
        if found {
          return;
        }
        rest := rest - {id};
      }
      return false, 0;
    }

    method GetFrame(out: seq<byte>) returns (found: bool, out': seq<byte>)
      requires Valid()
      modifies this
      ensures Valid() && Grown()
      ensures forall j :: j in items ==> j in old(items) && items[j] == old(items)[j]
      ensures !found ==> out' == out && items == old(items) && View() == old(View())
      ensures !found ==> forall j :: j in View() ==> !View()[j].Complete()
      ensures found ==> exists id :: Released(old(View()), id, out, out', View())
    {
      var id: uint32;
      out' := out;
      found, id := FindComplete();
      assert View() == old(View());
      if found {
        ghost var before := View();
        out' := out + items[id].mBuffer[..];
        assert before[id].bytes == items[id].mBuffer[..];
        hide LeastComplete, Above, View;
        EraseUpTo(id);
        assert Released(before, id, out, out', View());
      }
    }

    /** The erase loop, with the released key copied first: the source compares with a reference into an erased
        entry. */
    method EraseUpTo(id: uint32)
      requires Valid()
      modifies this
      ensures Valid()
      ensures items == map j | j in old(items) && j > id :: old(items)[j]
      ensures View() == Above(old(View()), id)
    {
      ghost var start := items;
      NothingErased(start, id);
      var rest := items.Keys;
      while rest != {}
        invariant rest <= items.Keys && items == Erased(start, rest, id)
      {
        hide Erased;
        ghost var least := LeastExists(rest);
        var j :| j in rest && forall k :: k in rest ==> j <= k;
        OneErased(start, rest, id, j);
        if j <= id {
          items := items - {j};
        }
        rest := rest - {j};
      }
    }
  }

  /** What is left of the entries when those of `rest` are still to be looked at. */
  ghost function Erased(start: map<uint32, UdpCombiner>, rest: set<uint32>, id: uint32): map<uint32, UdpCombiner> {
    map j | j in start && (j in rest || j > id) :: start[j]
  }

  lemma NothingErased(start: map<uint32, UdpCombiner>, id: uint32)
    ensures Erased(start, start.Keys, id) == start
  {
  }

  lemma OneErased(start: map<uint32, UdpCombiner>, rest: set<uint32>, id: uint32, j: uint32)
    requires j in rest
    ensures Erased(start, rest - {j}, id)
         == if j <= id then Erased(start, rest, id) - {j} else Erased(start, rest, id)
    ensures rest <= Erased(start, rest, id).Keys ==> rest - {j} <= Erased(start, rest - {j}, id).Keys
  {
  }

  /** The effect of a successful getFrame: the least complete message is appended, and it and all before it erased. */
  ghost predicate Released(items: map<uint32, Assembly>, id: uint32, out: seq<byte>, out': seq<byte>,
                           items': map<uint32, Assembly>) {
    LeastComplete(items, id) && out' == out + items[id].bytes && items' == Above(items, id)
  }
}
