// The typed byte stream, with its read cursor (src/o3ds/binary_stream.cpp, src/o3ds/binary_stream.h), for values in
// the byte order of the host.

module BinaryStreams {
  import opened Bytes

  /** What can be pushed. Words are uint16_t, uint32_t and uint64_t. */
  datatype Item = AByte(b: byte) | AWord(width: nat, value: nat) | AText(text: seq<byte>) | ABlob(blob: seq<byte>) {
    predicate Typed() {
      AWord? ==> width in {2, 4, 8} && value < Span(width)
    }

    /** The length prefix can hold the length. */
    predicate Fits() {
      (AText? ==> |text| < 0x100) && (ABlob? ==> |blob| < 0x1_0000)
    }

    function Shape(): Shape {
      match this
      case AByte(_) => Byte
      case AWord(w, _) => Word(w)
      case AText(_) => Text
      case ABlob(_) => Blob
    }
  }

  /** The overload of get. */
  datatype Shape = Byte | Word(width: nat) | Text | Blob

  // ----- Words -------------------------------------------------------------

  function Span(width: nat): nat {
    if width == 0 then 1 else 0x100 * Span(width - 1)
  }

  /** The bytes of an unsigned integer in memory. */
  function PutWord(width: nat, n: nat): (b: seq<byte>)
    ensures |b| == width
  {
    if width == 0 then [] else [Low(n)] + PutWord(width - 1, n / 0x100)
  }

  function GetWord(b: seq<byte>): (n: nat)
    ensures n < Span(|b|)
  {
    if b == [] then 0 else b[0] as nat + 0x100 * GetWord(b[1..])
  }

  lemma {:induction false} WordRoundTrip(width: nat, n: nat)
    requires n < Span(width)
    ensures GetWord(PutWord(width, n)) == n
    decreases width
  {
    if width > 0 {
      Split(n);
      WordRoundTrip(width - 1, n / 0x100);
      assert PutWord(width, n)[1..] == PutWord(width - 1, n / 0x100);
    }
  }

  /** A word of two bytes stands lower byte first, and so does one of four, as in the other headers. */
  lemma WordDigits(n: nat)
    ensures n < 65536 ==> var b := PutWord(2, n); n == b[0] as int + 256 * b[1] as int
    ensures n < 4294967296 ==> PutWord(4, n) == PutU32(n)
  {
    Split(n);
    Split(n / 0x100);
    hide Low;
    FromTwo(2, n);
    FromTwo(0, n);
    FromTwo(0, n / 0x100 / 0x100);
    hide PutWord;
  }

  lemma FromTwo(w: nat, n: nat)
    ensures PutWord(w + 2, n) == [Low(n), Low(n / 0x100)] + PutWord(w, n / 0x100 / 0x100)
    ensures PutWord(0, n / 0x100 / 0x100) == []
  {
    hide Low;
    assert PutWord(w + 2, n) == [Low(n)] + PutWord(w + 1, n / 0x100);
  }

  // ----- The codec ---------------------------------------------------------

  function Encode(item: Item): seq<byte> {
    match item
    case AByte(b) => [b]
    case AWord(w, n) => PutWord(w, n)
    case AText(s) => [Low(|s|)] + s
    case ABlob(s) => PutWord(2, |s| % 0x1_0000) + s
  }

  /** A string stands behind one byte with its length, a buffer behind two, the lower one first. */
  lemma EncodingBytes(s: seq<byte>)
    ensures var b := Encode(AText(s)); b[0] == |s| % 256 && b[1..] == s
    ensures var b := Encode(ABlob(s)); b[0] as int + 256 * b[1] as int == |s| % 65536 && b[2..] == s
  {
    WordDigits(|s| % 65536);
    hide PutWord;
  }

  /** A value and the new cursor, or an exception, which leaves the cursor somewhere. */
  datatype Read = Got(item: Item, next: nat) | Threw(at: nat)

  function Decode(shape: Shape, data: seq<byte>, ptr: nat): (r: Read)
    requires ptr <= |data|
    ensures r.Got? ==> ptr <= r.next <= |data| && r.item.Shape() == shape
    ensures r.Threw? ==> ptr <= r.at <= |data|
  {
    match shape
    case Byte =>
      if ptr >= |data| then Threw(ptr) else Got(AByte(data[ptr]), ptr + 1)
    case Word(w) =>
      if ptr + w > |data| then Threw(|data|) else Got(AWord(w, GetWord(data[ptr..ptr + w])), ptr + w)
    case Text =>
      if ptr >= |data| then Threw(ptr)
      else
        var len := data[ptr] as nat;
        if len + ptr + 1 > |data| then Threw(ptr + 1)
        else Got(AText(data[ptr + 1..ptr + 1 + len]), ptr + 1 + len)
    case Blob =>
      if ptr + 2 > |data| then Threw(|data|)
      else
        var len := GetWord(data[ptr..ptr + 2]);
        if ptr + 2 + len > |data| then Threw(|data|)
        else Got(ABlob(data[ptr + 2..ptr + 2 + len]), ptr + 2 + len)
  }

  /** A value is read back, with the cursor just behind it, exactly when its length fits the prefix. */
  lemma ReadBack(item: Item, before: seq<byte>, after: seq<byte>)
    requires item.Typed()
    ensures Decode(item.Shape(), before + Encode(item) + after, |before|) == Got(item, |before| + |Encode(item)|)
       <==> item.Fits()
  {
    hide PutWord, GetWord, Span, Decode;
    match item {
      case AByte(b) => ReadByte(b, before, after);
      case AWord(w, n) => ReadWord(w, n, before, after);
      case AText(s) => ReadText(s, before, after);
      case ABlob(s) => ReadBlob(s, before, after);
    }
  }

  lemma ReadByte(b: byte, before: seq<byte>, after: seq<byte>)
    ensures Decode(Byte, before + [b] + after, |before|) == Got(AByte(b), |before| + 1)
  {
  }

  lemma ReadWord(w: nat, n: nat, before: seq<byte>, after: seq<byte>)
    requires n < Span(w)
    ensures Decode(Word(w), before + PutWord(w, n) + after, |before|) == Got(AWord(w, n), |before| + w)
  {
    var data := before + PutWord(w, n) + after;
    assert data[|before|..|before| + w] == PutWord(w, n);
    WordRoundTrip(w, n);
  }

  lemma ReadText(s: seq<byte>, before: seq<byte>, after: seq<byte>)
    ensures Decode(Text, before + Encode(AText(s)) + after, |before|)
         == Got(AText(s[..|s| % 0x100]), |before| + 1 + |s| % 0x100)
  {
    var data := before + Encode(AText(s)) + after;
    var len := |s| % 0x100;
    assert data[|before|] == Low(|s|);
    assert data[|before| + 1..|before| + 1 + len] == s[..len];
  }

  lemma ReadBlob(s: seq<byte>, before: seq<byte>, after: seq<byte>)
    ensures Decode(Blob, before + Encode(ABlob(s)) + after, |before|)
         == Got(ABlob(s[..|s| % 0x1_0000]), |before| + 2 + |s| % 0x1_0000)
  {
    var data := before + Encode(ABlob(s)) + after;
    var len := |s| % 0x1_0000;
    WordRoundTrip(2, len);
    assert Span(2) == 0x1_0000;
    assert data[|before|..|before| + 2] == PutWord(2, len);
    assert data[|before| + 2..|before| + 2 + len] == s[..len];
  }

  /** A string of 256 bytes is read back as the empty one. */
  lemma LongTextExample(s: seq<byte>)
    requires |s| == 0x100
    ensures Decode(Text, Encode(AText(s)), 0) == Got(AText([]), 1)
  {
    ReadText(s, [], []);
    assert [] + Encode(AText(s)) + [] == Encode(AText(s)) && s[..0] == [];
  }

  /** A value that is cut short after k bytes is not read: get throws. The cursor is then at the end, but for strings,
      where it is behind the length, if there is one. */
  lemma CutShort(item: Item, before: seq<byte>, k: nat)
    requires item.Typed() && item.Fits() && k < |Encode(item)|
    ensures Decode(item.Shape(), before + Encode(item)[..k], |before|)
         == Threw(if item.AText? && k > 0 then |before| + 1 else |before| + k)
  {
    match item {
      case AByte(b) =>
      case AWord(w, n) =>
      case AText(s) =>
        if k > 0 {
          assert (before + Encode(item)[..k])[|before|] == Low(|s|);
        }
      case ABlob(s) =>
        BlobCutShort(s, before, k);
    }
  }

  lemma BlobCutShort(s: seq<byte>, before: seq<byte>, k: nat)
    requires |s| < 0x1_0000 && k < 2 + |s|
    ensures Decode(Blob, before + Encode(ABlob(s))[..k], |before|) == Threw(|before| + k)
  {
    hide PutWord, GetWord, Decode;
    LengthRoundTrip(|s|);
    var data := before + Encode(ABlob(s))[..k];
    if k >= 2 {
      CutSlice(before, PutWord(2, |s|), s, k);
    }
    BlobTooLong(data, |before|, k, |s|);
  }

  lemma LengthRoundTrip(n: nat)
    requires n < 0x1_0000
    ensures |PutWord(2, n)| == 2 && GetWord(PutWord(2, n)) == n
  {
    assert Span(2) == 0x1_0000;
    hide PutWord, GetWord, Span;
    WordRoundTrip(2, n);
  }

  lemma BlobTooLong(data: seq<byte>, ptr: nat, k: nat, n: nat)
    requires |data| == ptr + k && k < 2 + n && (k >= 2 ==> GetWord(data[ptr..ptr + 2]) == n)
    ensures Decode(Blob, data, ptr) == Threw(|data|)
  {
    hide GetWord;
  }

  lemma CutSlice(before: seq<byte>, a: seq<byte>, b: seq<byte>, k: nat)
    requires |a| <= k <= |a + b|
    ensures (before + (a + b)[..k])[|before|..|before| + |a|] == a
  {
    assert (a + b)[..k] == a + b[..k - |a|];
  }

  lemma Associate(a: seq<byte>, b: seq<byte>, c: seq<byte>, d: seq<byte>)
    ensures a + (b + c) + d == a + b + (c + d) == (a + b) + c + d
    ensures a + (b + c) == a + b + c
  {
  }

  // ----- Lists of values ---------------------------------------------------

  function EncodeAll(items: seq<Item>): seq<byte> {
    if items == [] then [] else Encode(items[0]) + EncodeAll(items[1..])
  }

  function Shapes(items: seq<Item>): seq<Shape> {
    seq(|items|, i requires 0 <= i < |items| => items[i].Shape())
  }

  datatype ReadAll = All(items: seq<Item>, next: nat) | Stopped(items: seq<Item>, at: nat)

  /** Gets of the shapes in turn, up to the first that throws. */
  function DecodeAll(shapes: seq<Shape>, data: seq<byte>, ptr: nat): ReadAll
    requires ptr <= |data|
    decreases |shapes|
  {
    if shapes == [] then All([], ptr)
    else
      match Decode(shapes[0], data, ptr)
      case Threw(at) => Stopped([], at)
      case Got(item, next) =>
        match DecodeAll(shapes[1..], data, next)
        case All(items, end) => All([item] + items, end)
        case Stopped(items, at) => Stopped([item] + items, at)
  }

  /** A value that stands at ptr is read from there. */
  lemma ReadBackAt(item: Item, data: seq<byte>, ptr: nat)
    requires item.Typed() && item.Fits()
    requires ptr + |Encode(item)| <= |data| && data[ptr..ptr + |Encode(item)|] == Encode(item)
    ensures Decode(item.Shape(), data, ptr) == Got(item, ptr + |Encode(item)|)
  {
    hide Decode, Encode;
    var end := ptr + |Encode(item)|;
    ReadBack(item, data[..ptr], data[end..]);
    assert data == data[..ptr] + Encode(item) + data[end..];
  }

  ghost predicate AllFit(items: seq<Item>) {
    forall item :: item in items ==> item.Typed() && item.Fits()
  }

  /** The encodings stand from ptr to end. */
  predicate Stands(items: seq<Item>, data: seq<byte>, ptr: nat, end: nat) {
    ptr <= end <= |data| && data[ptr..end] == EncodeAll(items)
  }

  /** Then the first one stands there, and the rest behind it. */
  lemma StandsApart(items: seq<Item>, data: seq<byte>, ptr: nat, end: nat)
    requires items != [] && AllFit(items) && Stands(items, data, ptr, end)
    ensures AllFit(items[1..]) && items[0].Typed() && items[0].Fits()
    ensures var next := ptr + |Encode(items[0])|;
            next <= end <= |data| && data[ptr..next] == Encode(items[0]) && Stands(items[1..], data, next, end)
  {
    hide Encode;
    var first, rest := Encode(items[0]), EncodeAll(items[1..]);
    var next := ptr + |first|;
    assert data[ptr..end] == first + rest;
    assert data[ptr..next] == (first + rest)[..|first|];
    assert data[next..end] == (first + rest)[|first|..];
  }

  lemma NothingStands(items: seq<Item>, data: seq<byte>, ptr: nat, end: nat)
    requires items == [] && Stands(items, data, ptr, end)
    ensures DecodeAll(Shapes(items), data, ptr) == All(items, end)
  {
    assert |data[ptr..end]| == end - ptr;
  }

  lemma {:induction false} AllReadBackAt(items: seq<Item>, data: seq<byte>, ptr: nat, end: nat)
    requires AllFit(items) && Stands(items, data, ptr, end)
    ensures DecodeAll(Shapes(items), data, ptr) == All(items, end)
    decreases |items|
  {
    hide Decode, DecodeAll, Encode, Shapes, AllFit, Stands;
    if items == [] {
      NothingStands(items, data, ptr, end);
    } else {
      StandsApart(items, data, ptr, end);
      var next := ptr + |Encode(items[0])|;
      ReadBackAt(items[0], data, ptr);
      AllReadBackAt(items[1..], data, next, end);
      DecodeMore(items, data, ptr, next, end);
    }
  }

  lemma DecodeMore(items: seq<Item>, data: seq<byte>, ptr: nat, next: nat, end: nat)
    requires items != [] && ptr <= |data| && Decode(items[0].Shape(), data, ptr) == Got(items[0], next)
    requires next <= |data| && DecodeAll(Shapes(items[1..]), data, next) == All(items[1..], end)
    ensures DecodeAll(Shapes(items), data, ptr) == All(items, end)
  {
    hide Decode;
    assert Shapes(items)[1..] == Shapes(items[1..]);
    assert [items[0]] + items[1..] == items;
  }

  /** Whatever is pushed is read back by gets of the same types, and the cursor ends at the end. */
  lemma AllReadBack(items: seq<Item>)
    requires forall item :: item in items ==> item.Typed() && item.Fits()
    ensures DecodeAll(Shapes(items), EncodeAll(items), 0) == All(items, |EncodeAll(items)|)
  {
    hide EncodeAll, DecodeAll, Shapes;
    AllReadBackAt(items, EncodeAll(items), 0, |EncodeAll(items)|);
  }

  /** What was pushed determines the values: no two lists of the same types share their bytes. */
  lemma Injective(a: seq<Item>, b: seq<Item>)
    requires forall item :: item in a + b ==> item.Typed() && item.Fits()
    requires Shapes(a) == Shapes(b) && EncodeAll(a) == EncodeAll(b)
    ensures a == b
  {
    assert (forall item :: item in a ==> item in a + b) && forall item :: item in b ==> item in a + b;
    AllReadBack(a);
    AllReadBack(b);
  }

  // ----- The stream --------------------------------------------------------

  class BinaryStream {
    var data: seq<byte>
    var ptr: nat

    constructor ()
      ensures data == [] && ptr == 0
    {
      data, ptr := [], 0;
    }

    method PushRaw(buf: seq<byte>)
      modifies this`data
      ensures data == old(data) + buf
    {
      for i := 0 to |buf|
        invariant data == old(data) + buf[..i]
      {
        data := data + [buf[i]];
      }
    }

    method Push(item: Item)
      modifies this`data
      ensures data == old(data) + Encode(item)
    {
      match item {
        case AByte(b) =>
          data := data + [b];
        case AWord(w, n) =>
          PushRaw(PutWord(w, n));
        case AText(s) =>
          data := data + [Low(|s|)];
          PushRaw(s);
          assert old(data) + [Low(|s|)] + s == old(data) + ([Low(|s|)] + s);
        case ABlob(s) =>
          var len := |s| % 0x1_0000;
          PushRaw(PutWord(2, len));
          PushRaw(s);
          assert old(data) + PutWord(2, len) + s == old(data) + (PutWord(2, len) + s);
      }
    }

    method PushAll(items: seq<Item>)
      modifies this`data
      ensures data == old(data) + EncodeAll(items)
    {
      ghost var start := data;
      for i := 0 to |items|
        invariant data + EncodeAll(items[i..]) == start + EncodeAll(items)
      {
        hide Encode;
        ghost var before := data;
        Push(items[i]);
        assert items[i..][1..] == items[i + 1..];
        Associate(before, Encode(items[i]), EncodeAll(items[i + 1..]), []);
      }
      assert data + [] == data && EncodeAll(items[|items|..]) == [];
    }

    /** len bytes, or none, with the cursor at the end. */
    method GetRaw(len: nat) returns (threw: bool, buf: seq<byte>)
      requires ptr <= |data|
      modifies this`ptr
      ensures threw <==> old(ptr) + len > |data|
      ensures if threw then ptr == |data| else ptr == old(ptr) + len && buf == data[old(ptr)..ptr]
    {
      if ptr + len > |data| {
        ptr := |data|;
        return true, seq(len, i => 0);
      }
      threw, buf := false, data[ptr..ptr + len];
      ptr := ptr + len;
    }

    method Get(shape: Shape) returns (threw: bool, item: Item)
      requires ptr <= |data|
      modifies this`ptr
      ensures var r := Decode(shape, data, old(ptr));
              if r.Threw? then threw && ptr == r.at else !threw && Got(item, ptr) == r
    {
      item := AByte(0);
      match shape {
        case Byte =>
          if ptr >= |data| {
            return true, item;
          }
          item := AByte(data[ptr]);
          ptr := ptr + 1;
          return false, item;
        case Word(w) =>
          var buf;
          threw, buf := GetRaw(w);
          if !threw {
            item := AWord(w, GetWord(buf));
          }
        case Text =>
          threw, item := GetText();
        case Blob =>
          threw, item := GetBlob();
      }
    }

    method GetText() returns (threw: bool, item: Item)
      requires ptr <= |data|
      modifies this`ptr
      ensures var r := Decode(Text, data, old(ptr));
              if r.Threw? then threw && ptr == r.at else !threw && Got(item, ptr) == r
    {
      item := AText([]);
      if ptr >= |data| {
        return true, item;
      }
      var len := data[ptr] as nat;
      ptr := ptr + 1;
      if len + ptr > |data| {
        return true, item;
      }
      var value := [];
      ghost var from := ptr;
      var i := 0;
      while i < len && ptr < |data|
        invariant i <= len && ptr == from + i && from + len <= |data| && value == data[from..ptr]
      {
        value := value + [data[ptr]];
        ptr := ptr + 1;
        i := i + 1;
      }
      return false, AText(value);
    }

    method GetBlob() returns (threw: bool, item: Item)
      requires ptr <= |data|
      modifies this`ptr
      ensures var r := Decode(Blob, data, old(ptr));
              if r.Threw? then threw && ptr == r.at else !threw && Got(item, ptr) == r
    {
      item := ABlob([]);
      var buf;
      threw, buf := GetRaw(2);
      if threw {
        return;
      }
      var len := GetWord(buf);
      var value := [];
      ghost var from := ptr;
      for i := 0 to len
        invariant ptr == from + i <= |data| && value == data[from..ptr]
      {
        if ptr >= |data| {
          return true, item;
        }
        value := value + [data[ptr]];
        ptr := ptr + 1;
      }
      return false, ABlob(value);
    }

    /** Gets of the given types, up to the first that throws. */
    method GetAll(shapes: seq<Shape>) returns (threw: bool, items: seq<Item>)
      requires ptr <= |data|
      modifies this`ptr
      ensures DecodeAll(shapes, data, old(ptr)) == if threw then Stopped(items, ptr) else All(items, ptr)
      decreases |shapes|
    {
      if shapes == [] {
        return false, [];
      }
      var item;
      threw, item := Get(shapes[0]);
      if threw {
        return true, [];
      }
      threw, items := GetAll(shapes[1..]);
      items := [item] + items;
    }
  }
}
