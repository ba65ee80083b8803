// Datagrams that no sender made, at a receiver that polls after each of them (src/o3ds/udp_fragment.cpp:164-204,
// plugins/unreal/Open3DStream/Source/Open3DStream/Private/UOpen3DServer.cpp:115-126).

module UdpStrays {
  import opened Bytes
  import opened UdpFragment
  import opened UdpRuns

  /** The mapper knows the id, or the datagram passes the checks of a new combiner. */
  predicate Welcome(items: map<uint32, Assembly>, data: seq<byte>)
    requires Datagram(data) ==> FragmentSize(data) > 0
  {
    Datagram(data) ==> Id(data) in items || !Refused(NOTHING, data)
  }

  predicate NoneWhole(items: map<uint32, Assembly>) {
    forall j :: j in items ==> !items[j].Complete()
  }

  // ----- The checks --------------------------------------------------------

  /** No arithmetic on the header wraps. */
  predicate Plain(data: seq<byte>)
    requires Datagram(data)
  {
    && 0 < FragmentSize(data) && Size(data) + FragmentSize(data) - 1 < 4294967296
    && Sequence(data) * FragmentSize(data) < 4294967296 && FragmentSize(data) + 16 < 4294967296
  }

  /** Whatever has between 16 and 65511 bytes is a datagram. Where no arithmetic wraps, one is refused exactly when its
      slot starts at the end of the payload or behind it, or when the message is known with another length; and one that
      is not the last must fill its slot. */
  lemma RefusedMeaning(a: Assembly, data: seq<byte>)
    ensures Datagram(data) <==> 16 <= |data| <= 65511
    ensures Datagram(data) && Plain(data) ==>
              var start := Sequence(data) * FragmentSize(data);
              && (Refused(a, data) <==> start >= Size(data) || (a.size != 0 && a.size != Size(data)))
              && (start < Size(data) ==>
                    (WrongLength(data) <==>
                       start + FragmentSize(data) < Size(data) && |data| != FragmentSize(data) + 16))
  {
    if Datagram(data) && Plain(data) {
      var k: nat, f: nat, n: nat := Sequence(data), FragmentSize(data), Size(data);
      hide Id, Sequence, Size, FragmentSize;
      WrapNothing(n + f - 1);
      WrapNothing(f + 16);
      QuotientIs(n + f - 1, f);
      SlotStarts(k, f, n);
      NotNegative(k, f - 1);
      Shrink(k, f);
      WrapNothing(k * (f - 1));
      hide Quotient, Wrap;
    }
  }

  /** Slot k starts in the payload exactly when it is one of the quotient, rounded up; and it is the last of them
      exactly when it reaches the end. */
  lemma SlotStarts(k: nat, f: nat, n: nat)
    requires f > 0
    ensures k < (n + f - 1) / f <==> k * f < n
    ensures k * f < n ==> (k == (n + f - 1) / f - 1 <==> k * f + f >= n)
  {
    var q := (n + f - 1) / f;
    DivisionBounds(n + f - 1, f);
    TimesMonotone(k, k + 1, f);
    if k < q {
      TimesMonotone(k + 1, q, f);
    } else {
      TimesMonotone(q, k, f);
    }
    if k + 1 < q {
      TimesMonotone(k + 2, q, f);
      TimesMonotone(k + 1, k + 2, f);
    }
  }

  // ----- One datagram ------------------------------------------------------

  /** A datagram that is refused leaves everything as it was exactly when its id is known. Under a new id it leaves an
      empty entry, which counts as complete. */
  lemma RefusedEntry(items: map<uint32, Assembly>, data: seq<byte>, items': map<uint32, Assembly>)
    requires Datagram(data) && Fitting(At(items, Id(data)), data) && Refused(At(items, Id(data)), data)
    requires Delivered(items, data, items')
    ensures items' == items <==> Id(data) in items
    ensures Id(data) !in items ==> items' == items[Id(data) := NOTHING] && NOTHING.Complete()
  {
    var id := Id(data);
    hide Fitting, Refused, Id;
    assert items'[id] == At(items, id);
    if id in items {
      assert items' == items;
    } else {
      assert items' == items[id := NOTHING];
    }
  }

  /** What is accepted is not empty. */
  lemma AcceptedSize(a: Assembly, data: seq<byte>)
    requires Datagram(data) && FragmentSize(data) > 0 && !Refused(a, data)
    ensures Size(data) > 0
  {
    hide Id, Sequence, Product;
    if Size(data) == 0 {
      WrapNothing(FragmentSize(data) - 1);
      SmallQuotient(FragmentSize(data) - 1, FragmentSize(data));
    }
  }

  lemma SmallQuotient(n: uint32, d: uint32)
    requires n < d
    ensures Quotient(n, d) == 0
  {
    DivisionBounds(n, d);
    if n / d > 0 {
      TimesMonotone(1, n / d, d);
    }
  }

  /** Only the entry of the datagram can have become whole. */
  lemma OnlyItsOwn(items: map<uint32, Assembly>, data: seq<byte>, mid: map<uint32, Assembly>, r: uint32)
    requires Datagram(data) && Fitting(At(items, Id(data)), data) && Delivered(items, data, mid) && NoneWhole(items)
    ensures LeastComplete(mid, r) <==> r == Id(data) && r in mid && mid[r].Complete()
    ensures Above(mid, Id(data)) == Above(items, Id(data))
  {
    hide Fitting, Added, Assembly.Complete, Id;
    assert forall j :: j in mid && j != Id(data) ==> j in items && mid[j] == items[j];
  }

  lemma AcceptedEntry(items: map<uint32, Assembly>, data: seq<byte>, mid: map<uint32, Assembly>)
    requires Datagram(data) && Fitting(At(items, Id(data)), data) && Delivered(items, data, mid)
    requires !Refused(At(items, Id(data)), data)
    ensures Id(data) in mid && |mid[Id(data)].bytes| == Size(data) > 0
  {
    hide Refused, Id, Size;
    AcceptedSize(At(items, Id(data)), data);
  }

  /** At a receiver with no whole message waiting, getFrame after a datagram hands over an empty frame exactly when the
      datagram is not welcome; then all messages with smaller ids are gone. After any other it is right: what it hands
      over is a whole message of the datagram's id and size. */
  lemma StrayHandled(items: map<uint32, Assembly>, data: seq<byte>, mid: map<uint32, Assembly>,
                     delivered: bool, frame: seq<byte>, items': map<uint32, Assembly>)
    requires Datagram(data) ==> Fitting(At(items, Id(data)), data)
    requires NoneWhole(items) && Handled(items, data, mid, delivered, frame, items')
    ensures delivered && frame == [] <==> !Welcome(items, data)
    ensures delivered ==> Datagram(data) && items' == Above(items, Id(data))
    ensures delivered && Welcome(items, data) ==>
              Id(data) in mid && mid[Id(data)].Complete() && frame == mid[Id(data)].bytes && |frame| == Size(data)
    ensures NoneWhole(items')
  {
    if Datagram(data) {
      var id := Id(data);
      HandledOwn(items, data, mid, delivered, frame, items');
      if Refused(At(items, id), data) {
        RefusedEntry(items, data, mid);
      } else {
        AcceptedEntry(items, data, mid);
        Unrefused(items, data);
      }
      hide Fitting, Refused, Delivered, Id, Size, Assembly.Complete, Handled;
    } else {
      hide Assembly.Complete;
    }
  }

  lemma Unrefused(items: map<uint32, Assembly>, data: seq<byte>)
    requires Datagram(data) && FragmentSize(data) > 0 && !Refused(At(items, Id(data)), data)
    ensures Welcome(items, data)
  {
  }

  /** A poll after it can release its own entry only. */
  lemma HandledOwn(items: map<uint32, Assembly>, data: seq<byte>, mid: map<uint32, Assembly>,
                   delivered: bool, frame: seq<byte>, items': map<uint32, Assembly>)
    requires Datagram(data) && Fitting(At(items, Id(data)), data)
    requires NoneWhole(items) && Handled(items, data, mid, delivered, frame, items')
    ensures delivered <==> Id(data) in mid && mid[Id(data)].Complete()
    ensures delivered ==> frame == mid[Id(data)].bytes && items' == Above(items, Id(data))
    ensures NoneWhole(items')
  {
    forall r ensures LeastComplete(mid, r) <==> r == Id(data) && r in mid && mid[r].Complete() {
      OnlyItsOwn(items, data, mid, r);
    }
    OnlyItsOwn(items, data, mid, Id(data));
    hide LeastComplete, Fitting, Assembly.Complete, Id, Added;
    if delivered {
      var r :| Released(mid, r, [], frame, items');
      assert [] + mid[r].bytes == mid[r].bytes;
    }
  }

  // ----- Any run of datagrams ----------------------------------------------

  /** What the callback makes of one datagram. */
  datatype Outcome = Outcome(mid: map<uint32, Assembly>, delivered: bool, frame: seq<byte>)

  /** A run of the callback on any datagrams that it is defined on, from an empty mapper. */
  ghost predicate Callbacks(datas: seq<seq<byte>>, states: seq<map<uint32, Assembly>>, outcomes: seq<Outcome>) {
    && |outcomes| == |datas| && |states| == |datas| + 1 && states[0] == map[]
    && (forall i :: 0 <= i < |datas| && Datagram(datas[i]) ==> Fitting(At(states[i], Id(datas[i])), datas[i]))
    && (forall i :: 0 <= i < |datas| ==>
          Handled(states[i], datas[i], outcomes[i].mid, outcomes[i].delivered, outcomes[i].frame, states[i + 1]))
  }

  lemma {:induction false} NeverWhole(datas: seq<seq<byte>>, states: seq<map<uint32, Assembly>>,
                                      outcomes: seq<Outcome>, i: nat)
    requires Callbacks(datas, states, outcomes) && i <= |datas|
    ensures NoneWhole(states[i])
  {
    if i > 0 {
      NeverWhole(datas, states, outcomes, i - 1);
      hide NoneWhole, Fitting, Handled;
      var o := outcomes[i - 1];
      StrayHandled(states[i - 1], datas[i - 1], o.mid, o.delivered, o.frame, states[i]);
    }
  }

  /** Over every run on any datagrams, made by a sender or not: the empty frames come after exactly the datagrams that
      are not welcome. */
  lemma EmptyFrames(datas: seq<seq<byte>>, states: seq<map<uint32, Assembly>>, outcomes: seq<Outcome>, i: nat)
    requires Callbacks(datas, states, outcomes) && i < |datas|
    ensures outcomes[i].delivered && outcomes[i].frame == [] <==> !Welcome(states[i], datas[i])
    ensures !Welcome(states[i], datas[i]) ==> states[i + 1] == Above(states[i], Id(datas[i]))
  {
    NeverWhole(datas, states, outcomes, i);
    hide NoneWhole, Fitting, Handled, Above;
    var o := outcomes[i];
    StrayHandled(states[i], datas[i], o.mid, o.delivered, o.frame, states[i + 1]);
  }

  /** A bare header that asks for the second of one fragments is not welcome under a new id. */
  lemma StrayExample(items: map<uint32, Assembly>, id: uint32)
    requires id !in items
    ensures var data := PutU32(id) + PutU32(1) + PutU32(1) + PutU32(1) + [];
            && Datagram(data) && Id(data) == id && Fitting(At(items, id), data)
            && FragmentSize(data) > 0 && !Welcome(items, data)
  {
    HeaderFields(id, 1, 1, 1, []);
    hide PutU32, Id, Sequence, Size, FragmentSize;
  }
}
