/** The sending side: elements and a control header are stored into one buffer, which
    is then cut into packets (`CWAssembleMessage`, `CWAssembleDataMessage`). */
module Sending {
  import opened Bytes
  import opened Options
  import opened TransportHeader
  import opened ControlMessage
  import opened Fragments
  import opened Packets

  function Flatten(parts: seq<seq<Byte>>): seq<Byte> {
    if parts == [] then [] else parts[0] + Flatten(parts[1..])
  }

  lemma {:induction false} FlattenSnoc(parts: seq<seq<Byte>>, p: seq<Byte>)
    ensures Flatten(parts + [p]) == Flatten(parts) + p
  {
    if parts == [] {
      assert [p][1..] == [] && parts + [p] == [p];
    } else {
      FlattenSnoc(parts[1..], p);
      assert (parts + [p])[1..] == parts[1..] + [p];
      assert parts[0] + (Flatten(parts[1..]) + p) == parts[0] + Flatten(parts[1..]) + p;
    }
  }

  /** `CWAssembleMsgElem`: header and body of one element. */
  method AssembleMsgElem(elemType: nat, body: seq<Byte>) returns (elem: Message)
    ensures fresh(elem) && fresh(elem.msg) && elem.Valid()
    ensures elem.Written() == ElementBytes(Element(elemType, body))
  {
    elem := new Message(6 + |body|);
    elem.Store16(elemType);
    elem.Store16(|body|);
    elem.StoreRawBytes(body);
  }

  /** `CWAssembleControlHeader` */
  method AssembleControlHeader(messageType: int, seqNum: int, elemsLen: nat) returns (hdr: Message)
    ensures fresh(hdr) && fresh(hdr.msg) && hdr.Valid()
    ensures hdr.Written() == ControlHeaderBytes(messageType, seqNum, elemsLen)
  {
    hdr := new Message(8);
    hdr.Store32(messageType);
    hdr.Store8(seqNum);
    hdr.Store16(OFFSET_FOR_MSG_ELEMS + elemsLen);
    hdr.Store8(0);
  }

  method TotalLength(elems: seq<seq<Byte>>) returns (elemsLen: nat)
    ensures elemsLen == |Flatten(elems)|
  {
    elemsLen := 0;
    for i := 0 to |elems|
      invariant elemsLen == |Flatten(elems[..i])|
    {
      elemsLen := elemsLen + |elems[i]|;
      FlattenSnoc(elems[..i], elems[i]);
      assert elems[..i] + [elems[i]] == elems[..i + 1];
    }
    assert elems[..|elems|] == elems;
  }

  method StoreAll(msg: Message, elems: seq<seq<Byte>>)
    requires msg.Valid() && msg.offset + |Flatten(elems)| <= msg.msg.Length
    modifies msg`offset, msg.msg
    ensures msg.Valid() && msg.Written() == old(msg.Written()) + Flatten(elems)
  {
    ghost var start := msg.Written();
    for i := 0 to |elems|
      invariant msg.Valid() && msg.Written() == start + Flatten(elems[..i])
    {
      PrefixFits(elems, i);
      FlattenSnoc(elems[..i], elems[i]);
      assert elems[..i] + [elems[i]] == elems[..i + 1];
      Regroup(start, Flatten(elems[..i]), elems[i], []);
      msg.StoreRawBytes(elems[i]);
    }
    assert elems[..|elems|] == elems;
  }

  /** Control header and elements, all consecutively in one buffer. */
  method AssembleBody(messageType: int, seqNum: int, elems: seq<seq<Byte>>) returns (msg: Message)
    ensures fresh(msg) && fresh(msg.msg) && msg.Valid()
    ensures msg.Written() == ControlHeaderBytes(messageType, seqNum, |Flatten(elems)|) + Flatten(elems)
  {
    hide ControlHeaderBytes, Flatten;
    var elemsLen := TotalLength(elems);
    var hdr := AssembleControlHeader(messageType, seqNum, elemsLen);
    msg := new Message(hdr.offset + elemsLen);
    msg.StoreMessage(hdr);
    StoreAll(msg, elems);
  }

  lemma {:induction false} PrefixFits(elems: seq<seq<Byte>>, i: nat)
    requires i < |elems|
    ensures |Flatten(elems[..i])| + |elems[i]| <= |Flatten(elems)|
    decreases |elems|
  {
    if i > 0 {
      PrefixFits(elems[1..], i - 1);
      assert elems[..i][1..] == elems[1..][..i - 1];
    }
  }

  /** A packet: transport header, then payload. */
  method AssemblePacket(v: HeaderValues, mac: seq<Byte>, payload: seq<Byte>) returns (packet: seq<Byte>)
    requires |mac| == 6
    ensures packet == Header(v, mac) + payload
  {
    hide Header;
    var hdr := AssembleTransportHeader(v, mac);
    var msg := new Message(hdr.offset + |payload|);
    msg.StoreMessage(hdr);
    msg.StoreRawBytes(payload);
    packet := msg.msg[..msg.offset];
  }

  method AssembleFragment(s: Sender, f: Fragment) returns (packet: seq<Byte>)
    requires |s.mac| == 6
    ensures packet == FragmentPacket(s, f)
  {
    packet := AssemblePacket(FragmentHeader(s, f), s.mac, f.data);
  }

  /** `i` times `size`, as the loop adds it up. */
  function Times(i: nat, size: nat): nat {
    if i == 0 then 0 else Times(i - 1, size) + size
  }

  lemma {:induction false} TimesIsMul(i: nat, size: nat)
    ensures Times(i, size) == i * size
  {
    if i > 0 {
      TimesIsMul(i - 1, size);
      assert i * size == (i - 1) * size + size;
    }
  }

  lemma {:induction false} TimesMonotone(i: nat, j: nat, size: nat)
    requires i <= j
    ensures Times(i, size) <= Times(j, size)
  {
    if i < j {
      TimesMonotone(i, j - 1, size);
    }
  }

  /** The number of fragments of `size` bytes: the quotient, rounded up. */
  method CountFragments(len: nat, size: nat) returns (n: nat)
    requires size > 0 && len > 0
    ensures n > 0 && Times(n - 1, size) < len <= Times(n, size)
  {
    n := len / size;
    assert len == n * size + len % size;
    TimesIsMul(n, size);
    if len % size != 0 {
      n := n + 1;
    }
  }

  /** The fragmenting loop shared by control and data messages: `size` bytes a fragment,
      the rest in the last one. */
  method AssembleFragments(s: Sender, m: seq<Byte>, id: nat, units: nat) returns (packets: seq<seq<Byte>>)
    requires |s.mac| == 6 && units > 0 && m != []
    ensures packets == FragmentPackets(s, Split(m, id, 0, units))
  {
    hide FragmentPacket;
    var size := 8 * units;
    var n := CountFragments(|m|, size);
    var before := (n - 1) * size;
    TimesIsMul(n - 1, size);
    packets := [];
    var offset := 0;
    ghost var at := 0;
    for i := 0 to n
      invariant i < n ==> offset == 8 * at == Times(i, size) < |m|
      invariant Cut(s, m, id, units, packets, at, i == n)
    {
      var last := i == n - 1;
      FragmentBounds(|m|, i, n, size);
      var fragSize := if last then |m| - before else size;
      var f := Fragment(id, offset / 8, last, m[offset..offset + fragSize]);
      var packet := AssembleFragment(s, f);
      NextFragment(s, m, id, at, units, f, packets);
      packets := packets + [packet];
      at := at + units;
      offset := offset + fragSize;
    }
  }

  lemma FragmentBounds(len: nat, i: nat, n: nat, size: nat)
    requires i < n && Times(n - 1, size) < len <= Times(n, size)
    ensures i < n - 1 ==> Times(i, size) + size < len && Times(i + 1, size) == Times(i, size) + size
    ensures i == n - 1 ==> Times(i, size) < len <= Times(i, size) + size
  {
    if i < n - 1 {
      TimesMonotone(i + 1, n - 1, size);
    }
  }

  /** The packets cut so far, together with those of the rest from `at` on, are the
      packets of the whole message. */
  ghost predicate Cut(s: Sender, m: seq<Byte>, id: nat, units: nat, packets: seq<seq<Byte>>, at: nat, done: bool)
    requires units > 0
  {
    var all := FragmentPackets(s, Split(m, id, 0, units));
    if done then packets == all
    else 8 * at <= |m| && packets + FragmentPackets(s, Split(m[8 * at..], id, at, units)) == all
  }

  lemma NextFragment(s: Sender, m: seq<Byte>, id: nat, at: nat, units: nat, f: Fragment, packets: seq<seq<Byte>>)
    requires units > 0 && 8 * at < |m| && Cut(s, m, id, units, packets, at, false)
    requires f.id == id && f.offset == at && (f.last <==> |m| <= 8 * (at + units))
    requires f.data == m[8 * at..if f.last then |m| else 8 * (at + units)]
    ensures Cut(s, m, id, units, packets + [FragmentPacket(s, f)], at + units, f.last)
  {
    var rest := m[8 * at..];
    var fs := Split(rest, id, at, units);
    var ps := FragmentPackets(s, fs);
    assert f.data == if f.last then rest else rest[..8 * units];
    assert fs[0] == f && ps[0] == FragmentPacket(s, f);
    assert ps == [ps[0]] + FragmentPackets(s, fs[1..]);
    if f.last {
      assert fs[1..] == [];
    } else {
      assert rest[8 * units..] == m[8 * (at + units)..];
      assert fs[1..] == Split(m[8 * (at + units)..], id, at + units, units);
    }
  }

  /** Splitting to the path MTU: the packets of a message; an empty one that could be split
      has none. */
  method AssemblePackets(s: Sender, m: seq<Byte>, pmtu: int, overhead: nat, id: nat) returns (packets: seq<seq<Byte>>)
    requires |s.mac| == 6
    ensures packets == PacketsOf(s, m, id, Units(pmtu, overhead))
  {
    var units := Units(pmtu, overhead);
    if units == 0 || 0 < |m| <= 8 * units {
      var packet := AssemblePacket(HeaderValues(s.payloadType, s.frameType, 0, 0, 0, 0, s.binding), s.mac, m);
      packets := [packet];
    } else if m == [] {
      packets := [];
    } else {
      packets := AssembleFragments(s, m, id, units);
    }
  }

  /** The packets of a control message. A fragmented one carries whatever frame type the
      sender's uninitialised variable holds. */
  function ControlPackets(s: Sender, messageType: int, seqNum: int, es: seq<Element>, pmtu: int, id: nat)
    : seq<seq<Byte>>
  {
    var m := MessageBytes(messageType, seqNum, es);
    var units := Units(pmtu, MAX_DTLS_HEADER_SIZE + MAX_CAPWAP_HEADER_SIZE);
    PacketsOf(if units == 0 || |m| <= 8 * units then s.(frameType := 0) else s, m, id, units)
  }

  function ElementParts(es: seq<Element>): seq<seq<Byte>> {
    if es == [] then [] else [ElementBytes(es[0])] + ElementParts(es[1..])
  }

  lemma {:induction false} FlattenParts(es: seq<Element>)
    ensures Flatten(ElementParts(es)) == ElementsBytes(es)
  {
    if es != [] {
      FlattenParts(es[1..]);
      assert ElementParts(es)[1..] == ElementParts(es[1..]);
    }
  }

  /** `CWAssembleMessage`, for elements that are given with their headers. */
  method AssembleMessage(s: Sender, messageType: int, seqNum: int, elems: seq<seq<Byte>>, pmtu: int, id: nat,
                         ghost es: seq<Element>) returns (packets: seq<seq<Byte>>)
    requires |s.mac| == 6 && s.binding.None? && elems == ElementParts(es)
    ensures packets == ControlPackets(s, messageType, seqNum, es, pmtu, id)
  {
    FlattenParts(es);
    var msg := AssembleBody(messageType, seqNum, elems);
    var m := msg.msg[..msg.offset];
    var units := Units(pmtu, MAX_DTLS_HEADER_SIZE + MAX_CAPWAP_HEADER_SIZE);
    var s' := if units == 0 || |m| <= 8 * units then s.(frameType := 0) else s;
    packets := AssemblePackets(s', m, pmtu, MAX_DTLS_HEADER_SIZE + MAX_CAPWAP_HEADER_SIZE, id);
  }

  // ---------- sizes ----------

  lemma {:induction false} FragmentSizes(m: seq<Byte>, id: nat, at: nat, units: nat)
    requires units > 0
    ensures forall f | f in Split(m, id, at, units) :: |f.data| <= 8 * units
    decreases |m|
  {
    if |m| > 8 * units {
      FragmentSizes(m[8 * units..], id, at + units, units);
    }
  }

  lemma {:induction false} PacketSizes(s: Sender, fs: seq<Fragment>, bound: nat)
    requires |s.mac| == 6 && forall f | f in fs :: |f.data| <= bound
    ensures forall p | p in FragmentPackets(s, fs) ::
              |p| <= 4 * HeaderLength(MacPresent(s.mac), s.binding.Some?) + bound
  {
    if fs != [] {
      HeaderSize(FragmentHeader(s, fs[0]), s.mac);
      PacketSizes(s, fs[1..], bound);
    }
  }

  /** Once the path MTU leaves room for a group of eight bytes, every packet fits beside
      the overhead allowed for: a control packet without radio address is at most the MTU
      less the DTLS header, one with a radio address eight bytes more. */
  lemma PacketsFitPath(s: Sender, m: seq<Byte>, pmtu: int, overhead: nat, id: nat)
    requires |s.mac| == 6 && pmtu >= overhead + 8
    ensures forall p | p in PacketsOf(s, m, id, Units(pmtu, overhead)) ::
              |p| <= pmtu - overhead + 4 * HeaderLength(MacPresent(s.mac), s.binding.Some?)
  {
    var units := Units(pmtu, overhead);
    assert 0 < 8 * units <= pmtu - overhead;
    HeaderSize(HeaderValues(s.payloadType, s.frameType, 0, 0, 0, 0, s.binding), s.mac);
    if |m| > 8 * units {
      FragmentSizes(m, id, 0, units);
      PacketSizes(s, Split(m, id, 0, units), 8 * units);
    }
  }

  // ---------- as few packets as the path allows ----------

  lemma {:induction false} SplitCount(m: seq<Byte>, id: nat, at: nat, units: nat)
    requires units > 0 && m != []
    ensures var n := |Split(m, id, at, units)|; Times(n - 1, 8 * units) < |m| <= Times(n, 8 * units)
    decreases |m|
  {
    if |m| > 8 * units {
      SplitCount(m[8 * units..], id, at + units, units);
    } else {
      assert Times(1, 8 * units) == Times(0, 8 * units) + 8 * units;
    }
  }

  /** The largest multiple of eight bytes that the path MTU leaves beside the overhead. */
  lemma Room(pmtu: int, overhead: nat)
    ensures if pmtu < overhead + 8 then Units(pmtu, overhead) == 0
            else 8 * Units(pmtu, overhead) == (pmtu - overhead) / 8 * 8 > pmtu - overhead - 8
    ensures pmtu >= overhead + 8 ==> Units(pmtu, overhead) > 0
  {
  }

  /** A message is one packet, not marked as a fragment, if it fits the path or the path
      leaves no room for a fragment; otherwise it is two or more, and none if it is empty. */
  lemma OnePacketIff(s: Sender, m: seq<Byte>, pmtu: int, overhead: nat, id: nat)
    ensures var ps := PacketsOf(s, m, id, Units(pmtu, overhead));
            && (|ps| == 1 <==> pmtu < overhead + 8 || 0 < |m| <= (pmtu - overhead) / 8 * 8)
            && (|ps| == 1 ==> ps == [SinglePacket(s, m)])
            && (ps == [] <==> pmtu >= overhead + 8 && m == [])
  {
    Room(pmtu, overhead);
    var units := Units(pmtu, overhead);
    hide Units, SinglePacket;
    if units > 0 && |m| > 8 * units {
      SplitCount(m, id, 0, units);
      assert Times(1, 8 * units) == 0 + 8 * units;
    }
  }

  /** The fragments of a message that does not fit: joined they are the message, one follows
      the other, and all but the last are as large as multiples of eight bytes within the path
      can be. */
  lemma FullFragments(s: Sender, m: seq<Byte>, pmtu: int, overhead: nat, id: nat) returns (fs: seq<Fragment>)
    requires pmtu >= overhead + 8 && |m| > (pmtu - overhead) / 8 * 8
    ensures PacketsOf(s, m, id, Units(pmtu, overhead)) == FragmentPackets(s, fs)
    ensures Joined(fs) == m && Consecutive(fs, id, 0, (pmtu - overhead) / 8)
    ensures forall k | 0 <= k < |fs| - 1 :: pmtu - overhead - 8 < |fs[k].data| <= pmtu - overhead
  {
    Room(pmtu, overhead);
    var units := Units(pmtu, overhead);
    fs := Split(m, id, 0, units);
    SplitPartitions(m, id, 0, units);
    hide Units;
    forall k | 0 <= k < |fs| - 1
      ensures |fs[k].data| == 8 * units
    {
      EqualSizes(fs, id, 0, units, k);
    }
  }

  lemma {:induction false} EqualSizes(fs: seq<Fragment>, id: nat, at: nat, units: nat, k: nat)
    requires Consecutive(fs, id, at, units) && k < |fs| - 1
    ensures |fs[k].data| == 8 * units
    decreases |fs|
  {
    if k > 0 {
      EqualSizes(fs[1..], id, at + units, units, k - 1);
    }
  }

  lemma {:induction false} PiecesBound(pieces: seq<seq<Byte>>, size: nat, bound: nat)
    requires size <= bound && forall p | p in pieces :: |p| <= size
    ensures |Flatten(pieces)| <= Times(|pieces|, bound)
  {
    if pieces != [] {
      PiecesBound(pieces[1..], size, bound);
    }
  }

  lemma {:induction false} TimesStrict(i: nat, j: nat, size: nat)
    requires Times(i, size) < Times(j, size)
    ensures i < j
  {
    if j <= i {
      TimesMonotone(j, i, size);
    }
  }

  lemma WithinRoom(pmtu: int, overhead: nat, size: nat)
    requires size % 8 == 0 && size <= pmtu - overhead
    ensures size <= 8 * Units(pmtu, overhead)
  {
  }

  /** No other way to cut the message into pieces of at most one multiple of eight bytes within
      the path takes fewer packets. */
  lemma FewestPackets(s: Sender, m: seq<Byte>, pmtu: int, overhead: nat, id: nat, pieces: seq<seq<Byte>>, size: nat)
    requires m != [] && Flatten(pieces) == m && size % 8 == 0 && size <= pmtu - overhead
    requires forall p | p in pieces :: |p| <= size
    ensures |PacketsOf(s, m, id, Units(pmtu, overhead))| <= |pieces|
  {
    WithinRoom(pmtu, overhead, size);
    hide Units;
    FewestForUnits(s, m, id, Units(pmtu, overhead), pieces, size);
  }

  lemma FewestForUnits(s: Sender, m: seq<Byte>, id: nat, units: nat, pieces: seq<seq<Byte>>, size: nat)
    requires m != [] && Flatten(pieces) == m && size <= 8 * units && forall p | p in pieces :: |p| <= size
    ensures |PacketsOf(s, m, id, units)| <= |pieces|
  {
    assert pieces != [];
    hide Split, SinglePacket, FragmentPackets, Flatten;
    if units > 0 && |m| > 8 * units {
      FewestFragments(m, id, units, pieces, size);
    }
  }

  lemma FewestFragments(m: seq<Byte>, id: nat, units: nat, pieces: seq<seq<Byte>>, size: nat)
    requires units > 0 && m != [] && Flatten(pieces) == m
    requires size <= 8 * units && forall p | p in pieces :: |p| <= size
    ensures |Split(m, id, 0, units)| <= |pieces|
  {
    hide *;
    SplitCount(m, id, 0, units);
    PiecesBound(pieces, size, 8 * units);
    TimesStrict(|Split(m, id, 0, units)| - 1, |pieces|, 8 * units);
  }

  /** For control messages the overhead is 33 bytes. */
  lemma ControlPacketIff(s: Sender, messageType: int, seqNum: int, es: seq<Element>, pmtu: int, id: nat)
    ensures |ControlPackets(s, messageType, seqNum, es, pmtu, id)| == 1 <==>
            pmtu < 41 || |MessageBytes(messageType, seqNum, es)| <= (pmtu - 33) / 8 * 8
  {
    var m := MessageBytes(messageType, seqNum, es);
    MessageHead(messageType, seqNum, es);
    OnePacketIff(s, m, pmtu, 33, id);
    OnePacketIff(s.(frameType := 0), m, pmtu, 33, id);
    hide PacketsOf, MessageBytes;
  }
}
