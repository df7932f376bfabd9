/** Whole packets: a message is split to the path MTU, each fragment gets a transport
    header, and the receiver parses packets and puts fragments together. */
module Packets {
  import opened BitFields
  import opened Bytes
  import opened Options
  import opened TransportHeader
  import opened Fragments
  import Reassembly

  const MAX_DTLS_HEADER_SIZE := 25
  const MAX_CAPWAP_HEADER_SIZE := 8
  /** Fragment offsets have 13 bits. */
  const OFFSETS: nat := 8192

  /** Sender settings that are the same for all packets of a message. */
  datatype Sender = Sender(payloadType: int, frameType: int, binding: Option<Binding>, mac: seq<Byte>)
  {
    /** The receiver can undo the header: not both optional parts. */
    predicate Readable() {
      |mac| == 6 && !(MacPresent(mac) && binding.Some?)
    }
  }

  function FragmentHeader(s: Sender, f: Fragment): HeaderValues {
    HeaderValues(s.payloadType, s.frameType, 1, Bit(f.last), f.id, f.offset, s.binding)
  }

  function FragmentPacket(s: Sender, f: Fragment): seq<Byte> {
    Header(FragmentHeader(s, f), s.mac) + f.data
  }

  function SinglePacket(s: Sender, m: seq<Byte>): seq<Byte> {
    Header(HeaderValues(s.payloadType, s.frameType, 0, 0, 0, 0, s.binding), s.mac) + m
  }

  function FragmentPackets(s: Sender, fs: seq<Fragment>): (ps: seq<seq<Byte>>)
    ensures |ps| == |fs|
  {
    if fs == [] then [] else [FragmentPacket(s, fs[0])] + FragmentPackets(s, fs[1..])
  }

  /** Groups of eight bytes that a packet may carry beside `overhead` bytes; 0 means
      that messages are not fragmented. */
  function Units(pmtu: int, overhead: nat): nat {
    if pmtu - overhead > 0 then (pmtu - overhead) / 8 else 0
  }

  /** The packets of a message. */
  function PacketsOf(s: Sender, m: seq<Byte>, id: nat, units: nat): seq<seq<Byte>> {
    if units == 0 || 0 < |m| <= 8 * units then [SinglePacket(s, m)]
    else if m == [] then []
    else FragmentPackets(s, Split(m, id, 0, units))
  }

  // ---------- receiving packets ----------

  /** The header was refused (`Invalid` or `Overrun`), or the fragment list had its say. */
  datatype Answer = Refused(why: ParseOutcome) | Answer(verdict: Verdict)

  /** `CWProtocolParseFragment` on a packet. */
  function ReceivePacket(fs: seq<Fragment>, buf: seq<Byte>, dataFlag: bool): (seq<Fragment>, Answer) {
    var o := ParseHeader(buf, dataFlag);
    if !o.Parsed? || o.header.consumed > |buf| then (fs, Refused(o))
    else
      var h := o.header;
      var payload := buf[h.consumed..];
      if h.isFragment == 0 then (fs, Answer(Complete(payload)))
      else
        var (fs', v) := Receive(fs, Fragment(h.fragmentID, h.fragmentOffset, h.last == 1, payload));
        (fs', Answer(v))
  }

  function RunPackets(fs: seq<Fragment>, bufs: seq<seq<Byte>>, dataFlag: bool): seq<Answer>
    decreases |bufs|
  {
    if bufs == [] then []
    else
      var (fs', a) := ReceivePacket(fs, bufs[0], dataFlag);
      [a] + RunPackets(fs', bufs[1..], dataFlag)
  }

  /** A fragment as it is seen after the wire: id and offset cut to their fields. */
  function OnWire(f: Fragment): Fragment {
    f.(id := Low(f.id, FRAGMENT_ID.len), offset := Low(f.offset, FRAGMENT_OFFSET.len))
  }

  lemma PacketIsFragment(fs: seq<Fragment>, s: Sender, f: Fragment, dataFlag: bool)
    requires s.Readable()
    ensures var (fs', v) := Receive(fs, OnWire(f));
            ReceivePacket(fs, FragmentPacket(s, f), dataFlag) == (fs', Answer(v))
  {
    var v := FragmentHeader(s, f);
    HeaderRoundTrip(v, s.mac, f.data, dataFlag);
    LowSmall(1, F.len);
    LowSmall(Bit(f.last), L.len);
    var buf := FragmentPacket(s, f);
    assert buf[|Header(v, s.mac)|..] == f.data;
  }

  lemma SinglePacketArrives(fs: seq<Fragment>, s: Sender, m: seq<Byte>, dataFlag: bool)
    requires s.Readable()
    ensures ReceivePacket(fs, SinglePacket(s, m), dataFlag) == (fs, Answer(Complete(m)))
  {
    var v := HeaderValues(s.payloadType, s.frameType, 0, 0, 0, 0, s.binding);
    HeaderRoundTrip(v, s.mac, m, dataFlag);
    LowSmall(0, F.len);
    assert SinglePacket(s, m)[|Header(v, s.mac)|..] == m;
  }

  function Wire(fs: seq<Fragment>): (ws: seq<Fragment>)
    ensures |ws| == |fs|
  {
    if fs == [] then [] else [OnWire(fs[0])] + Wire(fs[1..])
  }

  function Answers(vs: seq<Verdict>): seq<Answer> {
    if vs == [] then [] else [Answer(vs[0])] + Answers(vs[1..])
  }

  /** A receiver of packets behaves as a receiver of the fragments inside them. */
  lemma {:induction false} PacketsAreFragments(fs: seq<Fragment>, s: Sender, arrivals: seq<Fragment>, dataFlag: bool)
    requires s.Readable()
    ensures RunPackets(fs, FragmentPackets(s, arrivals), dataFlag) == Answers(Run(fs, Wire(arrivals)))
    decreases |arrivals|
  {
    if arrivals != [] {
      PacketIsFragment(fs, s, arrivals[0], dataFlag);
      var (fs', v) := Receive(fs, OnWire(arrivals[0]));
      PacketsAreFragments(fs', s, arrivals[1..], dataFlag);
      var ps, ws := FragmentPackets(s, arrivals), Wire(arrivals);
      assert ps[1..] == FragmentPackets(s, arrivals[1..]) && ws[1..] == Wire(arrivals[1..]);
      var vs := Run(fs, ws);
      assert vs == [v] + Run(fs', ws[1..]) && vs[1..] == Run(fs', ws[1..]);
    }
  }

  // ---------- offsets ----------

  /** Where the last fragment of `len` bytes starts. */
  function LastOffset(len: nat, at: nat, units: nat): nat
    requires units > 0
    decreases len
  {
    if len <= 8 * units then at else LastOffset(len - 8 * units, at + units, units)
  }

  /** The offset of the last fragment fits its field. */
  predicate OffsetsFit(len: nat, units: nat)
    requires units > 0
  {
    LastOffset(len, 0, units) < OFFSETS
  }

  lemma {:induction false} LastOffsetBelow(len: nat, at: nat, units: nat)
    requires units > 0 && len > 0
    ensures LastOffset(len, at, units) >= at && 8 * (LastOffset(len, at, units) - at) < len
    decreases len
  {
    if len > 8 * units {
      LastOffsetBelow(len - 8 * units, at + units, units);
    }
  }

  /** Messages of up to 65536 bytes always fit. */
  lemma ShortMessagesFit(len: nat, units: nat)
    requires units > 0 && 0 < len <= 65536
    ensures OffsetsFit(len, units)
  {
    LastOffsetBelow(len, 0, units);
  }

  lemma FieldSizes()
    ensures Shl(1, FRAGMENT_OFFSET.len) == OFFSETS && Shl(1, FRAGMENT_ID.len) == 0x10000
  {
    ShlByte(1);
    ShlTwice(1, 8, 8);
    ShlByte(256);
    ShlTwice(1, 5, 8);
    assert Shl(1, 2) == 4;
    assert Shl(1, 4) == 16;
    assert Shl(1, 5) == 32;
    ShlByte(32);
  }

  lemma WireField(id: nat, offset: nat)
    ensures id < 0x10000 ==> Low(id, FRAGMENT_ID.len) == id
    ensures offset < OFFSETS ==> Low(offset, FRAGMENT_OFFSET.len) == offset
    ensures Low(offset, FRAGMENT_OFFSET.len) < OFFSETS
  {
    FieldSizes();
    LowBound(offset, FRAGMENT_OFFSET.len);
    if id < 0x10000 {
      LowOfSmall(id, FRAGMENT_ID.len);
    }
    if offset < OFFSETS {
      LowOfSmall(offset, FRAGMENT_OFFSET.len);
    }
  }

  lemma {:induction false} WireUnchanged(fs: seq<Fragment>)
    requires forall f | f in fs :: f.id < 0x10000 && f.offset < OFFSETS
    ensures Wire(fs) == fs
  {
    if fs != [] {
      WireField(fs[0].id, fs[0].offset);
      WireUnchanged(fs[1..]);
    }
  }

  lemma {:induction false} FittingFragments(m: seq<Byte>, id: nat, at: nat, units: nat)
    requires units > 0
    ensures forall f | f in Split(m, id, at, units) :: f.id == id && f.offset <= LastOffset(|m|, at, units)
    decreases |m|
  {
    if |m| > 8 * units {
      FittingFragments(m[8 * units..], id, at + units, units);
      LastOffsetBelow(|m| - 8 * units, at + units, units);
    }
  }

  /** Packets of a fragmented message, in any order and any number of times, make the
      receiver ask for more until the last missing one is there, and then hand out the
      message. */
  lemma PacketsReassemble(s: Sender, m: seq<Byte>, id: nat, units: nat, arrivals: seq<Fragment>, dataFlag: bool)
    requires s.Readable() && units > 0 && m != [] && id < 0x10000 && OffsetsFit(|m|, units)
    requires forall f | f in arrivals :: f in Split(m, id, 0, units)
    ensures RunPackets([], FragmentPackets(s, arrivals), dataFlag)
         == Answers(Reassembly.Expected({}, Reassembly.AsSet(Split(m, id, 0, units)), m, arrivals))
  {
    FittingFragments(m, id, 0, units);
    WireUnchanged(arrivals);
    PacketsAreFragments([], s, arrivals, dataFlag);
    Reassembly.AnyOrderReassembles(m, id, units, arrivals);
  }

  /** Packets of several fragmented messages with different ids, interleaved in any way and
      repeated: the receiver says exactly what it should. */
  lemma PacketsInterleave(s: Sender, sent: map<nat, Reassembly.Outgoing>, arrivals: seq<Fragment>, dataFlag: bool)
    requires s.Readable() && Reassembly.Fragmentable(sent)
    requires forall id | id in sent :: id < 0x10000 && OffsetsFit(|sent[id].m|, sent[id].units)
    requires forall f | f in arrivals :: Reassembly.IsSent(sent, f)
    ensures RunPackets([], FragmentPackets(s, arrivals), dataFlag)
         == Answers(Reassembly.ExpectedMixed({}, sent, arrivals))
  {
    forall f | f in arrivals
      ensures f.id < 0x10000 && f.offset < OFFSETS
    {
      assert Reassembly.IsSent(sent, f);
      FittingFragments(sent[f.id].m, f.id, 0, sent[f.id].units);
    }
    WireUnchanged(arrivals);
    PacketsAreFragments([], s, arrivals, dataFlag);
    Reassembly.MixedReassembles(sent, arrivals);
  }

  lemma {:induction false} AnswerAt(vs: seq<Verdict>, k: nat)
    requires k < |vs|
    ensures |Answers(vs)| == |vs| && Answers(vs)[k] == Answer(vs[k])
  {
    if |vs| > 1 {
      AnswerAt(vs[1..], if k > 0 then k - 1 else 0);
    }
  }

  // ---------- messages too long for the offset field ----------

  /** All fragments held have the id, are not last, and lie below the limit. */
  predicate Below(held: seq<Fragment>, id: nat, limit: nat) {
    held == [] || (held[0].id == id && !held[0].last && held[0].offset < limit && Below(held[1..], id, limit))
  }

  function Limit(at: nat): nat {
    if at < OFFSETS then at else OFFSETS
  }

  /** The fragments held fill the message up to `at`, as far as offsets can tell. */
  predicate Filling(held: seq<Fragment>, id: nat, at: nat) {
    Below(held, id, Limit(at)) && HeldSize(held) >= 8 * Limit(at)
  }

  lemma {:induction false} BelowAll(held: seq<Fragment>, id: nat, limit: nat)
    requires Below(held, id, limit)
    ensures forall f | f in held :: f.id == id && !f.last && f.offset < limit
  {
    if held != [] {
      BelowAll(held[1..], id, limit);
    }
  }

  lemma {:induction false} BelowMonotone(held: seq<Fragment>, id: nat, a: nat, b: nat)
    requires Below(held, id, a) && a <= b
    ensures Below(held, id, b)
  {
    if held != [] {
      BelowMonotone(held[1..], id, a, b);
    }
  }

  lemma {:induction false} NoLastNoTotal(fs: seq<Fragment>)
    requires forall f | f in fs :: !f.last
    ensures TotalSize(fs) == 0
  {
    if fs != [] {
      NoLastNoTotal(fs[..|fs| - 1]);
    }
  }

  lemma Stored(held: seq<Fragment>, w: Fragment, limit: nat)
    requires Below(held, w.id, limit) && !w.last
    ensures Receive(held, w) == if Held(held, w) then (held, NeedMore) else ([w] + held, NeedMore)
    ensures w.offset >= limit ==> !Held(held, w)
  {
    BelowAll(held, w.id, limit);
    NoLastNoTotal([w] + held);
  }

  lemma FillMore(held: seq<Fragment>, id: nat, f: Fragment, units: nat) returns (held': seq<Fragment>)
    requires Filling(held, id, f.offset) && id < 0x10000 && units > 0
    requires f.id == id && !f.last && |f.data| == 8 * units
    ensures Receive(held, OnWire(f)) == (held', NeedMore)
    ensures Filling(held', id, f.offset + units)
  {
    var w := OnWire(f);
    WireField(id, f.offset);
    Stored(held, w, Limit(f.offset));
    held' := if Held(held, w) then held else [w] + held;
    assert ([w] + held)[1..] == held;
    BelowMonotone(held, id, Limit(f.offset), Limit(f.offset + units));
  }

  lemma LastTooFar(held: seq<Fragment>, id: nat, f: Fragment)
    requires Filling(held, id, f.offset) && id < 0x10000 && f.offset >= OFFSETS
    requires f.id == id && f.last && |f.data| > 0
    ensures Receive(held, OnWire(f)).1 == NeedMore
  {
    var w := OnWire(f);
    WireField(id, f.offset);
    BelowAll(held, id, OFFSETS);
    if !Held(held, w) {
      var all := [w] + held;
      assert all[1..] == held;
      OneLast(all, w);
    }
  }

  lemma {:induction false} OneLast(fs: seq<Fragment>, w: Fragment)
    requires w.last && |fs| > 0 && fs[0] == w && forall f | f in fs[1..] :: !f.last
    ensures TotalSize(fs) == w.offset * 8 + |w.data|
  {
    if |fs| > 1 {
      assert fs[|fs| - 1] == fs[1..][|fs| - 2];
      assert forall f | f in fs[..|fs| - 1][1..] :: f in fs[1..];
      OneLast(fs[..|fs| - 1], w);
    }
  }

  /** All answers to the fragments sent are "need more". */
  predicate Unheard(held: seq<Fragment>, fs: seq<Fragment>)
    decreases |fs|
  {
    fs == [] ||
    var (held', v) := Receive(held, OnWire(fs[0]));
    v == NeedMore && Unheard(held', fs[1..])
  }

  lemma {:induction false} UnheardRun(held: seq<Fragment>, fs: seq<Fragment>, v: Verdict)
    requires Unheard(held, fs) && v in Run(held, Wire(fs))
    ensures v == NeedMore
    decreases |fs|
  {
    var (held', v0) := Receive(held, OnWire(fs[0]));
    assert Wire(fs)[1..] == Wire(fs[1..]);
    if v != v0 {
      UnheardRun(held', fs[1..], v);
    }
  }

  lemma UnheardMore(held: seq<Fragment>, m: seq<Byte>, id: nat, at: nat, units: nat, held': seq<Fragment>)
    requires units > 0 && |m| > 8 * units
    requires Receive(held, OnWire(Fragment(id, at, false, m[..8 * units]))) == (held', NeedMore)
    ensures Unheard(held', Split(m[8 * units..], id, at + units, units)) ==> Unheard(held, Split(m, id, at, units))
  {
    assert Split(m, id, at, units)[1..] == Split(m[8 * units..], id, at + units, units);
  }

  lemma LongStep(held: seq<Fragment>, m: seq<Byte>, id: nat, at: nat, units: nat) returns (held': seq<Fragment>)
    requires units > 0 && |m| > 8 * units && id < 0x10000 && Filling(held, id, at)
    ensures Filling(held', id, at + units)
    ensures Unheard(held', Split(m[8 * units..], id, at + units, units)) ==> Unheard(held, Split(m, id, at, units))
  {
    hide Receive;
    held' := FillMore(held, id, Fragment(id, at, false, m[..8 * units]), units);
    UnheardMore(held, m, id, at, units, held');
  }

  lemma LongEnd(held: seq<Fragment>, m: seq<Byte>, id: nat, at: nat, units: nat)
    requires units > 0 && 0 < |m| <= 8 * units && id < 0x10000 && Filling(held, id, at) && at >= OFFSETS
    ensures Unheard(held, Split(m, id, at, units))
  {
    LastTooFar(held, id, Fragment(id, at, true, m));
    assert Split(m, id, at, units)[1..] == [];
  }

  lemma {:induction false} LongRun(held: seq<Fragment>, m: seq<Byte>, id: nat, at: nat, units: nat)
    requires units > 0 && m != [] && id < 0x10000 && Filling(held, id, at)
    requires LastOffset(|m|, at, units) >= OFFSETS
    ensures Unheard(held, Split(m, id, at, units))
    decreases |m|
  {
    hide Receive, Split, Unheard, Filling;
    if |m| > 8 * units {
      var held' := LongStep(held, m, id, at, units);
      LongRun(held', m[8 * units..], id, at + units, units);
    } else {
      LongEnd(held, m, id, at, units);
    }
  }

  lemma {:induction false} ExpectedDelivers(seen: set<Fragment>, all: set<Fragment>, m: seq<Byte>,
                                            arrivals: seq<Fragment>)
    requires seen < all && Reassembly.AsSet(arrivals) <= all <= seen + Reassembly.AsSet(arrivals)
    ensures Complete(m) in Reassembly.Expected(seen, all, m, arrivals)
    decreases |arrivals|
  {
    if arrivals != [] {
      var f, rest := arrivals[0], arrivals[1..];
      assert arrivals == [f] + rest;
      assert Reassembly.AsSet(arrivals) == {f} + Reassembly.AsSet(rest);
      if seen + {f} != all {
        ExpectedDelivers(seen + {f}, all, m, rest);
      }
    }
  }

  /** Sending the fragments once each, in order, delivers the message if and only if the
      offset of the last one fits its field. */
  lemma DeliveredIffFits(m: seq<Byte>, id: nat, units: nat)
    requires units > 0 && m != [] && id < 0x10000
    ensures Complete(m) in Run([], Wire(Split(m, id, 0, units))) <==> OffsetsFit(|m|, units)
  {
    var all := Split(m, id, 0, units);
    if OffsetsFit(|m|, units) {
      FittingFragments(m, id, 0, units);
      WireUnchanged(all);
      Reassembly.AnyOrderReassembles(m, id, units, all);
      assert all[0] in Reassembly.AsSet(all);
      ExpectedDelivers({}, Reassembly.AsSet(all), m, all);
    } else {
      LongRun([], m, id, 0, units);
      if Complete(m) in Run([], Wire(all)) {
        UnheardRun([], all, Complete(m));
      }
    }
  }
}
