/** Control messages from end to end: assembled, split, delivered in any order and any
    number of times, put together and parsed back. */
module EndToEnd {
  import opened Bytes
  import opened TransportHeader
  import opened ControlMessage
  import opened Fragments
  import opened Packets
  import opened Sending
  import Reassembly

  /** The elements are storable, fit the length field, and every fragment offset fits. */
  ghost predicate Sendable(es: seq<Element>, pmtu: int) {
    var units := Units(pmtu, MAX_DTLS_HEADER_SIZE + MAX_CAPWAP_HEADER_SIZE);
    && (forall e | e in es :: Storable(e))
    && |ElementsBytes(es)| < 0x10000
    && (units > 0 ==> OffsetsFit(CONTROL_HEADER_SIZE + |ElementsBytes(es)|, units))
  }

  /** The receiver got back what was sent. */
  ghost predicate Understood(bytes: seq<Byte>, messageType: nat, seqNum: int, es: seq<Element>) {
    && |bytes| >= CONTROL_HEADER_SIZE
    && ParseControlHeader(bytes).messageType == messageType
    && ParseControlHeader(bytes).seqNum == seqNum % 256
    && Accepted(bytes, es)
  }

  /** Every fragment of the message has arrived at least once. */
  ghost predicate Covers(arrivals: seq<Fragment>, all: seq<Fragment>) {
    forall f | f in all :: f in arrivals
  }

  lemma {:induction false} ExpectedOnly(seen: set<Fragment>, all: set<Fragment>, m: seq<Byte>, arrivals: seq<Fragment>)
    ensures forall v | v in Reassembly.Expected(seen, all, m, arrivals) :: v == NeedMore || v == Complete(m)
    decreases |arrivals|
  {
    if arrivals != [] {
      var seen' := seen + {arrivals[0]};
      ExpectedOnly(if seen' == all then {} else seen', all, m, arrivals[1..]);
    }
  }

  lemma {:induction false} AnswersOf(vs: seq<Verdict>)
    ensures forall a :: a in Answers(vs) <==> a.Answer? && a.verdict in vs
  {
    if vs != [] {
      AnswersOf(vs[1..]);
      assert vs == [vs[0]] + vs[1..];
    }
  }

  /** A message that needs no fragments arrives with its one packet, whatever fragments
      of other messages are held. */
  lemma SingleControlMessage(s: Sender, messageType: nat, seqNum: int, es: seq<Element>, pmtu: int, id: nat,
                             held: seq<Fragment>)
    requires s.Readable() && s.binding.None? && messageType < 0x1_0000_0000
    requires (forall e | e in es :: Storable(e)) && |ElementsBytes(es)| < 0x10000
    requires |ControlPackets(s, messageType, seqNum, es, pmtu, id)| == 1
    ensures var p := ControlPackets(s, messageType, seqNum, es, pmtu, id)[0];
            exists m :: ReceivePacket(held, p, false) == (held, Answer(Complete(m)))
                     && Understood(m, messageType, seqNum, es)
  {
    var m := MessageBytes(messageType, seqNum, es);
    OnlyPacket(s, messageType, seqNum, es, pmtu, id);
    MessageRoundTrip(messageType, seqNum, es);
    hide ControlPackets, ReceivePacket, SinglePacket, MessageBytes, Accepted;
    SinglePacketArrives(held, s.(frameType := 0), m, false);
  }

  /** If there is one packet, it is that of the whole message. */
  lemma OnlyPacket(s: Sender, messageType: nat, seqNum: int, es: seq<Element>, pmtu: int, id: nat)
    requires |ControlPackets(s, messageType, seqNum, es, pmtu, id)| == 1
    ensures ControlPackets(s, messageType, seqNum, es, pmtu, id)[0] ==
            SinglePacket(s.(frameType := 0), MessageBytes(messageType, seqNum, es))
  {
    MessageHead(messageType, seqNum, es);
    var units := Units(pmtu, MAX_DTLS_HEADER_SIZE + MAX_CAPWAP_HEADER_SIZE);
    var m := MessageBytes(messageType, seqNum, es);
    hide SinglePacket, MessageBytes;
    if units > 0 && |m| > 8 * units {
      TwoOrMore(s, m, id, units);
    }
  }

  lemma TwoOrMore(s: Sender, m: seq<Byte>, id: nat, units: nat)
    requires units > 0 && |m| > 8 * units
    ensures |FragmentPackets(s, Split(m, id, 0, units))| > 1
  {
    var all := Split(m, id, 0, units);
    assert all[1..] == Split(m[8 * units..], id, units, units);
    assert |all[1..]| >= 1;
  }

  /** The end-to-end result for fragmented messages. Whatever the order and number of
      arrivals of its packets, the receiver answers nothing but "need more" and complete
      messages; every complete message parses back to the type, the sequence number
      modulo 256 and the elements that were sent; and once every packet has arrived at
      least once, there was such a message. */
  lemma FragmentedControlMessage(s: Sender, messageType: nat, seqNum: int, es: seq<Element>, pmtu: int, id: nat,
                                 arrivals: seq<Fragment>)
    requires s.Readable() && s.binding.None? && messageType < 0x1_0000_0000 && id < 0x10000
    requires Sendable(es, pmtu)
    requires |ControlPackets(s, messageType, seqNum, es, pmtu, id)| > 1
    requires var units := Units(pmtu, MAX_DTLS_HEADER_SIZE + MAX_CAPWAP_HEADER_SIZE);
             var all := Split(MessageBytes(messageType, seqNum, es), id, 0, units);
             forall f | f in arrivals :: f in all
    ensures var units := Units(pmtu, MAX_DTLS_HEADER_SIZE + MAX_CAPWAP_HEADER_SIZE);
            var all := Split(MessageBytes(messageType, seqNum, es), id, 0, units);
            var answers := RunPackets([], FragmentPackets(s, arrivals), false);
            && ControlPackets(s, messageType, seqNum, es, pmtu, id) == FragmentPackets(s, all)
            && (forall a | a in answers ::
                  || a == Answer(NeedMore)
                  || (a.Answer? && a.verdict.Complete? && Understood(a.verdict.bytes, messageType, seqNum, es)))
            && (Covers(arrivals, all) ==> exists a :: a in answers && a.Answer? && a.verdict.Complete?)
  {
    var m := MessageBytes(messageType, seqNum, es);
    var units := Units(pmtu, MAX_DTLS_HEADER_SIZE + MAX_CAPWAP_HEADER_SIZE);
    var all := Split(m, id, 0, units);
    var allSet := Reassembly.AsSet(all);
    PacketsReassemble(s, m, id, units, arrivals, false);
    var vs := Reassembly.Expected({}, allSet, m, arrivals);
    ExpectedOnly({}, allSet, m, arrivals);
    AnswersOf(vs);
    MessageRoundTrip(messageType, seqNum, es);
    if Covers(arrivals, all) {
      assert all[0] in allSet;
      ExpectedDelivers({}, allSet, m, arrivals);
      assert Answer(Complete(m)) in Answers(vs);
    }
  }

  /** A control message to be sent. */
  datatype Control = Control(messageType: nat, seqNum: int, elements: seq<Element>)

  const OVERHEAD: nat := MAX_DTLS_HEADER_SIZE + MAX_CAPWAP_HEADER_SIZE

  /** The messages with their ids, as they are split for a path. */
  function OnTheWay(messages: map<nat, Control>, pmtu: int): map<nat, Reassembly.Outgoing> {
    map id | id in messages ::
      var c := messages[id];
      Reassembly.Outgoing(MessageBytes(c.messageType, c.seqNum, c.elements), Units(pmtu, OVERHEAD))
  }

  /** Several fragmented control messages with different ids, their packets interleaved in any
      way, lost and repeated: every message that completes is understood as the one that was
      sent under the id of the packet that arrived. */
  lemma InterleavedControlMessages(s: Sender, messages: map<nat, Control>, pmtu: int, arrivals: seq<Fragment>, k: nat)
    requires s.Readable() && Units(pmtu, OVERHEAD) > 0 && k < |arrivals|
    requires forall id | id in messages ::
               id < 0x10000 && messages[id].messageType < 0x1_0000_0000 && Sendable(messages[id].elements, pmtu)
    requires var sent := OnTheWay(messages, pmtu);
             Reassembly.Fragmentable(sent) && forall f | f in arrivals :: Reassembly.IsSent(sent, f)
    ensures var answers := RunPackets([], FragmentPackets(s, arrivals), false);
            && |answers| == |arrivals| && arrivals[k].id in messages
            && var c := messages[arrivals[k].id];
               || answers[k] == Answer(NeedMore)
               || (&& answers[k].Answer? && answers[k].verdict.Complete?
                   && Understood(answers[k].verdict.bytes, c.messageType, c.seqNum, c.elements))
  {
    var sent := OnTheWay(messages, pmtu);
    forall id | id in sent
      ensures id < 0x10000 && OffsetsFit(|sent[id].m|, sent[id].units)
    {
      MessageHead(messages[id].messageType, messages[id].seqNum, messages[id].elements);
    }
    PacketsInterleave(s, sent, arrivals, false);
    Reassembly.MixedCompletes({}, sent, arrivals, k);
    AnswerAt(Reassembly.ExpectedMixed({}, sent, arrivals), k);
    var c := messages[arrivals[k].id];
    MessageRoundTrip(c.messageType, c.seqNum, c.elements);
  }

  /** Their messages are never empty, so they can be split. */
  lemma AlwaysFragmentable(messages: map<nat, Control>, pmtu: int)
    requires Units(pmtu, OVERHEAD) > 0
    ensures Reassembly.Fragmentable(OnTheWay(messages, pmtu))
  {
    forall id | id in messages
      ensures MessageBytes(messages[id].messageType, messages[id].seqNum, messages[id].elements) != []
    {
      MessageHead(messages[id].messageType, messages[id].seqNum, messages[id].elements);
    }
  }
}
