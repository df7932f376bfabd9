/** Control messages: a control header followed by message elements in
    type-length-value form (sections 4.5.1 and 4.6 of RFC 5415). */
module ControlMessage {
  import opened Bytes

  datatype Element = Element(elemType: nat, body: seq<Byte>)

  /** The 16-bit fields of an element header can hold its type and length. */
  predicate Storable(e: Element) {
    e.elemType < 0x10000 && |e.body| < 0x10000
  }

  datatype ControlHeader = ControlHeader(messageType: nat, seqNum: nat, msgElemsLen: nat)

  const CONTROL_HEADER_SIZE: nat := 8
  /** The length field also counts the sequence number and itself. */
  const OFFSET_FOR_MSG_ELEMS := 3

  // ---------- assembling ----------

  function ElementBytes(e: Element): seq<Byte> {
    Be16(e.elemType) + Be16(|e.body|) + e.body
  }

  function ElementsBytes(es: seq<Element>): seq<Byte> {
    if es == [] then [] else ElementBytes(es[0]) + ElementsBytes(es[1..])
  }

  function ControlHeaderBytes(messageType: int, seqNum: int, elemsLen: nat): seq<Byte> {
    Be32(messageType) + [seqNum % 256] + Be16(OFFSET_FOR_MSG_ELEMS + elemsLen) + [0]
  }

  /** The message `CWAssembleMessage` builds before it is split into packets. */
  function MessageBytes(messageType: int, seqNum: int, es: seq<Element>): seq<Byte> {
    ControlHeaderBytes(messageType, seqNum, |ElementsBytes(es)|) + ElementsBytes(es)
  }

  // ---------- parsing ----------

  /** Where a walk over message elements ends: it counts every byte it went over.
      `Overread` stands for a read beyond the buffer, which is not checked for. */
  datatype Walk = Walked(elements: seq<Element>, consumed: nat) | Overread

  /** The element loop shared by the message parsers: it goes on while fewer than
      `len` bytes were consumed. */
  function WalkElements(s: seq<Byte>, len: int): Walk
    decreases |s|
  {
    if len <= 0 then Walked([], 0)
    else if |s| < 4 then Overread
    else
      var bodyLen := FromBe16(s[2..]);
      if |s| < 4 + bodyLen then Overread
      else
        match WalkElements(s[4 + bodyLen..], len - 4 - bodyLen)
        case Overread => Overread
        case Walked(es, n) => Walked([Element(FromBe16(s), s[4..4 + bodyLen])] + es, 4 + bodyLen + n)
  }

  function ParseControlHeader(s: seq<Byte>): ControlHeader
    requires |s| >= CONTROL_HEADER_SIZE
  {
    ControlHeader(FromBe32(s), s[4], FromBe16(s[5..]))
  }

  /** The `unsigned short` element length once the header bytes it counts are off. */
  function ElementsLength(h: ControlHeader): nat {
    (h.msgElemsLen - OFFSET_FOR_MSG_ELEMS) % 0x10000
  }

  // ---------- round trip ----------

  lemma ElementHead(e: Element, rest: seq<Byte>)
    requires Storable(e)
    ensures var s := ElementBytes(e) + rest;
            && FromBe16(s) == e.elemType && FromBe16(s[2..]) == |e.body|
            && s[4..4 + |e.body|] == e.body && s[4 + |e.body|..] == rest
  {
    var s := ElementBytes(e) + rest;
    assert s == Be16(e.elemType) + (Be16(|e.body|) + (e.body + rest));
    assert s[2..] == Be16(|e.body|) + (e.body + rest);
    RoundTrip16(e.elemType, Be16(|e.body|) + (e.body + rest));
    RoundTrip16(|e.body|, e.body + rest);
  }

  /** Walking over stored elements finds the same elements, in order, and goes over
      exactly their bytes. */
  lemma {:induction false} WalkRoundTrip(es: seq<Element>, rest: seq<Byte>)
    requires forall e | e in es :: Storable(e)
    ensures WalkElements(ElementsBytes(es) + rest, |ElementsBytes(es)|) == Walked(es, |ElementsBytes(es)|)
  {
    if es != [] {
      var tail := ElementsBytes(es[1..]);
      ElementHead(es[0], tail + rest);
      hide FromBe16;
      WalkRoundTrip(es[1..], rest);
      assert ElementsBytes(es) + rest == ElementBytes(es[0]) + (tail + rest);
      assert [es[0]] + es[1..] == es;
    }
  }

  lemma HeadBytes(s: seq<Byte>, bodyLen: nat)
    requires |s| >= 4 + bodyLen && bodyLen == FromBe16(s[2..])
    ensures ElementBytes(Element(FromBe16(s), s[4..4 + bodyLen])) == s[..4 + bodyLen]
  {
    Same16(s);
    Same16(s[2..]);
    hide Be16, FromBe16;
    assert s[..4 + bodyLen] == s[..2] + s[2..][..2] + s[4..4 + bodyLen];
  }

  lemma Cut(s: seq<Byte>, a: nat, b: nat)
    requires a + b <= |s|
    ensures s[..a + b] == s[..a] + s[a..][..b]
  {
  }

  lemma Prepend(e: Element, es: seq<Element>)
    ensures ElementsBytes([e] + es) == ElementBytes(e) + ElementsBytes(es)
  {
    assert ([e] + es)[1..] == es;
  }

  /** A walk that found an element took it from the front and went on behind it. */
  lemma WalkHead(s: seq<Byte>, len: int) returns (bodyLen: nat, rest: Walk)
    requires len > 0 && WalkElements(s, len).Walked?
    ensures |s| >= 4 + bodyLen && bodyLen == FromBe16(s[2..])
    ensures rest == WalkElements(s[4 + bodyLen..], len - 4 - bodyLen) && rest.Walked?
    ensures WalkElements(s, len) == Walked([Element(FromBe16(s), s[4..4 + bodyLen])] + rest.elements,
                                           4 + bodyLen + rest.consumed)
  {
    bodyLen := FromBe16(s[2..]);
    rest := WalkElements(s[4 + bodyLen..], len - 4 - bodyLen);
  }

  lemma WalkTail(s: seq<Byte>, bodyLen: nat, es: seq<Element>, consumed: nat)
    requires |s| >= 4 + bodyLen && bodyLen == FromBe16(s[2..]) && consumed <= |s| - 4 - bodyLen
    requires s[4 + bodyLen..][..consumed] == ElementsBytes(es)
    ensures s[..4 + bodyLen + consumed] == ElementsBytes([Element(FromBe16(s), s[4..4 + bodyLen])] + es)
  {
    HeadBytes(s, bodyLen);
    hide ElementBytes, ElementsBytes, FromBe16;
    Prepend(Element(FromBe16(s), s[4..4 + bodyLen]), es);
    Cut(s, 4 + bodyLen, consumed);
  }

  /** Conversely, the bytes a walk went over are the bytes of the elements it found:
      nothing is skipped, joined or reordered. */
  lemma {:induction false} WalkFaithful(s: seq<Byte>, len: int)
    requires WalkElements(s, len).Walked?
    ensures var w := WalkElements(s, len);
            w.consumed <= |s| && s[..w.consumed] == ElementsBytes(w.elements)
    decreases |s|
  {
    if len > 0 {
      var bodyLen, w := WalkHead(s, len);
      hide WalkElements, ElementsBytes, FromBe16;
      WalkFaithful(s[4 + bodyLen..], len - 4 - bodyLen);
      WalkTail(s, bodyLen, w.elements, w.consumed);
    }
  }

  lemma HeaderFields(messageType: int, seqNum: int, elemsLen: nat, rest: seq<Byte>)
    ensures var s := ControlHeaderBytes(messageType, seqNum, elemsLen) + rest;
            && ParseControlHeader(s) == ControlHeader(messageType % 0x1_0000_0000, seqNum % 256,
                                                      (OFFSET_FOR_MSG_ELEMS + elemsLen) % 0x10000)
            && s[CONTROL_HEADER_SIZE..] == rest
  {
    var len := OFFSET_FOR_MSG_ELEMS + elemsLen;
    var s := ControlHeaderBytes(messageType, seqNum, elemsLen) + rest;
    assert s == Be32(messageType) + ([seqNum % 256] + Be16(len) + [0] + rest);
    RoundTrip32(messageType, [seqNum % 256] + Be16(len) + [0] + rest);
    assert s[5..] == Be16(len) + ([0] + rest);
    RoundTrip16(len, [0] + rest);
  }

  lemma LengthWraps(n: nat)
    ensures ((OFFSET_FOR_MSG_ELEMS + n) % 0x10000 - OFFSET_FOR_MSG_ELEMS) % 0x10000 == n % 0x10000
    ensures n % 0x10000 == n <==> n < 0x10000
  {
  }

  /** What the receiver takes from the header of an assembled message. The wrap of the
      length field is undone by the subtraction, so all lengths below 2^16 survive. */
  lemma MessageHead(messageType: int, seqNum: int, es: seq<Element>)
    ensures var s := MessageBytes(messageType, seqNum, es);
            && |s| >= CONTROL_HEADER_SIZE
            && ParseControlHeader(s).messageType == messageType % 0x1_0000_0000
            && ParseControlHeader(s).seqNum == seqNum % 256
            && ElementsLength(ParseControlHeader(s)) == |ElementsBytes(es)| % 0x10000
            && s[CONTROL_HEADER_SIZE..] == ElementsBytes(es)
  {
    var n := |ElementsBytes(es)|;
    HeaderFields(messageType, seqNum, n, ElementsBytes(es));
    LengthWraps(n);
  }

  /** The loop and the check after it: the elements must fill the stated length. */
  predicate Accepted(s: seq<Byte>, es: seq<Element>)
    requires |s| >= CONTROL_HEADER_SIZE
  {
    var len := ElementsLength(ParseControlHeader(s));
    WalkElements(s[CONTROL_HEADER_SIZE..], len) == Walked(es, len)
  }

  lemma WalkOwnBytes(es: seq<Element>, len: nat)
    requires forall e | e in es :: Storable(e)
    ensures WalkElements(ElementsBytes(es), len) == Walked(es, len) <==> len == |ElementsBytes(es)|
  {
    WalkRoundTrip(es, []);
    assert ElementsBytes(es) + [] == ElementsBytes(es);
    if WalkElements(ElementsBytes(es), len) == Walked(es, len) {
      WalkFaithful(ElementsBytes(es), len);
    }
  }

  /** Parsing undoes assembling: the message type, the sequence number modulo 256 and,
      if and only if their total length is below 2^16, the elements come back. */
  lemma MessageRoundTrip(messageType: nat, seqNum: int, es: seq<Element>)
    requires messageType < 0x1_0000_0000
    requires forall e | e in es :: Storable(e)
    ensures var s := MessageBytes(messageType, seqNum, es);
            && |s| >= CONTROL_HEADER_SIZE
            && ParseControlHeader(s).messageType == messageType
            && ParseControlHeader(s).seqNum == seqNum % 256
            && (Accepted(s, es) <==> |ElementsBytes(es)| < 0x10000)
  {
    MessageHead(messageType, seqNum, es);
    var n := |ElementsBytes(es)|;
    LengthWraps(n);
    WalkOwnBytes(es, n % 0x10000);
  }
}
