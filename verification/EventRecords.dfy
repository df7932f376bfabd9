/** What the elements of Change State Event Requests and WTP Event Requests say, byte by byte
    (sections 4.6 and 9.4 of RFC 5415), and that the parsers read exactly that: every message
    they accept is the bytes of some items, and those items come back. */
module EventRecords {
  import opened Options
  import opened Bytes
  import opened ControlMessage
  import opened TwoPass

  /** One element, by what it says. */
  datatype Item =
    | Entry(record: Record)
    | Result(code: nat)
    | DecryptErrors(radioID: Byte, length: Byte, addresses: seq<Byte>)
    | StationGone(radioID: Byte, address: seq<Byte>)
    | Reboots(counters: seq<nat>, lastFailureType: Byte)
    | DuplicateIPv4(ip: seq<Byte>, status: Byte, device: seq<Byte>)
    | DuplicateIPv6(ip: seq<Byte>, status: Byte, device: seq<Byte>)

  // ---------- on the wire ----------

  /** Numbers of sixteen bits, the higher byte first. */
  function Words(vs: seq<nat>): (s: seq<Byte>)
    ensures |s| == 2 * |vs|
  {
    if vs == [] then [] else [vs[0] / 256 % 256, vs[0] % 256] + Words(vs[1..])
  }

  predicate Small(vs: seq<nat>) {
    forall i | 0 <= i < |vs| :: vs[i] < 0x10000
  }

  /** The values fit their places. */
  predicate Sendable(i: Item) {
    match i
    case Entry(Radio(_, _, _)) => true
    case Entry(Operational(_, _, rate)) => rate < 0x10000
    case Entry(Statistics(_, _, counters)) => |counters| == 9 && Small(counters)
    case Entry(Blank) => false
    case Result(code) => code < 0x1_0000_0000
    case DecryptErrors(_, _, addresses) => |addresses| % 6 == 0 && |addresses| / 6 < 256
    case StationGone(_, address) => |address| < 256
    case Reboots(counters, _) => |counters| == 7 && Small(counters)
    case DuplicateIPv4(ip, _, device) => |ip| == 4 && |device| < 256
    case DuplicateIPv6(ip, _, device) => |ip| == 16 && |device| < 256
  }

  function Kind(i: Item): nat {
    match i
    case Entry(Radio(_, _, _)) => 32
    case Entry(Operational(_, _, _)) => 46
    case Entry(Statistics(_, _, _)) => 47
    case Entry(Blank) => 0
    case Result(_) => 33
    case DecryptErrors(_, _, _) => 15
    case StationGone(_, _) => 18
    case Reboots(_, _) => 48
    case DuplicateIPv4(_, _, _) => 21
    case DuplicateIPv6(_, _, _) => 22
  }

  function Body(i: Item): seq<Byte>
    requires Sendable(i)
  {
    match i
    case Entry(Radio(id, state, cause)) => [id, state, cause]
    case Entry(Operational(id, level, rate)) => [id, level] + Words([rate])
    case Entry(Statistics(id, failure, counters)) => [id, failure] + Words(counters)
    case Result(code) => Words([code / 0x10000, code % 0x10000])
    case DecryptErrors(id, length, addresses) => [id, |addresses| / 6, length] + addresses
    case StationGone(id, address) => [id, |address|] + address
    case Reboots(counters, failure) => Words(counters) + [failure]
    case DuplicateIPv4(ip, status, device) => ip + [status, |device|] + device
    case DuplicateIPv6(ip, status, device) => ip + [status, |device|] + device
  }

  function Encode(i: Item): Element
    requires Sendable(i)
  {
    Element(Kind(i), Body(i))
  }

  /** The items that belong into a message of the parser. */
  predicate Belongs(p: Parser, i: Item) {
    match p
    case ChangeState => i.Result? || (i.Entry? && i.record.Radio?)
    case WtpEvent => !i.Result? && (i.Entry? ==> i.record.Operational? || i.record.Statistics?)
  }

  predicate Fitting(p: Parser, items: seq<Item>) {
    forall k | 0 <= k < |items| :: Sendable(items[k]) && Belongs(p, items[k])
  }

  function Elements(p: Parser, items: seq<Item>): (es: seq<Element>)
    requires Fitting(p, items)
    ensures |es| == |items| && forall k | 0 <= k < |items| :: es[k] == Encode(items[k])
  {
    seq(|items|, k requires 0 <= k < |items| => Encode(items[k]))
  }

  function BytesOf(p: Parser, items: seq<Item>): seq<Byte>
    requires Fitting(p, items)
  {
    ElementsBytes(Elements(p, items))
  }

  // ---------- what comes back ----------

  /** The records among some items that are of one kind, in order. */
  function Chosen(items: seq<Item>, kind: nat): seq<Record> {
    if items == [] then []
    else
      var last := items[|items| - 1];
      Chosen(items[..|items| - 1], kind) + if last.Entry? && Kind(last) == kind then [last.record] else []
  }

  /** The bodies of the other items; of several of a kind the last counts. */
  function Others(p: Parser, items: seq<Item>): map<nat, seq<Byte>>
    requires Fitting(p, items)
  {
    if items == [] then map[]
    else
      var last, before := items[|items| - 1], Others(p, items[..|items| - 1]);
      if last.Entry? then before else before[Kind(last) := Body(last)]
  }

  /** What a message made of the items says: one table of radio states, or one of operational
      and one of radio statistics. */
  function Said(p: Parser, items: seq<Item>): Request
    requires Fitting(p, items)
  {
    Request(if p.ChangeState? then [Chosen(items, 32)] else [Chosen(items, 46), Chosen(items, 47)], Others(p, items))
  }

  // ---------- one element ----------

  lemma {:induction false} WordsAt(vs: seq<nat>, k: nat, before: seq<Byte>, after: seq<Byte>)
    requires k < |vs| && Small(vs)
    ensures FromBe16((before + Words(vs) + after)[|before| + 2 * k..]) == vs[k]
    decreases |vs|
  {
    var s := before + Words(vs) + after;
    var head := [vs[0] / 256 % 256, vs[0] % 256];
    if k == 0 {
      assert s[|before|..][..2] == head;
      assert s[|before|] == head[0] && s[|before| + 1] == head[1];
    } else {
      WordsAt(vs[1..], k - 1, before + head, after);
      assert s == (before + head) + Words(vs[1..]) + after;
    }
  }

  lemma StatisticsBack(r: Record)
    requires r.Statistics? && Sendable(Entry(r))
    ensures Fits(Encode(Entry(r))) && Decode(Encode(Entry(r))) == r
  {
    var b := Body(Entry(r));
    forall k | 0 <= k < 9
      ensures FromBe16(b[2 + 2 * k..]) == r.counters[k]
    {
      WordsAt(r.counters, k, [r.radioID, r.lastFailureType], []);
      assert b == [r.radioID, r.lastFailureType] + Words(r.counters) + [];
    }
    hide FromBe16, Words;
    assert Decode(Encode(Entry(r))).counters == r.counters;
  }

  lemma OperationalBack(r: Record)
    requires r.Operational? && Sendable(Entry(r))
    ensures Fits(Encode(Entry(r))) && Decode(Encode(Entry(r))) == r
  {
    WordsAt([r.framesPerSec], 0, [r.radioID, r.txQueueLevel], []);
    var b := Body(Entry(r));
    assert b == [r.radioID, r.txQueueLevel] + Words([r.framesPerSec]) + [];
  }

  /** Decoding the bytes of a record gives the record. */
  lemma RecordBack(r: Record)
    requires Sendable(Entry(r))
    ensures Fits(Encode(Entry(r))) && Decode(Encode(Entry(r))) == r
  {
    match r
    case Radio(_, _, _) =>
    case Operational(_, _, _) => OperationalBack(r);
    case Statistics(_, _, _) => StatisticsBack(r);
  }

  lemma EncodedIsReadable(p: Parser, i: Item)
    requires Sendable(i) && Belongs(p, i)
    ensures Readable(p, Encode(i)) && (i.Entry? <==> Kind(i) in Filled(p)) && (!i.Entry? <==> Single(p, Kind(i)))
  {
  }

  /** The numbers in some bytes. */
  function Numbers(s: seq<Byte>): (vs: seq<nat>)
    ensures |vs| == |s| / 2 && Small(vs)
  {
    if |s| < 2 then [] else [s[0] as int * 256 + s[1]] + Numbers(s[2..])
  }

  lemma {:induction false} NumbersBack(s: seq<Byte>)
    requires |s| % 2 == 0
    ensures Words(Numbers(s)) == s
  {
    if s != [] {
      NumbersBack(s[2..]);
      WordsMore(s[0], s[1], Numbers(s[2..]));
      assert s == [s[0], s[1]] + s[2..];
    }
  }

  lemma WordsMore(high: Byte, low: Byte, vs: seq<nat>)
    ensures Words([high as int * 256 + low] + vs) == [high, low] + Words(vs)
  {
    var v := high as int * 256 + low;
    assert v / 256 % 256 == high && v % 256 == low;
    assert ([v] + vs)[1..] == vs;
  }

  lemma ResultBack(code: nat, b: seq<Byte>)
    requires |b| == 4 && code == FromBe32(b)
    ensures code < 0x1_0000_0000 && Words([code / 0x10000, code % 0x10000]) == b
  {
    NumbersBack(b);
    assert b[2..][2..] == [];
    assert Numbers(b) == [code / 0x10000, code % 0x10000];
  }

  lemma EntryFor(e: Element) returns (i: Item)
    requires Fits(e) && e.elemType in {32, 46, 47}
    ensures i.Entry? && Sendable(i) && Encode(i) == e
  {
    var b := e.body;
    if e.elemType == 32 {
      i := Entry(Radio(b[0], b[1], b[2]));
    } else {
      NumbersBack(b[2..]);
      assert b == [b[0], b[1]] + b[2..];
      if e.elemType == 46 {
        i := Entry(Operational(b[0], b[1], Numbers(b[2..])[0]));
        assert Numbers(b[2..]) == [Numbers(b[2..])[0]];
      } else {
        i := Entry(Statistics(b[0], b[1], Numbers(b[2..])));
      }
    }
  }

  lemma OtherFor(e: Element) returns (i: Item)
    requires Fits(e) && e.elemType !in {32, 46, 47}
    ensures !i.Entry? && Sendable(i) && Encode(i) == e
  {
    var b := e.body;
    if e.elemType in {15, 18, 21, 22} {
      i := AddressFor(e);
    } else if e.elemType == 33 {
      ResultBack(FromBe32(b), b);
      i := Result(FromBe32(b));
    } else {
      NumbersBack(b[..14]);
      i := Reboots(Numbers(b[..14]), b[14]);
      assert b == b[..14] + [b[14]];
    }
  }

  lemma AddressFor(e: Element) returns (i: Item)
    requires Fits(e) && e.elemType in {15, 18, 21, 22}
    ensures !i.Entry? && Sendable(i) && Encode(i) == e
  {
    var b := e.body;
    if e.elemType == 15 {
      i := DecryptErrors(b[0], b[2], b[3..]);
      assert b == [b[0], b[1], b[2]] + b[3..];
    } else if e.elemType == 18 {
      i := StationGone(b[0], b[2..]);
      assert b == [b[0], b[1]] + b[2..];
    } else if e.elemType == 21 {
      i := DuplicateIPv4(b[..4], b[4], b[6..]);
      assert b == b[..4] + [b[4], b[5]] + b[6..];
    } else {
      i := DuplicateIPv6(b[..16], b[16], b[18..]);
      assert b == b[..16] + [b[16], b[17]] + b[18..];
    }
  }

  /** A parser can read an element if and only if it is the bytes of an item that belongs to
      its messages. */
  lemma ReadableIff(p: Parser, e: Element)
    ensures Readable(p, e) <==> exists i :: Sendable(i) && Belongs(p, i) && Encode(i) == e
  {
    if Readable(p, e) {
      var i := ItemFor(p, e);
    }
    forall i | Sendable(i) && Belongs(p, i) && Encode(i) == e
      ensures Readable(p, e)
    {
      EncodedIsReadable(p, i);
    }
  }

  lemma ItemFor(p: Parser, e: Element) returns (i: Item)
    requires Readable(p, e)
    ensures Sendable(i) && Belongs(p, i) && Encode(i) == e
  {
    if e.elemType in {32, 46, 47} {
      i := EntryFor(e);
    } else {
      i := OtherFor(e);
    }
  }

  // ---------- whole messages ----------

  lemma ElementsInit(p: Parser, items: seq<Item>)
    requires Fitting(p, items) && items != []
    ensures var n := |items| - 1;
            && Fitting(p, items[..n]) && Elements(p, items)[..n] == Elements(p, items[..n])
            && Elements(p, items)[n] == Encode(items[n])
  {
  }

  lemma {:induction false} RecordsBack(p: Parser, items: seq<Item>, kind: nat)
    requires Fitting(p, items) && kind in Filled(p)
    ensures Records(Elements(p, items), kind) == Chosen(items, kind)
  {
    hide Elements, Decode, Fits, Sendable, Belongs, Readable, Filled;
    if items != [] {
      var last := items[|items| - 1];
      ElementsInit(p, items);
      RecordsBack(p, items[..|items| - 1], kind);
      EncodedIsReadable(p, last);
      if last.Entry? {
        RecordBack(last.record);
      } else {
        SingleIsNotFilled(p, Kind(last));
      }
    }
  }

  lemma {:induction false} OthersBack(p: Parser, items: seq<Item>)
    requires Fitting(p, items)
    ensures Singles(p, Elements(p, items)) == Others(p, items)
  {
    if items != [] {
      ElementsInit(p, items);
      OthersBack(p, items[..|items| - 1]);
      EncodedIsReadable(p, items[|items| - 1]);
    }
  }

  lemma SaidBack(p: Parser, items: seq<Item>)
    requires Fitting(p, items)
    ensures AllReadable(p, Elements(p, items))
    ensures Request(Tables(p, Elements(p, items)), Singles(p, Elements(p, items))) == Said(p, items)
  {
    var es := Elements(p, items);
    forall e | e in es
      ensures Readable(p, e)
    {
      var k :| 0 <= k < |items| && e == es[k];
      EncodedIsReadable(p, items[k]);
    }
    forall j | 0 <= j < |Filled(p)|
      ensures Records(es, Filled(p)[j]) == Chosen(items, Filled(p)[j])
    {
      RecordsBack(p, items, Filled(p)[j]);
    }
    OthersBack(p, items);
    hide Records, Chosen, Singles, Others, AllReadable;
    assert Tables(p, es) == Said(p, items).tables;
  }

  /** The bytes of any items, parsed with either end test, say exactly those items: the records
      kind by kind and in order, and the other bodies. */
  lemma ItemsComeBack(p: Parser, end: End, items: seq<Item>)
    requires Fitting(p, items)
    ensures Parsed(p, end, BytesOf(p, items), |BytesOf(p, items)|) == Some(Said(p, items))
  {
    SaidBack(p, items);
    hide Said, Tables, Singles, Parsed;
    RequestComesBack(p, end, Elements(p, items));
  }

  /** The same of a whole message with its control header, up to 2^16 bytes of elements. */
  lemma MessageSays(p: Parser, end: End, messageType: nat, seqNum: int, items: seq<Item>)
    requires Fitting(p, items) && |BytesOf(p, items)| < 0x10000
    ensures var s := MessageBytes(messageType, seqNum, Elements(p, items));
            && |s| >= CONTROL_HEADER_SIZE
            && Parsed(p, end, s[CONTROL_HEADER_SIZE..], ElementsLength(ParseControlHeader(s))) == Some(Said(p, items))
  {
    SaidBack(p, items);
    hide Said, Tables, Singles, Parsed, ElementsLength, MessageBytes;
    MessageComesBack(p, messageType, seqNum, Elements(p, items));
  }

  /** The result code of a request is that of the last item that gives one. */
  lemma ResultSaid(items: seq<Item>, i: nat)
    requires Fitting(ChangeState, items) && i < |items| && items[i].Result?
    requires forall k | i < k < |items| :: !items[k].Result?
    ensures ResultCode(Said(ChangeState, items)) == Some(items[i].code)
  {
    hide ResultCode, Said, Tables, Singles, AllReadable, FromBe32;
    SaidBack(ChangeState, items);
    ResultCodeIsLast(Elements(ChangeState, items), i);
    CodeBack(items[i].code);
  }

  lemma CodeBack(code: nat)
    requires code < 0x1_0000_0000
    ensures FromBe32(Body(Result(code))) == code
  {
    var high, low := code / 0x10000, code % 0x10000;
    var s := Words([high, low]);
    assert s[2..] == Words([low]);
    WordsAt([high, low], 0, [], []);
    WordsAt([low], 0, [], []);
    hide Words, FromBe16;
    assert [] + s + [] == s && s[0..] == s;
    assert [] + Words([low]) + [] == s[2..] && s[2..][0..] == s[2..];
  }

  lemma {:induction false} ItemsFor(p: Parser, es: seq<Element>) returns (items: seq<Item>)
    requires AllReadable(p, es)
    ensures Fitting(p, items) && Elements(p, items) == es
  {
    if es == [] {
      items := [];
    } else {
      var n := |es| - 1;
      items := ItemsFor(p, es[..n]);
      assert Readable(p, es[n]);
      var i := ItemFor(p, es[n]);
      items := items + [i];
    }
  }

  /** Some items make up the first `len` bytes of a message, and say `r`. */
  ghost predicate Spells(p: Parser, s: seq<Byte>, len: nat, items: seq<Item>, r: Request) {
    Fitting(p, items) && len <= |s| && BytesOf(p, items) == s[..len] && r == Said(p, items)
  }

  lemma SpelledOut(p: Parser, s: seq<Byte>, len: nat, items: seq<Item>, r: Request)
    requires Spells(p, s, len, items, r)
    ensures Parsed(p, AtLength, s, len) == Some(r)
  {
    hide WalkElements, ElementsBytes, Elements, Fitting, Said, Tables, Singles, AllReadable, Storable;
    var es := Elements(p, items);
    SaidBack(p, items);
    AllStorable(p, es);
    WalkRoundTrip(es, s[len..]);
    assert s == s[..len] + s[len..];
  }

  lemma AllStorable(p: Parser, es: seq<Element>)
    requires AllReadable(p, es)
    ensures forall e | e in es :: Storable(e)
  {
    forall e | e in es
      ensures Storable(e)
    {
      ReadableSize(p, e);
    }
  }

  /** A message is accepted up to its stated length, and says `r`, if and only if these bytes
      are those of some items that say `r`. */
  lemma AcceptedIff(p: Parser, s: seq<Byte>, len: nat, r: Request)
    ensures Parsed(p, AtLength, s, len) == Some(r) <==> exists items :: Spells(p, s, len, items, r)
  {
    if Parsed(p, AtLength, s, len) == Some(r) {
      var w := WalkElements(s, len);
      WalkFaithful(s, len);
      var items := ItemsFor(p, w.elements);
      SaidBack(p, items);
      assert Spells(p, s, len, items, r);
    }
    forall items | Spells(p, s, len, items, r)
      ensures Parsed(p, AtLength, s, len) == Some(r)
    {
      SpelledOut(p, s, len, items, r);
    }
  }

  // ---------- the three parsers ----------

  /** `CWParseChangeStateEventRequestMessage`: it ends with the message. */
  method ParseChangeStateInDataCheck(message: seq<Byte>) returns (result: Option<Request>)
    requires |message| >= CONTROL_HEADER_SIZE
    ensures result == Parsed(ChangeState, AtMessageEnd, message[CONTROL_HEADER_SIZE..],
                             ElementsLength(ParseControlHeader(message)))
    ensures forall items, t: nat, n: int | Fitting(ChangeState, items) && |BytesOf(ChangeState, items)| < 0x10000 &&
                                           message == MessageBytes(t, n, Elements(ChangeState, items)) ::
              result == Some(Said(ChangeState, items))
  {
    var len := ElementsLength(ParseControlHeader(message));
    result := Parse(ChangeState, AtMessageEnd, message[CONTROL_HEADER_SIZE..], len);
    forall items, t: nat, n: int | Fitting(ChangeState, items) && |BytesOf(ChangeState, items)| < 0x10000 &&
                                   message == MessageBytes(t, n, Elements(ChangeState, items))
      ensures result == Some(Said(ChangeState, items))
    {
      MessageSays(ChangeState, AtMessageEnd, t, n, items);
    }
  }

  /** `CWParseChangeStateEventRequestMessage2`: it ends at the stated length. */
  method ParseChangeStateInRun(s: seq<Byte>, len: nat) returns (result: Option<Request>)
    ensures result == Parsed(ChangeState, AtLength, s, len)
    ensures forall r :: result == Some(r) <==> exists items :: Spells(ChangeState, s, len, items, r)
  {
    result := Parse(ChangeState, AtLength, s, len);
    forall r
      ensures result == Some(r) <==> exists items :: Spells(ChangeState, s, len, items, r)
    {
      AcceptedIff(ChangeState, s, len, r);
    }
  }

  /** `CWParseWTPEventRequestMessage` */
  method ParseWtpEvent(s: seq<Byte>, len: nat) returns (result: Option<Request>)
    ensures result == Parsed(WtpEvent, AtLength, s, len)
    ensures forall r :: result == Some(r) <==> exists items :: Spells(WtpEvent, s, len, items, r)
  {
    result := Parse(WtpEvent, AtLength, s, len);
    forall r
      ensures result == Some(r) <==> exists items :: Spells(WtpEvent, s, len, items, r)
    {
      AcceptedIff(WtpEvent, s, len, r);
    }
  }
}
