/** The CAPWAP transport header (section 4.3 of RFC 5415): two words of bit fields,
    an optional radio MAC address, and the optional wireless information of the
    802.11 binding. */
module TransportHeader {
  import opened BitFields
  import opened Bytes
  import opened Options

  // ---------- values ----------

  /** The wireless information: two `char`s and the data rate. */
  datatype Binding = Binding(rssi: int, snr: int, dataRate: int)

  datatype HeaderValues = HeaderValues(
    payloadType: int, frameType: int, isFragment: int, last: int,
    fragmentID: int, fragmentOffset: int, binding: Option<Binding>)

  /** What the parser leaves behind: the header values, the radio address and data
      message type if it set them, the data flag, and the bytes it went over. */
  datatype ParsedHeader = ParsedHeader(
    payloadType: nat, frameType: nat, isFragment: nat, last: nat,
    fragmentID: nat, fragmentOffset: nat, keepAlive: nat, binding: Option<Binding>,
    radioMac: Option<seq<Byte>>, dataMsgType: Option<nat>, dataFlag: bool, consumed: nat)

  /** `Invalid` is `CW_ERROR_INVALID_FORMAT`; `Overrun` stands for a read or copy
      beyond a buffer, which the program does not check for. */
  datatype ParseOutcome = Parsed(header: ParsedHeader) | Invalid | Overrun

  const PACKET_PLAIN := 0
  const BINDING_HLEN := 4
  const BINDING_DATALENGTH := 4
  const DATA_MSG_FRAME_TYPE: nat := 1
  const DATA_MSG_STATS_TYPE: nat := 2
  const DATA_MSG_FREQ_STATS_TYPE: nat := 3
  const IEEE_802_3_FRAME_TYPE: nat := 4
  const DATA_MSG_KEEP_ALIVE_TYPE: nat := 5
  const IEEE_802_11_FRAME_TYPE: nat := 6

  const VERSION := Field(0, 4)
  const TYPE := Field(4, 4)
  const HLEN := Field(8, 5)
  const RID := Field(13, 5)
  const WBID := Field(18, 5)
  const T := Field(23, 1)
  const F := Field(24, 1)
  const L := Field(25, 1)
  const W := Field(26, 1)
  const M := Field(27, 1)
  const K := Field(28, 1)
  const FLAGS := Field(29, 3)
  const FRAGMENT_ID := Field(0, 16)
  const FRAGMENT_OFFSET := Field(16, 13)
  const RESERVED := Field(29, 3)

  const LENGTH := Field(0, 8)
  const RSSI := Field(8, 8)
  const SNR := Field(16, 8)
  const DATARATE_1 := Field(24, 8)
  const DATARATE_2 := Field(0, 8)
  const PADDING := Field(8, 24)

  // ---------- assembling ----------

  predicate MacPresent(mac: seq<Byte>) {
    exists i :: 0 <= i < |mac| && mac[i] != 0
  }

  function Bit(b: bool): nat {
    if b then 1 else 0
  }

  function HeaderLength(mac: bool, binding: bool): nat {
    (if binding then BINDING_HLEN else 2) + (if mac then 2 else 0)
  }

  /** The settings of the first word, in the order the program makes them. */
  function FirstSettings(v: HeaderValues, mac: bool): seq<Setting> {
    [ Setting(VERSION, 0),
      Setting(TYPE, Bit(v.payloadType != PACKET_PLAIN)),
      Setting(HLEN, HeaderLength(mac, v.binding.Some?)),
      Setting(RID, 0),
      Setting(WBID, 1),
      Setting(T, Bit(v.binding.Some? || v.frameType == 1)),
      Setting(F, v.isFragment),
      Setting(L, v.last),
      Setting(W, Bit(v.binding.Some?)),
      Setting(M, Bit(mac)),
      Setting(K, 0),
      Setting(FLAGS, 0) ]
  }

  function SecondSettings(v: HeaderValues): seq<Setting> {
    [ Setting(FRAGMENT_ID, v.fragmentID),
      Setting(FRAGMENT_OFFSET, v.fragmentOffset),
      Setting(RESERVED, 0) ]
  }

  function BindingSettings1(b: Binding): seq<Setting> {
    [ Setting(LENGTH, BINDING_DATALENGTH),
      Setting(RSSI, b.rssi),
      Setting(SNR, b.snr),
      Setting(DATARATE_1, b.dataRate / 256) ]
  }

  function BindingSettings2(b: Binding): seq<Setting> {
    [ Setting(DATARATE_2, b.dataRate % 256),
      Setting(PADDING, 0) ]
  }

  /** The two words of bit fields. */
  function FixedPart(v: HeaderValues, mac: bool): (s: seq<Byte>)
    ensures |s| == 8
  {
    Be32(Pack(FirstSettings(v, mac))) + Be32(Pack(SecondSettings(v)))
  }

  function MacPart(mac: seq<Byte>): seq<Byte> {
    if MacPresent(mac) then [6] + mac + [0] else []
  }

  function BindingPart(b: Option<Binding>): seq<Byte> {
    if b.Some? then Be32(Pack(BindingSettings1(b.value))) + Be32(Pack(BindingSettings2(b.value))) else []
  }

  /** The bytes `CWAssembleTransportHeader` stores. */
  function Header(v: HeaderValues, mac: seq<Byte>): seq<Byte> {
    FixedPart(v, MacPresent(mac)) + MacPart(mac) + BindingPart(v.binding)
  }

  // ---------- parsing ----------

  /** Conversion of a byte to the (signed) `char` it is kept in. */
  function ToChar(b: int): int {
    if b < 128 then b else b - 256
  }

  function BindingMsgType(high: nat, snr: int): Option<nat> {
    if high == 255 then Some(if snr == 1 then DATA_MSG_FREQ_STATS_TYPE else DATA_MSG_STATS_TYPE)
    else if high == 0 then Some(DATA_MSG_FRAME_TYPE)
    else None
  }

  /** `CWParseTransportHeaderBinding` on the bytes from the current offset on: eight
      bytes. The low rate byte is read from the field the high one came from. */
  function ParseBinding(h: ParsedHeader, s: seq<Byte>): ParseOutcome {
    if |s| < 4 then Overrun else
    var w1 := FromBe32(s);
    if GetField(w1, LENGTH) != BINDING_DATALENGTH then Invalid else
    if |s| < 8 then Overrun else
    Parsed(WithBinding(h, w1, FromBe32(s[4..])))
  }

  function WithBinding(h: ParsedHeader, w1: nat, w2: nat): ParsedHeader {
    var high := GetField(w1, DATARATE_1);
    var snr := ToChar(GetField(w1, SNR));
    var t := BindingMsgType(high, snr);
    h.(binding := Some(Binding(ToChar(GetField(w1, RSSI)), snr, high * 256 + GetField(w2, DATARATE_1))),
       dataMsgType := if t.Some? then t else h.dataMsgType,
       consumed := h.consumed + 8)
  }

  /** `CWParseTransportHeaderMACAddress` with a six-byte destination. */
  function ParseMac(h: ParsedHeader, s: seq<Byte>): ParseOutcome {
    if |s| < 8 || s[0] > 6 then Overrun
    else Parsed(h.(radioMac := Some(s[1..1 + s[0]]), consumed := h.consumed + 8))
  }

  /** The two fixed words. */
  function ParseWords(w1: nat, w2: nat, dataFlag: bool): ParsedHeader {
    ParsedHeader(GetField(w1, TYPE), GetField(w1, T), GetField(w1, F), GetField(w1, L),
                 GetField(w2, FRAGMENT_ID), GetField(w2, FRAGMENT_OFFSET), GetField(w1, K),
                 None, None, None, dataFlag, 8)
  }

  /** The data-channel branch up to, but without, the radio address. */
  function ParseDataParts(h: ParsedHeader, s: seq<Byte>, wireless: bool): ParseOutcome {
    if h.keepAlive != 0 then
      if |s| < 2 then Overrun
      else Parsed(h.(dataMsgType := Some(DATA_MSG_KEEP_ALIVE_TYPE), consumed := h.consumed + 2))
    else if h.frameType == 0 then
      if wireless then ParseBinding(h, s) else Parsed(h.(dataMsgType := Some(IEEE_802_3_FRAME_TYPE)))
    else
      var o := if wireless then ParseBinding(h, s) else Parsed(h);
      if o.Parsed? then Parsed(o.header.(dataMsgType := Some(IEEE_802_11_FRAME_TYPE))) else o
  }

  /** `CWParseTransportHeader` on a whole packet. */
  function ParseHeader(buf: seq<Byte>, dataFlag: bool): ParseOutcome {
    if |buf| < 4 then Overrun else
    var w1 := FromBe32(buf);
    if GetField(w1, VERSION) != 0 then Invalid else
    if |buf| < 8 then Overrun else
    var h := ParseWords(w1, FromBe32(buf[4..]), dataFlag);
    var hlen := GetField(w1, HLEN);
    var wireless := GetField(w1, W) == 1;
    var m := GetField(w1, M) == 1;
    var parts := if dataFlag then ParseDataParts(h, buf[8..], wireless)
                 else if hlen == 4 && wireless then ParseBinding(h.(dataFlag := true), buf[8..])
                 else Parsed(h);
    if !parts.Parsed? then parts else
    var at := parts.header.consumed;
    var all := if m && (dataFlag || !(hlen == 4 && wireless))
               then (if at <= |buf| then ParseMac(parts.header, buf[at..]) else Overrun)
               else parts;
    if !all.Parsed? then all
    else if hlen == 2 || (hlen == 4 && wireless) || m then all else Invalid
  }

  // ---------- the layout ----------

  /** Both words, and the words of the wireless part, are tiled by their fields. */
  lemma Layout(v: HeaderValues, mac: bool, b: Binding)
    ensures Tiles(FirstSettings(v, mac)) && Tiles(SecondSettings(v))
    ensures Tiles(BindingSettings1(b)) && Tiles(BindingSettings2(b))
  {
  }

  lemma WordRoundTrip(ss: seq<Setting>, rest: seq<Byte>)
    requires Tiles(ss)
    ensures WellLaid(ss) && FromBe32(Be32(Pack(ss)) + rest) == Pack(ss)
  {
    TilesWellLaid(ss);
    PackBound(ss);
    WordSize();
    RoundTrip32(Pack(ss), rest);
  }

  lemma TwoWords(ss1: seq<Setting>, ss2: seq<Setting>, rest: seq<Byte>)
    requires Tiles(ss1) && Tiles(ss2)
    ensures WellLaid(ss1) && WellLaid(ss2)
    ensures var s := Be32(Pack(ss1)) + Be32(Pack(ss2)) + rest;
            && FromBe32(s) == Pack(ss1) && FromBe32(s[4..]) == Pack(ss2) && s[8..] == rest
  {
    WordRoundTrip(ss2, rest);
    WordRoundTrip(ss1, []);
    var a, b := Be32(Pack(ss1)), Be32(Pack(ss2));
    WordRoundTrip(ss1, b + rest);
    Regroup(a, b, rest, []);
    assert (a + b + rest)[4..] == b + rest;
  }

  lemma Regroup(a: seq<Byte>, b: seq<Byte>, c: seq<Byte>, d: seq<Byte>)
    ensures a + b + c + d == a + (b + c + d) == a + (b + (c + d))
    ensures a + b + c == a + (b + c) && c + [] == c
  {
  }

  lemma FirstWordParts(v: HeaderValues, mac: bool)
    ensures Tiles(FirstSettings(v, mac)) && WellLaid(FirstSettings(v, mac))
    ensures var w := Pack(FirstSettings(v, mac));
            && GetField(w, VERSION) == 0
            && GetField(w, HLEN) == HeaderLength(mac, v.binding.Some?)
            && GetField(w, W) == Bit(v.binding.Some?)
            && GetField(w, M) == Bit(mac)
  {
    var ss := FirstSettings(v, mac);
    TilesWellLaid(ss);
    PackGet(ss, 0);
    PackGet(ss, 2);
    PackGet(ss, 8);
    PackGet(ss, 9);
    LowSmall(0, VERSION.len);
    LowSmall(HeaderLength(mac, v.binding.Some?), HLEN.len);
    LowSmall(Bit(v.binding.Some?), W.len);
    LowSmall(Bit(mac), M.len);
  }

  lemma FirstWordValues(v: HeaderValues, mac: bool)
    ensures Tiles(FirstSettings(v, mac)) && WellLaid(FirstSettings(v, mac))
    ensures var w := Pack(FirstSettings(v, mac));
            && GetField(w, TYPE) == Bit(v.payloadType != PACKET_PLAIN)
            && GetField(w, T) == Bit(v.binding.Some? || v.frameType == 1)
            && GetField(w, F) == Low(v.isFragment, F.len)
            && GetField(w, L) == Low(v.last, L.len)
            && GetField(w, K) == 0
  {
    var ss := FirstSettings(v, mac);
    TilesWellLaid(ss);
    PackGet(ss, 1);
    PackGet(ss, 5);
    PackGet(ss, 6);
    PackGet(ss, 7);
    PackGet(ss, 10);
    LowSmall(Bit(v.payloadType != PACKET_PLAIN), TYPE.len);
    LowSmall(Bit(v.binding.Some? || v.frameType == 1), T.len);
    LowSmall(0, K.len);
  }

  lemma SecondWord(v: HeaderValues)
    ensures Tiles(SecondSettings(v)) && WellLaid(SecondSettings(v))
    ensures var w := Pack(SecondSettings(v));
            && GetField(w, FRAGMENT_ID) == Low(v.fragmentID, FRAGMENT_ID.len)
            && GetField(w, FRAGMENT_OFFSET) == Low(v.fragmentOffset, FRAGMENT_OFFSET.len)
  {
    var ss := SecondSettings(v);
    TilesWellLaid(ss);
    PackGet(ss, 0);
    PackGet(ss, 1);
  }

  lemma BindingWord1(b: Binding)
    ensures Tiles(BindingSettings1(b)) && WellLaid(BindingSettings1(b))
    ensures var w := Pack(BindingSettings1(b));
            && GetField(w, LENGTH) == BINDING_DATALENGTH
            && GetField(w, RSSI) == b.rssi % 256
            && GetField(w, SNR) == b.snr % 256
            && GetField(w, DATARATE_1) == b.dataRate / 256 % 256
  {
    var ss := BindingSettings1(b);
    TilesWellLaid(ss);
    PackGet(ss, 0);
    PackGet(ss, 1);
    PackGet(ss, 2);
    PackGet(ss, 3);
    LowByte(b.rssi);
    LowByte(b.snr);
    LowByte(b.dataRate / 256);
    LowSmall(BINDING_DATALENGTH, LENGTH.len);
  }

  /** The low rate byte sits in the top byte of the second word; the bottom byte,
      where the parser looks for it, is padding. */
  lemma BindingWord2(b: Binding)
    ensures Tiles(BindingSettings2(b)) && WellLaid(BindingSettings2(b))
    ensures var w := Pack(BindingSettings2(b));
            GetField(w, DATARATE_2) == Low(b.dataRate % 256, DATARATE_2.len) && GetField(w, DATARATE_1) == 0
  {
    TilesWellLaid(BindingSettings2(b));
    PaddedField(DATARATE_2, b.dataRate % 256, PADDING, DATARATE_1);
  }

  // ---------- parsing what was assembled ----------

  /** The wireless part as the receiver gets it: the low rate byte is lost. */
  function Received(b: Binding): Binding {
    Binding(ToChar(b.rssi % 256), ToChar(b.snr % 256), b.dataRate / 256 % 256 * 256)
  }

  /** The header after the wireless part was received. */
  function AfterBinding(h: ParsedHeader, b: Binding): ParsedHeader {
    var t := BindingMsgType(b.dataRate / 256 % 256, ToChar(b.snr % 256));
    h.(binding := Some(Received(b)),
       dataMsgType := if t.Some? then t else h.dataMsgType,
       consumed := h.consumed + 8)
  }

  lemma BindingValues(h: ParsedHeader, b: Binding)
    ensures Tiles(BindingSettings1(b)) && WellLaid(BindingSettings1(b))
    ensures Tiles(BindingSettings2(b)) && WellLaid(BindingSettings2(b))
    ensures GetField(Pack(BindingSettings1(b)), LENGTH) == BINDING_DATALENGTH
    ensures WithBinding(h, Pack(BindingSettings1(b)), Pack(BindingSettings2(b))) == AfterBinding(h, b)
  {
    BindingWord1(b);
    BindingWord2(b);
  }

  lemma BindingRoundTrip(h: ParsedHeader, b: Binding, rest: seq<Byte>)
    ensures ParseBinding(h, BindingPart(Some(b)) + rest) == Parsed(AfterBinding(h, b))
  {
    BindingValues(h, b);
    TwoWords(BindingSettings1(b), BindingSettings2(b), rest);
  }

  /** The wireless part survives the trip exactly when its values are `char`s, the
      rate fits 16 bits and its low byte is zero. */
  lemma BindingPreserved(b: Binding)
    ensures Received(b) == b
       <==> -128 <= b.rssi < 128 && -128 <= b.snr < 128 && 0 <= b.dataRate < 0x10000 && b.dataRate % 256 == 0
  {
  }

  lemma MacRoundTrip(h: ParsedHeader, mac: seq<Byte>, rest: seq<Byte>)
    requires |mac| == 6 && MacPresent(mac)
    ensures ParseMac(h, MacPart(mac) + rest) == Parsed(h.(radioMac := Some(mac), consumed := h.consumed + 8))
  {
    var s := MacPart(mac) + rest;
    assert s[0] == 6 && s[1..7] == mac;
  }

  /** The two fixed words of a packet that starts with an assembled header. */
  lemma FixedWords(v: HeaderValues, mac: seq<Byte>, payload: seq<Byte>)
    ensures var buf := Header(v, mac) + payload;
            && |buf| >= 8
            && FromBe32(buf) == Pack(FirstSettings(v, MacPresent(mac)))
            && FromBe32(buf[4..]) == Pack(SecondSettings(v))
            && buf[8..] == MacPart(mac) + BindingPart(v.binding) + payload
  {
    var ss1, ss2 := FirstSettings(v, MacPresent(mac)), SecondSettings(v);
    var tail := MacPart(mac) + BindingPart(v.binding) + payload;
    FirstWordParts(v, MacPresent(mac));
    SecondWord(v);
    TwoWords(ss1, ss2, tail);
    Regroup(Be32(Pack(ss1)) + Be32(Pack(ss2)), MacPart(mac), BindingPart(v.binding), payload);
  }

  /** The fixed fields, each cut to its width. */
  function SentWords(v: HeaderValues, dataFlag: bool): ParsedHeader {
    ParsedHeader(Bit(v.payloadType != PACKET_PLAIN), Bit(v.binding.Some? || v.frameType == 1),
                 Low(v.isFragment, F.len), Low(v.last, L.len),
                 Low(v.fragmentID, FRAGMENT_ID.len), Low(v.fragmentOffset, FRAGMENT_OFFSET.len), 0,
                 None, None, None, dataFlag, 8)
  }

  /** What a receiver should know after the header of a packet was sent to it. */
  function Sent(v: HeaderValues, mac: seq<Byte>, dataFlag: bool): ParsedHeader {
    var h := SentWords(v, dataFlag);
    var t := if v.binding.None? then None
             else BindingMsgType(v.binding.value.dataRate / 256 % 256, ToChar(v.binding.value.snr % 256));
    h.(binding := if v.binding.Some? then Some(Received(v.binding.value)) else None,
       radioMac := if MacPresent(mac) then Some(mac) else None,
       dataMsgType := if !dataFlag then t
                      else Some(if h.frameType == 1 then IEEE_802_11_FRAME_TYPE else IEEE_802_3_FRAME_TYPE),
       dataFlag := dataFlag || v.binding.Some?,
       consumed := |Header(v, mac)|)
  }

  lemma WordsOf(v: HeaderValues, mac: bool, dataFlag: bool)
    ensures ParseWords(Pack(FirstSettings(v, mac)), Pack(SecondSettings(v)), dataFlag) == SentWords(v, dataFlag)
  {
    FirstWordValues(v, mac);
    SecondWord(v);
  }

  lemma HeaderSize(v: HeaderValues, mac: seq<Byte>)
    requires |mac| == 6
    ensures |Header(v, mac)| == 4 * HeaderLength(MacPresent(mac), v.binding.Some?)
  {
  }

  lemma RoundTripPlain(v: HeaderValues, mac: seq<Byte>, payload: seq<Byte>, dataFlag: bool)
    requires |mac| == 6 && !MacPresent(mac) && v.binding.None?
    ensures ParseHeader(Header(v, mac) + payload, dataFlag) == Parsed(Sent(v, mac, dataFlag))
  {
    FixedWords(v, mac, payload);
    FirstWordParts(v, false);
    WordsOf(v, false, dataFlag);
  }

  lemma RoundTripMac(v: HeaderValues, mac: seq<Byte>, payload: seq<Byte>, dataFlag: bool)
    requires |mac| == 6 && MacPresent(mac) && v.binding.None?
    ensures ParseHeader(Header(v, mac) + payload, dataFlag) == Parsed(Sent(v, mac, dataFlag))
  {
    FixedWords(v, mac, payload);
    FirstWordParts(v, true);
    WordsOf(v, true, dataFlag);
    var h := SentWords(v, dataFlag);
    assert MacPart(mac) + BindingPart(v.binding) + payload == MacPart(mac) + payload;
    var t := if !dataFlag then None
             else Some(if h.frameType == 1 then IEEE_802_11_FRAME_TYPE else IEEE_802_3_FRAME_TYPE);
    MacRoundTrip(h.(dataMsgType := t), mac, payload);
  }

  lemma RoundTripBinding(v: HeaderValues, mac: seq<Byte>, payload: seq<Byte>, dataFlag: bool)
    requires |mac| == 6 && !MacPresent(mac) && v.binding.Some?
    ensures ParseHeader(Header(v, mac) + payload, dataFlag) == Parsed(Sent(v, mac, dataFlag))
  {
    FixedWords(v, mac, payload);
    FirstWordParts(v, false);
    WordsOf(v, false, dataFlag);
    var h := SentWords(v, dataFlag);
    assert MacPart(mac) + BindingPart(v.binding) + payload == BindingPart(v.binding) + payload;
    BindingRoundTrip(h.(dataFlag := true), v.binding.value, payload);
  }

  /** With both optional parts the sender writes the address first and the parser of
      the data channel expects it last, so it refuses the packet. */
  lemma BothPartsOnDataChannel(v: HeaderValues, mac: seq<Byte>, payload: seq<Byte>)
    requires |mac| == 6 && MacPresent(mac) && v.binding.Some?
    ensures ParseHeader(Header(v, mac) + payload, true) == Invalid
  {
    FixedWords(v, mac, payload);
    FirstWordParts(v, true);
    WordsOf(v, true, true);
    var rest := BindingPart(v.binding) + payload;
    Regroup(MacPart(mac), BindingPart(v.binding), payload, []);
    MacIsNoBinding(SentWords(v, true), mac, rest);
  }

  /** The parser of the control channel leaves the wireless part in the payload. */
  lemma BothPartsOnControlChannel(v: HeaderValues, mac: seq<Byte>, payload: seq<Byte>)
    requires |mac| == 6 && MacPresent(mac) && v.binding.Some?
    ensures ParseHeader(Header(v, mac) + payload, false)
         == Parsed(SentWords(v, false).(radioMac := Some(mac), consumed := |Header(v, mac)| - 8))
  {
    FixedWords(v, mac, payload);
    FirstWordParts(v, true);
    WordsOf(v, true, false);
    HeaderSize(v, mac);
    var rest := BindingPart(v.binding) + payload;
    Regroup(MacPart(mac), BindingPart(v.binding), payload, []);
    MacRoundTrip(SentWords(v, false), mac, rest);
  }

  lemma MacIsNoBinding(h: ParsedHeader, mac: seq<Byte>, rest: seq<Byte>)
    requires |mac| == 6 && MacPresent(mac)
    ensures ParseBinding(h, MacPart(mac) + rest) == Invalid
  {
    var s := MacPart(mac) + rest;
    var w := FromBe32(s);
    assert 6 * 0x1000000 <= w < 7 * 0x1000000;
    TopByte(w);
  }

  lemma TopByte(w: nat)
    requires w < 0x1_0000_0000
    ensures GetField(w, LENGTH) == w / 0x1000000
  {
    assert Shr(w, 24) == w / 0x1000000 by {
      ShrByte(w);
      ShrByte(w / 256);
      ShrByte(w / 256 / 256);
      ShrTwice(w, 8, 16);
      ShrTwice(w / 256, 8, 8);
    }
    ShlByte(1);
    LowOfSmall(w / 0x1000000, 8);
  }

  lemma {:induction false} ShrTwice(x: nat, n: nat, m: nat)
    ensures Shr(Shr(x, n), m) == Shr(x, n + m)
  {
    if n > 0 {
      ShrTwice(x / 2, n - 1, m);
    }
  }

  lemma ShrByte(x: nat)
    ensures Shr(x, 8) == x / 256
  {
    var y := x / 2 / 2;
    var z := y / 2 / 2;
    assert Shr(x, 8) == Shr(x / 2, 7) == Shr(y, 6) == Shr(y / 2, 5) == Shr(z, 4);
    assert Shr(z, 4) == Shr(z / 2, 3) == Shr(z / 2 / 2, 2) == Shr(z / 2 / 2 / 2, 1) == z / 2 / 2 / 2 / 2;
  }

  /** Parsing undoes assembling, and consumes exactly the header, if and only if the
      radio address and the wireless part are not both present. */
  lemma HeaderRoundTrip(v: HeaderValues, mac: seq<Byte>, payload: seq<Byte>, dataFlag: bool)
    requires |mac| == 6
    ensures ParseHeader(Header(v, mac) + payload, dataFlag) == Parsed(Sent(v, mac, dataFlag))
       <==> !(MacPresent(mac) && v.binding.Some?)
  {
    if MacPresent(mac) && v.binding.Some? {
      HeaderSize(v, mac);
      if dataFlag {
        BothPartsOnDataChannel(v, mac, payload);
      } else {
        BothPartsOnControlChannel(v, mac, payload);
      }
    } else if MacPresent(mac) {
      RoundTripMac(v, mac, payload, dataFlag);
    } else if v.binding.Some? {
      RoundTripBinding(v, mac, payload, dataFlag);
    } else {
      RoundTripPlain(v, mac, payload, dataFlag);
    }
  }

  // ---------- the program's own steps ----------

  /** A run of `CWSetField32` calls on one word. */
  method PackWord(ss: seq<Setting>) returns (val: nat)
    requires forall i | 0 <= i < |ss| :: ss[i].field.Fits()
    ensures val == Pack(ss)
  {
    val := 0;
    for i := 0 to |ss|
      invariant val == Pack(ss[..i])
    {
      val := SetField(val, ss[i].field, ss[i].val);
      assert ss[..i + 1][..i] == ss[..i];
    }
    assert ss[..|ss|] == ss;
  }

  method CheckMac(mac: seq<Byte>) returns (present: bool)
    ensures present == MacPresent(mac)
  {
    present := false;
    for i := 0 to |mac|
      invariant !present && forall k | 0 <= k < i :: mac[k] == 0
    {
      if mac[i] != 0 {
        return true;
      }
    }
  }

  method AssembleBinding(hdr: Message, b: Option<Binding>)
    requires hdr.Valid() && hdr.offset + |BindingPart(b)| <= hdr.msg.Length
    modifies hdr`offset, hdr.msg
    ensures hdr.Valid() && hdr.Written() == old(hdr.Written()) + BindingPart(b)
  {
    if b.Some? {
      var w1 := PackWord(BindingSettings1(b.value));
      hdr.Store32(w1);
      var w2 := PackWord(BindingSettings2(b.value));
      hdr.Store32(w2);
      Regroup(old(hdr.Written()), Be32(w1), Be32(w2), []);
    }
  }

  method AssembleMac(hdr: Message, mac: seq<Byte>, present: bool)
    requires |mac| == 6 && present == MacPresent(mac)
    requires hdr.Valid() && hdr.offset + |MacPart(mac)| <= hdr.msg.Length
    modifies hdr`offset, hdr.msg
    ensures hdr.Valid() && hdr.Written() == old(hdr.Written()) + MacPart(mac)
  {
    if present {
      ghost var before := hdr.Written();
      hdr.Store8(6);
      hdr.StoreRawBytes(mac);
      hdr.Store8(0);
      assert hdr.Written() == before + [6] + mac + [0];
      Regroup(before, [6], mac, [0]);
    }
  }

  method AssembleFixed(hdr: Message, v: HeaderValues, mac: bool)
    requires hdr.Valid() && hdr.offset + 8 <= hdr.msg.Length
    modifies hdr`offset, hdr.msg
    ensures hdr.Valid() && hdr.Written() == old(hdr.Written()) + FixedPart(v, mac)
  {
    var w1 := PackWord(FirstSettings(v, mac));
    hdr.Store32(w1);
    var w2 := PackWord(SecondSettings(v));
    hdr.Store32(w2);
    Regroup(old(hdr.Written()), Be32(w1), Be32(w2), []);
  }

  /** `CWAssembleTransportHeader`, with the radio address as a parameter. */
  method AssembleTransportHeader(v: HeaderValues, mac: seq<Byte>) returns (hdr: Message)
    requires |mac| == 6
    ensures fresh(hdr) && fresh(hdr.msg) && hdr.Valid()
    ensures hdr.Written() == Header(v, mac)
  {
    var present := CheckMac(mac);
    hdr := new Message((if v.binding.Some? then 16 else 8) + (if present then 8 else 0));
    AssembleFixed(hdr, v, present);
    AssembleMac(hdr, mac, present);
    AssembleBinding(hdr, v.binding);
  }

  method ParseBindingPart(msg: Message, h: ParsedHeader) returns (o: ParseOutcome)
    requires msg.Valid()
    modifies msg`offset
    ensures msg.Valid() && o == ParseBinding(h, msg.msg[old(msg.offset)..])
    ensures o.Parsed? ==> msg.offset == old(msg.offset) + 8 && o.header.consumed == h.consumed + 8
  {
    if msg.msg.Length < msg.offset + 4 {
      return Overrun;
    }
    var w1 := msg.Retrieve32();
    if GetField(w1, LENGTH) != BINDING_DATALENGTH {
      return Invalid;
    }
    if msg.msg.Length < msg.offset + 4 {
      return Overrun;
    }
    var w2 := msg.Retrieve32();
    assert msg.msg[old(msg.offset)..][4..] == msg.msg[old(msg.offset) + 4..];
    o := Parsed(WithBinding(h, w1, w2));
  }

  method ParseMacPart(msg: Message, h: ParsedHeader) returns (o: ParseOutcome)
    requires msg.Valid()
    modifies msg`offset
    ensures msg.Valid() && o == ParseMac(h, msg.msg[old(msg.offset)..])
    ensures o.Parsed? ==> msg.offset == old(msg.offset) + 8 && o.header.consumed == h.consumed + 8
  {
    if msg.msg.Length < msg.offset + 8 {
      return Overrun;
    }
    var macLen := msg.Retrieve8();
    var bytes := msg.RetrieveRawBytes(7);
    if macLen > 6 {
      return Overrun;
    }
    ghost var s := msg.msg[old(msg.offset)..];
    assert bytes[..macLen] == s[1..1 + macLen];
    o := Parsed(h.(radioMac := Some(bytes[..macLen]), consumed := h.consumed + 8));
  }

  /** The branches on the data channel before the radio address. */
  method ParseDataPart(msg: Message, h: ParsedHeader, wireless: bool) returns (o: ParseOutcome)
    requires msg.Valid() && msg.offset == h.consumed
    modifies msg`offset
    ensures msg.Valid() && o == ParseDataParts(h, msg.msg[old(msg.offset)..], wireless)
    ensures o.Parsed? ==> msg.offset == o.header.consumed
  {
    if h.keepAlive != 0 {
      if msg.msg.Length < msg.offset + 2 {
        return Overrun;
      }
      var length := msg.Retrieve16();
      return Parsed(h.(dataMsgType := Some(DATA_MSG_KEEP_ALIVE_TYPE), consumed := h.consumed + 2));
    }
    o := Parsed(h);
    if wireless {
      o := ParseBindingPart(msg, h);
    } else if h.frameType == 0 {
      o := Parsed(h.(dataMsgType := Some(IEEE_802_3_FRAME_TYPE)));
    }
    if h.frameType != 0 && o.Parsed? {
      o := Parsed(o.header.(dataMsgType := Some(IEEE_802_11_FRAME_TYPE)));
    }
  }

  /** `CWParseTransportHeader`. */
  method ParseTransportHeader(msg: Message, dataFlag: bool) returns (o: ParseOutcome)
    requires msg.Valid() && msg.offset == 0
    modifies msg`offset
    ensures msg.Valid() && o == ParseHeader(msg.msg[..], dataFlag)
    ensures o.Parsed? ==> msg.offset == o.header.consumed <= msg.msg.Length
  {
    ghost var buf := msg.msg[..];
    if msg.msg.Length < 4 {
      return Overrun;
    }
    var w1 := msg.Retrieve32();
    if GetField(w1, VERSION) != 0 {
      return Invalid;
    }
    if msg.msg.Length < 8 {
      return Overrun;
    }
    var w2 := msg.Retrieve32();
    var h := ParseWords(w1, w2, dataFlag);
    var hlen, wireless, m := GetField(w1, HLEN), GetField(w1, W) == 1, GetField(w1, M) == 1;
    var short := hlen == 4 && wireless;
    if dataFlag {
      o := ParseDataPart(msg, h, wireless);
    } else if short {
      o := ParseBindingPart(msg, h.(dataFlag := true));
    } else {
      o := Parsed(h);
    }
    if !o.Parsed? {
      return;
    }
    if m && (dataFlag || !short) {
      o := ParseMacPart(msg, o.header);
    }
    if o.Parsed? && !(hlen == 2 || short || m) {
      o := Invalid;
    }
  }
}
