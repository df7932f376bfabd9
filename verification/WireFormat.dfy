/** The bytes on the wire, as section 4 of RFC 5415 and section 4 of RFC 5416 draw them: what
    the sender puts into each byte of a transport header, of a control header, of a message
    element and of a packet. */
module WireFormat {
  import opened BitFields
  import opened Bytes
  import opened Options
  import opened TransportHeader
  import opened ControlMessage
  import opened Fragments
  import opened Packets

  // ---------- words ----------

  /** The fields of a word, one behind the other, as a number. */
  function Digits(ss: seq<Setting>): nat {
    if ss == [] then 0
    else
      var last := ss[|ss| - 1];
      Shl(Digits(ss[..|ss| - 1]), last.field.len) + Low(last.val, last.field.len)
  }

  lemma {:induction false} OrShl(a: nat, b: nat, k: nat)
    ensures Or(Shl(a, k), Shl(b, k)) == Shl(Or(a, b), k)
  {
    if k > 0 {
      OrShl(a, b, k - 1);
      OrHalf(Shl(a, k), Shl(b, k));
    }
  }

  lemma {:induction false} OrLow(a: nat, v: int, k: nat)
    ensures Or(Shl(a, k), Low(v, k)) == Shl(a, k) + Low(v, k)
    decreases k
  {
    if k == 0 {
      OrZero(a);
    } else {
      OrLow(a, v / 2, k - 1);
      OrHalf(Shl(a, k), Low(v, k));
    }
  }

  /** The fields follow each other from the top of the word. */
  predicate FromTop(ss: seq<Setting>) {
    && (forall i | 0 <= i < |ss| :: ss[i].field.Fits())
    && (ss != [] ==> ss[0].field.start == 0)
    && (forall i | 0 < i < |ss| :: ss[i].field.start == ss[i - 1].field.start + ss[i - 1].field.len)
  }

  /** Setting fields from the top down is writing them one behind the other. */
  lemma {:induction false} PackIsDigits(ss: seq<Setting>)
    requires FromTop(ss) && ss != []
    ensures Pack(ss) == Shl(Digits(ss), ss[|ss| - 1].field.Shift())
  {
    var n := |ss| - 1;
    var f, low := ss[n].field, Low(ss[n].val, ss[n].field.len);
    if n == 0 {
      OrZero(Shl(low, f.Shift()));
      ShlZero(f.len);
      assert ss[..0] == [];
    } else {
      var high := Digits(ss[..n]);
      PackIsDigits(ss[..n]);
      ShlTwice(high, f.len, f.Shift());
      OrShl(Shl(high, f.len), low, f.Shift());
      OrLow(high, ss[n].val, f.len);
    }
  }

  lemma WordIsDigits(ss: seq<Setting>)
    requires Tiles(ss)
    ensures WellLaid(ss) && Pack(ss) == Digits(ss)
  {
    TilesWellLaid(ss);
    forall i | 0 < i < |ss|
      ensures ss[i].field.start == ss[i - 1].field.start + ss[i - 1].field.len
    {
      assert ss[i - 1].field.start + ss[i - 1].field.len == ss[i - 1 + 1].field.start;
    }
    PackIsDigits(ss);
  }

  lemma NextDigit(ss: seq<Setting>, k: nat)
    requires k < |ss|
    ensures Digits(ss[..k + 1]) == Shl(Digits(ss[..k]), ss[k].field.len) + Low(ss[k].val, ss[k].field.len)
  {
    assert ss[..k + 1][..k] == ss[..k];
  }

  lemma NoDigits(ss: seq<Setting>)
    ensures Digits(ss[..0]) == 0 && ss[..|ss|] == ss
  {
    assert ss[..0] == [];
  }

  /** A small field behind what is there already. */
  lemma SmallDigit(ss: seq<Setting>, k: nat)
    requires k < |ss| && ss[k].field.len in {1, 3, 4, 5}
    ensures var d, n := Digits(ss[..k]), ss[k].field.len;
            var shifted := if n == 1 then 2 * d else if n == 3 then 8 * d else if n == 4 then 16 * d else 32 * d;
            Digits(ss[..k + 1]) == shifted + Low(ss[k].val, n)
  {
    NextDigit(ss, k);
    var d := Digits(ss[..k]);
    assert Shl(d, 1) == 2 * d;
    assert Shl(d, 3) == 8 * d;
    assert Shl(d, 4) == 2 * Shl(d, 3);
    assert Shl(d, 5) == 2 * Shl(d, 4);
  }

  lemma WordBytes(a: Byte, b: Byte, c: Byte, d: Byte)
    ensures Be32(((a as int * 256 + b) * 256 + c) * 256 + d) == [a, b, c, d]
  {
    var high, low := a as int * 256 + b, c as int * 256 + d;
    var w := high * 0x10000 + low;
    assert w / 0x10000 == high && w % 0x10000 == low;
    PairBytes(a, b, 0);
    PairBytes(c, d, high);
  }

  /** The higher byte comes first, whatever lies above the sixteen bits. */
  lemma PairBytes(high: Byte, low: Byte, above: int)
    ensures Be16(above * 0x10000 + high as int * 256 + low) == [high, low]
  {
    var v := above * 0x10000 + high as int * 256 + low;
    assert v / 256 == above * 256 + high as int && v % 256 == low;
  }

  // ---------- the transport header ----------

  lemma BitOf(v: int)
    ensures Low(v, 1) == v % 2
  {
  }

  lemma FirstByteDigits(ss: seq<Setting>, v: HeaderValues, mac: bool)
    requires ss == FirstSettings(v, mac)
    ensures Digits(ss[..2]) == (if v.payloadType == 0 then 0 else 1)
    ensures Digits(ss[..4]) == 1024 * Digits(ss[..2]) + 32 * HeaderLength(mac, v.binding.Some?)
  {
    hide Digits, Low;
    NoDigits(ss);
    SmallDigit(ss, 0);
    SmallDigit(ss, 1);
    SmallDigit(ss, 2);
    SmallDigit(ss, 3);
    LowZero(4);
    LowZero(5);
    LowSmall(Bit(v.payloadType != 0), 4);
    LowSmall(HeaderLength(mac, v.binding.Some?), 5);
  }

  lemma SecondByteDigits(ss: seq<Setting>, v: HeaderValues, mac: bool)
    requires ss == FirstSettings(v, mac)
    ensures Digits(ss[..6]) == 64 * Digits(ss[..4]) + 2 + (if v.binding.Some? || v.frameType == 1 then 1 else 0)
    ensures Digits(ss[..8]) == 4 * Digits(ss[..6]) + 2 * (v.isFragment % 2) + v.last % 2
  {
    hide Digits, Low;
    SmallDigit(ss, 4);
    SmallDigit(ss, 5);
    SmallDigit(ss, 6);
    SmallDigit(ss, 7);
    LowSmall(1, 5);
    LowSmall(Bit(v.binding.Some? || v.frameType == 1), 1);
    BitOf(v.isFragment);
    BitOf(v.last);
  }

  lemma LastByteDigits(ss: seq<Setting>, v: HeaderValues, mac: bool)
    requires ss == FirstSettings(v, mac)
    ensures Digits(ss) == 64 * Digits(ss[..8]) + (if v.binding.Some? then 32 else 0) + if mac then 16 else 0
  {
    hide Digits, Low;
    SmallDigit(ss, 8);
    SmallDigit(ss, 9);
    SmallDigit(ss, 10);
    SmallDigit(ss, 11);
    LowSmall(Bit(v.binding.Some?), 1);
    LowSmall(Bit(mac), 1);
    LowZero(1);
    LowZero(3);
    NoDigits(ss);
  }

  /** The first four bytes: version 0 and the type; the header length in words and a radio id
      of zero; wireless binding 1 (802.11) and the T bit; the bits F, L, W and M. */
  function FirstBytes(v: HeaderValues, mac: bool): seq<Byte> {
    var words := (if mac then 2 else 0) + if v.binding.Some? then 4 else 2;
    [ if v.payloadType == 0 then 0 else 1,
      8 * words,
      if v.binding.Some? || v.frameType == 1 then 3 else 2,
      128 * (v.isFragment % 2) + 64 * (v.last % 2) + (if v.binding.Some? then 32 else 0) + if mac then 16 else 0 ]
  }

  lemma FirstWordBytes(v: HeaderValues, mac: bool)
    ensures Tiles(FirstSettings(v, mac)) && WellLaid(FirstSettings(v, mac))
    ensures Be32(Pack(FirstSettings(v, mac))) == FirstBytes(v, mac)
  {
    hide FirstSettings, Digits, Be32, Pack, WellLaid, Tiles;
    var ss, b := FirstSettings(v, mac), FirstBytes(v, mac);
    Layout(v, mac, Binding(0, 0, 0));
    WordIsDigits(ss);
    FirstByteDigits(ss, v, mac);
    SecondByteDigits(ss, v, mac);
    LastByteDigits(ss, v, mac);
    WordBytes(b[0], b[1], b[2], b[3]);
  }

  /** The fragment id, and the fragment offset above three reserved bits. */
  function SecondBytes(v: HeaderValues): seq<Byte> {
    [v.fragmentID / 256 % 256, v.fragmentID % 256, v.fragmentOffset / 32 % 256, v.fragmentOffset % 32 * 8]
  }

  lemma SecondDigits(v: HeaderValues)
    ensures Digits(SecondSettings(v)) == v.fragmentID % 0x10000 * 0x10000 + v.fragmentOffset % 8192 * 8
  {
    hide Digits, Low, Shl;
    var ss := SecondSettings(v);
    NoDigits(ss);
    NextDigit(ss, 0);
    NextDigit(ss, 1);
    SmallDigit(ss, 2);
    ShlZero(16);
    LowZero(3);
    FieldSizes();
    LowIsMod(v.fragmentID, 16);
    LowIsMod(v.fragmentOffset, 13);
    ShlIsTimes(v.fragmentID % 0x10000, 13);
  }

  lemma {:induction false} ShlIsTimes(x: nat, k: nat)
    ensures Shl(x, k) == x * Shl(1, k)
  {
    if k > 0 {
      ShlIsTimes(x, k - 1);
    }
  }

  lemma ByteParts(v: int)
    ensures v % 0x10000 == v / 256 % 256 * 256 + v % 256
  {
  }

  lemma OffsetParts(v: int)
    ensures v % 8192 * 8 == v / 32 % 256 * 256 + v % 32 * 8
  {
  }

  lemma SecondWordBytes(v: HeaderValues)
    ensures Tiles(SecondSettings(v)) && WellLaid(SecondSettings(v))
    ensures Be32(Pack(SecondSettings(v))) == SecondBytes(v)
  {
    hide SecondSettings, Digits, Be32, Pack, WellLaid, Tiles;
    var b := SecondBytes(v);
    Layout(v, false, Binding(0, 0, 0));
    WordIsDigits(SecondSettings(v));
    SecondDigits(v);
    ByteParts(v.fragmentID);
    OffsetParts(v.fragmentOffset);
    WordBytes(b[0], b[1], b[2], b[3]);
  }

  /** The wireless part: its length, RSSI, SNR and the two bytes of the rate, with padding. */
  function BindingBytes(b: Binding): seq<Byte> {
    [4, b.rssi % 256, b.snr % 256, b.dataRate / 256 % 256, b.dataRate % 256, 0, 0, 0]
  }

  lemma ByteDigit(ss: seq<Setting>, k: nat)
    requires k < |ss| && ss[k].field.len == 8
    ensures Digits(ss[..k + 1]) == 256 * Digits(ss[..k]) + ss[k].val % 256
  {
    NextDigit(ss, k);
    ShlByte(Digits(ss[..k]));
    LowByte(ss[k].val);
  }

  lemma BindingDigits1(b: Binding)
    ensures var s := BindingBytes(b);
            Digits(BindingSettings1(b)) == ((s[0] as int * 256 + s[1]) * 256 + s[2]) * 256 + s[3]
  {
    hide Digits;
    var ss := BindingSettings1(b);
    NoDigits(ss);
    ByteDigit(ss, 0);
    ByteDigit(ss, 1);
    ByteDigit(ss, 2);
    ByteDigit(ss, 3);
  }

  lemma BindingDigits2(b: Binding)
    ensures Digits(BindingSettings2(b)) == b.dataRate % 256 * 0x1000000
  {
    hide Digits, Low, Shl;
    var ss := BindingSettings2(b);
    NoDigits(ss);
    ByteDigit(ss, 0);
    NextDigit(ss, 1);
    LowZero(24);
    ThreeBytes(b.dataRate % 256);
  }

  lemma ThreeBytes(d: nat)
    ensures Shl(d, 24) == d * 0x1000000
  {
    hide Shl;
    ShlByte(d);
    ShlByte(256 * d);
    ShlByte(0x10000 * d);
    ShlTwice(d, 8, 8);
    ShlTwice(d, 16, 8);
  }

  lemma BindingPartBytes(b: Binding)
    ensures BindingPart(Some(b)) == BindingBytes(b)
  {
    hide Digits, Be32, Pack, Tiles, BindingSettings1, BindingSettings2;
    var s := BindingBytes(b);
    Layout(HeaderValues(0, 0, 0, 0, 0, 0, None), false, b);
    WordIsDigits(BindingSettings1(b));
    WordIsDigits(BindingSettings2(b));
    BindingDigits1(b);
    BindingDigits2(b);
    WordBytes(s[0], s[1], s[2], s[3]);
    WordBytes(s[4], 0, 0, 0);
  }

  /** A whole transport header: the two words, the radio address behind its length and with a
      byte of padding, if it is not all zeros, and the wireless part, if there is one. */
  lemma HeaderBytes(v: HeaderValues, mac: seq<Byte>)
    ensures var present := exists i :: 0 <= i < |mac| && mac[i] != 0;
            Header(v, mac) == FirstBytes(v, present) + SecondBytes(v) + (if present then [6] + mac + [0] else [])
                              + if v.binding.Some? then BindingBytes(v.binding.value) else []
  {
    FirstWordBytes(v, MacPresent(mac));
    SecondWordBytes(v);
    hide FirstBytes, SecondBytes, BindingBytes, Be32, Pack, FirstSettings, SecondSettings;
    if v.binding.Some? {
      BindingPartBytes(v.binding.value);
    }
  }

  // ---------- reading any header ----------

  lemma ShrBits(x: nat)
    ensures Shr(x, 3) == x / 8 && Shr(x, 4) == x / 16 && Shr(x, 5) == x / 32
    ensures Shr(x, 6) == x / 64 && Shr(x, 7) == x / 128
  {
    hide Shr;
    ShrThree(x);
    ShrThree(x / 8);
    ShrOne(x / 8);
    ShrOne(x / 16);
    ShrOne(x / 64);
    ShrTwice(x, 3, 1);
    ShrTwice(x, 4, 1);
    ShrTwice(x, 3, 3);
    ShrTwice(x, 6, 1);
  }

  lemma ShrOne(x: nat)
    ensures Shr(x, 1) == x / 2
  {
  }

  lemma ShrThree(x: nat)
    ensures Shr(x, 3) == x / 8
  {
    assert Shr(x, 3) == Shr(x / 2, 2) == Shr(x / 2 / 2, 1) == x / 2 / 2 / 2;
    assert x / 2 / 2 == x / 4;
    assert x / 4 / 2 == x / 8;
  }

  lemma ShrBytes(high: nat, low: Byte)
    ensures Shr(high * 256 + low, 8) == high
  {
    ShrByte(high * 256 + low);
  }

  lemma LowBits(x: nat)
    ensures Low(x, 1) == x % 2 && Low(x, 4) == x % 16 && Low(x, 5) == x % 32
  {
    assert Shl(1, 1) == 2;
    assert Shl(1, 4) == 2 * Shl(1, 3) == 16;
    assert Shl(1, 5) == 2 * Shl(1, 4) == 32;
    LowIsMod(x, 1);
    LowIsMod(x, 4);
    LowIsMod(x, 5);
  }

  /** Version, type and header length of any first word. */
  lemma TopFields(a: Byte, b: Byte, c: Byte, d: Byte)
    ensures var w := ((a as int * 256 + b) * 256 + c) * 256 + d;
            && GetField(w, VERSION) == a as int / 16 && GetField(w, TYPE) == a as int % 16
            && GetField(w, HLEN) == b as int / 8 && GetField(w, T) == c as int % 2
  {
    hide Shr, Low;
    var x, y := a as int * 256 + b, (a as int * 256 + b) * 256 + c;
    var w := y * 256 + d;
    ShrBytes(a, b);
    ShrBytes(x, c);
    ShrBytes(y, d);
    ShrTwice(w, 8, 8);
    ShrTwice(w, 16, 8);
    ShrTwice(w, 24, 4);
    ShrTwice(w, 16, 3);
    ShrBits(a);
    ShrBits(x);
    LowBits(a as int / 16);
    LowBits(a);
    LowBits(x / 8);
    LowBits(y);
    MiddleBits(a, b);
    MiddleBits(x, c);
  }

  /** The bits of the last byte of any first word. */
  lemma BitFieldsOf(high: nat, d: Byte)
    ensures var w := high * 256 + d;
            && GetField(w, F) == d as int / 128 && GetField(w, L) == d as int / 64 % 2
            && GetField(w, W) == d as int / 32 % 2 && GetField(w, M) == d as int / 16 % 2
            && GetField(w, K) == d as int / 8 % 2
  {
    hide Shr, Low;
    var w := high * 256 + d;
    ShrBits(w);
    LowBits(w / 128);
    LowBits(w / 64);
    LowBits(w / 32);
    LowBits(w / 16);
    LowBits(w / 8);
    LastBits(high, d);
  }

  lemma LastBits(high: nat, d: Byte)
    ensures var w, b := high * 256 + d, d as int;
            && w / 128 % 2 == b / 128 && w / 64 % 2 == b / 64 % 2 && w / 32 % 2 == b / 32 % 2
            && w / 16 % 2 == b / 16 % 2 && w / 8 % 2 == b / 8 % 2
  {
    var b := d as int;
    Quotients(high, d);
    Parity(high, b / 128);
    Parity(2 * high, b / 64);
    Parity(4 * high, b / 32);
    Parity(8 * high, b / 16);
    Parity(16 * high, b / 8);
  }

  lemma Quotients(high: nat, d: Byte)
    ensures var w, b := high * 256 + d, d as int;
            && w / 128 == 2 * high + b / 128 && w / 64 == 4 * high + b / 64 && w / 32 == 8 * high + b / 32
            && w / 16 == 16 * high + b / 16 && w / 8 == 32 * high + b / 8
  {
  }

  lemma Parity(x: nat, r: nat)
    ensures (2 * x + r) % 2 == r % 2
  {
  }

  lemma MiddleBits(a: nat, b: Byte)
    ensures (a * 256 + b) / 8 % 32 == b as int / 8 && (a * 256 + b) % 2 == b as int % 2
  {
    Quotients(a, b);
    Parity(128 * a, b);
    Remainder(a, b as int / 8);
  }

  lemma Remainder(x: nat, r: nat)
    requires r < 32
    ensures (32 * x + r) % 32 == r
  {
  }

  /** Fragment id and offset of any second word. */
  lemma FragmentFields(a: Byte, b: Byte, c: Byte, d: Byte)
    ensures var w := ((a as int * 256 + b) * 256 + c) * 256 + d;
            && GetField(w, FRAGMENT_ID) == a as int * 256 + b
            && GetField(w, FRAGMENT_OFFSET) == c as int * 32 + d as int / 8
  {
    hide Shr, Low, Shl;
    var x, y := a as int * 256 + b, (a as int * 256 + b) * 256 + c;
    var w := y * 256 + d;
    ShrBytes(x, c);
    ShrBytes(y, d);
    ShrTwice(w, 8, 8);
    ShrBits(w);
    FieldSizes();
    LowIsMod(x, 16);
    LowIsMod(w / 8, 13);
    assert w / 8 == x * 8192 + (c as int * 32 + d as int / 8);
  }

  /** The fixed part of any packet, byte by byte. */
  function Words(buf: seq<Byte>, dataFlag: bool): ParsedHeader
    requires |buf| >= 8
  {
    ParsedHeader(buf[0] as int % 16, buf[2] as int % 2, buf[3] as int / 128, buf[3] as int / 64 % 2,
                 buf[4] as int * 256 + buf[5], buf[6] as int * 32 + buf[7] as int / 8, buf[3] as int / 8 % 2,
                 None, None, None, dataFlag, 8)
  }

  lemma FixedFields(buf: seq<Byte>, dataFlag: bool)
    requires |buf| >= 8
    ensures var w1, w2 := FromBe32(buf), FromBe32(buf[4..]);
            && GetField(w1, VERSION) == buf[0] as int / 16 && GetField(w1, HLEN) == buf[1] as int / 8
            && GetField(w1, W) == buf[3] as int / 32 % 2 && GetField(w1, M) == buf[3] as int / 16 % 2
            && ParseWords(w1, w2, dataFlag) == Words(buf, dataFlag)
  {
    hide GetField;
    TopFields(buf[0], buf[1], buf[2], buf[3]);
    BitFieldsOf((buf[0] as int * 256 + buf[1]) * 256 + buf[2], buf[3]);
    FragmentFields(buf[4], buf[5], buf[6], buf[7]);
  }

  /** Any packet on the control channel that is long enough: which are refused and what the
      others say. Its version must be 0. A wireless part is read if the header says four words
      and has the W bit, and must say length 4; else a radio address if it has the M bit; and
      one of these or a length of two words must be. */
  lemma ControlHeaderRead(buf: seq<Byte>)
    requires |buf| >= 16
    ensures var o, hlen := ParseHeader(buf, false), buf[1] as int / 8;
            var wireless, mac := hlen == 4 && buf[3] as int / 32 % 2 == 1, buf[3] as int / 16 % 2 == 1;
            if buf[0] >= 16 || (wireless && buf[8] != 4) then o == Invalid
            else if wireless then
              && o.Parsed? && o.header.binding == Some(Wireless(buf[8..])) && o.header.consumed == 16
              && o.header.(binding := None, dataMsgType := None, consumed := 8) == Words(buf, true)
            else if mac then
              if buf[8] > 6 then o.Overrun?
              else o == Parsed(Words(buf, false).(radioMac := Some(buf[9..9 + buf[8]]), consumed := 16))
            else o == if hlen == 2 then Parsed(Words(buf, false)) else Invalid
  {
    hide GetField, ParseWords;
    FixedFields(buf, false);
    FixedFields(buf, true);
    WirelessRead(Words(buf, true), buf[8..]);
    WordsDataFlag(FromBe32(buf), FromBe32(buf[4..]));
    hide FromBe32, Words, ParseBinding, Wireless;
    assert buf[8] <= 6 ==> buf[8..][1..1 + buf[8]] == buf[9..9 + buf[8]];
  }

  lemma WordsDataFlag(w1: nat, w2: nat)
    ensures ParseWords(w1, w2, true) == ParseWords(w1, w2, false).(dataFlag := true)
  {
  }

  function Signed(b: Byte): int {
    if b < 128 then b else b - 256
  }

  /** The wireless part in eight bytes: RSSI and SNR, and a rate whose low byte is taken from
      the last one. */
  function Wireless(s: seq<Byte>): Binding
    requires |s| >= 8
  {
    Binding(Signed(s[1]), Signed(s[2]), s[3] as int * 256 + s[7])
  }

  lemma ByteFields(a: Byte, b: Byte, c: Byte, d: Byte)
    ensures var w := ((a as int * 256 + b) * 256 + c) * 256 + d;
            && GetField(w, LENGTH) == a && GetField(w, RSSI) == b && GetField(w, SNR) == c
            && GetField(w, DATARATE_1) == d
  {
    hide Shr, Low;
    var x, y := a as int * 256 + b, (a as int * 256 + b) * 256 + c;
    var w := y * 256 + d;
    ShrBytes(a, b);
    ShrBytes(x, c);
    ShrBytes(y, d);
    ShrTwice(w, 8, 8);
    ShrTwice(w, 16, 8);
    LowByte(a);
    LowByte(x);
    LowByte(y);
    LowByte(w);
    assert Shr(w, 0) == w by { ShrNothing(w); }
  }

  lemma ShrNothing(x: nat)
    ensures Shr(x, 0) == x
  {
  }

  lemma WirelessRead(h: ParsedHeader, s: seq<Byte>)
    requires |s| >= 8
    ensures var o := ParseBinding(h, s);
            if s[0] != 4 then o == Invalid
            else && o.Parsed? && o.header.binding == Some(Wireless(s)) && o.header.consumed == h.consumed + 8
                 && o.header.(binding := h.binding, dataMsgType := h.dataMsgType, consumed := h.consumed) == h
  {
    hide GetField;
    ByteFields(s[0], s[1], s[2], s[3]);
    ByteFields(s[4], s[5], s[6], s[7]);
  }

  /** Any packet on the data channel without a radio address: a keep-alive takes two more bytes;
      a wireless part must say length 4; the header must say two words, or four with a wireless
      part; and the T bit tells 802.11 frames from 802.3 frames. */
  lemma DataHeaderRead(buf: seq<Byte>)
    requires |buf| >= 16 && buf[3] as int / 16 % 2 == 0
    ensures var o, hlen, h := ParseHeader(buf, true), buf[1] as int / 8, Words(buf, true);
            var wireless, alive := buf[3] as int / 32 % 2 == 1, buf[3] as int / 8 % 2 == 1;
            if buf[0] >= 16 || (!alive && wireless && buf[8] != 4) || !(hlen == 2 || (hlen == 4 && wireless)) then
              o == Invalid
            else if alive then o == Parsed(h.(dataMsgType := Some(5), consumed := 10))
            else if !wireless then o == Parsed(h.(dataMsgType := Some(if buf[2] as int % 2 == 1 then 6 else 4)))
            else
              && o.Parsed? && o.header.binding == Some(Wireless(buf[8..])) && o.header.consumed == 16
              && o.header.(binding := None, dataMsgType := None, consumed := 8) == h
              && (buf[2] as int % 2 == 1 ==> o.header.dataMsgType == Some(6))
  {
    hide GetField, ParseWords;
    FixedFields(buf, true);
    WirelessRead(Words(buf, true), buf[8..]);
    hide FromBe32, ParseBinding, Wireless;
  }

  /** A packet on the control channel without optional parts and with the F bit is the fragment
      that its bytes name; without the F bit it is the message. */
  lemma PacketRead(fs: seq<Fragment>, buf: seq<Byte>)
    requires |buf| >= 16 && buf[0] < 16 && buf[1] as int / 8 == 2 && buf[3] as int / 16 % 2 == 0
    ensures ReceivePacket(fs, buf, false) ==
            if buf[3] < 128 then (fs, Answer(Complete(buf[8..])))
            else
              var f := Fragment(buf[4] as int * 256 + buf[5], buf[6] as int * 32 + buf[7] as int / 8,
                                buf[3] as int / 64 % 2 == 1, buf[8..]);
              (Receive(fs, f).0, Answer(Receive(fs, f).1))
  {
    hide ParseHeader, Receive;
    ControlHeaderRead(buf);
    assert ParseHeader(buf, false) == Parsed(Words(buf, false));
  }

  /** A packet that is too short or of another version leaves the fragments held as they are. */
  lemma PacketRefused(fs: seq<Fragment>, buf: seq<Byte>, dataFlag: bool)
    requires |buf| < 8 || buf[0] >= 16
    ensures ReceivePacket(fs, buf, dataFlag).0 == fs && ReceivePacket(fs, buf, dataFlag).1.Refused?
  {
    if |buf| >= 8 {
      FixedFields(buf, dataFlag);
    }
  }

  // ---------- packets ----------

  /** The packet of a fragment starts with the sender's settings, the F bit, the L bit exactly
      for the last one, id and offset; its end is the data. */
  lemma FragmentPacketBytes(s: Sender, f: Fragment)
    ensures var p, wireless := FragmentPacket(s, f), s.binding.Some?;
            var mac := exists i :: 0 <= i < |s.mac| && s.mac[i] != 0;
            && |p| >= 8 + |f.data| && p[|p| - |f.data|..] == f.data
            && p[0] == (if s.payloadType == 0 then 0 else 1)
            && p[1] == (if wireless then 32 else 16) + (if mac then 16 else 0)
            && p[2] == (if wireless || s.frameType == 1 then 3 else 2)
            && p[3] == (if f.last then 192 else 128) + (if wireless then 32 else 0) + (if mac then 16 else 0)
            && p[4..8] == [f.id / 256 % 256, f.id % 256, f.offset / 32 % 256, f.offset % 32 * 8]
  {
    HeaderBytes(FragmentHeader(s, f), s.mac);
    hide Header, BindingBytes;
  }

  /** A message in one packet has neither bit, id or offset. */
  lemma SinglePacketBytes(s: Sender, m: seq<Byte>)
    ensures var p, wireless := SinglePacket(s, m), s.binding.Some?;
            var mac := exists i :: 0 <= i < |s.mac| && s.mac[i] != 0;
            && |p| >= 8 + |m| && p[|p| - |m|..] == m
            && p[0] == (if s.payloadType == 0 then 0 else 1)
            && p[1] == (if wireless then 32 else 16) + (if mac then 16 else 0)
            && p[2] == (if wireless || s.frameType == 1 then 3 else 2)
            && p[3] == (if wireless then 32 else 0) + (if mac then 16 else 0)
            && p[4..8] == [0, 0, 0, 0]
  {
    HeaderBytes(HeaderValues(s.payloadType, s.frameType, 0, 0, 0, 0, s.binding), s.mac);
    hide Header, BindingBytes;
  }

  // ---------- control messages ----------

  /** A control message: the type, most significant byte first, the sequence number, the length
      of the elements plus three, no flags, and the elements. */
  lemma MessageLayout(messageType: nat, seqNum: int, es: seq<Element>)
    ensures var n := |ElementsBytes(es)| + 3;
            MessageBytes(messageType, seqNum, es) ==
            [ messageType / 0x1000000 % 256, messageType / 0x10000 % 256, messageType / 0x100 % 256, messageType % 256,
              seqNum % 256, n / 256 % 256, n % 256, 0 ] + ElementsBytes(es)
  {
    hide ElementsBytes;
    assert messageType / 0x10000 / 256 == messageType / 0x1000000;
  }

  /** An element: its type and the length of its body, the higher byte first, and the body. */
  lemma ElementLayout(e: Element)
    requires Storable(e)
    ensures var s := ElementBytes(e);
            && |s| == 4 + |e.body| && s[4..] == e.body
            && e.elemType == s[0] as int * 256 + s[1] && |e.body| == s[2] as int * 256 + s[3]
  {
  }
}
