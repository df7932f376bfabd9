/** Bridging between Ethernet and 802.11: the type of an Ethernet frame travels in a SNAP
    header (RFC 1042) in front of the payload of an 802.11 data frame. The 802.11 header
    itself is left abstract. */
module Tunnel {
  import opened Options
  import opened Bytes

  const BRIDGE_TUNNEL_HEADER: seq<Byte> := [0xaa, 0xaa, 0x03, 0x00, 0x00, 0xf8]
  const RFC1042_HEADER: seq<Byte> := [0xaa, 0xaa, 0x03, 0x00, 0x00, 0x00]

  const ETH_P_AARP := 0x80F3
  const ETH_P_IPX := 0x8137
  const ETH_P_802_3_MIN := 0x600

  const ETH_ALEN: nat := 6
  const ETH_HLEN: nat := 14
  const HLEN_80211: nat := 24
  const ENCAPS_HDR_LEN: nat := 8

  /** The SNAP header for a type; none for a length. */
  function SnapHeader(etherType: nat): (h: seq<Byte>)
    ensures |h| == 6 || h == []
  {
    if etherType == ETH_P_AARP || etherType == ETH_P_IPX then BRIDGE_TUNNEL_HEADER
    else if etherType >= ETH_P_802_3_MIN then RFC1042_HEADER
    else []
  }

  /** The body of the 802.11 frame for an Ethernet type and payload. */
  function Encapsulated(etherType: nat, payload: seq<Byte>): seq<Byte> {
    if SnapHeader(etherType) == [] then payload else SnapHeader(etherType) + Be16(etherType) + payload
  }

  /** A value stored in a `short int`. */
  function Short(v: nat): int {
    if v % 0x10000 < 0x8000 then v % 0x10000 else v % 0x10000 - 0x10000
  }

  /** Whether the receiver takes the first bytes of a body for a SNAP header. */
  predicate TakenForSnap(buffer: seq<Byte>)
    requires |buffer| >= ENCAPS_HDR_LEN
  {
    var etherType := Short(FromBe16(buffer[6..]));
    || (buffer[..6] == RFC1042_HEADER && etherType != ETH_P_AARP && etherType != ETH_P_IPX)
    || buffer[..6] == BRIDGE_TUNNEL_HEADER
  }

  /** An Ethernet type and payload; `Underflow` stands for a negative payload length. */
  datatype Decapsulation = Decapsulation(etherType: nat, payload: seq<Byte>) | Underflow

  /** The Ethernet type and payload taken from a body. The first eight bytes are looked at
      whatever the length: `beyond` is what follows the frame in the buffer. */
  function Decapsulated(body: seq<Byte>, beyond: seq<Byte>): Decapsulation
    requires |body| + |beyond| >= ENCAPS_HDR_LEN
  {
    var buffer := body + beyond;
    if !TakenForSnap(buffer) then Decapsulation(|body| % 0x10000, body)
    else if |body| < ENCAPS_HDR_LEN then Underflow
    else Decapsulation(FromBe16(buffer[6..]), body[ENCAPS_HDR_LEN..])
  }

  /** The two exceptions are never met: as a `short int` no type equals them. */
  lemma SnapPrefix(buffer: seq<Byte>)
    requires |buffer| >= ENCAPS_HDR_LEN
    ensures TakenForSnap(buffer) <==> buffer[..6] == RFC1042_HEADER || buffer[..6] == BRIDGE_TUNNEL_HEADER
  {
  }

  lemma SnapParts(header: seq<Byte>, etherType: nat, rest: seq<Byte>)
    requires |header| == 6 && etherType < 0x10000
    ensures var b := header + Be16(etherType) + rest;
            b[..6] == header && FromBe16(b[6..]) == etherType && b[ENCAPS_HDR_LEN..] == rest
  {
    var b := header + Be16(etherType) + rest;
    assert b[6..] == Be16(etherType) + rest;
    RoundTrip16(etherType, rest);
  }

  lemma SnapRoundTrip(header: seq<Byte>, etherType: nat, payload: seq<Byte>, beyond: seq<Byte>)
    requires header == RFC1042_HEADER || header == BRIDGE_TUNNEL_HEADER
    requires etherType < 0x10000
    ensures Decapsulated(header + Be16(etherType) + payload, beyond) == Decapsulation(etherType, payload)
  {
    var body := header + Be16(etherType) + payload;
    assert body + beyond == header + Be16(etherType) + (payload + beyond);
    SnapParts(header, etherType, payload + beyond);
    SnapParts(header, etherType, payload);
    SnapPrefix(body + beyond);
  }

  /** Taking off undoes putting on. With a type it always does. With a length it does if and
      only if the length is right and the bytes that follow do not look like a SNAP
      header. */
  lemma BridgeRoundTrip(etherType: nat, payload: seq<Byte>, beyond: seq<Byte>)
    requires etherType < 0x10000 && |Encapsulated(etherType, payload)| + |beyond| >= ENCAPS_HDR_LEN
    ensures Decapsulated(Encapsulated(etherType, payload), beyond) == Decapsulation(etherType, payload) <==>
            (|| etherType >= ETH_P_802_3_MIN
             || (&& etherType == |payload| % 0x10000
                 && (payload + beyond)[..6] != RFC1042_HEADER && (payload + beyond)[..6] != BRIDGE_TUNNEL_HEADER))
  {
    if etherType == ETH_P_AARP || etherType == ETH_P_IPX {
      SnapRoundTrip(BRIDGE_TUNNEL_HEADER, etherType, payload, beyond);
    } else if etherType >= ETH_P_802_3_MIN {
      SnapRoundTrip(RFC1042_HEADER, etherType, payload, beyond);
    } else {
      SnapPrefix(payload + beyond);
    }
  }

  // ---------- in place ----------

  /** Copy bytes into a buffer. */
  method CopyMemory(to: array<Byte>, at: nat, from: seq<Byte>)
    requires at + |from| <= to.Length
    modifies to
    ensures to[..] == old(to[..at]) + from + old(to[at + |from|..])
  {
    forall i | 0 <= i < |from| {
      to[at + i] := from[i];
    }
  }

  /** `CWConvertDataFrame_8023_to_80211` after the destination was found, with the 802.11
      header given. */
  method Convert8023To80211(frame: array<Byte>, frameLen: nat, header: seq<Byte>, out: array<Byte>) returns (len: nat)
    requires ETH_HLEN <= frameLen <= frame.Length && |header| == HLEN_80211
    requires out != frame && out.Length >= frameLen + HLEN_80211
    modifies out
    ensures len <= out.Length
    ensures out[..len] == header + Encapsulated(FromBe16(frame[12..14]), frame[ETH_HLEN..frameLen])
    ensures len >= 24 && out[..24] == header
    ensures var etherType := frame[12] as int * 256 + frame[13];
            if etherType < 0x600 then out[24..len] == frame[14..frameLen]
            else
              && len >= 30 && out[24..29] == [0xaa, 0xaa, 0x03, 0x00, 0x00]
              && out[29] == (if etherType == 0x80F3 || etherType == 0x8137 then 0xf8 else 0x00)
              && out[30..len] == frame[12..frameLen]
  {
    hide SnapHeader, Encapsulated, FromBe16;
    var bytes := frame[..frameLen];
    var etherType := FromBe16(bytes[12..14]);
    var encapsHdr := SnapHeader(etherType);
    var skipBytes := if encapsHdr == [] then 0 else 2;
    WriteParts(out, header, encapsHdr, bytes[ETH_HLEN - skipBytes..]);
    len := frameLen - ETH_HLEN + skipBytes + HLEN_80211 + |encapsHdr|;
    EncapsulatedParts(bytes);
    assert bytes[12..14] == frame[12..14] && bytes[ETH_HLEN..] == frame[ETH_HLEN..frameLen];
    assert out[..len] == header + (encapsHdr + bytes[ETH_HLEN - skipBytes..]);
    SnapBytes(bytes);
    ghost var body := encapsHdr + bytes[ETH_HLEN - skipBytes..];
    assert out[..24] == out[..len][..24] && out[24..len] == out[..len][24..] == body;
    assert encapsHdr != [] ==> out[24..29] == body[..5] && out[29] == body[5] && out[30..len] == body[6..];
    assert bytes[12..] == frame[12..frameLen];
  }

  /** The SNAP header in bytes, for the type that an Ethernet frame carries: the bridge tunnel
      header for AppleTalk ARP and IPX, that of RFC 1042 for every other type. */
  lemma SnapBytes(frame: seq<Byte>)
    requires |frame| >= ETH_HLEN
    ensures var etherType := frame[12] as int * 256 + frame[13];
            && FromBe16(frame[12..14]) == etherType
            && SnapHeader(etherType) ==
               if etherType < 0x600 then []
               else [0xaa, 0xaa, 0x03, 0x00, 0x00, if etherType == 0x80F3 || etherType == 0x8137 then 0xf8 else 0x00]
  {
  }

  /** The bytes of the type are the two in front of the payload. */
  lemma EncapsulatedParts(frame: seq<Byte>)
    requires |frame| >= ETH_HLEN
    ensures var snap := SnapHeader(FromBe16(frame[12..14]));
            Encapsulated(FromBe16(frame[12..14]), frame[ETH_HLEN..]) ==
            snap + frame[ETH_HLEN - (if snap == [] then 0 else 2)..]
  {
    Same16(frame[12..14]);
    hide SnapHeader, FromBe16;
    assert frame[ETH_HLEN - 2..] == Be16(FromBe16(frame[12..14])) + frame[ETH_HLEN..];
  }

  method WriteParts(out: array<Byte>, a: seq<Byte>, b: seq<Byte>, c: seq<Byte>)
    requires out.Length >= |a| + |b| + |c|
    modifies out
    ensures out[..|a| + |b| + |c|] == a + b + c
  {
    CopyMemory(out, 0, a);
    CopyMemory(out, |a|, b);
    assert out[..|a| + |b|] == a + b;
    CopyMemory(out, |a| + |b|, c);
  }

  method WriteFrame(out: array<Byte>, da: seq<Byte>, sa: seq<Byte>, lengthOrType: nat, payload: seq<Byte>)
    requires |da| == ETH_ALEN && |sa| == ETH_ALEN && out.Length >= ETH_HLEN + |payload|
    modifies out
    ensures out[..ETH_HLEN + |payload|] == da + sa + Be16(lengthOrType) + payload
  {
    CopyMemory(out, 0, da);
    CopyMemory(out, ETH_ALEN, sa);
    assert out[..ETH_ALEN + ETH_ALEN] == da + sa;
    CopyMemory(out, ETH_ALEN + ETH_ALEN, Be16(lengthOrType));
    assert out[..ETH_HLEN] == da + sa + Be16(lengthOrType);
    CopyMemory(out, ETH_HLEN, payload);
  }

  /** `CWConvertDataFrame_80211_to_8023` once the addresses were read from the header. */
  method Convert80211To8023(received: array<Byte>, frameLen: nat, da: seq<Byte>, sa: seq<Byte>, out: array<Byte>)
    returns (len: Option<nat>)
    requires HLEN_80211 <= frameLen <= received.Length && received.Length >= HLEN_80211 + ENCAPS_HDR_LEN
    requires |da| == ETH_ALEN && |sa| == ETH_ALEN && out != received
    requires out.Length >= ETH_HLEN + frameLen - HLEN_80211
    modifies out
    ensures match Decapsulated(received[HLEN_80211..frameLen], received[frameLen..])
            case Underflow => len.None?
            case Decapsulation(etherType, payload) =>
              && len.Some? && len.value <= out.Length
              && out[..len.value] == da + sa + Be16(etherType) + payload
    ensures if Snapped(received[24..32]) then
              if frameLen < 32 then len.None?
              else len == Some(frameLen - 18) && out[12..frameLen - 18] == received[30..frameLen]
            else
              && len == Some(frameLen - 10) && out[14..frameLen - 10] == received[24..frameLen]
              && out[12..14] == [(frameLen - 24) / 256 % 256, (frameLen - 24) % 256]
  {
    SnappedIsTaken(received[HLEN_80211..]);
    hide TakenForSnap, Snapped, Be16, FromBe16;
    var buffer := received[HLEN_80211..];
    assert buffer[..8] == received[24..32];
    ghost var body := received[HLEN_80211..frameLen];
    assert buffer == body + received[frameLen..];
    var flagEncaps := TakenForSnap(buffer);
    var offset := HLEN_80211 + if flagEncaps then ENCAPS_HDR_LEN else 0;
    if frameLen < offset {
      return None;
    }
    var lengthOrType := if flagEncaps then FromBe16(buffer[6..]) else frameLen - offset;
    WriteFrame(out, da, sa, lengthOrType, received[offset..frameLen]);
    len := Some(ETH_HLEN + (frameLen - offset));
    assert received[offset..frameLen] == if flagEncaps then body[ENCAPS_HDR_LEN..] else body;
    Wrap16(lengthOrType);
    TakenOff(received[..], frameLen, da + sa, out[..len.value]);
    assert out[12..14] == out[..len.value][12..14] && out[14..len.value] == out[..len.value][14..];
    assert out[12..len.value] == out[..len.value][12..];
  }

  /** A body starts with one of the two SNAP headers. */
  predicate Snapped(body: seq<Byte>) {
    |body| >= 6 && body[..5] == [0xaa, 0xaa, 0x03, 0x00, 0x00] && (body[5] == 0x00 || body[5] == 0xf8)
  }

  lemma SnappedIsTaken(buffer: seq<Byte>)
    requires |buffer| >= ENCAPS_HDR_LEN
    ensures TakenForSnap(buffer) <==> Snapped(buffer[..8])
  {
    SnapPrefix(buffer);
    assert buffer[..6] == buffer[..8][..5] + [buffer[5]];
  }

  /** The frame that comes out, in bytes: what follows the SNAP prefix, or the length and the
      whole body. */
  lemma TakenOff(received: seq<Byte>, frameLen: nat, addresses: seq<Byte>, frame: seq<Byte>)
    requires HLEN_80211 <= frameLen <= |received| && |received| >= 32 && |addresses| == 12
    requires var d := Decapsulated(received[HLEN_80211..frameLen], received[frameLen..]);
             d.Decapsulation? && frame == addresses + Be16(d.etherType) + d.payload
    ensures if Snapped(received[24..32]) then frameLen >= 32 && frame[12..] == received[30..frameLen]
            else && frame[12..14] == [(frameLen - 24) / 256 % 256, (frameLen - 24) % 256]
                 && frame[14..] == received[24..frameLen]
  {
    hide Decapsulated, Snapped, Be16;
    var d := Decapsulated(received[HLEN_80211..frameLen], received[frameLen..]);
    TakenParts(received, frameLen);
    FrameParts(addresses, Be16(d.etherType), d.payload);
    if Snapped(received[24..32]) {
      assert received[30..32] + received[32..frameLen] == received[30..frameLen];
    }
  }

  lemma FrameParts(a: seq<Byte>, b: seq<Byte>, c: seq<Byte>)
    requires |a| == 12 && |b| == 2
    ensures var s := a + b + c; s[12..14] == b && s[14..] == c && s[12..] == b + c
  {
  }

  lemma TakenParts(received: seq<Byte>, frameLen: nat)
    requires HLEN_80211 <= frameLen <= |received| && |received| >= 32
    ensures var d := Decapsulated(received[HLEN_80211..frameLen], received[frameLen..]);
            d.Decapsulation? ==>
              if Snapped(received[24..32]) then
                frameLen >= 32 && Be16(d.etherType) == received[30..32] && d.payload == received[32..frameLen]
              else
                && Be16(d.etherType) == [(frameLen - 24) / 256 % 256, (frameLen - 24) % 256]
                && d.payload == received[24..frameLen]
  {
    var body := received[HLEN_80211..frameLen];
    var buffer := body + received[frameLen..];
    assert buffer == received[24..] && buffer[..8] == received[24..32];
    SnappedIsTaken(buffer);
    LengthBytes(|body|);
    Same16(buffer[6..]);
    hide TakenForSnap, Snapped, FromBe16, Be16;
    assert buffer[6..][..2] == received[30..32];
  }

  lemma LengthBytes(v: nat)
    ensures Be16(v % 0x10000) == [v / 256 % 256, v % 256]
  {
    Wrap16(v);
  }

  lemma Wrap16(v: nat)
    ensures Be16(v) == Be16(v % 0x10000)
  {
    var q, r := v / 0x10000, v % 0x10000;
    assert v == q * 0x10000 + r;
    assert v / 256 == q * 256 + r / 256;
    assert v / 256 % 256 == r / 256 % 256;
    assert v % 256 == r % 256;
  }

  /** `checkAddressBroadcast` */
  method CheckAddressBroadcast(addr: array<Byte>) returns (broadcast: bool)
    requires addr.Length == ETH_ALEN
    ensures broadcast <==> forall i | 0 <= i < ETH_ALEN :: addr[i] == 0xff
  {
    for i := 0 to ETH_ALEN
      invariant forall k | 0 <= k < i :: addr[k] == 0xff
    {
      if addr[i] != 0xff {
        return false;
      }
    }
    return true;
  }
}
