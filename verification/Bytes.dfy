/** Message buffers: big-endian stores and retrieves that move an offset. */
module Bytes {

  type Byte = x: int | 0 <= x < 256

  /** The two bytes of `htons((unsigned short) v)`. */
  function Be16(v: int): seq<Byte> {
    [v / 256 % 256, v % 256]
  }

  /** The four bytes of `htonl((unsigned int) v)`. */
  function Be32(v: int): seq<Byte> {
    Be16(v / 0x10000) + Be16(v)
  }

  function FromBe16(s: seq<Byte>): nat
    requires |s| >= 2
  {
    s[0] as int * 256 + s[1]
  }

  function FromBe32(s: seq<Byte>): nat
    requires |s| >= 4
  {
    FromBe16(s) * 0x10000 + FromBe16(s[2..])
  }

  lemma RoundTrip16(v: int, rest: seq<Byte>)
    ensures FromBe16(Be16(v) + rest) == v % 0x10000
  {
  }

  lemma Same16(s: seq<Byte>)
    requires |s| >= 2
    ensures Be16(FromBe16(s)) == s[..2]
  {
    var v := FromBe16(s);
    assert v / 256 % 256 == s[0] && v % 256 == s[1];
  }

  lemma SplitWord(v: int)
    ensures v / 0x10000 % 0x10000 * 0x10000 + v % 0x10000 == v % 0x1_0000_0000
  {
  }

  lemma RoundTrip32(v: int, rest: seq<Byte>)
    ensures FromBe32(Be32(v) + rest) == v % 0x1_0000_0000
  {
    var s := Be32(v) + rest;
    assert s == Be16(v / 0x10000) + (Be16(v) + rest);
    assert s[2..] == Be16(v) + rest;
    RoundTrip16(v / 0x10000, Be16(v) + rest);
    RoundTrip16(v, rest);
    SplitWord(v);
  }

  /** `CWProtocolMessage`: a buffer and the position of the next store or retrieve. */
  class Message {
    var msg: array<Byte>
    var offset: nat

    ghost predicate Valid()
      reads this
    {
      offset <= msg.Length
    }

    /** The bytes stored so far. */
    ghost function Written(): (s: seq<Byte>)
      requires Valid()
      reads this, msg
    {
      msg[..offset]
    }

    /** `CW_CREATE_PROTOCOL_MESSAGE`: a zeroed buffer of `size` bytes. */
    constructor (size: nat)
      ensures Valid() && fresh(msg) && msg.Length == size
      ensures Written() == [] && forall k | 0 <= k < size :: msg[k] == 0
    {
      msg := new Byte[size](_ => 0);
      offset := 0;
    }

    /** A received packet, to be read from its start. */
    constructor Over(bytes: seq<Byte>)
      ensures Valid() && fresh(msg) && msg[..] == bytes && offset == 0
    {
      msg := new Byte[|bytes|](k requires 0 <= k < |bytes| => bytes[k]);
      offset := 0;
    }

    method StoreRawBytes(bytes: seq<Byte>)
      requires Valid() && offset + |bytes| <= msg.Length
      modifies this`offset, msg
      ensures Valid() && Written() == old(Written()) + bytes
    {
      ghost var before := msg[..offset];
      for k := 0 to |bytes|
        invariant offset == old(offset)
        invariant msg[..offset] == before
        invariant msg[offset..offset + k] == bytes[..k]
      {
        msg[offset + k] := bytes[k];
      }
      offset := offset + |bytes|;
      assert msg[..offset] == msg[..old(offset)] + msg[old(offset)..offset];
    }

    method Store8(val: int)
      requires Valid() && offset + 1 <= msg.Length
      modifies this`offset, msg
      ensures Valid() && Written() == old(Written()) + [val % 256]
    {
      StoreRawBytes([val % 256]);
    }

    method Store16(val: int)
      requires Valid() && offset + 2 <= msg.Length
      modifies this`offset, msg
      ensures Valid() && Written() == old(Written()) + Be16(val)
    {
      StoreRawBytes(Be16(val));
    }

    method Store32(val: int)
      requires Valid() && offset + 4 <= msg.Length
      modifies this`offset, msg
      ensures Valid() && Written() == old(Written()) + Be32(val)
    {
      StoreRawBytes(Be32(val));
    }

    /** Appends what was stored in another message. */
    method StoreMessage(other: Message)
      requires Valid() && other.Valid() && other.msg != msg
      requires offset + other.offset <= msg.Length
      modifies this`offset, msg
      ensures Valid() && Written() == old(Written()) + old(other.Written())
    {
      StoreRawBytes(other.msg[..other.offset]);
    }

    method Retrieve8() returns (val: Byte)
      requires Valid() && offset + 1 <= msg.Length
      modifies this`offset
      ensures Valid() && offset == old(offset) + 1
      ensures val == msg[old(offset)]
    {
      val := msg[offset];
      offset := offset + 1;
    }

    method Retrieve16() returns (val: nat)
      requires Valid() && offset + 2 <= msg.Length
      modifies this`offset
      ensures Valid() && offset == old(offset) + 2
      ensures val == FromBe16(msg[old(offset)..])
    {
      val := FromBe16(msg[offset..offset + 2]);
      offset := offset + 2;
    }

    method Retrieve32() returns (val: nat)
      requires Valid() && offset + 4 <= msg.Length
      modifies this`offset
      ensures Valid() && offset == old(offset) + 4
      ensures val == FromBe32(msg[old(offset)..])
    {
      val := FromBe32(msg[offset..offset + 4]);
      offset := offset + 4;
    }

    method RetrieveRawBytes(len: nat) returns (bytes: seq<Byte>)
      requires Valid() && offset + len <= msg.Length
      modifies this`offset
      ensures Valid() && offset == old(offset) + len
      ensures bytes == msg[old(offset)..old(offset) + len]
    {
      bytes := msg[offset..offset + len];
      offset := offset + len;
    }
  }
}
