/** Addresses are compared byte by byte, most significant byte first; that is the order
    of the numbers the bytes write. */
module EthAddress {
  import opened Bytes

  /** The number a run of bytes writes. */
  function Value(b: seq<Byte>): nat {
    if b == [] then 0 else Value(b[..|b| - 1]) * 256 + b[|b| - 1]
  }

  function Capacity(n: nat): nat {
    if n == 0 then 1 else Capacity(n - 1) * 256
  }

  lemma {:induction false} ValueBelow(b: seq<Byte>)
    ensures Value(b) < Capacity(|b|)
  {
    if b != [] {
      ValueBelow(b[..|b| - 1]);
    }
  }

  /** Six bytes write exactly the addresses. */
  lemma SixBytes(b: seq<Byte>)
    requires |b| == 6
    ensures Value(b) < 0x1_0000_0000_0000
  {
    ValueBelow(b);
    assert Capacity(3) == 0x100_0000;
    assert Capacity(6) == 0x1_0000_0000_0000;
  }

  lemma {:induction false} ValueInjective(a: seq<Byte>, b: seq<Byte>)
    requires |a| == |b| && Value(a) == Value(b)
    ensures a == b
  {
    if a != [] {
      var n := |a| - 1;
      ValueInjective(a[..n], b[..n]);
      assert a == a[..n] + [a[n]] && b == b[..n] + [b[n]];
    }
  }

  /** The first differing byte decides. */
  lemma {:induction false} PrefixDecides(a: seq<Byte>, b: seq<Byte>, i: nat)
    requires |a| == |b| && i <= |a| && Value(a[..i]) > Value(b[..i])
    ensures Value(a) > Value(b)
    decreases |a|
  {
    if i < |a| {
      var n := |a| - 1;
      assert a[..n][..i] == a[..i] && b[..n][..i] == b[..i];
      PrefixDecides(a[..n], b[..n], i);
    } else {
      assert a[..i] == a && b[..i] == b;
    }
  }

  lemma FirstDifference(a: seq<Byte>, b: seq<Byte>, i: nat)
    requires |a| == |b| && i < |a| && a[..i] == b[..i] && a[i] > b[i]
    ensures Value(a) > Value(b)
  {
    assert a[..i + 1][..i] == a[..i] && b[..i + 1][..i] == b[..i];
    PrefixDecides(a, b, i + 1);
  }

  /** `compareEthAddr`: the sign of the result orders the addresses as numbers. */
  method CompareEthAddr(staAddr: seq<Byte>, avlAddr: seq<Byte>) returns (c: int)
    requires |staAddr| == 6 && |avlAddr| == 6
    ensures c > 0 <==> Value(staAddr) > Value(avlAddr)
    ensures c < 0 <==> Value(staAddr) < Value(avlAddr)
    ensures c == 0 <==> staAddr == avlAddr
  {
    for i := 0 to 6
      invariant staAddr[..i] == avlAddr[..i]
    {
      if staAddr[i] > avlAddr[i] {
        FirstDifference(staAddr, avlAddr, i);
        return 1;
      }
      if staAddr[i] < avlAddr[i] {
        FirstDifference(avlAddr, staAddr, i);
        return -1;
      }
    }
    assert staAddr[..6] == staAddr && avlAddr[..6] == avlAddr;
    c := 0;
  }
}
