/** The receiving side as the program runs it: loops over the list of fragments held
    for a session, and a buffer the message is rebuilt in. */
module Receiver {
  import opened Bytes
  import opened TransportHeader
  import opened Fragments
  import opened Packets

  function Prepend(out: seq<Byte>, r: Rebuilt): Rebuilt {
    if r.Done? then Done(out + r.bytes) else r
  }

  /** There is room for what is held beyond the offset, or the loop is bound to overrun. */
  predicate Room(fs: seq<Fragment>, cur: nat, stored: nat, total: nat) {
    stored + SizeFrom(fs, cur) <= total || Rebuild(fs, cur).Overrun?
  }

  lemma RoomAtFirst(fs: seq<Fragment>)
    ensures Room(fs, 0, 0, HeldSize(fs))
  {
    SizeFromZero(fs);
  }

  /** A turn that finds no fragment, or an empty one that is not last. */
  lemma NoStep(fs: seq<Fragment>, cur: nat, i: nat)
    requires i == FindOffset(fs, cur)
    ensures i == |fs| ==> Rebuild(fs, cur) == Gap
    ensures i < |fs| && !fs[i].last && fs[i].data == [] ==> Rebuild(fs, cur) == Spin
  {
  }

  /** A turn that stores a fragment, or would if there were room. */
  lemma CopyStep(fs: seq<Fragment>, cur: nat, i: nat, out: seq<Byte>, total: nat)
    requires i == FindOffset(fs, cur) < |fs| && Room(fs, cur, |out|, total)
    ensures |out| + |fs[i].data| > total ==> Rebuild(fs, cur) == Rebuilt.Overrun
    ensures fs[i].last ==> Prepend(out, Rebuild(fs, cur)) == Done(out + fs[i].data)
    ensures !fs[i].last && fs[i].data != [] ==>
              var next := cur + |fs[i].data| / 8;
              && Prepend(out, Rebuild(fs, cur)) == Prepend(out + fs[i].data, Rebuild(fs, next))
              && Room(fs, next, |out| + |fs[i].data|, total)
  {
    SizeFromDrops(fs, i, cur + 1);
    if !fs[i].last && |fs[i].data| >= 8 {
      var next := cur + |fs[i].data| / 8;
      SizeFromDrops(fs, i, next);
      var rest := Rebuild(fs, next);
      if rest.Done? {
        assert (out + fs[i].data) + rest.bytes == out + (fs[i].data + rest.bytes);
      }
    }
  }

  /** The fragment list of a session (`fragmentsList`), newest fragment first. */
  class FragmentList {
    var fragments: seq<Fragment>

    /** One fragment id, no offset twice. */
    ghost predicate Valid()
      reads this
    {
      Coherent(fragments)
    }

    constructor ()
      ensures Valid() && fragments == []
    {
      fragments := [];
    }

    /** `CWSearchInList` with `CWCompareFragment`. */
    method Search(f: Fragment) returns (found: bool)
      ensures found == Held(fragments, f)
    {
      found := false;
      for i := 0 to |fragments|
        invariant !found && forall k | 0 <= k < i :: !SameFragment(f, fragments[k])
      {
        if SameFragment(f, fragments[i]) {
          return true;
        }
      }
    }

    /** The size the last fragment announces. */
    method Announced() returns (total: nat)
      ensures total == TotalSize(fragments)
    {
      total := 0;
      for i := 0 to |fragments|
        invariant total == TotalSize(fragments[..i])
      {
        if fragments[i].last {
          total := fragments[i].offset * 8 + |fragments[i].data|;
        }
        assert fragments[..i + 1][..i] == fragments[..i];
      }
      assert fragments[..|fragments|] == fragments;
    }

    /** The size of all fragments so far. */
    method Size() returns (size: nat)
      ensures size == HeldSize(fragments)
    {
      size := 0;
      for i := 0 to |fragments|
        invariant size + HeldSize(fragments[i..]) == HeldSize(fragments)
      {
        size := size + |fragments[i].data|;
      }
    }

    method Position(cur: nat) returns (i: nat)
      ensures i == FindOffset(fragments, cur)
    {
      i := 0;
      while i < |fragments| && fragments[i].offset != cur
        invariant i <= |fragments|
        invariant i + FindOffset(fragments[i..], cur) == FindOffset(fragments, cur)
      {
        i := i + 1;
      }
    }

    /** The rebuild loop, into a buffer of `total` bytes. Where a store would leave the
        buffer, `Overrun` is returned, and where the program would turn for ever, `Spin`. */
    method RebuildMessage(total: nat) returns (r: Rebuilt)
      requires total == HeldSize(fragments)
      ensures r == Rebuild(fragments, 0)
    {
      hide Rebuild, Room, SizeFrom;
      var out := new Message(total);
      var cur := 0;
      RoomAtFirst(fragments);
      while true
        invariant out.Valid() && fresh(out) && fresh(out.msg) && out.msg.Length == total
        invariant Room(fragments, cur, out.offset, total)
        invariant Prepend(out.Written(), Rebuild(fragments, cur)) == Rebuild(fragments, 0)
        decreases MaxOffset(fragments) + 1 - cur, total - out.offset
      {
        var i := Position(cur);
        NoStep(fragments, cur, i);
        if i == |fragments| {
          return Gap;
        }
        var f := fragments[i];
        CopyStep(fragments, cur, i, out.Written(), total);
        if out.offset + |f.data| > total {
          return Rebuilt.Overrun;
        }
        if !f.last && f.data == [] {
          return Spin;
        }
        out.StoreRawBytes(f.data);
        if f.last {
          return Done(out.msg[..out.offset]);
        }
        cur := cur + |f.data| / 8;
      }
    }

    /** What follows once the fragment is in the list. */
    method CheckComplete() returns (v: Verdict)
      modifies this
      ensures (fragments, v) == Check(old(fragments))
    {
      var total := Announced();
      if total == 0 {
        return NeedMore;
      }
      var size := Size();
      if size != total {
        return NeedMore;
      }
      var r := RebuildMessage(total);
      match r
      case Done(bytes) =>
        fragments := [];
        v := Complete(bytes);
      case Gap =>
        fragments := [];
        v := BadFragments;
      case Overrun =>
        v := Overruns;
      case Spin =>
        v := Spins;
    }

    method AddFragment(f: Fragment) returns (v: Verdict)
      requires Valid()
      modifies this
      ensures Valid() && (fragments, v) == Receive(old(fragments), f)
    {
      ReceiveKeepsCoherent(fragments, f);
      hide Coherent, Check;
      if fragments == [] || fragments[0].id == f.id {
        var found := Search(f);
        if found {
          return NeedMore;
        }
        fragments := [f] + fragments;
      } else {
        fragments := [f];
      }
      v := CheckComplete();
    }

    /** `CWProtocolParseFragment`. */
    method ParseFragment(buf: seq<Byte>, dataFlag: bool) returns (a: Answer)
      requires Valid()
      modifies this
      ensures Valid() && (fragments, a) == ReceivePacket(old(fragments), buf, dataFlag)
    {
      var msg := new Message.Over(buf);
      var o := ParseTransportHeader(msg, dataFlag);
      if !o.Parsed? {
        return Refused(o);
      }
      var h := o.header;
      if h.isFragment == 0 {
        return Answer(Complete(buf[msg.offset..]));
      }
      var v := AddFragment(Fragment(h.fragmentID, h.fragmentOffset, h.last == 1, buf[msg.offset..]));
      a := Answer(v);
    }
  }
}
