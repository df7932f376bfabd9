/** Splitting a message into fragments and putting arriving fragments together again
    (section 3.4 of RFC 5415). Offsets count groups of eight bytes. */
module Fragments {
  import opened Bytes

  datatype Fragment = Fragment(id: nat, offset: nat, last: bool, data: seq<Byte>)

  // ---------- splitting ----------

  /** The fragments of `m`, each but the last of `8 * units` bytes, the first of them
      at offset `at`. */
  function Split(m: seq<Byte>, id: nat, at: nat, units: nat): (fs: seq<Fragment>)
    requires units > 0
    ensures |fs| >= 1
    decreases |m|
  {
    if |m| <= 8 * units then [Fragment(id, at, true, m)]
    else [Fragment(id, at, false, m[..8 * units])] + Split(m[8 * units..], id, at + units, units)
  }

  function Joined(fs: seq<Fragment>): seq<Byte> {
    if fs == [] then [] else fs[0].data + Joined(fs[1..])
  }

  function HeldSize(fs: seq<Fragment>): nat {
    if fs == [] then 0 else |fs[0].data| + HeldSize(fs[1..])
  }

  /** Split fragments carry one id, start where the previous one ended, and only the
      final one is marked last. */
  ghost predicate Consecutive(fs: seq<Fragment>, id: nat, at: nat, units: nat) {
    && |fs| >= 1
    && fs[0].id == id && fs[0].offset == at && |fs[0].data| > 0
    && (fs[0].last <==> |fs| == 1)
    && (|fs| > 1 ==> |fs[0].data| == 8 * units && Consecutive(fs[1..], id, at + units, units))
    && (|fs| == 1 ==> |fs[0].data| <= 8 * units)
  }

  /** The fragments partition the message: they are consecutive, all but the last hold
      the same multiple of eight bytes, the last between one byte and that many, and
      joined they are the message. */
  lemma {:induction false} SplitPartitions(m: seq<Byte>, id: nat, at: nat, units: nat)
    requires units > 0 && m != []
    ensures Consecutive(Split(m, id, at, units), id, at, units)
    ensures Joined(Split(m, id, at, units)) == m
    ensures HeldSize(Split(m, id, at, units)) == |m|
    decreases |m|
  {
    var fs := Split(m, id, at, units);
    if |m| > 8 * units {
      SplitPartitions(m[8 * units..], id, at + units, units);
      assert fs[1..] == Split(m[8 * units..], id, at + units, units);
      assert m == m[..8 * units] + m[8 * units..];
    } else {
      assert fs[1..] == [];
    }
  }

  // ---------- receiving ----------

  datatype Verdict = Complete(bytes: seq<Byte>) | NeedMore | BadFragments | Overruns | Spins

  /** `CWCompareFragment` */
  predicate SameFragment(f: Fragment, g: Fragment) {
    f.id == g.id && f.offset == g.offset
  }

  predicate Held(fs: seq<Fragment>, f: Fragment) {
    exists i :: 0 <= i < |fs| && SameFragment(f, fs[i])
  }

  /** The size announced by a last fragment: the one nearest the end of the list
      counts; 0 stands for none. */
  function TotalSize(fs: seq<Fragment>): nat {
    if fs == [] then 0
    else
      var f := fs[|fs| - 1];
      if f.last then f.offset * 8 + |f.data| else TotalSize(fs[..|fs| - 1])
  }

  /** The position of the first fragment at an offset, or the list's length. */
  function FindOffset(fs: seq<Fragment>, cur: nat): (i: nat)
    ensures i <= |fs|
    ensures i < |fs| ==> fs[i].offset == cur
    ensures forall k | 0 <= k < i :: fs[k].offset != cur
  {
    if fs == [] then 0
    else if fs[0].offset == cur then 0
    else 1 + FindOffset(fs[1..], cur)
  }

  function MaxOffset(fs: seq<Fragment>): (m: nat)
    ensures forall k | 0 <= k < |fs| :: fs[k].offset <= m
  {
    if fs == [] then 0
    else
      var m := MaxOffset(fs[1..]);
      if fs[0].offset > m then fs[0].offset else m
  }

  /** How the rebuild loop ends from a given offset: with the bytes stored, with a
      missing offset, or on a non-last fragment of less than eight bytes, which does not
      move the offset: it is stored again and again until the buffer overruns, or, if it
      is empty, for ever. */
  datatype Rebuilt = Done(bytes: seq<Byte>) | Gap | Overrun | Spin

  function Rebuild(fs: seq<Fragment>, cur: nat): Rebuilt
    decreases MaxOffset(fs) + 1 - cur
  {
    var i := FindOffset(fs, cur);
    if i == |fs| then Gap
    else if fs[i].last then Done(fs[i].data)
    else if |fs[i].data| < 8 then (if fs[i].data == [] then Spin else Overrun)
    else
      match Rebuild(fs, cur + |fs[i].data| / 8)
      case Done(rest) => Done(fs[i].data + rest)
      case other => other
  }

  function Check(fs: seq<Fragment>): (seq<Fragment>, Verdict) {
    if TotalSize(fs) == 0 || HeldSize(fs) != TotalSize(fs) then (fs, NeedMore)
    else
      match Rebuild(fs, 0)
      case Done(bytes) => ([], Complete(bytes))
      case Gap => ([], BadFragments)
      case Overrun => (fs, Overruns)
      case Spin => (fs, Spins)
  }

  /** The fragment branch of `CWProtocolParseFragment`: the new list and the verdict. */
  function Receive(fs: seq<Fragment>, f: Fragment): (seq<Fragment>, Verdict) {
    if fs == [] || fs[0].id == f.id then
      if Held(fs, f) then (fs, NeedMore) else Check([f] + fs)
    else Check([f])
  }

  /** Everything the receiver says to a run of arrivals. */
  function Run(fs: seq<Fragment>, arrivals: seq<Fragment>): seq<Verdict>
    decreases |arrivals|
  {
    if arrivals == [] then []
    else
      var (fs', v) := Receive(fs, arrivals[0]);
      [v] + Run(fs', arrivals[1..])
  }

  // ---------- arbitrary arrivals ----------

  /** One fragment id, no offset twice. */
  ghost predicate Coherent(fs: seq<Fragment>) {
    && (forall i, j | 0 <= i < |fs| && 0 <= j < |fs| :: fs[i].id == fs[j].id)
    && (forall i, j | 0 <= i < j < |fs| :: fs[i].offset != fs[j].offset)
  }

  lemma ReceiveKeepsCoherent(fs: seq<Fragment>, f: Fragment)
    requires Coherent(fs)
    ensures Coherent(Receive(fs, f).0)
  {
    if fs == [] || fs[0].id == f.id {
      if !Held(fs, f) {
        var gs := [f] + fs;
        assert forall k | 0 <= k < |gs| :: gs[k].id == f.id;
        forall i, j | 0 <= i < j < |gs|
          ensures gs[i].offset != gs[j].offset
        {
          assert gs[j] == fs[j - 1];
          if i == 0 {
            assert !SameFragment(f, fs[j - 1]);
          } else {
            assert gs[i] == fs[i - 1];
          }
        }
      }
    }
  }

  /** The fragments the rebuild loop copies, in order. */
  function Chain(fs: seq<Fragment>, cur: nat): seq<Fragment>
    requires Rebuild(fs, cur).Done?
    decreases MaxOffset(fs) + 1 - cur
  {
    var i := FindOffset(fs, cur);
    if fs[i].last then [fs[i]] else [fs[i]] + Chain(fs, cur + |fs[i].data| / 8)
  }

  /** Total length of the held fragments at or beyond an offset. */
  function SizeFrom(fs: seq<Fragment>, cur: nat): nat {
    if fs == [] then 0
    else (if fs[0].offset >= cur then |fs[0].data| else 0) + SizeFrom(fs[1..], cur)
  }

  lemma {:induction false} SizeFromDrops(fs: seq<Fragment>, i: nat, cur: nat)
    requires i < |fs| && fs[i].offset < cur
    ensures SizeFrom(fs, fs[i].offset) >= |fs[i].data| + SizeFrom(fs, cur)
  {
    if i == 0 {
      SizeFromMonotone(fs[1..], fs[0].offset, cur);
    } else {
      SizeFromDrops(fs[1..], i - 1, cur);
    }
  }

  lemma {:induction false} SizeFromMonotone(fs: seq<Fragment>, a: nat, b: nat)
    requires a <= b
    ensures SizeFrom(fs, a) >= SizeFrom(fs, b)
  {
    if fs != [] {
      SizeFromMonotone(fs[1..], a, b);
    }
  }

  lemma {:induction false} SizeFromZero(fs: seq<Fragment>)
    ensures SizeFrom(fs, 0) == HeldSize(fs)
  {
    if fs != [] {
      SizeFromZero(fs[1..]);
    }
  }

  lemma {:induction false} RebuildFits(fs: seq<Fragment>, cur: nat)
    requires Rebuild(fs, cur).Done?
    ensures |Rebuild(fs, cur).bytes| <= SizeFrom(fs, cur)
    decreases MaxOffset(fs) + 1 - cur
  {
    var i := FindOffset(fs, cur);
    if fs[i].last {
      SizeFromDrops(fs, i, cur + 1);
    } else {
      var next := cur + |fs[i].data| / 8;
      RebuildFits(fs, next);
      SizeFromDrops(fs, i, next);
    }
  }

  /** Fragments of a list at strictly rising offsets from `cur` on, up to a last one. */
  ghost predicate Rising(c: seq<Fragment>, fs: seq<Fragment>, cur: nat) {
    && |c| > 0 && c[|c| - 1].last
    && (forall k | 0 <= k < |c| :: c[k] in fs && c[k].offset >= cur)
    && (forall i, j | 0 <= i < j < |c| :: c[i].offset < c[j].offset)
  }

  lemma RisingFurther(f: Fragment, c: seq<Fragment>, fs: seq<Fragment>, next: nat)
    requires f in fs && f.offset < next && Rising(c, fs, next)
    ensures Rising([f] + c, fs, f.offset) && Joined([f] + c) == f.data + Joined(c)
  {
    assert ([f] + c)[1..] == c;
  }

  lemma {:induction false} RebuildRises(fs: seq<Fragment>, cur: nat)
    requires Rebuild(fs, cur).Done?
    ensures Rising(Chain(fs, cur), fs, cur) && Rebuild(fs, cur).bytes == Joined(Chain(fs, cur))
    decreases MaxOffset(fs) + 1 - cur
  {
    var i := FindOffset(fs, cur);
    if fs[i].last {
      assert Joined([fs[i]]) == fs[i].data + Joined([]);
    } else {
      var next := cur + |fs[i].data| / 8;
      RebuildRises(fs, next);
      hide Rising, Joined;
      RisingFurther(fs[i], Chain(fs, next), fs, next);
    }
  }

  /** What the loop stores is the data of held fragments at strictly rising offsets,
      so no fragment is copied twice, and it fits the bytes held beyond the start. */
  lemma RebuildSound(fs: seq<Fragment>, cur: nat)
    requires Rebuild(fs, cur).Done?
    ensures Rebuild(fs, cur).bytes == Joined(Chain(fs, cur)) && Rising(Chain(fs, cur), fs, cur)
    ensures |Rebuild(fs, cur).bytes| <= SizeFrom(fs, cur)
  {
    RebuildRises(fs, cur);
    RebuildFits(fs, cur);
  }

  /** The list that is checked for completeness when `f` arrives. */
  function Checked(fs: seq<Fragment>, f: Fragment): seq<Fragment> {
    if fs == [] || fs[0].id == f.id then [f] + fs else [f]
  }

  /** `c` lists fragments of one id among `fs` at strictly rising offsets, up to a last one. */
  ghost predicate MessageOf(c: seq<Fragment>, fs: seq<Fragment>, id: nat) {
    && |c| > 0 && c[|c| - 1].last
    && (forall k | 0 <= k < |c| :: c[k] in fs && c[k].id == id)
    && (forall i, j | 0 <= i < j < |c| :: c[i].offset < c[j].offset)
  }

  /** A message that is completed is made of held fragments of the arriving fragment's id,
      each used at most once, and is no longer than the announced total, for which the
      buffer was allocated. */
  lemma CompleteIsSound(fs: seq<Fragment>, f: Fragment)
    requires Coherent(fs) && Receive(fs, f).1.Complete?
    ensures Receive(fs, f).0 == []
    ensures exists c :: MessageOf(c, Checked(fs, f), f.id) && Joined(c) == Receive(fs, f).1.bytes
    ensures |Receive(fs, f).1.bytes| <= TotalSize(Checked(fs, f))
  {
    var gs := Checked(fs, f);
    CheckedOneId(fs, f);
    assert Receive(fs, f) == Check(gs);
    RebuildSound(gs, 0);
    SizeFromZero(gs);
    assert MessageOf(Chain(gs, 0), gs, f.id);
  }

  lemma CheckedOneId(fs: seq<Fragment>, f: Fragment)
    requires Coherent(fs)
    ensures forall g | g in Checked(fs, f) :: g.id == f.id
  {
  }

  /** The list after a run of arrivals. */
  function HeldAfter(fs: seq<Fragment>, arrivals: seq<Fragment>): seq<Fragment>
    decreases |arrivals|
  {
    if arrivals == [] then fs else HeldAfter(Receive(fs, arrivals[0]).0, arrivals[1..])
  }

  lemma ReceiveHolds(fs: seq<Fragment>, f: Fragment)
    requires Coherent(fs)
    ensures Coherent(Receive(fs, f).0) && forall g | g in Receive(fs, f).0 :: g in fs || g == f
  {
    ReceiveKeepsCoherent(fs, f);
  }

  /** In every run from a coherent list, the list stays coherent and holds only what it held
      or what arrived. */
  lemma {:induction false} RunHolds(fs: seq<Fragment>, arrivals: seq<Fragment>)
    requires Coherent(fs)
    ensures Coherent(HeldAfter(fs, arrivals))
    ensures forall g | g in HeldAfter(fs, arrivals) :: g in fs || g in arrivals
    decreases |arrivals|
  {
    if arrivals != [] {
      ReceiveHolds(fs, arrivals[0]);
      hide Receive, Coherent;
      RunHolds(Receive(fs, arrivals[0]).0, arrivals[1..]);
    }
  }

  /** Each verdict of a run is on the list held then. */
  lemma {:induction false} VerdictAt(fs: seq<Fragment>, arrivals: seq<Fragment>, k: nat)
    requires k < |arrivals|
    ensures |Run(fs, arrivals)| == |arrivals|
    ensures Run(fs, arrivals)[k] == Receive(HeldAfter(fs, arrivals[..k]), arrivals[k]).1
    decreases |arrivals|
  {
    hide Receive;
    var rest := arrivals[1..];
    if k > 0 {
      VerdictAt(Receive(fs, arrivals[0]).0, rest, k - 1);
      assert arrivals[..k][1..] == rest[..k - 1];
    } else if |rest| > 0 {
      VerdictAt(Receive(fs, arrivals[0]).0, rest, 0);
    }
  }

  /** In every run from a coherent list whose non-last fragments, and those that arrive, hold
      eight bytes or more: the receiver asks for more, refuses, or completes a message that
      is made of fragments of one id, each used once, among those held and arrived. */
  lemma RunIsSound(fs: seq<Fragment>, arrivals: seq<Fragment>, k: nat)
    requires Coherent(fs) && Grouped(fs) && Grouped(arrivals) && k < |arrivals|
    ensures |Run(fs, arrivals)| == |arrivals|
    ensures var v := Run(fs, arrivals)[k];
            || v == NeedMore || v == BadFragments
            || (v.Complete? && exists c :: MessageOf(c, fs + arrivals[..k + 1], arrivals[k].id) && Joined(c) == v.bytes)
  {
    hide *;
    var held, seen := HeldAfter(fs, arrivals[..k]), fs + arrivals[..k + 1];
    RunHolds(fs, arrivals[..k]);
    VerdictAt(fs, arrivals, k);
    CheckedWasSeen(fs, arrivals, k, held);
    VerdictIsSound(held, arrivals[k], seen);
  }

  lemma CheckedWasSeen(fs: seq<Fragment>, arrivals: seq<Fragment>, k: nat, held: seq<Fragment>)
    requires Grouped(fs) && Grouped(arrivals) && k < |arrivals|
    requires forall g | g in held :: g in fs || g in arrivals[..k]
    ensures Grouped(Checked(held, arrivals[k]))
    ensures forall g | g in Checked(held, arrivals[k]) :: g in fs + arrivals[..k + 1]
  {
    assert arrivals[..k + 1] == arrivals[..k] + [arrivals[k]];
  }

  lemma VerdictIsSound(held: seq<Fragment>, f: Fragment, seen: seq<Fragment>)
    requires Coherent(held) && Grouped(Checked(held, f)) && forall g | g in Checked(held, f) :: g in seen
    ensures var v := Receive(held, f).1;
            || v == NeedMore || v == BadFragments
            || (v.Complete? && exists c :: MessageOf(c, seen, f.id) && Joined(c) == v.bytes)
  {
    GroupedEnds(Checked(held, f), 0);
    var v := Receive(held, f).1;
    if v.Complete? {
      CompleteIsSound(held, f);
      var c :| MessageOf(c, Checked(held, f), f.id) && Joined(c) == v.bytes;
      assert MessageOf(c, seen, f.id);
    }
  }

  // ---------- the rebuild loop as written: it need not end well ----------

  /** The `CW_REPEAT_FOREVER` loop: the offset looked for and the bytes stored, or how the
      loop was left. */
  datatype Loop = Running(cur: nat, out: seq<Byte>) | Left(how: Rebuilt)

  /** One turn, with a buffer of `size` bytes: a store that does not fit is an overrun. */
  function Turn(fs: seq<Fragment>, size: nat, s: Loop): Loop {
    if s.Left? then s
    else
      var i := FindOffset(fs, s.cur);
      if i == |fs| then Left(Gap)
      else if |s.out| + |fs[i].data| > size then Left(Overrun)
      else if fs[i].last then Left(Done(s.out + fs[i].data))
      else Running(s.cur + |fs[i].data| / 8, s.out + fs[i].data)
  }

  function Turns(fs: seq<Fragment>, size: nat, s: Loop, n: nat): Loop
    decreases n
  {
    if n == 0 then s else Turns(fs, size, Turn(fs, size, s), n - 1)
  }

  ghost predicate LeftWith(fs: seq<Fragment>, size: nat, s: Loop, how: Rebuilt) {
    exists n: nat :: Turns(fs, size, s, n) == Left(how)
  }

  ghost predicate NeverLeft(fs: seq<Fragment>, size: nat, s: Loop) {
    forall n: nat :: Turns(fs, size, s, n).Running?
  }

  /** `Rebuild` tells what the loop does: while there is room for what is held beyond the
      offset, the loop is left after finitely many turns with what `Rebuild` says, an
      overrun among it, or, exactly if `Rebuild` is `Spin`, never. */
  lemma {:induction false} RebuildIsTheLoop(fs: seq<Fragment>, size: nat, cur: nat, out: seq<Byte>)
    requires |out| + SizeFrom(fs, cur) <= size
    ensures match Rebuild(fs, cur)
            case Done(bytes) => LeftWith(fs, size, Running(cur, out), Done(out + bytes))
            case Gap => LeftWith(fs, size, Running(cur, out), Gap)
            case Overrun => LeftWith(fs, size, Running(cur, out), Overrun)
            case Spin => NeverLeft(fs, size, Running(cur, out))
    decreases MaxOffset(fs) + 1 - cur
  {
    var i := FindOffset(fs, cur);
    var s := Running(cur, out);
    if i == |fs| {
      LeavesNow(fs, size, s, Gap);
    } else if fs[i].last {
      SizeFromDrops(fs, i, cur + 1);
      LeavesNow(fs, size, s, Done(out + fs[i].data));
    } else if |fs[i].data| < 8 {
      if fs[i].data == [] {
        StaysPut(fs, size, cur, out);
      } else {
        FillsUp(fs, size, cur, out);
      }
    } else {
      var next := cur + |fs[i].data| / 8;
      SizeFromDrops(fs, i, next);
      RebuildIsTheLoop(fs, size, next, out + fs[i].data);
      assert Turn(fs, size, s) == Running(next, out + fs[i].data);
      match Rebuild(fs, next)
      case Done(rest) =>
        TurnFirst(fs, size, s, Done(out + fs[i].data + rest));
        assert out + fs[i].data + rest == out + (fs[i].data + rest);
      case Gap => TurnFirst(fs, size, s, Gap);
      case Overrun => TurnFirst(fs, size, s, Overrun);
      case Spin => TurnFirstNever(fs, size, s);
    }
  }

  lemma LeavesNow(fs: seq<Fragment>, size: nat, s: Loop, how: Rebuilt)
    requires Turn(fs, size, s) == Left(how)
    ensures LeftWith(fs, size, s, how)
  {
    assert Turns(fs, size, s, 1) == Turns(fs, size, Turn(fs, size, s), 0);
  }

  lemma TurnFirst(fs: seq<Fragment>, size: nat, s: Loop, how: Rebuilt)
    requires LeftWith(fs, size, Turn(fs, size, s), how)
    ensures LeftWith(fs, size, s, how)
  {
    var n: nat :| Turns(fs, size, Turn(fs, size, s), n) == Left(how);
    assert Turns(fs, size, s, n + 1) == Left(how);
  }

  lemma TurnFirstNever(fs: seq<Fragment>, size: nat, s: Loop)
    requires s.Running? && NeverLeft(fs, size, Turn(fs, size, s))
    ensures NeverLeft(fs, size, s)
  {
    forall n: nat
      ensures Turns(fs, size, s, n).Running?
    {
      if n > 0 {
        assert Turns(fs, size, Turn(fs, size, s), n - 1).Running?;
      }
    }
  }

  /** An empty non-last fragment: nothing changes from turn to turn. */
  lemma StaysPut(fs: seq<Fragment>, size: nat, cur: nat, out: seq<Byte>)
    requires var i := FindOffset(fs, cur); i < |fs| && !fs[i].last && fs[i].data == []
    requires |out| <= size
    ensures NeverLeft(fs, size, Running(cur, out))
  {
    forall n: nat
      ensures Turns(fs, size, Running(cur, out), n).Running?
    {
      StaysPutFor(fs, size, cur, out, n);
    }
  }

  lemma {:induction false} StaysPutFor(fs: seq<Fragment>, size: nat, cur: nat, out: seq<Byte>, n: nat)
    requires var i := FindOffset(fs, cur); i < |fs| && !fs[i].last && fs[i].data == []
    requires |out| <= size
    ensures Turns(fs, size, Running(cur, out), n) == Running(cur, out)
    decreases n
  {
    if n > 0 {
      assert out + [] == out;
      StaysPutFor(fs, size, cur, out, n - 1);
    }
  }

  /** A short non-last fragment that is not empty: every turn stores it again. */
  lemma {:induction false} FillsUp(fs: seq<Fragment>, size: nat, cur: nat, out: seq<Byte>)
    requires var i := FindOffset(fs, cur); i < |fs| && !fs[i].last && 0 < |fs[i].data| < 8
    requires |out| <= size
    ensures LeftWith(fs, size, Running(cur, out), Overrun)
    decreases size - |out|
  {
    var f := fs[FindOffset(fs, cur)];
    var s := Running(cur, out);
    if |out| + |f.data| > size {
      LeavesNow(fs, size, s, Overrun);
    } else {
      FillsUp(fs, size, cur, out + f.data);
      assert Turn(fs, size, s) == Running(cur, out + f.data);
      TurnFirst(fs, size, s, Overrun);
    }
  }

  /** Every non-last fragment holds at least one group of eight bytes. */
  predicate Grouped(fs: seq<Fragment>) {
    forall f | f in fs :: f.last || |f.data| >= 8
  }

  /** Then the loop always ends, inside its buffer. */
  lemma {:induction false} GroupedEnds(fs: seq<Fragment>, cur: nat)
    requires Grouped(fs)
    ensures Rebuild(fs, cur).Done? || Rebuild(fs, cur).Gap?
    decreases MaxOffset(fs) + 1 - cur
  {
    var i := FindOffset(fs, cur);
    if i < |fs| && !fs[i].last {
      GroupedEnds(fs, cur + |fs[i].data| / 8);
    }
  }

  /** A non-last fragment at offset `p` sends the loop to `q`. */
  predicate Leads(fs: seq<Fragment>, p: nat, q: nat) {
    var i := FindOffset(fs, p);
    i < |fs| && !fs[i].last && q == p + |fs[i].data| / 8
  }

  predicate Path(fs: seq<Fragment>, offs: seq<nat>) {
    |offs| > 0 && forall k | 0 <= k < |offs| - 1 :: Leads(fs, offs[k], offs[k + 1])
  }

  /** A chain of offsets from `cur` to one that leads to itself, with an empty fragment or
      with one that is not. */
  predicate StallsAlong(fs: seq<Fragment>, cur: nat, offs: seq<nat>, empty: bool) {
    && Path(fs, offs) && offs[0] == cur
    && var end := offs[|offs| - 1];
       Leads(fs, end, end) && (fs[FindOffset(fs, end)].data == [] <==> empty)
  }

  ghost predicate Stalls(fs: seq<Fragment>, cur: nat, empty: bool) {
    exists offs :: StallsAlong(fs, cur, offs, empty)
  }

  /** With a buffer for exactly what is held, as the program allocates it: the loop writes
      beyond it exactly if the offsets lead to a short fragment that is not empty, and
      goes on for ever exactly if they lead to an empty one. */
  lemma StallsDecide(fs: seq<Fragment>)
    ensures LeftWith(fs, HeldSize(fs), Running(0, []), Overrun) <==> Stalls(fs, 0, false)
    ensures NeverLeft(fs, HeldSize(fs), Running(0, [])) <==> Stalls(fs, 0, true)
  {
    var size, s := HeldSize(fs), Running(0, []);
    SizeFromZero(fs);
    RebuildIsTheLoop(fs, size, 0, []);
    RebuildStalls(fs, 0);
    match Rebuild(fs, 0)
    case Done(bytes) => OneWay(fs, size, s, Done([] + bytes));
    case Gap => OneWay(fs, size, s, Gap);
    case Overrun => OneWay(fs, size, s, Overrun);
    case Spin =>
  }

  /** A loop that was left one way is not left another way. */
  lemma OneWay(fs: seq<Fragment>, size: nat, s: Loop, how: Rebuilt)
    requires LeftWith(fs, size, s, how)
    ensures !NeverLeft(fs, size, s)
    ensures forall other | LeftWith(fs, size, s, other) :: other == how
  {
    var n: nat :| Turns(fs, size, s, n) == Left(how);
    forall other | LeftWith(fs, size, s, other)
      ensures other == how
    {
      var m: nat :| Turns(fs, size, s, m) == Left(other);
      if m <= n {
        LeftStays(fs, size, s, m, n);
      } else {
        LeftStays(fs, size, s, n, m);
      }
    }
  }

  lemma {:induction false} LeftStays(fs: seq<Fragment>, size: nat, s: Loop, m: nat, n: nat)
    requires m <= n && Turns(fs, size, s, m).Left?
    ensures Turns(fs, size, s, n) == Turns(fs, size, s, m)
    decreases n
  {
    if m > 0 {
      LeftStays(fs, size, Turn(fs, size, s), m - 1, n - 1);
    } else if n > 0 {
      LeftStays(fs, size, s, 0, n - 1);
    }
  }

  lemma RebuildStalls(fs: seq<Fragment>, cur: nat)
    ensures Rebuild(fs, cur).Overrun? <==> Stalls(fs, cur, false)
    ensures Rebuild(fs, cur).Spin? <==> Stalls(fs, cur, true)
  {
    hide StallsAlong, Rebuild;
    if Rebuild(fs, cur).Overrun? || Rebuild(fs, cur).Spin? {
      var offs := StallPath(fs, cur);
    }
    forall empty | Stalls(fs, cur, empty)
      ensures Rebuild(fs, cur) == if empty then Spin else Overrun
    {
      var offs :| StallsAlong(fs, cur, offs, empty);
      PathStalls(fs, cur, offs, empty);
    }
  }

  lemma StallsFurther(fs: seq<Fragment>, cur: nat, next: nat, offs: seq<nat>, empty: bool)
    requires Leads(fs, cur, next) && StallsAlong(fs, next, offs, empty)
    ensures StallsAlong(fs, cur, [cur] + offs, empty)
  {
    hide FindOffset;
    var all := [cur] + offs;
    forall k | 0 <= k < |all| - 1
      ensures Leads(fs, all[k], all[k + 1])
    {
      if k > 0 {
        assert Leads(fs, offs[k - 1], offs[k]);
      }
    }
  }

  lemma {:induction false} StallPath(fs: seq<Fragment>, cur: nat) returns (offs: seq<nat>)
    requires Rebuild(fs, cur).Spin? || Rebuild(fs, cur).Overrun?
    ensures StallsAlong(fs, cur, offs, Rebuild(fs, cur).Spin?)
    decreases MaxOffset(fs) + 1 - cur
  {
    var i := FindOffset(fs, cur);
    if |fs[i].data| < 8 {
      offs := [cur];
    } else {
      var next := cur + |fs[i].data| / 8;
      var rest := StallPath(fs, next);
      StallsFurther(fs, cur, next, rest, Rebuild(fs, next).Spin?);
      offs := [cur] + rest;
    }
  }

  lemma {:induction false} PathStalls(fs: seq<Fragment>, cur: nat, offs: seq<nat>, empty: bool)
    requires StallsAlong(fs, cur, offs, empty)
    ensures Rebuild(fs, cur) == if empty then Spin else Overrun
    decreases |offs|
  {
    if |offs| > 1 {
      var rest := offs[1..];
      assert Leads(fs, offs[0], offs[1]);
      if offs[1] == cur {
        assert Leads(fs, cur, cur);
      }
      forall k | 0 <= k < |rest| - 1
        ensures Leads(fs, rest[k], rest[k + 1])
      {
        assert Leads(fs, offs[k + 1], offs[k + 2]);
      }
      PathStalls(fs, offs[1], rest, empty);
    }
  }

  lemma StallSteps(a: Fragment, b: Fragment, c: Fragment)
    requires |a.data| + |b.data| == 8 && |a.data| < 8 && |c.data| == 4
    requires a == Fragment(1, 0, false, a.data) && b == Fragment(1, 5, false, b.data)
    requires c == Fragment(1, 1, true, c.data)
    ensures Receive([], a) == ([a], NeedMore) && Receive([a], b) == ([b, a], NeedMore)
    ensures Receive([b, a], c).1 == if a.data == [] then Spins else Overruns
  {
    assert [a] + [] == [a] && [b] + [a] == [b, a] && [c] + [b, a] == [c, b, a];
    assert [a][..0] == [] && [b][..0] == [] && [b, a][..1] == [b];
    assert TotalSize([a]) == 0 && TotalSize([b]) == 0 && TotalSize([b, a]) == 0;
    assert [c, b, a][..2] == [c, b] && [c, b][..1] == [c];
    assert TotalSize([c]) == 12 && TotalSize([c, b]) == 12 && TotalSize([c, b, a]) == 12;
    assert [c, b, a][1..] == [b, a] && [b, a][1..] == [a] && [a][1..] == [];
    assert HeldSize([a]) == |a.data| && HeldSize([b, a]) == 8 && HeldSize([c, b, a]) == 12;
    assert FindOffset([a], 0) == 0 && FindOffset([b, a], 0) == 1 && FindOffset([c, b, a], 0) == 2;
    assert Rebuild([c, b, a], 0) == if a.data == [] then Spin else Overrun;
  }

  /** Three fragments whose sizes add up to the twelve bytes announced, with the middle one
      astray. The first is stored again and again: with four bytes the fourth store leaves
      the buffer, with none the third arrival never returns. */
  lemma StallExample(first: seq<Byte>, second: seq<Byte>, third: seq<Byte>)
    requires |first| + |second| == 8 && |first| < 8 && |third| == 4
    ensures Run([], [Fragment(1, 0, false, first), Fragment(1, 5, false, second), Fragment(1, 1, true, third)])
         == [NeedMore, NeedMore, if first == [] then Spins else Overruns]
  {
    var a, b, c := Fragment(1, 0, false, first), Fragment(1, 5, false, second), Fragment(1, 1, true, third);
    StallSteps(a, b, c);
    assert [a, b, c][1..] == [b, c] && [b, c][1..] == [c] && [c][1..] == [];
    var v := Receive([b, a], c).1;
    assert Run([b, a], [c]) == [v] + Run(Receive([b, a], c).0, []);
    assert Run([a], [b, c]) == [NeedMore] + Run([b, a], [c]);
  }

  // ---------- every arrival ----------

  /** Fragments of the list, the first at `cur`, each of eight bytes or more leading to the
      next by its size, up to a last one. */
  ghost predicate Linked(c: seq<Fragment>, fs: seq<Fragment>, cur: nat)
    decreases |c|
  {
    && c != [] && c[0] in fs && c[0].offset == cur
    && if |c| == 1 then c[0].last
       else !c[0].last && |c[0].data| >= 8 && Linked(c[1..], fs, cur + |c[0].data| / 8)
  }

  /** Linked fragments of the list, from the start, hold the bytes. */
  ghost predicate Makes(fs: seq<Fragment>, bytes: seq<Byte>) {
    exists c :: Linked(c, fs, 0) && Joined(c) == bytes
  }

  lemma {:induction false} ChainIsLinked(fs: seq<Fragment>, cur: nat)
    requires Rebuild(fs, cur).Done?
    ensures Linked(Chain(fs, cur), fs, cur)
    decreases MaxOffset(fs) + 1 - cur
  {
    var i := FindOffset(fs, cur);
    if !fs[i].last {
      var next := cur + |fs[i].data| / 8;
      ChainIsLinked(fs, next);
      assert Chain(fs, cur)[1..] == Chain(fs, next);
    }
  }

  lemma {:induction false} LinkedIsRebuilt(c: seq<Fragment>, fs: seq<Fragment>, cur: nat)
    requires Coherent(fs) && Linked(c, fs, cur)
    ensures Rebuild(fs, cur) == Done(Joined(c))
    decreases |c|
  {
    var i := FindOffset(fs, cur);
    var k :| 0 <= k < |fs| && fs[k] == c[0];
    assert i == k;
    if |c| == 1 {
      assert Joined(c) == c[0].data + Joined([]);
    } else {
      LinkedIsRebuilt(c[1..], fs, cur + |c[0].data| / 8);
    }
  }

  /** The last one in the list that is marked last announces `n` bytes. */
  predicate Announces(fs: seq<Fragment>, n: nat) {
    n > 0 && exists i :: 0 <= i < |fs| && LastMarked(fs, i) && n == fs[i].offset * 8 + |fs[i].data|
  }

  predicate LastMarked(fs: seq<Fragment>, i: nat)
    requires i < |fs|
  {
    fs[i].last && forall k | i < k < |fs| :: !fs[k].last
  }

  lemma {:induction false} TotalIsAnnounced(fs: seq<Fragment>, n: nat)
    ensures Announces(fs, n) <==> n > 0 && TotalSize(fs) == n
  {
    if fs != [] {
      var m := |fs| - 1;
      TotalIsAnnounced(fs[..m], n);
      if fs[m].last {
        assert LastMarked(fs, m) && forall i | 0 <= i < m :: !LastMarked(fs, i);
      } else {
        assert forall i | 0 <= i < m :: LastMarked(fs, i) <==> LastMarked(fs[..m], i);
      }
    }
  }

  /** What the receiver does with any fragment, from any list it can hold. One that is held
      already changes nothing. If not exactly as many bytes are held as announced, it is kept
      and more are asked for. Otherwise the message is complete if and only if linked fragments
      lead from offset 0 to a last one, and is what they hold; short fragments overrun the
      buffer or spin; and in all other cases everything held is refused. */
  lemma ReceiveDecides(fs: seq<Fragment>, f: Fragment)
    requires Coherent(fs)
    ensures var (after, v) := Receive(fs, f);
            var gs := Checked(fs, f);
            if Held(fs, f) then after == fs && v == NeedMore
            else if !Announces(gs, HeldSize(gs)) then after == gs && v == NeedMore
            else
              && (forall b :: v == Complete(b) <==> Makes(gs, b))
              && (v == Overruns <==> Stalls(gs, 0, false)) && (v == Spins <==> Stalls(gs, 0, true))
              && v != NeedMore && after == if v.Complete? || v == BadFragments then [] else gs
  {
    if !Held(fs, f) {
      CheckedCoherent(fs, f);
      CheckDecides(Checked(fs, f));
      hide *;
    }
  }

  lemma CheckDecides(gs: seq<Fragment>)
    requires Coherent(gs)
    ensures var (after, v) := Check(gs);
            if !Announces(gs, HeldSize(gs)) then after == gs && v == NeedMore
            else
              && (forall b :: v == Complete(b) <==> Makes(gs, b))
              && (v == Overruns <==> Stalls(gs, 0, false)) && (v == Spins <==> Stalls(gs, 0, true))
              && v != NeedMore && after == if v.Complete? || v == BadFragments then [] else gs
  {
    hide Coherent, Rebuild, TotalSize, HeldSize, Makes, Stalls, Announces;
    TotalIsAnnounced(gs, HeldSize(gs));
    RebuildStalls(gs, 0);
    RebuildLinks(gs);
  }

  lemma CheckedCoherent(fs: seq<Fragment>, f: Fragment)
    requires Coherent(fs) && !Held(fs, f)
    ensures Coherent(Checked(fs, f)) && Receive(fs, f) == Check(Checked(fs, f))
  {
    var gs := Checked(fs, f);
    forall k | 0 <= k < |fs|
      ensures !SameFragment(f, fs[k])
    {
    }
    assert |gs| == |fs| + 1 ==> forall k | 0 < k < |gs| :: gs[k] == fs[k - 1];
  }

  lemma RebuildLinks(gs: seq<Fragment>)
    requires Coherent(gs)
    ensures forall b :: Rebuild(gs, 0) == Done(b) <==> Makes(gs, b)
  {
    if Rebuild(gs, 0).Done? {
      ChainIsLinked(gs, 0);
      RebuildRises(gs, 0);
    }
    forall c | Linked(c, gs, 0)
      ensures Rebuild(gs, 0) == Done(Joined(c))
    {
      LinkedIsRebuilt(c, gs, 0);
    }
    hide Coherent, Linked, Joined, Chain, Rising;
    forall b
      ensures Rebuild(gs, 0) == Done(b) <==> Makes(gs, b)
    {
      if Rebuild(gs, 0) == Done(b) {
        assert Linked(Chain(gs, 0), gs, 0) && Joined(Chain(gs, 0)) == b;
      }
    }
  }
}
