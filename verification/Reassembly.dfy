/** The fragments of one message, arriving in any order and any number of times, are
    put together to that message as soon as the last missing one is there. */
module Reassembly {
  import opened Bytes
  import opened Fragments

  // ---------- facts about the fragments of a message ----------

  lemma {:induction false} ConsecutiveOffsets(fs: seq<Fragment>, id: nat, at: nat, units: nat)
    requires Consecutive(fs, id, at, units) && units > 0
    ensures forall k | 0 <= k < |fs| :: fs[k].id == id && fs[k].offset >= at && |fs[k].data| > 0
    ensures forall i, j | 0 <= i < j < |fs| :: fs[i].offset < fs[j].offset
  {
    if |fs| > 1 {
      ConsecutiveOffsets(fs[1..], id, at + units, units);
      forall k | 1 <= k < |fs|
        ensures fs[k].id == id && fs[k].offset >= at + units && |fs[k].data| > 0
      {
        assert fs[k] == fs[1..][k - 1];
      }
      forall i, j | 0 <= i < j < |fs|
        ensures fs[i].offset < fs[j].offset
      {
        assert fs[j] == fs[1..][j - 1];
        if i > 0 {
          assert fs[i] == fs[1..][i - 1];
        }
      }
    }
  }

  lemma {:induction false} ConsecutiveLast(fs: seq<Fragment>, id: nat, at: nat, units: nat)
    requires Consecutive(fs, id, at, units)
    ensures forall k | 0 <= k < |fs| :: fs[k].last <==> k == |fs| - 1
    ensures fs[|fs| - 1].offset * 8 + |fs[|fs| - 1].data| == 8 * at + HeldSize(fs)
  {
    if |fs| > 1 {
      ConsecutiveLast(fs[1..], id, at + units, units);
      forall k | 0 <= k < |fs|
        ensures fs[k].last <==> k == |fs| - 1
      {
        if k > 0 {
          assert fs[k] == fs[1..][k - 1];
        }
      }
    } else {
      assert fs[1..] == [];
    }
  }

  // ---------- sizes of what is held ----------

  lemma {:induction false} HeldSizeWithout(fs: seq<Fragment>, k: nat)
    requires k < |fs|
    ensures HeldSize(fs) == |fs[k].data| + HeldSize(fs[..k] + fs[k + 1..])
  {
    var rest := fs[..k] + fs[k + 1..];
    if k == 0 {
      assert rest == fs[1..];
    } else {
      HeldSizeWithout(fs[1..], k - 1);
      assert rest[1..] == fs[1..][..k - 1] + fs[1..][k..];
    }
  }

  ghost predicate Distinct(fs: seq<Fragment>) {
    forall i, j | 0 <= i < j < |fs| :: fs[i] != fs[j]
  }

  /** The size check is exact: what is held adds up to the message if and only if
      nothing is missing. */
  lemma {:induction false} SizeCheck(held: seq<Fragment>, all: seq<Fragment>)
    requires Distinct(held) && Distinct(all)
    requires forall f | f in held :: f in all
    requires forall f | f in all :: |f.data| > 0
    ensures HeldSize(held) <= HeldSize(all)
    ensures HeldSize(held) == HeldSize(all) <==> forall f | f in all :: f in held
    decreases |all|
  {
    assert held == [] || held[0] in all;
    if all != [] {
      var a, rest := all[0], all[1..];
      if a in held {
        var k :| 0 <= k < |held| && held[k] == a;
        var held' := held[..k] + held[k + 1..];
        HeldSizeWithout(held, k);
        WithoutOne(held, k, held');
        SizeCheck(held', rest);
      } else {
        SizeCheck(held, rest);
      }
    }
  }

  lemma WithoutOne(fs: seq<Fragment>, k: nat, gs: seq<Fragment>)
    requires Distinct(fs) && k < |fs| && gs == fs[..k] + fs[k + 1..]
    ensures Distinct(gs)
    ensures forall f :: f in gs <==> f in fs && f != fs[k]
  {
    assert fs == fs[..k] + [fs[k]] + fs[k + 1..];
    forall f | f in gs
      ensures f != fs[k]
    {
      var i :| 0 <= i < |gs| && gs[i] == f;
      assert f == if i < k then fs[i] else fs[i + 1];
    }
    forall i, j | 0 <= i < j < |gs|
      ensures gs[i] != gs[j]
    {
      var i', j' := if i < k then i else i + 1, if j < k then j else j + 1;
      assert gs[i] == fs[i'] && gs[j] == fs[j'];
    }
  }

  lemma {:induction false} AnnouncedSize(held: seq<Fragment>, end: Fragment)
    requires end.last && end.offset * 8 + |end.data| > 0
    requires forall f | f in held && f.last :: f == end
    ensures TotalSize(held) == if end in held then end.offset * 8 + |end.data| else 0
  {
    if held != [] {
      var n := |held| - 1;
      assert held == held[..n] + [held[n]];
      if !held[n].last {
        AnnouncedSize(held[..n], end);
      }
    }
  }

  // ---------- rebuilding ----------

  lemma FindIt(fs: seq<Fragment>, f: Fragment)
    requires Coherent(fs) && f in fs
    ensures var i := FindOffset(fs, f.offset); i < |fs| && fs[i] == f
  {
    var k :| 0 <= k < |fs| && fs[k] == f;
    var i := FindOffset(fs, f.offset);
    assert fs[k].offset == f.offset;
    if i > k {
      assert false;
    }
  }

  lemma {:induction false} RebuildAll(held: seq<Fragment>, all: seq<Fragment>, id: nat, at: nat, units: nat)
    requires Coherent(held) && Consecutive(all, id, at, units) && units > 0
    requires forall f | f in all :: f in held
    ensures Rebuild(held, at) == Done(Joined(all))
    decreases |all|
  {
    FindIt(held, all[0]);
    if |all| > 1 {
      assert |all[0].data| / 8 == units;
      RebuildAll(held, all[1..], id, at + units, units);
    } else {
      assert all[1..] == [] && all[0].data + [] == all[0].data;
    }
  }

  // ---------- one arrival ----------

  /** `all` are the fragments of `m`. */
  ghost predicate FragmentsOf(all: seq<Fragment>, m: seq<Byte>, id: nat, units: nat) {
    m != [] && units > 0 && all == Split(m, id, 0, units)
  }

  /** The list holds some of the fragments, each once, but not all. */
  ghost predicate Collecting(held: seq<Fragment>, all: seq<Fragment>) {
    && Coherent(held)
    && (forall f | f in held :: f in all)
    && (exists f :: f in all && f !in held)
  }

  lemma CoherentDistinct(fs: seq<Fragment>)
    requires Coherent(fs)
    ensures Distinct(fs)
  {
  }

  lemma HeldMeansIn(held: seq<Fragment>, all: seq<Fragment>, f: Fragment)
    requires f in all && forall g | g in held :: g in all
    requires forall i, j | 0 <= i < j < |all| :: all[i].offset < all[j].offset
    ensures Held(held, f) <==> f in held
  {
    if Held(held, f) {
      var i :| 0 <= i < |held| && SameFragment(f, held[i]);
      assert held[i] in all;
    }
    if f in held {
      var i :| 0 <= i < |held| && held[i] == f;
      assert SameFragment(f, held[i]);
    }
  }

  ghost predicate NothingMissing(held: seq<Fragment>, all: seq<Fragment>) {
    forall f | f in all :: f in held
  }

  lemma HeldSizes(held: seq<Fragment>, all: seq<Fragment>, m: seq<Byte>, id: nat, units: nat)
    requires FragmentsOf(all, m, id, units) && Coherent(held) && forall f | f in held :: f in all
    ensures HeldSize(held) == |m| <==> NothingMissing(held, all)
  {
    SplitPartitions(m, id, 0, units);
    ConsecutiveOffsets(all, id, 0, units);
    CoherentDistinct(held);
    SizeCheck(held, all);
  }

  lemma AnnouncedSizes(held: seq<Fragment>, all: seq<Fragment>, m: seq<Byte>, id: nat, units: nat)
    requires FragmentsOf(all, m, id, units) && forall f | f in held :: f in all
    ensures TotalSize(held) == if all[|all| - 1] in held then |m| else 0
  {
    SplitPartitions(m, id, 0, units);
    ConsecutiveLast(all, id, 0, units);
    AnnouncedSize(held, all[|all| - 1]);
  }

  /** The check after an arrival passes exactly if nothing is missing, and then the
      message comes out. */
  lemma CheckHeld(held: seq<Fragment>, all: seq<Fragment>, m: seq<Byte>, id: nat, units: nat)
    requires FragmentsOf(all, m, id, units) && Coherent(held) && forall f | f in held :: f in all
    ensures Check(held) == if NothingMissing(held, all) then ([], Complete(m)) else (held, NeedMore)
  {
    HeldSizes(held, all, m, id, units);
    AnnouncedSizes(held, all, m, id, units);
    if NothingMissing(held, all) {
      SplitPartitions(m, id, 0, units);
      assert all[|all| - 1] in all;
      RebuildAll(held, all, id, 0, units);
    }
  }

  /** A fragment of the message is held exactly if the search finds it, and all carry the
      same id. */
  lemma OneMessage(held: seq<Fragment>, all: seq<Fragment>, m: seq<Byte>, id: nat, units: nat, f: Fragment)
    requires FragmentsOf(all, m, id, units) && f in all && forall g | g in held :: g in all
    ensures Held(held, f) <==> f in held
    ensures f.id == id && forall g | g in held :: g.id == id
  {
    SplitPartitions(m, id, 0, units);
    ConsecutiveOffsets(all, id, 0, units);
    HeldMeansIn(held, all, f);
  }

  lemma Arrival(held: seq<Fragment>, all: seq<Fragment>, m: seq<Byte>, id: nat, units: nat, f: Fragment)
    requires FragmentsOf(all, m, id, units) && Collecting(held, all) && f in all
    ensures Receive(held, f) == if f in held then (held, NeedMore)
                                else if forall g | g in all :: g == f || g in held then ([], Complete(m))
                                else ([f] + held, NeedMore)
    ensures Coherent(Receive(held, f).0)
  {
    OneMessage(held, all, m, id, units, f);
    ReceiveKeepsCoherent(held, f);
    if f !in held {
      ExtendCoherent(held, f, id);
      hide Check, Coherent, Held, FragmentsOf;
      var held' := [f] + held;
      assert forall g :: g in held' <==> g == f || g in held;
      CheckHeld(held', all, m, id, units);
      assert held != [] ==> held[0] in held;
    }
  }

  lemma ExtendCoherent(held: seq<Fragment>, f: Fragment, id: nat)
    requires Coherent(held) && !Held(held, f) && f.id == id && forall g | g in held :: g.id == id
    ensures Coherent([f] + held)
  {
    var gs := [f] + held;
    forall i, j | 0 <= i < j < |gs|
      ensures gs[i].offset != gs[j].offset
    {
      assert gs[j] == held[j - 1];
      if i == 0 {
        assert !SameFragment(f, held[j - 1]);
      } else {
        assert gs[i] == held[i - 1];
      }
    }
  }

  // ---------- whole runs ----------

  /** What a receiver should say: it keeps the set of fragments seen, and when that is
      everything it hands out the message and starts afresh. */
  function Expected(seen: set<Fragment>, all: set<Fragment>, m: seq<Byte>, arrivals: seq<Fragment>): seq<Verdict>
    decreases |arrivals|
  {
    if arrivals == [] then []
    else
      var seen' := seen + {arrivals[0]};
      if seen' == all then [Complete(m)] + Expected({}, all, m, arrivals[1..])
      else [NeedMore] + Expected(seen', all, m, arrivals[1..])
  }

  function AsSet(fs: seq<Fragment>): set<Fragment> {
    set f | f in fs
  }

  lemma {:induction false} RunFrom(held: seq<Fragment>, all: seq<Fragment>, m: seq<Byte>, id: nat, units: nat,
                                   arrivals: seq<Fragment>)
    requires FragmentsOf(all, m, id, units) && Collecting(held, all)
    requires forall f | f in arrivals :: f in all
    ensures Run(held, arrivals) == Expected(AsSet(held), AsSet(all), m, arrivals)
    decreases |arrivals|
  {
    if arrivals != [] {
      var f, rest := arrivals[0], arrivals[1..];
      Arrival(held, all, m, id, units, f);
      var held' := Receive(held, f).0;
      SeenStep(held, all, f);
      if f !in held && forall g | g in all :: g == f || g in held {
        assert all[0] in all;
        assert AsSet([]) == {};
      }
      RunFrom(held', all, m, id, units, rest);
    }
  }

  lemma SeenStep(held: seq<Fragment>, all: seq<Fragment>, f: Fragment)
    requires Collecting(held, all) && f in all
    ensures AsSet(held) + {f} == AsSet(all) <==> f !in held && forall g | g in all :: g == f || g in held
    ensures f in held ==> AsSet(held) + {f} == AsSet(held)
    ensures AsSet([f] + held) == AsSet(held) + {f}
  {
    var s := AsSet(held) + {f};
    assert forall g :: g in s <==> g == f || g in held;
    assert forall g :: g in AsSet(all) <==> g in all;
    if s == AsSet(all) {
      forall g | g in all
        ensures g == f || g in held
      {
        assert g in s;
      }
    }
  }

  /** The main result: whatever the message, the fragment size and the order and number
      of arrivals, a receiver that starts with an empty list asks for more until the
      last missing fragment arrives, then returns exactly the message, and is ready to
      collect again. */
  lemma AnyOrderReassembles(m: seq<Byte>, id: nat, units: nat, arrivals: seq<Fragment>)
    requires m != [] && units > 0
    requires forall f | f in arrivals :: f in Split(m, id, 0, units)
    ensures Run([], arrivals) == Expected({}, AsSet(Split(m, id, 0, units)), m, arrivals)
  {
    var all := Split(m, id, 0, units);
    assert all[0] in all;
    assert AsSet([]) == {};
    RunFrom([], all, m, id, units, arrivals);
  }

  // ---------- several messages at once ----------

  /** A message on its way in fragments. */
  datatype Outgoing = Outgoing(m: seq<Byte>, units: nat)

  ghost predicate Fragmentable(sent: map<nat, Outgoing>) {
    forall id | id in sent :: sent[id].m != [] && sent[id].units > 0
  }

  function FragmentsUnder(sent: map<nat, Outgoing>, id: nat): seq<Fragment>
    requires id in sent && sent[id].units > 0
  {
    Split(sent[id].m, id, 0, sent[id].units)
  }

  /** The fragment is one of the message with its id. */
  ghost predicate IsSent(sent: map<nat, Outgoing>, f: Fragment)
    requires Fragmentable(sent)
  {
    f.id in sent && f in FragmentsUnder(sent, f.id)
  }

  /** What a receiver should say when fragments of several messages mix: it keeps the set of
      fragments seen of one message, and drops it when one of another message arrives. */
  ghost function ExpectedMixed(seen: set<Fragment>, sent: map<nat, Outgoing>, arrivals: seq<Fragment>): seq<Verdict>
    requires Fragmentable(sent) && forall f | f in arrivals :: IsSent(sent, f)
    decreases |arrivals|
  {
    if arrivals == [] then []
    else
      assert IsSent(sent, arrivals[0]);
      var f := arrivals[0];
      var seen' := (set g | g in seen && g.id == f.id) + {f};
      if seen' == AsSet(FragmentsUnder(sent, f.id)) then
        [Complete(sent[f.id].m)] + ExpectedMixed({}, sent, arrivals[1..])
      else [NeedMore] + ExpectedMixed(seen', sent, arrivals[1..])
  }

  /** The list holds some, but not all, fragments of one message. */
  ghost predicate CollectingOne(held: seq<Fragment>, sent: map<nat, Outgoing>)
    requires Fragmentable(sent)
  {
    held == [] || (held[0].id in sent && Collecting(held, FragmentsUnder(sent, held[0].id)))
  }

  lemma MixedArrival(held: seq<Fragment>, sent: map<nat, Outgoing>, f: Fragment)
    requires Fragmentable(sent) && CollectingOne(held, sent) && IsSent(sent, f)
    ensures var (held', v) := Receive(held, f);
            var seen' := (set g | g in AsSet(held) && g.id == f.id) + {f};
            && CollectingOne(held', sent)
            && (if seen' == AsSet(FragmentsUnder(sent, f.id)) then held' == [] && v == Complete(sent[f.id].m)
                else AsSet(held') == seen' && v == NeedMore)
  {
    var all := FragmentsUnder(sent, f.id);
    var one := if held != [] && held[0].id == f.id then held else [];
    assert Collecting(one, all) by { assert all[0] in all; }
    OneKind(held, sent, f.id);
    assert Receive(held, f) == Receive(one, f) by { assert [f] + [] == [f] && !Held([], f); }
    assert (set g | g in AsSet(held) && g.id == f.id) == AsSet(one);
    Arrival(one, all, sent[f.id].m, f.id, sent[f.id].units, f);
    SeenStep(one, all, f);
    StillCollecting(one, all, sent[f.id].m, f.id, sent[f.id].units, f);
  }

  /** Everything held has the id of the first. */
  lemma OneKind(held: seq<Fragment>, sent: map<nat, Outgoing>, id: nat)
    requires Fragmentable(sent) && CollectingOne(held, sent)
    ensures forall g | g in held :: g.id == held[0].id
  {
  }

  lemma StillCollecting(held: seq<Fragment>, all: seq<Fragment>, m: seq<Byte>, id: nat, units: nat, f: Fragment)
    requires FragmentsOf(all, m, id, units) && Collecting(held, all) && f in all
    ensures var held' := Receive(held, f).0;
            held' == [] || (held'[0].id == id && Collecting(held', all))
  {
    Arrival(held, all, m, id, units, f);
    OneMessage(held, all, m, id, units, f);
    hide Receive, FragmentsOf;
    assert held != [] ==> held[0] in held;
  }

  lemma {:induction false} RunMixedFrom(held: seq<Fragment>, sent: map<nat, Outgoing>, arrivals: seq<Fragment>)
    requires Fragmentable(sent) && CollectingOne(held, sent) && forall f | f in arrivals :: IsSent(sent, f)
    ensures Run(held, arrivals) == ExpectedMixed(AsSet(held), sent, arrivals)
    decreases |arrivals|
  {
    if arrivals != [] {
      assert IsSent(sent, arrivals[0]);
      MixedArrival(held, sent, arrivals[0]);
      hide Receive, CollectingOne, IsSent;
      RunMixedFrom(Receive(held, arrivals[0]).0, sent, arrivals[1..]);
      assert AsSet([]) == {};
    }
  }

  /** Fragments of any number of messages with different ids, interleaved in any way and
      repeated: the receiver says exactly what it should. */
  lemma MixedReassembles(sent: map<nat, Outgoing>, arrivals: seq<Fragment>)
    requires Fragmentable(sent) && forall f | f in arrivals :: IsSent(sent, f)
    ensures Run([], arrivals) == ExpectedMixed({}, sent, arrivals)
  {
    assert AsSet([]) == {};
    RunMixedFrom([], sent, arrivals);
  }

  /** So every message it completes is the one with the id of the fragment that arrived. */
  lemma {:induction false} MixedCompletes(seen: set<Fragment>, sent: map<nat, Outgoing>, arrivals: seq<Fragment>,
                                          k: nat)
    requires Fragmentable(sent) && (forall f | f in arrivals :: IsSent(sent, f)) && k < |arrivals|
    ensures arrivals[k].id in sent && |ExpectedMixed(seen, sent, arrivals)| == |arrivals|
    ensures var v := ExpectedMixed(seen, sent, arrivals)[k];
            v == NeedMore || v == Complete(sent[arrivals[k].id].m)
    decreases |arrivals|
  {
    assert IsSent(sent, arrivals[k]) && IsSent(sent, arrivals[0]);
    var f, rest := arrivals[0], arrivals[1..];
    var seen' := (set g | g in seen && g.id == f.id) + {f};
    var next := if seen' == AsSet(FragmentsUnder(sent, f.id)) then {} else seen';
    if rest != [] {
      MixedCompletes(next, sent, rest, if k > 0 then k - 1 else 0);
    }
  }
}
