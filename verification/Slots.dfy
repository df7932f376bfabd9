/** Starting and closing sessions: slots of `gWTPs` are taken by the main thread and given
    back by session threads, while the number of active WTPs, in all and on each network
    interface, is kept under another mutex. Every step is what one thread does while it
    holds a mutex; any thread may take the next step. */
module Slots {
  import opened Options

  /** How far a session thread has come: created, counted as active, with its interface
      stored in the slot, no longer counted, its slot given back, ended. */
  datatype Stage = Spawned | Counted | Serving | Uncounted | Freed | Exited

  datatype Thread = Thread(slot: nat, iface: nat, stage: Stage)

  datatype State = State(
    taken: seq<bool>,       // isNotFree
    slotIface: seq<nat>,    // interfaceIndex
    threads: seq<Thread>,
    reserved: Option<nat>,  // the slot the main thread took for a thread not yet created
    active: int,            // gActiveWTPs
    counts: seq<int>,       // WTPCount of each interface
    missed: seq<int>,       // closes before counting, by the interface they were charged to
    stations: map<nat, nat> // the session thread that each station joined through
  )

  datatype Step =
    | Reserve
    | GiveBack
    | Spawn(iface: nat)
    | Count(thread: nat)
    | Assign(thread: nat)
    | Uncount(thread: nat)
    | Free(thread: nat)
    | Associate(thread: nat, station: nat, sameRadio: bool)
    | Purge(thread: nat)

  /** The search for a free slot. */
  function FirstFree(taken: seq<bool>, from: nat): (i: nat)
    requires from <= |taken|
    ensures from <= i <= |taken| && (i < |taken| ==> !taken[i])
    ensures forall k | from <= k < i :: taken[k]
    decreases |taken| - from
  {
    if from == |taken| || !taken[from] then from else FirstFree(taken, from + 1)
  }

  method FindFreeSlot(taken: array<bool>) returns (i: nat)
    ensures i == FirstFree(taken[..], 0)
  {
    i := 0;
    while i < taken.Length && taken[i]
      invariant 0 <= i <= taken.Length
      invariant FirstFree(taken[..], i) == FirstFree(taken[..], 0)
    {
      i := i + 1;
    }
  }

  predicate At(s: State, t: nat, stage: Stage) {
    t < |s.threads| && s.threads[t].stage == stage
  }

  function Move(s: State, t: nat, stage: Stage): State
    requires t < |s.threads|
  {
    s.(threads := s.threads[t := s.threads[t].(stage := stage)])
  }

  /** When a step can be taken. A close is reached from `Serving`, or straight from
      `Spawned` when the thread cannot store its index. */
  predicate Enabled(s: State, step: Step) {
    match step
    case Reserve => s.reserved.None? && s.active < |s.taken| && FirstFree(s.taken, 0) < |s.taken|
    case GiveBack => s.reserved.Some? && s.reserved.value < |s.taken|
    case Spawn(iface) => s.reserved.Some? && iface < |s.counts|
    case Count(t) => At(s, t, Spawned) && s.threads[t].iface < |s.counts|
    case Assign(t) => At(s, t, Counted) && s.threads[t].slot < |s.slotIface|
    case Uncount(t) =>
      && (At(s, t, Spawned) || At(s, t, Serving))
      && s.threads[t].slot < |s.slotIface| && s.slotIface[s.threads[t].slot] < |s.counts| == |s.missed|
    case Free(t) => At(s, t, Uncounted) && s.threads[t].slot < |s.taken|
    case Associate(t, _, _) => At(s, t, Serving)
    case Purge(t) => At(s, t, Freed)
  }

  /** A station that is known on a radio of another number keeps its entry. */
  predicate Moves(s: State, station: nat, sameRadio: bool) {
    station !in s.stations || sameRadio
  }

  function Next(s: State, step: Step): State
    requires Enabled(s, step)
  {
    match step
    case Reserve =>
      var i := FirstFree(s.taken, 0);
      s.(taken := s.taken[i := true], reserved := Some(i))
    case GiveBack => s.(taken := s.taken[s.reserved.value := false], reserved := None)
    case Spawn(iface) => s.(threads := s.threads + [Thread(s.reserved.value, iface, Spawned)], reserved := None)
    case Count(t) =>
      var k := s.threads[t].iface;
      Move(s, t, Counted).(active := s.active + 1, counts := s.counts[k := s.counts[k] + 1])
    case Assign(t) =>
      Move(s, t, Serving).(slotIface := s.slotIface[s.threads[t].slot := s.threads[t].iface])
    case Uncount(t) =>
      var k := s.slotIface[s.threads[t].slot];
      Move(s, t, Uncounted).(active := s.active - 1, counts := s.counts[k := s.counts[k] - 1],
        missed := if s.threads[t].stage.Spawned? then s.missed[k := s.missed[k] + 1] else s.missed)
    case Free(t) => Move(s, t, Freed).(taken := s.taken[s.threads[t].slot := false])
    case Associate(t, station, sameRadio) =>
      if Moves(s, station, sameRadio) then s.(stations := s.stations[station := t]) else s
    case Purge(t) => Move(s, t, Exited).(stations := Purged(s, s.threads[t].slot))
  }

  /** The stations left when those of a slot are removed: the tree knows only the slot. */
  function Purged(s: State, slot: nat): map<nat, nat> {
    map x | x in s.stations && !(s.stations[x] < |s.threads| && s.threads[s.stations[x]].slot == slot) :: s.stations[x]
  }

  predicate Runs(s: State, steps: seq<Step>)
    decreases |steps|
  {
    steps == [] || (Enabled(s, steps[0]) && Runs(Next(s, steps[0]), steps[1..]))
  }

  function RunSteps(s: State, steps: seq<Step>): State
    requires Runs(s, steps)
    decreases |steps|
  {
    if steps == [] then s else RunSteps(Next(s, steps[0]), steps[1..])
  }

  function Initial(size: nat, slotIface: seq<nat>, ifaces: nat): State {
    State(seq(size, _ => false), slotIface, [], None, 0, seq(ifaces, _ => 0), seq(ifaces, _ => 0), map[])
  }

  // ---------- counting ----------

  function Sum(counts: seq<int>): int {
    if counts == [] then 0 else Sum(counts[..|counts| - 1]) + counts[|counts| - 1]
  }

  function Trues(taken: seq<bool>): nat {
    if taken == [] then 0 else Trues(taken[..|taken| - 1]) + if taken[|taken| - 1] then 1 else 0
  }

  predicate Holding(t: Thread) {
    t.stage.Spawned? || t.stage.Counted? || t.stage.Serving? || t.stage.Uncounted?
  }

  predicate Active(t: Thread) {
    t.stage.Counted? || t.stage.Serving?
  }

  function Holders(threads: seq<Thread>): nat {
    if threads == [] then 0
    else Holders(threads[..|threads| - 1]) + if Holding(threads[|threads| - 1]) then 1 else 0
  }

  /** The threads counted on an interface. */
  function ActiveOn(threads: seq<Thread>, k: nat): nat {
    if threads == [] then 0
    else ActiveOn(threads[..|threads| - 1], k) +
         if Active(threads[|threads| - 1]) && threads[|threads| - 1].iface == k then 1 else 0
  }

  function Actives(threads: seq<Thread>): nat {
    if threads == [] then 0
    else Actives(threads[..|threads| - 1]) + if Active(threads[|threads| - 1]) then 1 else 0
  }

  lemma {:induction false} SumUpdate(counts: seq<int>, k: nat, v: int)
    requires k < |counts|
    ensures Sum(counts[k := v]) == Sum(counts) - counts[k] + v
  {
    var n := |counts| - 1;
    if k < n {
      SumUpdate(counts[..n], k, v);
      assert counts[k := v][..n] == counts[..n][k := v];
    } else {
      assert counts[k := v][..n] == counts[..n];
    }
  }

  lemma {:induction false} TruesUpdate(taken: seq<bool>, k: nat, b: bool)
    requires k < |taken|
    ensures Trues(taken[k := b]) == Trues(taken) - (if taken[k] then 1 else 0) + if b then 1 else 0
  {
    var n := |taken| - 1;
    if k < n {
      TruesUpdate(taken[..n], k, b);
      assert taken[k := b][..n] == taken[..n][k := b];
    } else {
      assert taken[k := b][..n] == taken[..n];
    }
  }

  lemma {:induction false} ThreadsUpdate(threads: seq<Thread>, t: nat, u: Thread, k: nat)
    requires t < |threads|
    ensures Holders(threads[t := u]) ==
            Holders(threads) - (if Holding(threads[t]) then 1 else 0) + if Holding(u) then 1 else 0
    ensures Actives(threads[t := u]) ==
            Actives(threads) - (if Active(threads[t]) then 1 else 0) + if Active(u) then 1 else 0
    ensures ActiveOn(threads[t := u], k) == ActiveOn(threads, k)
                                            - (if Active(threads[t]) && threads[t].iface == k then 1 else 0)
                                            + if Active(u) && u.iface == k then 1 else 0
  {
    var n := |threads| - 1;
    if t < n {
      ThreadsUpdate(threads[..n], t, u, k);
      assert threads[t := u][..n] == threads[..n][t := u];
    } else {
      assert threads[t := u][..n] == threads[..n];
    }
  }

  lemma ThreadsAppend(threads: seq<Thread>, u: Thread, k: nat)
    ensures Holders(threads + [u]) == Holders(threads) + if Holding(u) then 1 else 0
    ensures Actives(threads + [u]) == Actives(threads) + if Active(u) then 1 else 0
    ensures ActiveOn(threads + [u], k) == ActiveOn(threads, k) + if Active(u) && u.iface == k then 1 else 0
  {
    assert (threads + [u])[..|threads|] == threads;
  }

  lemma {:induction false} AllTrue(taken: seq<bool>)
    ensures Trues(taken) <= |taken|
    ensures Trues(taken) == |taken| <==> FirstFree(taken, 0) == |taken|
  {
    var n := |taken| - 1;
    if taken != [] {
      AllTrue(taken[..n]);
      var i := FirstFree(taken, 0);
      var j := FirstFree(taken[..n], 0);
      assert j < n ==> !taken[j];
      assert i < n ==> !taken[..n][i];
    }
  }

  // ---------- invariants ----------

  /** Sizes and indices are in range. */
  predicate Ranged(s: State) {
    && |s.slotIface| == |s.taken| && |s.missed| == |s.counts|
    && (forall i | 0 <= i < |s.slotIface| :: s.slotIface[i] < |s.counts|)
    && (forall t | 0 <= t < |s.threads| :: s.threads[t].slot < |s.taken| && s.threads[t].iface < |s.counts|)
    && (s.reserved.Some? ==> s.reserved.value < |s.taken|)
  }

  /** Every session that holds a slot has it to itself, and the slot is taken. */
  predicate Exclusive(s: State) {
    && (forall t | 0 <= t < |s.threads| && Holding(s.threads[t]) ::
          s.threads[t].slot < |s.taken| && s.taken[s.threads[t].slot] && s.reserved != Some(s.threads[t].slot))
    && (forall t, u | 0 <= t < u < |s.threads| && Holding(s.threads[t]) && Holding(s.threads[u]) ::
          s.threads[t].slot != s.threads[u].slot)
    && (s.reserved.Some? ==> s.reserved.value < |s.taken| && s.taken[s.reserved.value])
  }

  /** A serving session finds its own interface in its slot. */
  predicate Labelled(s: State) {
    forall t | 0 <= t < |s.threads| && s.threads[t].stage.Serving? ::
      s.threads[t].slot < |s.slotIface| && s.slotIface[s.threads[t].slot] == s.threads[t].iface
  }

  /** The total is the sum over the interfaces, and each interface counts its sessions,
      less those that closed before they were counted. */
  predicate Tallied(s: State) {
    && s.active == Sum(s.counts)
    && s.active + Sum(s.missed) == Actives(s.threads)
    && |s.missed| == |s.counts|
    && (forall k | 0 <= k < |s.missed| :: s.missed[k] >= 0)
    && (forall k: nat | k < |s.counts| :: s.counts[k] + s.missed[k] == ActiveOn(s.threads, k))
  }

  /** The taken slots are those held by sessions and the one reserved. */
  predicate Occupied(s: State) {
    Trues(s.taken) == Holders(s.threads) + if s.reserved.Some? then 1 else 0
  }

  /** Every station in the table joined through a session that has not ended. */
  predicate Owned(s: State) {
    forall x | x in s.stations ::
      s.stations[x] < |s.threads| && var stage := s.threads[s.stations[x]].stage;
      stage.Serving? || stage.Uncounted? || stage.Freed?
  }

  predicate Inv(s: State) {
    Ranged(s) && Exclusive(s) && Labelled(s) && Tallied(s) && Occupied(s) && Owned(s)
  }

  lemma RangedNext(s: State, step: Step)
    requires Ranged(s) && Enabled(s, step)
    ensures Ranged(Next(s, step))
  {
  }

  lemma MoveExclusive(s: State, t: nat, stage: Stage)
    requires Exclusive(s) && t < |s.threads|
    requires Holding(s.threads[t].(stage := stage)) ==> Holding(s.threads[t])
    ensures Exclusive(Move(s, t, stage))
  {
  }

  lemma FreeExclusive(s: State, t: nat)
    requires Ranged(s) && Exclusive(s) && At(s, t, Uncounted)
    ensures Exclusive(Next(s, Free(t)))
  {
  }

  lemma MainExclusive(s: State, step: Step)
    requires Ranged(s) && Exclusive(s) && Enabled(s, step)
    requires step.Reserve? || step.GiveBack? || step.Spawn?
    ensures Exclusive(Next(s, step))
  {
  }

  lemma ExclusiveNext(s: State, step: Step)
    requires Ranged(s) && Exclusive(s) && Enabled(s, step)
    ensures Exclusive(Next(s, step))
  {
    match step
    case Count(t) => MoveExclusive(s, t, Counted);
    case Assign(t) => MoveExclusive(s, t, Serving);
    case Uncount(t) => MoveExclusive(s, t, Uncounted);
    case Free(t) => FreeExclusive(s, t);
    case Associate(_, _, _) =>
    case Purge(t) => MoveExclusive(s, t, Exited);
    case _ => MainExclusive(s, step);
  }

  lemma LabelledNext(s: State, step: Step)
    requires Ranged(s) && Exclusive(s) && Labelled(s) && Enabled(s, step)
    ensures Labelled(Next(s, step))
  {
  }

  lemma OccupiedNext(s: State, step: Step)
    requires Ranged(s) && Exclusive(s) && Occupied(s) && Enabled(s, step)
    ensures Occupied(Next(s, step))
  {
    hide Trues, Holders, Actives, ActiveOn, Purged;
    match step
    case Reserve => TruesUpdate(s.taken, FirstFree(s.taken, 0), true);
    case GiveBack => TruesUpdate(s.taken, s.reserved.value, false);
    case Spawn(iface) => ThreadsAppend(s.threads, Thread(s.reserved.value, iface, Spawned), 0);
    case Count(t) => ThreadsUpdate(s.threads, t, s.threads[t].(stage := Counted), 0);
    case Assign(t) => ThreadsUpdate(s.threads, t, s.threads[t].(stage := Serving), 0);
    case Uncount(t) => ThreadsUpdate(s.threads, t, s.threads[t].(stage := Uncounted), 0);
    case Free(t) =>
      ThreadsUpdate(s.threads, t, s.threads[t].(stage := Freed), 0);
      TruesUpdate(s.taken, s.threads[t].slot, false);
    case Associate(_, _, _) =>
    case Purge(t) => ThreadsUpdate(s.threads, t, s.threads[t].(stage := Exited), 0);
  }

  lemma TalliedNext(s: State, step: Step)
    requires Ranged(s) && Labelled(s) && Tallied(s) && Enabled(s, step)
    ensures Tallied(Next(s, step))
  {
    match step
    case Spawn(iface) => SpawnTallied(s, iface);
    case Count(t) => CountTallied(s, t);
    case Assign(t) => MoveTallies(s, t, Serving);
    case Uncount(t) => UncountTallied(s, t);
    case Free(t) => MoveTallies(s, t, Freed);
    case Purge(t) => MoveTallies(s, t, Exited);
    case _ =>
  }

  lemma SpawnTallied(s: State, iface: nat)
    requires Tallied(s) && Enabled(s, Spawn(iface))
    ensures Tallied(Next(s, Spawn(iface)))
  {
    hide Sum, Actives, ActiveOn;
    var u := Thread(s.reserved.value, iface, Spawned);
    ThreadsAppend(s.threads, u, 0);
    forall k: nat
      ensures ActiveOn(s.threads + [u], k) == ActiveOn(s.threads, k)
    {
      ThreadsAppend(s.threads, u, k);
    }
  }

  lemma CountTallied(s: State, t: nat)
    requires Tallied(s) && Enabled(s, Count(t))
    ensures Tallied(Next(s, Count(t)))
  {
    hide Sum, Actives, ActiveOn;
    MoveTallies(s, t, Counted);
    SumUpdate(s.counts, s.threads[t].iface, s.counts[s.threads[t].iface] + 1);
  }

  lemma UncountTallied(s: State, t: nat)
    requires Labelled(s) && Tallied(s) && Enabled(s, Uncount(t))
    ensures Tallied(Next(s, Uncount(t)))
  {
    hide Sum, Actives, ActiveOn;
    MoveTallies(s, t, Uncounted);
    var k := s.slotIface[s.threads[t].slot];
    SumUpdate(s.counts, k, s.counts[k] - 1);
    if s.threads[t].stage.Spawned? {
      SumUpdate(s.missed, k, s.missed[k] + 1);
    }
  }

  function One(b: bool): int {
    if b then 1 else 0
  }

  lemma MoveTallies(s: State, t: nat, stage: Stage)
    requires t < |s.threads|
    ensures var was, u := s.threads[t], s.threads[t].(stage := stage);
            var gain := One(Active(u)) - One(Active(was));
            && Actives(Move(s, t, stage).threads) == Actives(s.threads) + gain
            && forall k: nat ::
                 ActiveOn(Move(s, t, stage).threads, k) == ActiveOn(s.threads, k) + if u.iface == k then gain else 0
  {
    var u := s.threads[t].(stage := stage);
    var gain := One(Active(u)) - One(Active(s.threads[t]));
    ThreadsUpdate(s.threads, t, u, 0);
    forall k: nat
      ensures ActiveOn(Move(s, t, stage).threads, k) == ActiveOn(s.threads, k) + if u.iface == k then gain else 0
    {
      ThreadsUpdate(s.threads, t, u, k);
    }
  }

  lemma OwnedNext(s: State, step: Step)
    requires Owned(s) && Enabled(s, step)
    ensures Owned(Next(s, step))
  {
  }

  lemma NextKeeps(s: State, step: Step)
    requires Inv(s) && Enabled(s, step)
    ensures Inv(Next(s, step))
  {
    hide Ranged, Exclusive, Labelled, Tallied, Occupied, Owned, Next, Enabled;
    RangedNext(s, step);
    ExclusiveNext(s, step);
    LabelledNext(s, step);
    TalliedNext(s, step);
    OccupiedNext(s, step);
    OwnedNext(s, step);
  }

  /** Every interleaving keeps the invariant. */
  lemma {:induction false} RunKeeps(s: State, steps: seq<Step>)
    requires Inv(s) && Runs(s, steps)
    ensures Inv(RunSteps(s, steps))
    decreases |steps|
  {
    if steps != [] {
      NextKeeps(s, steps[0]);
      hide Inv, Next;
      RunKeeps(Next(s, steps[0]), steps[1..]);
    }
  }

  lemma {:induction false} ZeroTallies(size: nat, ifaces: nat)
    ensures Trues(seq(size, _ => false)) == 0 && Sum(seq(ifaces, _ => 0)) == 0
    decreases size + ifaces
  {
    if size > 0 {
      assert seq(size, _ => false)[..size - 1] == seq(size - 1, _ => false);
      ZeroTallies(size - 1, ifaces);
    } else if ifaces > 0 {
      assert seq(ifaces, _ => 0)[..ifaces - 1] == seq(ifaces - 1, _ => 0);
      ZeroTallies(size, ifaces - 1);
    }
  }

  lemma InitialKeeps(size: nat, slotIface: seq<nat>, ifaces: nat)
    requires |slotIface| == size && forall i | 0 <= i < size :: slotIface[i] < ifaces
    ensures Inv(Initial(size, slotIface, ifaces))
  {
    ZeroTallies(size, ifaces);
  }

  // ---------- what it means ----------

  /** Sessions that hold a slot without being counted. */
  function Lagging(threads: seq<Thread>): nat {
    if threads == [] then 0
    else
      var last := threads[|threads| - 1];
      Lagging(threads[..|threads| - 1]) + if last.stage.Spawned? || last.stage.Uncounted? then 1 else 0
  }

  lemma {:induction false} HoldersSplit(threads: seq<Thread>)
    ensures Holders(threads) == Actives(threads) + Lagging(threads)
  {
    if threads != [] {
      HoldersSplit(threads[..|threads| - 1]);
    }
  }

  lemma {:induction false} SumNonNegative(counts: seq<int>)
    requires forall k | 0 <= k < |counts| :: counts[k] >= 0
    ensures Sum(counts) >= 0
  {
    if counts != [] {
      SumNonNegative(counts[..|counts| - 1]);
    }
  }

  /** The number of active WTPs is the sum over the interfaces and never exceeds the
      number of taken slots; no two sessions that hold a slot have the same one. */
  lemma ActiveWithinSlots(s: State)
    requires Inv(s)
    ensures s.active == Sum(s.counts) && s.active <= Trues(s.taken)
    ensures forall t, u | 0 <= t < u < |s.threads| && Holding(s.threads[t]) && Holding(s.threads[u]) ::
              s.threads[t].slot != s.threads[u].slot
  {
    HoldersSplit(s.threads);
    SumNonNegative(s.missed);
  }

  /** How far the number of active WTPs is behind the number of taken slots. */
  function Lag(s: State): int {
    Sum(s.missed) + Lagging(s.threads)
  }

  /** When the main thread looks for a slot it finds one if and only if the active WTPs and
      those not counted together leave one: the check of the active WTPs alone does not
      tell. */
  lemma FreeSlotIff(s: State)
    requires Inv(s) && s.reserved.None?
    ensures FirstFree(s.taken, 0) < |s.taken| <==> s.active + Lag(s) < |s.taken|
  {
    HoldersSplit(s.threads);
    AllTrue(s.taken);
  }

  lemma RunMore(s: State, steps: seq<Step>, step: Step)
    requires steps != [] && steps[0] == step && Enabled(s, step) && Runs(Next(s, step), steps[1..])
    ensures Runs(s, steps) && RunSteps(s, steps) == RunSteps(Next(s, step), steps[1..])
  {
  }

  /** With one slot and a session thread that is not counted yet, the check passes and no
      slot is free. */
  lemma GuardPassesWithoutSlot()
    ensures var s := Initial(1, [0], 1);
            && Runs(s, [Reserve, Spawn(0)])
            && var last := RunSteps(s, [Reserve, Spawn(0)]);
               last.reserved.None? && last.active < |last.taken| && FirstFree(last.taken, 0) == |last.taken|
  {
    var s0 := Initial(1, [0], 1);
    var s1 := Next(s0, Reserve);
    RunMore(s1, [Spawn(0)], Spawn(0));
    RunMore(s0, [Reserve, Spawn(0)], Reserve);
  }

  /** No station of a session that holds a slot is removed. */
  ghost predicate HarmsNobody(s: State, t: nat)
    requires Owned(s) && Enabled(s, Purge(t))
  {
    forall x | x in s.stations && Holding(s.threads[s.stations[x]]) :: x in Next(s, Purge(t)).stations
  }

  /** A closing session removes all its stations, and harms nobody if its slot is still free. */
  lemma PurgeSafe(s: State, t: nat)
    requires Inv(s) && Enabled(s, Purge(t))
    ensures forall x | x in Next(s, Purge(t)).stations :: s.stations[x] != t
    ensures !s.taken[s.threads[t].slot] ==> HarmsNobody(s, t)
  {
  }

  /** The session through which a station joined last in a run, if it did. */
  function LastJoin(s: State, steps: seq<Step>, x: nat): Option<nat>
    requires Runs(s, steps)
    decreases |steps|
  {
    if steps == [] then None
    else
      var later := LastJoin(Next(s, steps[0]), steps[1..], x);
      if later.Some? then later
      else if steps[0].Associate? && steps[0].station == x && Moves(s, x, steps[0].sameRadio) then Some(steps[0].thread)
      else None
  }

  lemma {:induction false} JoinedThrough(s: State, steps: seq<Step>, x: nat)
    requires Runs(s, steps) && x in RunSteps(s, steps).stations
    ensures match LastJoin(s, steps, x)
            case None => x in s.stations && RunSteps(s, steps).stations[x] == s.stations[x]
            case Some(u) => RunSteps(s, steps).stations[x] == u
    decreases |steps|
  {
    if steps != [] {
      JoinedThrough(Next(s, steps[0]), steps[1..], x);
    }
  }

  /** A session keeps its slot number, and once it has given the slot back it never holds one
      again. */
  lemma {:induction false} NeverHoldsAgain(s: State, steps: seq<Step>, u: nat)
    requires Runs(s, steps) && u < |s.threads|
    ensures u < |RunSteps(s, steps).threads| && RunSteps(s, steps).threads[u].slot == s.threads[u].slot
    ensures Holding(RunSteps(s, steps).threads[u]) ==> Holding(s.threads[u])
    decreases |steps|
  {
    if steps != [] {
      NeverHoldsAgain(Next(s, steps[0]), steps[1..], u);
    }
  }

  /** Since `t` gave its slot back, station `x` joined through a session that took that slot
      and still holds it. */
  ghost predicate JoinedSince(f: State, steps: seq<Step>, t: nat, x: nat)
    requires Runs(f, steps) && t < |RunSteps(f, steps).threads|
  {
    var e := RunSteps(f, steps);
    && x in e.stations
    && match LastJoin(f, steps, x)
       case None => false
       case Some(u) => u < |e.threads| && Holding(e.threads[u]) && e.threads[u].slot == e.threads[t].slot
  }

  /** Over runs: a session gives its slot back in state `s`, the steps that follow are those
      of any threads, and then it removes its stations. It harms nobody if and only if no
      station joined in between through a session that took its slot. */
  lemma PurgeHarmsIff(s: State, t: nat, steps: seq<Step>)
    requires Inv(s) && Enabled(s, Free(t)) && Runs(Next(s, Free(t)), steps)
    requires Enabled(RunSteps(Next(s, Free(t)), steps), Purge(t))
    ensures var f := Next(s, Free(t));
            var e := RunSteps(f, steps);
            Owned(e) && (HarmsNobody(e, t) <==> forall x :: !JoinedSince(f, steps, t, x))
  {
    var f := Next(s, Free(t));
    NextKeeps(s, Free(t));
    RunKeeps(f, steps);
    var e := RunSteps(f, steps);
    forall x | x in e.stations && Holding(e.threads[e.stations[x]])
      ensures x in Next(e, Purge(t)).stations <==> !JoinedSince(f, steps, t, x)
    {
      StationAtPurge(f, t, steps, x);
    }
    assert forall x | JoinedSince(f, steps, t, x) :: e.stations[x] == LastJoin(f, steps, x).value by {
      forall x | JoinedSince(f, steps, t, x)
        ensures e.stations[x] == LastJoin(f, steps, x).value
      {
        JoinedThrough(f, steps, x);
      }
    }
  }

  lemma StationAtPurge(f: State, t: nat, steps: seq<Step>, x: nat)
    requires Inv(f) && Runs(f, steps) && At(f, t, Freed) && !f.taken[f.threads[t].slot]
    requires var e := RunSteps(f, steps); Owned(e) && x in e.stations && Holding(e.threads[e.stations[x]])
    ensures t < |RunSteps(f, steps).threads|
    ensures var e := RunSteps(f, steps);
            e.threads[e.stations[x]].slot != e.threads[t].slot <==> !JoinedSince(f, steps, t, x)
  {
    JoinedThrough(f, steps, x);
    NeverHoldsAgain(f, steps, t);
    if LastJoin(f, steps, x).None? {
      NeverHoldsAgain(f, steps, f.stations[x]);
    }
  }

  /** One session has given back slot 0 and has yet to remove its stations. */
  const GivenBack := State([false, false], [0, 0], [Thread(0, 0, Freed)], None, 0, [0], [0], map[])

  function OneThread(taken: bool, stage: Stage, active: int): State {
    State([taken, false], [0, 0], [Thread(0, 0, stage)], None, active, [active], [0], map[])
  }

  lemma StartOne()
    ensures var s := Initial(2, [0, 0], 1);
            Enabled(s, Reserve) && Enabled(Next(s, Reserve), Spawn(0)) &&
            Next(Next(s, Reserve), Spawn(0)) == OneThread(true, Spawned, 0)
  {
    var s := Initial(2, [0, 0], 1);
    assert s.taken == [false, false] && s.counts == [0] && s.missed == [0];
  }

  lemma ServeOne()
    ensures var s := OneThread(true, Spawned, 0);
            Enabled(s, Count(0)) && Enabled(Next(s, Count(0)), Assign(0)) &&
            Next(Next(s, Count(0)), Assign(0)) == OneThread(true, Serving, 1)
  {
  }

  lemma CloseOne()
    ensures var s := OneThread(true, Serving, 1);
            Enabled(s, Uncount(0)) && Enabled(Next(s, Uncount(0)), Free(0)) &&
            Next(Next(s, Uncount(0)), Free(0)) == GivenBack
  {
  }

  lemma RunTwo(s: State, steps: seq<Step>)
    requires |steps| >= 2 && Enabled(s, steps[0]) && Enabled(Next(s, steps[0]), steps[1])
    requires Runs(Next(Next(s, steps[0]), steps[1]), steps[2..])
    ensures Runs(s, steps) && RunSteps(s, steps) == RunSteps(Next(Next(s, steps[0]), steps[1]), steps[2..])
  {
    assert steps[1..][1..] == steps[2..];
  }

  lemma GivenBackReached()
    ensures var steps := [Reserve, Spawn(0), Count(0), Assign(0), Uncount(0), Free(0)];
            var s := Initial(2, [0, 0], 1);
            Runs(s, steps) && RunSteps(s, steps) == GivenBack
  {
    StartOne();
    ServeOne();
    CloseOne();
    hide Next, Enabled, Initial, OneThread;
    RunTwo(OneThread(true, Serving, 1), [Uncount(0), Free(0)]);
    RunTwo(OneThread(true, Spawned, 0), [Count(0), Assign(0), Uncount(0), Free(0)]);
    RunTwo(Initial(2, [0, 0], 1), [Reserve, Spawn(0), Count(0), Assign(0), Uncount(0), Free(0)]);
  }

  /** Another session has taken slot 0, and a station has joined through it. */
  function Retaken(stage: Stage, active: int, stations: map<nat, nat>): State {
    State([true, false], [0, 0], [Thread(0, 0, Freed), Thread(0, 0, stage)], None, active, [active], [0], stations)
  }

  lemma Retake()
    ensures && Enabled(GivenBack, Reserve) && Enabled(Next(GivenBack, Reserve), Spawn(0))
            && Next(Next(GivenBack, Reserve), Spawn(0)) == Retaken(Spawned, 0, map[])
  {
  }

  lemma ServeOther()
    ensures var s := Retaken(Spawned, 0, map[]);
            Enabled(s, Count(1)) && Enabled(Next(s, Count(1)), Assign(1)) &&
            Next(Next(s, Count(1)), Assign(1)) == Retaken(Serving, 1, map[])
  {
  }

  lemma Lose(station: nat)
    ensures var s := Retaken(Serving, 1, map[]);
            Enabled(s, Associate(1, station, true)) &&
            var joined := Next(s, Associate(1, station, true));
            joined == Retaken(Serving, 1, map[station := 1]) && Enabled(joined, Purge(0)) &&
            var last := Next(joined, Purge(0));
            At(last, 1, Serving) && station !in last.stations
  {
  }

  /** A slot is given back before its stations are removed: a session that takes it in
      between has a station, and loses it while it is still serving. */
  lemma PurgeRace(station: nat)
    ensures var joining := [Reserve, Spawn(0), Count(1), Assign(1), Associate(1, station, true)];
            && Runs(GivenBack, joining) && Runs(GivenBack, joining + [Purge(0)])
            && RunSteps(GivenBack, joining).stations == map[station := 1]
            && At(RunSteps(GivenBack, joining + [Purge(0)]), 1, Serving)
            && station !in RunSteps(GivenBack, joining + [Purge(0)]).stations
  {
    hide Next, Enabled, At;
    Retake();
    ServeOther();
    Lose(station);
    var r0, r1 := Retaken(Spawned, 0, map[]), Retaken(Serving, 1, map[]);
    var join := Associate(1, station, true);
    RunMore(r1, [join], join);
    RunTwo(r0, [Count(1), Assign(1), join]);
    RunTwo(GivenBack, [Reserve, Spawn(0), Count(1), Assign(1), join]);
    RunTwo(r1, [join, Purge(0)]);
    RunTwo(r0, [Count(1), Assign(1), join, Purge(0)]);
    RunTwo(GivenBack, [Reserve, Spawn(0), Count(1), Assign(1), join, Purge(0)]);
    assert [Reserve, Spawn(0), Count(1), Assign(1), join] + [Purge(0)] ==
           [Reserve, Spawn(0), Count(1), Assign(1), join, Purge(0)];
  }
}
