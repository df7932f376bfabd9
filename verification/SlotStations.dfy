/** Which station belongs to which session, over every interleaving of session starts,
    associations and closes; and which interface each session is counted on. */
module SlotStations {
  import opened Options
  import opened Slots

  // ---------- one close ----------

  /** Removing the stations of a closing session takes exactly those that joined through a
      session with the same slot number, whether it still holds the slot or not; every other
      station stays with its session. */
  lemma PurgeTakes(s: State, t: nat, x: nat)
    requires Owned(s) && Enabled(s, Purge(t))
    ensures var after := Next(s, Purge(t)).stations;
            && (x in after <==> x in s.stations && s.threads[s.stations[x]].slot != s.threads[t].slot)
            && (x in after ==> after[x] == s.stations[x])
  {
  }

  // ---------- every run ----------

  /** The station joins through session `u`: it was unknown, or known on a radio of the same
      number. */
  predicate Joins(s: State, step: Step, u: nat, x: nat) {
    step.Associate? && step.thread == u && step.station == x && (step.sameRadio || x !in s.stations)
  }

  /** The step takes the station from session `u`: it joins through any session, known on a
      radio of the same number, or a session with the slot number of `u` removes its
      stations. */
  predicate Leaves(s: State, step: Step, u: nat, x: nat)
    requires Enabled(s, step)
  {
    || (step.Associate? && step.station == x && step.sameRadio)
    || (step.Purge? && u < |s.threads| && s.threads[step.thread].slot == s.threads[u].slot)
  }

  predicate Served(s: State, u: nat, x: nat) {
    x in s.stations && s.stations[x] == u
  }

  lemma ServedNext(s: State, step: Step, u: nat, x: nat)
    requires Owned(s) && Enabled(s, step)
    ensures Served(Next(s, step), u, x) <==> Joins(s, step, u, x) || (Served(s, u, x) && !Leaves(s, step, u, x))
  {
  }

  /** Nothing takes the station from session `u` in a run. */
  predicate Stays(s: State, steps: seq<Step>, u: nat, x: nat)
    requires Runs(s, steps)
    decreases |steps|
  {
    steps == [] || (!Leaves(s, steps[0], u, x) && Stays(Next(s, steps[0]), steps[1..], u, x))
  }

  /** In a run the station joins through session `u`, and nothing takes it from there later. */
  predicate JoinsAndStays(s: State, steps: seq<Step>, u: nat, x: nat)
    requires Runs(s, steps)
    decreases |steps|
  {
    steps != [] && var next := Next(s, steps[0]);
    (Joins(s, steps[0], u, x) && Stays(next, steps[1..], u, x)) || JoinsAndStays(next, steps[1..], u, x)
  }

  /** After every run a station is in the table with session `u` if and only if it joined
      through it in the run, or was there before, and nothing took it from there since. */
  lemma {:induction false} ServedIff(s: State, steps: seq<Step>, u: nat, x: nat)
    requires Owned(s) && Runs(s, steps)
    ensures Served(RunSteps(s, steps), u, x) <==>
            JoinsAndStays(s, steps, u, x) || (Served(s, u, x) && Stays(s, steps, u, x))
    decreases |steps|
  {
    if steps != [] {
      ServedNext(s, steps[0], u, x);
      OwnedNext(s, steps[0]);
      hide Next, Owned, Served, Joins, Leaves;
      ServedIff(Next(s, steps[0]), steps[1..], u, x);
    }
  }

  /** From the start: exactly if it joined through the session and nothing took it since. */
  lemma ServedFromStart(size: nat, slotIface: seq<nat>, ifaces: nat, steps: seq<Step>, u: nat, x: nat)
    requires Runs(Initial(size, slotIface, ifaces), steps)
    ensures Served(RunSteps(Initial(size, slotIface, ifaces), steps), u, x) <==>
            JoinsAndStays(Initial(size, slotIface, ifaces), steps, u, x)
  {
    ServedIff(Initial(size, slotIface, ifaces), steps, u, x);
  }

  // ---------- starting and ending ----------

  /** Giving a reserved slot back undoes taking it. */
  lemma GiveBackUndoes(s: State)
    requires Enabled(s, Reserve)
    ensures Enabled(Next(s, Reserve), GiveBack) && Next(Next(s, Reserve), GiveBack) == s
  {
    var i := FirstFree(s.taken, 0);
    assert s.taken[i := true][i := false] == s.taken;
  }

  /** The step a session takes next on its way to the end. */
  function Onward(stage: Stage, t: nat): Step {
    match stage
    case Spawned => Count(t)
    case Counted => Assign(t)
    case Serving => Uncount(t)
    case Uncounted => Free(t)
    case _ => Purge(t)
  }

  /** No session is ever stuck: in every state that a run can reach, one that has not ended can
      take its next step, and comes one stage further. */
  lemma NeverStuck(s: State, t: nat)
    requires Inv(s) && t < |s.threads| && !s.threads[t].stage.Exited?
    ensures var step := Onward(s.threads[t].stage, t);
            && Enabled(s, step)
            && Next(s, step).threads[t].stage ==
               match s.threads[t].stage
               case Spawned => Counted
               case Counted => Serving
               case Serving => Uncounted
               case Uncounted => Freed
               case _ => Exited
  {
  }

  // ---------- interfaces ----------

  function Interfaces(threads: seq<Thread>): (ifaces: seq<nat>)
    ensures |ifaces| == |threads|
  {
    seq(|threads|, i requires 0 <= i < |threads| => threads[i].iface)
  }

  /** The interfaces of the sessions a run starts, in order. */
  function Started(steps: seq<Step>): seq<nat> {
    if steps == [] then []
    else (if steps[0].Spawn? then [steps[0].iface] else []) + Started(steps[1..])
  }

  lemma InterfacesNext(s: State, step: Step)
    requires Enabled(s, step)
    ensures Interfaces(Next(s, step).threads) == Interfaces(s.threads) + if step.Spawn? then [step.iface] else []
  {
  }

  lemma Grouped(a: seq<nat>, b: seq<nat>, c: seq<nat>)
    ensures a + b + c == a + (b + c) && a + [] == a
  {
  }

  /** Every session keeps the interface it was started for. */
  lemma {:induction false} InterfacesKept(s: State, steps: seq<Step>)
    requires Runs(s, steps)
    ensures Interfaces(RunSteps(s, steps).threads) == Interfaces(s.threads) + Started(steps)
    decreases |steps|
  {
    hide Next, Enabled, Interfaces;
    if steps != [] {
      InterfacesNext(s, steps[0]);
      InterfacesKept(Next(s, steps[0]), steps[1..]);
      Grouped(Interfaces(s.threads), if steps[0].Spawn? then [steps[0].iface] else [], Started(steps[1..]));
    }
  }

  /** A session that closes before it was counted is taken off the interface that its slot
      still names: here one that has no session at all. */
  lemma Mischarged()
    ensures var s, steps := Initial(1, [0], 2), [Reserve, Spawn(1), Uncount(0)];
            Runs(s, steps) && RunSteps(s, steps).counts == [-1, 0] && RunSteps(s, steps).active == -1
  {
    MischargedStart();
    MischargedClose();
    hide Next, Enabled;
    RunMore(Uncounting, [Uncount(0)], Uncount(0));
    RunTwo(Initial(1, [0], 2), [Reserve, Spawn(1), Uncount(0)]);
  }

  const Uncounting := State([true], [0], [Thread(0, 1, Spawned)], None, 0, [0, 0], [0, 0], map[])

  lemma MischargedStart()
    ensures var s := Initial(1, [0], 2);
            Enabled(s, Reserve) && Enabled(Next(s, Reserve), Spawn(1)) && Next(Next(s, Reserve), Spawn(1)) == Uncounting
  {
    var s := Initial(1, [0], 2);
    assert s.counts == [0, 0] && s.missed == [0, 0] && s.taken == [false];
  }

  lemma MischargedClose()
    ensures Enabled(Uncounting, Uncount(0))
    ensures var last := Next(Uncounting, Uncount(0)); last.counts == [-1, 0] && last.active == -1
  {
  }
}
