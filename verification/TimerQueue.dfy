/** The timer queue in place: the array of slots, the slot the interval timer runs for and
    the shared time stamp, changed by the operations of `CWTimer.h`. */
module TimerQueue {
  import opened Options
  import opened Timers

  class TimerQueue {
    const timeouts: array<nat>
    const armed: array<bool>
    var next: Option<nat>
    var stamp: nat
    /** The slots whose handlers have been called, oldest first. */
    var called: seq<nat>

    predicate Sized()
      reads this
    {
      timeouts.Length == armed.Length
    }

    ghost function Value(): (q: Queue)
      reads this, timeouts, armed
    {
      Queue(timeouts[..], armed[..], next, stamp)
    }

    /** `_clkini` */
    constructor (size: nat, now: nat)
      ensures Sized() && fresh(timeouts) && fresh(armed)
      ensures Value() == Initial(size, now) && Valid(Value()) && called == []
    {
      timeouts := new nat[size](_ => 0);
      armed := new bool[size](_ => false);
      next, stamp, called := None, now, [];
      new;
      assert timeouts[..] == seq(size, _ => 0);
      assert armed[..] == seq(size, _ => false);
    }

    /** `update_all_timers_by` */
    method UpdateAllTimersBy(elapsed: nat)
      requires Sized()
      modifies this`called, timeouts, armed
      ensures Sized() && Value() == Update(old(Value()), elapsed)
      ensures called == old(called) + Expired(old(timeouts[..]), elapsed)
    {
      ghost var was := timeouts[..];
      var id := 0;
      while id < timeouts.Length
        invariant 0 <= id <= timeouts.Length
        invariant forall i | 0 <= i < id ::
                    timeouts[i] == Less(was[i], elapsed) && armed[i] == (old(armed[i]) && !Expires(was[i], elapsed))
        invariant forall i | id <= i < timeouts.Length :: timeouts[i] == was[i] && armed[i] == old(armed[i])
        invariant called == old(called) + Expired(was[..id], elapsed)
      {
        assert was[..id + 1][..id] == was[..id];
        if timeouts[id] != 0 {
          if elapsed < timeouts[id] {
            timeouts[id] := timeouts[id] - elapsed;
          } else {
            timeouts[id] := 0;
            called := called + [id];
            armed[id] := false;
          }
        }
        id := id + 1;
      }
      assert was[..id] == was;
    }

    /** `shortest_timer` */
    method ShortestTimer() returns (shortest: Option<nat>)
      ensures shortest == Shortest(timeouts[..])
    {
      var least := MANY;
      shortest := None;
      var i := 0;
      while i < timeouts.Length
        invariant 0 <= i <= timeouts.Length
        invariant shortest == Shortest(timeouts[..i])
        invariant least == if shortest.Some? then timeouts[shortest.value] else MANY
        invariant shortest.Some? ==> timeouts[shortest.value] < MANY
      {
        assert timeouts[..i + 1][..i] == timeouts[..i];
        if 0 < timeouts[i] < least {
          least := timeouts[i];
          shortest := Some(i);
        }
        i := i + 1;
      }
      assert timeouts[..i] == timeouts[..];
    }

    /** `start_timer` */
    method StartTimer(slot: Option<nat>, now: nat)
      modifies this`next, this`stamp
      ensures Value() == Start(old(Value()), slot, now)
    {
      next := slot;
      if slot.Some? {
        stamp := now;
      }
    }

    /** `cancel_itimer` */
    method CancelItimer(now: nat)
      requires Sized() && stamp <= now
      modifies this`called, timeouts, armed
      ensures Sized() && Value() == Update(old(Value()), now - stamp)
      ensures called == old(called) + Expired(old(timeouts[..]), now - stamp)
    {
      UpdateAllTimersBy(now - stamp);
    }

    method FindFree() returns (id: nat)
      requires Sized()
      ensures id == FirstFree(Value(), 0)
    {
      id := 0;
      while id < timeouts.Length && (timeouts[id] != 0 || armed[id])
        invariant 0 <= id <= timeouts.Length
        invariant FirstFree(Value(), 0) == FirstFree(Value(), id)
      {
        id := id + 1;
      }
    }

    method Install(id: nat, timeout: nat)
      requires Sized() && id < timeouts.Length
      modifies timeouts, armed
      ensures Sized() && Value() == Put(old(Value()), id, timeout)
    {
      armed[id] := true;
      timeouts[id] := timeout;
    }

    method Release(id: nat)
      requires Sized() && id < timeouts.Length
      modifies timeouts, armed
      ensures Sized() && Value() == Clear(old(Value()), id)
    {
      timeouts[id] := 0;
      armed[id] := false;
    }

    /** All slots updated, and the shortest timer started. */
    method RestartTimers(now: nat)
      requires Sized() && stamp <= now
      modifies this, timeouts, armed
      ensures Sized() && Value() == Restart(old(Value()), now)
      ensures called == old(called) + Expired(old(timeouts[..]), now - old(stamp))
    {
      hide Update, Expired, Shortest;
      UpdateAllTimersBy(now - stamp);
      var shortest := ShortestTimer();
      StartTimer(shortest, now);
    }

    /** While another timer runs: a timer that is taken for shorter, by the comparison of 32-bit
        sums, takes its place; any other waits, its timeout counted from the stamp. */
    method SetBesides(id: nat, timeout: nat, now: nat)
      requires Sized() && id < timeouts.Length && stamp <= now && next.Some? && next.value < timeouts.Length
      modifies this, timeouts, armed
      ensures Sized() && stamp <= now
      ensures var q := old(Value());
              var elapsed := now - q.stamp;
              if Shorter(q, timeout, now) then
                && Value() == Timers.Start(Put(Update(q, elapsed), id, timeout), Some(id), now)
                && called == old(called) + Expired(q.timeouts, elapsed)
              else Value() == Put(q, id, (timeout + elapsed) % WORD) && called == old(called)
    {
      var shorter := (timeout + now) % WORD < (timeouts[next.value] + stamp) % WORD;
      assert shorter == Shorter(Value(), timeout, now);
      hide Update, Expired, Put, Shorter;
      if shorter {
        CancelItimer(now);
        Install(id, timeout);
        StartTimer(Some(id), now);
      } else {
        Install(id, (timeout + (now - stamp)) % WORD);
      }
    }

    /** `_setimr` */
    method SetTimer(timeout: nat, now: nat) returns (slot: Option<nat>)
      requires Sized() && Valid(Value()) && stamp <= now && timeout < WORD
      modifies this, timeouts, armed
      ensures Sized() && stamp <= now
      ensures old(Fits(Value(), timeout, now) && Comparable(Value(), timeout, now)) ==> Valid(Value())
      ensures var o := Set(old(Value()), timeout, now);
              Value() == o.queue && called == old(called) + o.fired && slot == o.slot
    {
      hide Update, Expired, FirstFree, Put, Valid, Start, Fits, Comparable, Shorter;
      SetStaysValid(Value(), timeout, now);
      RunsInRange(Value());
      if timeout == 0 {
        return None;
      }
      var id := FindFree();
      if id == timeouts.Length {
        return None;
      }
      slot := Some(id);
      if next.None? {
        Install(id, timeout);
        StartTimer(Some(id), now);
      } else {
        SetBesides(id, timeout, now);
      }
    }

    /** `_cantim` */
    method CancelTimer(id: nat, now: nat)
      requires Sized() && Valid(Value()) && id < timeouts.Length && stamp <= now
      modifies this, timeouts, armed
      ensures Sized() && Valid(Value()) && stamp <= now
      ensures var o := Cancel(old(Value()), id, now);
              Value() == o.queue && called == old(called) + o.fired
    {
      CancelStaysValid(Value(), id, now);
      hide Expired, Valid, Clear, Restart;
      Release(id);
      if next == Some(id) {
        RestartTimers(now);
      }
    }

    /** `clk_isr` */
    method ClockInterrupt(now: nat)
      requires Sized() && Valid(Value()) && stamp <= now
      modifies this, timeouts, armed
      ensures Sized() && Valid(Value()) && stamp <= now
      ensures var o := Interrupt(old(Value()), now);
              Value() == o.queue && called == old(called) + o.fired
    {
      InterruptStaysValid(Value(), now);
      hide Update, Expired, Valid, Restart;
      if next.None? {
        UpdateAllTimersBy(now - stamp);
      } else {
        RestartTimers(now);
      }
    }
  }
}
