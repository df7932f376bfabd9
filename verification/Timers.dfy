/** The timer queue: an array of timeouts that all count from one shared time stamp. It
    is shown to behave as a table of absolute deadlines. Times are ticks of ten
    milliseconds; every operation reads the clock once. */
module Timers {
  import opened Options

  /** Larger than any timeout: `~0` as an unsigned number. */
  const MANY: nat := 0xFFFF_FFFF
  const WORD: nat := 0x1_0000_0000

  /** Timeout 0 means that nothing is pending in a slot; `armed` tells whether its event
      pointer is set. `next` is the slot the interval timer runs for. */
  datatype Queue = Queue(timeouts: seq<nat>, armed: seq<bool>, next: Option<nat>, stamp: nat)

  // ---------- the operations ----------

  /** `update_all_timers_by` on one timeout. */
  function Less(timeout: nat, elapsed: nat): nat {
    if elapsed < timeout then timeout - elapsed else 0
  }

  function Expires(timeout: nat, elapsed: nat): bool {
    0 < timeout <= elapsed
  }

  /** `update_all_timers_by`: elapsed time is taken off every timeout; slots that run out
      are released. */
  function Update(q: Queue, elapsed: nat): Queue
    requires |q.armed| == |q.timeouts|
  {
    q.(timeouts := seq(|q.timeouts|, i requires 0 <= i < |q.timeouts| => Less(q.timeouts[i], elapsed)),
       armed := seq(|q.timeouts|, i requires 0 <= i < |q.timeouts| => q.armed[i] && !Expires(q.timeouts[i], elapsed)))
  }

  /** The slots that run out, whose handlers are called, in ascending order. */
  function Expired(timeouts: seq<nat>, elapsed: nat): seq<nat> {
    if timeouts == [] then []
    else
      var n := |timeouts| - 1;
      Expired(timeouts[..n], elapsed) + if Expires(timeouts[n], elapsed) then [n] else []
  }

  /** `shortest_timer`: the first slot with the least timeout above 0 and below `MANY`. */
  function Shortest(timeouts: seq<nat>): (s: Option<nat>)
    ensures s.Some? ==> s.value < |timeouts|
  {
    if timeouts == [] then None
    else
      var n := |timeouts| - 1;
      var s := Shortest(timeouts[..n]);
      if 0 < timeouts[n] < MANY && (s.None? || timeouts[n] < timeouts[s.value]) then Some(n) else s
  }

  /** `start_timer` */
  function Start(q: Queue, slot: Option<nat>, now: nat): Queue {
    if slot.Some? then q.(next := slot, stamp := now) else q.(next := None)
  }

  function Free(q: Queue, i: nat): bool
    requires |q.armed| == |q.timeouts|
  {
    i < |q.timeouts| && q.timeouts[i] == 0 && !q.armed[i]
  }

  function FirstFree(q: Queue, from: nat): (i: nat)
    requires |q.armed| == |q.timeouts| && from <= |q.timeouts|
    ensures from <= i <= |q.timeouts| && (i < |q.timeouts| ==> Free(q, i))
    ensures forall k | from <= k < i :: !Free(q, k)
    decreases |q.timeouts| - from
  {
    if from == |q.timeouts| || Free(q, from) then from else FirstFree(q, from + 1)
  }

  function Put(q: Queue, i: nat, timeout: nat): Queue
    requires |q.armed| == |q.timeouts| && i < |q.timeouts|
  {
    q.(timeouts := q.timeouts[i := timeout], armed := q.armed[i := true])
  }

  /** What an operation leaves: the queue, the slots whose handlers were called, and the
      slot used, if any. */
  datatype Outcome = Outcome(queue: Queue, fired: seq<nat>, slot: Option<nat>)

  /** Whether the program takes a timeout for shorter than the running one: the sums it
      compares are 32-bit. */
  predicate Shorter(q: Queue, timeout: nat, now: nat)
    requires q.next.Some? && q.next.value < |q.timeouts|
  {
    (timeout + now) % WORD < (q.timeouts[q.next.value] + q.stamp) % WORD
  }

  /** `_setimr` */
  function Set(q: Queue, timeout: nat, now: nat): Outcome
    requires Valid(q) && q.stamp <= now && timeout < WORD
  {
    var i := FirstFree(q, 0);
    if timeout == 0 || i == |q.timeouts| then Outcome(q, [], None)
    else if q.next.None? then Outcome(Start(Put(q, i, timeout), Some(i), now), [], Some(i))
    else if Shorter(q, timeout, now) then
      Outcome(Start(Put(Update(q, now - q.stamp), i, timeout), Some(i), now),
              Expired(q.timeouts, now - q.stamp), Some(i))
    else Outcome(Put(q, i, (timeout + (now - q.stamp)) % WORD), [], Some(i))
  }

  function Clear(q: Queue, i: nat): Queue
    requires |q.armed| == |q.timeouts| && i < |q.timeouts|
  {
    q.(timeouts := q.timeouts[i := 0], armed := q.armed[i := false])
  }

  /** `_cantim` */
  function Cancel(q: Queue, i: nat, now: nat): Outcome
    requires Valid(q) && i < |q.timeouts| && q.stamp <= now
  {
    var c := Clear(q, i);
    if q.next != Some(i) then Outcome(c, [], None)
    else Outcome(Restart(c, now), Expired(c.timeouts, now - q.stamp), None)
  }

  /** `clk_isr` */
  function Interrupt(q: Queue, now: nat): Outcome
    requires Valid(q) && q.stamp <= now
  {
    var fired := Expired(q.timeouts, now - q.stamp);
    if q.next.None? then Outcome(Update(q, now - q.stamp), fired, None)
    else Outcome(Restart(q, now), fired, None)
  }

  // ---------- what every operation keeps ----------

  /** A slot is armed exactly while its timeout runs; the interval timer runs for a slot
      with the least timeout, and for none only if nothing is pending. */
  ghost predicate Valid(q: Queue) {
    && Shaped(q)
    && (match q.next
        case None => forall i | 0 <= i < |q.timeouts| :: q.timeouts[i] == 0
        case Some(n) => n < |q.timeouts| && q.timeouts[n] > 0 &&
                        forall i | 0 <= i < |q.timeouts| && q.timeouts[i] > 0 :: q.timeouts[n] <= q.timeouts[i])
  }

  /** The absolute deadlines of the pending slots: what the queue stands for. */
  ghost function Deadlines(q: Queue): map<nat, nat> {
    map i: nat | i < |q.timeouts| && q.timeouts[i] > 0 :: q.timeouts[i] + q.stamp
  }

  /** The deadlines that are still ahead. */
  ghost function Ahead(d: map<nat, nat>, now: nat): map<nat, nat> {
    map i | i in d && d[i] > now :: d[i]
  }

  /** Nothing is found exactly if nothing is pending below `MANY`; a timeout of `MANY` or
      more is missed. What is found is the first of the least ones. */
  lemma {:induction false} ShortestIsLeast(timeouts: seq<nat>)
    ensures match Shortest(timeouts)
            case None => forall i | 0 <= i < |timeouts| :: timeouts[i] == 0 || timeouts[i] >= MANY
            case Some(n) => n < |timeouts| && 0 < timeouts[n] < MANY &&
                            forall i | 0 <= i < |timeouts| && timeouts[i] > 0 ::
                              if i < n then timeouts[n] < timeouts[i] else timeouts[n] <= timeouts[i]
  {
    if timeouts != [] {
      ShortestIsLeast(timeouts[..|timeouts| - 1]);
    }
  }

  lemma {:induction false} ExpiredAre(timeouts: seq<nat>, elapsed: nat)
    ensures forall i: nat :: i in Expired(timeouts, elapsed) <==> i < |timeouts| && Expires(timeouts[i], elapsed)
    ensures forall i, j | 0 <= i < j < |Expired(timeouts, elapsed)| ::
              Expired(timeouts, elapsed)[i] < Expired(timeouts, elapsed)[j]
  {
    if timeouts != [] {
      var n := |timeouts| - 1;
      var init := Expired(timeouts[..n], elapsed);
      ExpiredAre(timeouts[..n], elapsed);
      forall i: nat
        ensures i in Expired(timeouts, elapsed) <==> i < |timeouts| && Expires(timeouts[i], elapsed)
      {
        assert i in init <==> i < n && Expires(timeouts[..n][i], elapsed);
      }
      forall k | 0 <= k < |init|
        ensures init[k] < n
      {
        assert init[k] in init;
      }
    }
  }

  /** Updating and moving the stamp keeps every deadline that is ahead; what expires is
      what is due. */
  lemma UpdateDeadlines(q: Queue, now: nat)
    requires |q.armed| == |q.timeouts| && q.stamp <= now
    ensures Deadlines(Update(q, now - q.stamp).(stamp := now)) == Ahead(Deadlines(q), now)
    ensures forall i: nat :: i in Expired(q.timeouts, now - q.stamp) <==> i in Deadlines(q) && Deadlines(q)[i] <= now
  {
    ExpiredAre(q.timeouts, now - q.stamp);
    var u := Update(q, now - q.stamp).(stamp := now);
    var a, b := Deadlines(u), Ahead(Deadlines(q), now);
    forall i: nat
      ensures i in a <==> i in b
      ensures i in a ==> a[i] == b[i]
    {
      if i < |q.timeouts| {
        assert u.timeouts[i] == Less(q.timeouts[i], now - q.stamp);
      }
    }
  }

  /** Handlers are called exactly for what is due, each once. */
  ghost predicate FiresDue(fired: seq<nat>, d: map<nat, nat>, now: nat) {
    && (forall i: nat :: i in fired <==> i in d && d[i] <= now)
    && (forall i, j | 0 <= i < j < |fired| :: fired[i] != fired[j])
  }

  /** Every timeout is in range, and a slot is armed exactly while it is pending. */
  ghost predicate Shaped(q: Queue) {
    && |q.armed| == |q.timeouts|
    && (forall i | 0 <= i < |q.timeouts| :: q.timeouts[i] < MANY && (q.armed[i] <==> q.timeouts[i] > 0))
  }

  /** Updating and starting the shortest timer. */
  function Restart(q: Queue, now: nat): Queue
    requires |q.armed| == |q.timeouts| && q.stamp <= now
  {
    var u := Update(q, now - q.stamp);
    Start(u, Shortest(u.timeouts), now)
  }

  lemma FiredAreDue(q: Queue, now: nat)
    requires Shaped(q) && q.stamp <= now
    ensures FiresDue(Expired(q.timeouts, now - q.stamp), Deadlines(q), now)
  {
    ExpiredAre(q.timeouts, now - q.stamp);
    UpdateDeadlines(q, now);
  }

  lemma RestartValid(q: Queue, now: nat)
    requires Shaped(q) && q.stamp <= now
    ensures Valid(Restart(q, now)) && Restart(q, now).stamp <= now
  {
    ShortestIsLeast(Update(q, now - q.stamp).timeouts);
  }

  lemma RestartDeadlines(q: Queue, now: nat)
    requires Shaped(q) && q.stamp <= now
    ensures Deadlines(Restart(q, now)) == Ahead(Deadlines(q), now)
  {
    UpdateDeadlines(q, now);
    RestartValid(q, now);
    var s, u := Restart(q, now), Update(q, now - q.stamp).(stamp := now);
    assert s.timeouts == u.timeouts;
    if s.next.None? {
      assert Deadlines(s) == map[] == Deadlines(u);
    } else {
      assert Deadlines(s) == Deadlines(u);
    }
  }

  lemma RestartCorrect(q: Queue, now: nat)
    requires Shaped(q) && q.stamp <= now
    ensures var s := Restart(q, now);
            Valid(s) && s.stamp <= now && Deadlines(s) == Ahead(Deadlines(q), now)
    ensures FiresDue(Expired(q.timeouts, now - q.stamp), Deadlines(q), now)
  {
    hide *;
    RestartValid(q, now);
    RestartDeadlines(q, now);
    FiredAreDue(q, now);
  }

  /** The clock interrupt: everything due is fired, nothing early, every other deadline
      stays, and the timer runs for a least one. */
  lemma InterruptCorrect(q: Queue, now: nat)
    requires Valid(q) && q.stamp <= now
    ensures var o := Interrupt(q, now);
            && Valid(o.queue) && o.queue.stamp <= now
            && Deadlines(o.queue) == Ahead(Deadlines(q), now)
            && FiresDue(o.fired, Deadlines(q), now)
  {
    RestartCorrect(q, now);
    if q.next.None? {
      assert Deadlines(q) == map[];
      assert Deadlines(Interrupt(q, now).queue) == map[];
    }
  }

  lemma ClearDeadlines(q: Queue, i: nat)
    requires Shaped(q) && i < |q.timeouts|
    ensures Shaped(Clear(q, i)) && Deadlines(Clear(q, i)) == Deadlines(q) - {i}
  {
  }

  /** Cancelling removes one deadline. If the timer was running for it, what is due is
      fired as by an interrupt; otherwise nothing fires. */
  lemma CancelCorrect(q: Queue, i: nat, now: nat)
    requires Valid(q) && i < |q.timeouts| && q.stamp <= now
    ensures var o := Cancel(q, i, now);
            var d := Deadlines(q) - {i};
            && Valid(o.queue) && o.queue.stamp <= now
            && (if q.next == Some(i) then Deadlines(o.queue) == Ahead(d, now) && FiresDue(o.fired, d, now)
                else Deadlines(o.queue) == d && o.fired == [])
  {
    ClearDeadlines(q, i);
    if q.next == Some(i) {
      hide Restart, Deadlines, FiresDue, Expired;
      RestartCorrect(Clear(q, i), now);
    }
  }

  lemma PutDeadlines(q: Queue, i: nat, timeout: nat)
    requires |q.armed| == |q.timeouts| && i < |q.timeouts| && timeout > 0
    ensures Deadlines(Put(q, i, timeout)) == Deadlines(q)[i := timeout + q.stamp]
  {
  }

  lemma {:induction false} NothingExpires(timeouts: seq<nat>, elapsed: nat)
    requires forall i | 0 <= i < |timeouts| :: !Expires(timeouts[i], elapsed)
    ensures Expired(timeouts, elapsed) == []
  {
    if timeouts != [] {
      NothingExpires(timeouts[..|timeouts| - 1], elapsed);
    }
  }

  /** A timeout fits its slot: it is below `MANY`, and so is what is stored if it counts from
      the stamp. */
  predicate Fits(q: Queue, timeout: nat, now: nat)
    requires q.stamp <= now
  {
    timeout < MANY && (q.next.Some? ==> timeout + (now - q.stamp) < MANY)
  }

  /** The 32-bit sums compare as the deadlines do. */
  predicate Comparable(q: Queue, timeout: nat, now: nat)
    requires q.next.Some? ==> q.next.value < |q.timeouts|
  {
    q.next.Some? ==> (Shorter(q, timeout, now) <==> timeout + now < q.timeouts[q.next.value] + q.stamp)
  }

  /** A timer was set in slot `i`, with the right deadline, in a queue that works. */
  ghost predicate WasInstalled(q: Queue, after: Queue, i: nat, deadline: nat) {
    Valid(after) && Deadlines(after) == Deadlines(q)[i := deadline]
  }

  /** Every other deadline is as it was. */
  ghost predicate OthersKept(q: Queue, after: Queue, i: nat) {
    Deadlines(after) - {i} == Deadlines(q)
  }

  lemma PutKeepsOthers(q: Queue, i: nat, timeout: nat)
    requires Shaped(q) && i < |q.timeouts| && i !in Deadlines(q)
    ensures OthersKept(q, Put(q, i, timeout), i)
  {
  }

  lemma SetFirst(q: Queue, i: nat, timeout: nat, now: nat)
    requires Valid(q) && q.next.None? && i < |q.timeouts| && 0 < timeout < WORD && q.stamp <= now
    ensures var s := Start(Put(q, i, timeout), Some(i), now);
            && s.stamp <= now && OthersKept(q, s, i)
            && (WasInstalled(q, s, i, now + timeout) <==> Fits(q, timeout, now))
  {
    PutDeadlines(q.(stamp := now), i, timeout);
    assert Deadlines(q) == map[] && Deadlines(q.(stamp := now)) == map[];
    var s := Start(Put(q, i, timeout), Some(i), now);
    SameTimeouts(s, Put(q.(stamp := now), i, timeout));
    assert s.timeouts[i] == timeout;
  }

  lemma ShorterDeadlines(q: Queue, i: nat, timeout: nat, now: nat)
    requires |q.armed| == |q.timeouts| && i < |q.timeouts| && q.stamp <= now && timeout > 0
    requires forall k | k in Deadlines(q) :: Deadlines(q)[k] > now
    ensures Deadlines(Start(Put(Update(q, now - q.stamp), i, timeout), Some(i), now)) ==
            Deadlines(q)[i := now + timeout]
  {
    UpdateDeadlines(q, now);
    assert Ahead(Deadlines(q), now) == Deadlines(q);
    hide Deadlines, Update;
    var u := Update(q, now - q.stamp);
    PutDeadlines(u.(stamp := now), i, timeout);
    SameTimeouts(Start(Put(u, i, timeout), Some(i), now), Put(u.(stamp := now), i, timeout));
  }

  lemma SameTimeouts(q: Queue, r: Queue)
    requires q.timeouts == r.timeouts && q.stamp == r.stamp
    ensures Deadlines(q) == Deadlines(r)
  {
  }

  lemma SetShorter(q: Queue, i: nat, timeout: nat, now: nat)
    requires Valid(q) && q.next.Some? && i < |q.timeouts| && q.stamp <= now && timeout > 0
    requires i !in Deadlines(q) && timeout + now < q.timeouts[q.next.value] + q.stamp
    ensures var s := Start(Put(Update(q, now - q.stamp), i, timeout), Some(i), now);
            && s.stamp <= now && OthersKept(q, s, i)
            && WasInstalled(q, s, i, now + timeout) && Fits(q, timeout, now)
    ensures Expired(q.timeouts, now - q.stamp) == []
  {
    NothingExpires(q.timeouts, now - q.stamp);
    ShorterDeadlines(q, i, timeout, now);
    AddedAndTaken(Deadlines(q), i, now + timeout);
    hide Deadlines;
  }

  lemma AddedAndTaken(d: map<nat, nat>, i: nat, deadline: nat)
    requires i !in d
    ensures d[i := deadline] - {i} == d
  {
  }

  lemma SetLonger(q: Queue, i: nat, timeout: nat, now: nat)
    requires Valid(q) && q.next.Some? && Free(q, i) && q.stamp <= now && 0 < timeout < WORD && i !in Deadlines(q)
    requires q.timeouts[q.next.value] + q.stamp <= timeout + now
    ensures var s := Put(q, i, (timeout + (now - q.stamp)) % WORD);
            && s.stamp <= now && OthersKept(q, s, i)
            && (WasInstalled(q, s, i, now + timeout) <==> Fits(q, timeout, now))
  {
    var sum := timeout + (now - q.stamp);
    PutKeepsOthers(q, i, sum % WORD);
    if sum < WORD {
      assert sum % WORD == sum;
      PutDeadlines(q, i, sum);
      assert Put(q, i, sum).timeouts[i] == sum;
    } else {
      Wrapped(q, i, sum);
    }
  }

  /** A sum that wraps gives another deadline, or none. */
  lemma Wrapped(q: Queue, i: nat, sum: nat)
    requires |q.armed| == |q.timeouts| && i < |q.timeouts| && sum >= WORD
    ensures Deadlines(Put(q, i, sum % WORD)) != Deadlines(q)[i := q.stamp + sum]
  {
    var s := Put(q, i, sum % WORD);
    assert s.timeouts[i] == sum % WORD < WORD <= sum;
    assert i in Deadlines(s) ==> Deadlines(s)[i] == sum % WORD + q.stamp;
    assert i in Deadlines(q)[i := q.stamp + sum] && Deadlines(q)[i := q.stamp + sum][i] == q.stamp + sum;
  }

  /** The sums mislead and a longer timer is taken for a shorter one: the timer runs for it,
      or what was due has been fired. */
  lemma SetMistaken(q: Queue, i: nat, timeout: nat, now: nat)
    requires Valid(q) && q.next.Some? && Free(q, i) && q.stamp <= now && timeout > 0
    requires q.timeouts[q.next.value] + q.stamp < timeout + now
    ensures var s := Start(Put(Update(q, now - q.stamp), i, timeout), Some(i), now);
            && s.stamp <= now && !WasInstalled(q, s, i, now + timeout)
            && Deadlines(s) - {i} == Ahead(Deadlines(q), now)
    ensures FiresDue(Expired(q.timeouts, now - q.stamp), Deadlines(q), now)
  {
    var u := Update(q, now - q.stamp);
    var s, n := Start(Put(u, i, timeout), Some(i), now), q.next.value;
    FiredAreDue(q, now);
    UpdateDeadlines(q, now);
    PutDeadlines(u.(stamp := now), i, timeout);
    SameTimeouts(s, Put(u.(stamp := now), i, timeout));
    FreeIsNotPending(q, i);
    AddedAndTaken(Ahead(Deadlines(q), now), i, now + timeout);
    assert n != i && s.timeouts[n] == Less(q.timeouts[n], now - q.stamp);
    if s.timeouts[n] == 0 {
      assert n in Deadlines(q)[i := now + timeout] && n !in Deadlines(s);
    } else {
      assert s.timeouts[n] < timeout == s.timeouts[i];
    }
  }

  /** The sums mislead and a shorter timer is taken for a longer one: the timer still runs for
      the other one. */
  lemma SetMissed(q: Queue, i: nat, timeout: nat, now: nat)
    requires Valid(q) && q.next.Some? && Free(q, i) && q.stamp <= now && timeout > 0
    requires timeout + now < q.timeouts[q.next.value] + q.stamp
    ensures var s := Put(q, i, (timeout + (now - q.stamp)) % WORD);
            s.stamp <= now && !WasInstalled(q, s, i, now + timeout) && OthersKept(q, s, i)
  {
    var sum := timeout + (now - q.stamp);
    assert sum % WORD == sum;
    FreeIsNotPending(q, i);
    PutKeepsOthers(q, i, sum);
    var s := Put(q, i, sum);
    assert s.timeouts[i] == sum < s.timeouts[q.next.value];
  }

  /** What a setting leaves of the other timers: all of them, or all that are not due, and
      then those that are were fired. */
  ghost predicate OthersFair(q: Queue, o: Outcome, i: nat, now: nat) {
    || (OthersKept(q, o.queue, i) && o.fired == [])
    || (Deadlines(o.queue) - {i} == Ahead(Deadlines(q), now) && FiresDue(o.fired, Deadlines(q), now))
  }

  lemma EqualIsNotShorter(q: Queue, timeout: nat, now: nat)
    requires q.next.Some? && q.next.value < |q.timeouts|
    ensures timeout + now == q.timeouts[q.next.value] + q.stamp ==> !Shorter(q, timeout, now)
  {
  }

  lemma SetRunning(q: Queue, timeout: nat, now: nat)
    requires Valid(q) && q.stamp <= now && 0 < timeout < WORD && q.next.Some? && FirstFree(q, 0) < |q.timeouts|
    ensures var o, i := Set(q, timeout, now), FirstFree(q, 0);
            && o.queue.stamp <= now && OthersFair(q, o, i, now)
            && (Comparable(q, timeout, now) ==> OthersKept(q, o.queue, i) && o.fired == [])
            && (WasInstalled(q, o.queue, i, now + timeout) <==> Fits(q, timeout, now) && Comparable(q, timeout, now))
  {
    hide Deadlines, Expired, Update, Put, Start, Ahead, OthersKept, WasInstalled, FiresDue, Shorter, Fits;
    var i := FirstFree(q, 0);
    FreeIsNotPending(q, i);
    EqualIsNotShorter(q, timeout, now);
    var deadline := q.timeouts[q.next.value] + q.stamp;
    if timeout + now < deadline {
      if Shorter(q, timeout, now) {
        SetShorter(q, i, timeout, now);
      } else {
        SetMissed(q, i, timeout, now);
      }
    } else if Shorter(q, timeout, now) {
      SetMistaken(q, i, timeout, now);
    } else {
      SetLonger(q, i, timeout, now);
    }
  }

  /** Setting a timer takes the first free slot, if there is one. It leaves the deadlines of
      all others, or fires what is due. The queue works on, with the new deadline, if and
      only if the timeout fits its slot and the 32-bit sums compare as the deadlines do; then
      nothing fires. */
  lemma SetCorrect(q: Queue, timeout: nat, now: nat)
    requires Valid(q) && q.stamp <= now && timeout < WORD
    ensures var o := Set(q, timeout, now);
            && o.queue.stamp <= now
            && (match o.slot
                case None =>
                  && o.queue == q && o.fired == []
                  && (timeout == 0 || forall i: nat | i < |q.timeouts| :: i in Deadlines(q))
                case Some(i) =>
                  && timeout > 0 && i < |q.timeouts| && i !in Deadlines(q) && OthersFair(q, o, i, now)
                  && (Comparable(q, timeout, now) ==> OthersKept(q, o.queue, i) && o.fired == [])
                  && (WasInstalled(q, o.queue, i, now + timeout) <==>
                      Fits(q, timeout, now) && Comparable(q, timeout, now)))
  {
    hide Deadlines, Expired, Update, Put, Start, Ahead, OthersKept, WasInstalled, FiresDue;
    var i := FirstFree(q, 0);
    forall k: nat | k < |q.timeouts| ensures Free(q, k) <==> k !in Deadlines(q) {
      FreeIsNotPending(q, k);
    }
    if timeout == 0 || i == |q.timeouts| {
    } else if q.next.None? {
      SetFirst(q, i, timeout, now);
    } else {
      SetRunning(q, timeout, now);
    }
  }

  /** With the clock ten ticks before it wraps and a timer of five ticks running, a new one of
      a hundred ticks is taken for the shorter one. */
  lemma SetMistakenExample()
    ensures var now: nat := WORD - 10;
            var q := Queue([5, 0], [true, false], Some(0), now);
            && Valid(q) && Fits(q, 100, now) && !Comparable(q, 100, now)
            && Set(q, 100, now).queue.next == Some(1) && !Valid(Set(q, 100, now).queue)
  {
    var now: nat := WORD - 10;
    var q := Queue([5, 0], [true, false], Some(0), now);
    assert Valid(q);
    assert (100 + now) % WORD == 90 && (5 + now) % WORD == WORD - 5;
    var o := Set(q, 100, now);
    assert FirstFree(q, 0) == 1;
    assert o.queue.timeouts[0] == 5 && o.queue.timeouts[1] == 100;
  }

  lemma RunsInRange(q: Queue)
    requires Valid(q)
    ensures |q.armed| == |q.timeouts| && (q.next.Some? ==> q.next.value < |q.timeouts|)
  {
  }

  lemma SetStaysValid(q: Queue, timeout: nat, now: nat)
    requires Valid(q) && q.stamp <= now && timeout < WORD
    ensures Set(q, timeout, now).queue.stamp <= now
    ensures Fits(q, timeout, now) && Comparable(q, timeout, now) ==> Valid(Set(q, timeout, now).queue)
  {
    SetCorrect(q, timeout, now);
  }

  lemma CancelStaysValid(q: Queue, i: nat, now: nat)
    requires Valid(q) && i < |q.timeouts| && q.stamp <= now
    ensures Valid(Cancel(q, i, now).queue) && Cancel(q, i, now).queue.stamp <= now
  {
    CancelCorrect(q, i, now);
  }

  lemma InterruptStaysValid(q: Queue, now: nat)
    requires Valid(q) && q.stamp <= now
    ensures Valid(Interrupt(q, now).queue) && Interrupt(q, now).queue.stamp <= now
  {
    InterruptCorrect(q, now);
  }

  lemma FreeIsNotPending(q: Queue, i: nat)
    requires Shaped(q)
    ensures i < |q.timeouts| ==> (Free(q, i) <==> i !in Deadlines(q))
  {
  }

  // ---------- whole runs ----------

  /** What happens to one slot: it is given a deadline, its handler is called, or it is
      cancelled while pending. */
  datatype Entry = WasSet(slot: nat, deadline: nat) | WasFired(slot: nat, at: nat) | WasCancelled(slot: nat)

  /** The deadlines a log leaves pending. A log makes sense only if a slot is set while it
      is free, fired while it is pending and not before its deadline, and cancelled while
      it is pending: so each setting is followed by at most one firing. */
  ghost function Replay(d: map<nat, nat>, log: seq<Entry>): Option<map<nat, nat>>
    decreases |log|
  {
    if log == [] then Some(d)
    else
      match log[0]
      case WasSet(i, deadline) => if i in d then None else Replay(d[i := deadline], log[1..])
      case WasFired(i, at) => if i in d && d[i] <= at then Replay(d - {i}, log[1..]) else None
      case WasCancelled(i) => if i in d then Replay(d - {i}, log[1..]) else None
  }

  lemma {:induction false} ReplayAppend(d: map<nat, nat>, a: seq<Entry>, b: seq<Entry>)
    requires Replay(d, a).Some?
    ensures Replay(d, a + b) == Replay(Replay(d, a).value, b)
    decreases |a|
  {
    if a == [] {
      assert a + b == b;
    } else {
      assert (a + b)[1..] == a[1..] + b;
      match a[0]
      case WasSet(i, deadline) => ReplayAppend(d[i := deadline], a[1..], b);
      case WasFired(i, at) => ReplayAppend(d - {i}, a[1..], b);
      case WasCancelled(i) => ReplayAppend(d - {i}, a[1..], b);
    }
  }

  function Calls(fired: seq<nat>, now: nat): seq<Entry> {
    seq(|fired|, k requires 0 <= k < |fired| => WasFired(fired[k], now))
  }

  lemma {:induction false} ReplayCalls(d: map<nat, nat>, fired: seq<nat>, now: nat)
    requires FiresDue(fired, d, now)
    ensures Replay(d, Calls(fired, now)) == Some(Ahead(d, now))
  {
    if fired == [] {
      assert forall i | i in d :: i !in fired;
      assert Ahead(d, now) == d;
    } else {
      var rest := d - {fired[0]};
      assert fired[0] in fired;
      assert Calls(fired, now)[1..] == Calls(fired[1..], now);
      assert forall i: nat :: i in fired <==> i == fired[0] || i in fired[1..];
      assert FiresDue(fired[1..], rest, now);
      ReplayCalls(rest, fired[1..], now);
      assert Ahead(rest, now) == Ahead(d, now);
    }
  }

  datatype Event = SetTimer(timeout: nat, now: nat) | CancelTimer(slot: nat, now: nat) | Alarm(now: nat)

  /** The queue and everything logged so far. */
  datatype World = World(queue: Queue, log: seq<Entry>)

  ghost predicate Allowed(q: Queue, e: Event) {
    && Valid(q) && q.stamp <= e.now
    && (e.SetTimer? ==> e.timeout + e.now < MANY)
    && (e.CancelTimer? ==> e.slot < |q.timeouts|)
  }

  ghost function Step(w: World, e: Event): World
    requires Allowed(w.queue, e)
  {
    match e
    case SetTimer(timeout, now) =>
      var o := Set(w.queue, timeout, now);
      World(o.queue, w.log + Calls(o.fired, now) + if o.slot.Some? then [WasSet(o.slot.value, now + timeout)] else [])
    case CancelTimer(i, now) =>
      var o := Cancel(w.queue, i, now);
      World(o.queue, w.log + (if w.queue.timeouts[i] > 0 then [WasCancelled(i)] else []) + Calls(o.fired, now))
    case Alarm(now) =>
      var o := Interrupt(w.queue, now);
      World(o.queue, w.log + Calls(o.fired, now))
  }

  /** The log tells exactly the pending deadlines. */
  ghost predicate Sound(w: World) {
    && Valid(w.queue) && Replay(map[], w.log) == Some(Deadlines(w.queue))
    && forall i | i in Deadlines(w.queue) :: Deadlines(w.queue)[i] < MANY
  }

  /** While all deadlines lie below the wrap of the clock, settings are exact. */
  lemma InRange(q: Queue, timeout: nat, now: nat)
    requires Valid(q) && q.stamp <= now && timeout + now < MANY
    requires forall i | i in Deadlines(q) :: Deadlines(q)[i] < MANY
    ensures Fits(q, timeout, now) && Comparable(q, timeout, now)
  {
    if q.next.Some? {
      assert q.next.value in Deadlines(q);
    }
  }

  lemma SetSound(w: World, timeout: nat, now: nat)
    requires Sound(w) && Allowed(w.queue, SetTimer(timeout, now))
    ensures Sound(Step(w, SetTimer(timeout, now)))
  {
    hide Set, Deadlines, Valid, Replay, Fits, Comparable, OthersKept, OthersFair;
    InRange(w.queue, timeout, now);
    SetCorrect(w.queue, timeout, now);
    var o := Set(w.queue, timeout, now);
    assert w.log + Calls(o.fired, now) == w.log;
    if o.slot.Some? {
      var entry := WasSet(o.slot.value, now + timeout);
      ReplayAppend(map[], w.log, [entry]);
      ReplayOne(Deadlines(w.queue), entry);
    } else {
      assert Step(w, SetTimer(timeout, now)).log == w.log;
    }
  }

  lemma ReplayOne(d: map<nat, nat>, e: Entry)
    ensures e.WasSet? && e.slot !in d ==> Replay(d, [e]) == Some(d[e.slot := e.deadline])
    ensures e.WasCancelled? && e.slot in d ==> Replay(d, [e]) == Some(d - {e.slot})
  {
  }

  lemma CallsSound(log: seq<Entry>, d: map<nat, nat>, fired: seq<nat>, now: nat)
    requires Replay(map[], log) == Some(d) && FiresDue(fired, d, now)
    ensures Replay(map[], log + Calls(fired, now)) == Some(Ahead(d, now))
  {
    ReplayAppend(map[], log, Calls(fired, now));
    ReplayCalls(d, fired, now);
  }

  lemma CancelSound(w: World, i: nat, now: nat)
    requires Sound(w) && Allowed(w.queue, CancelTimer(i, now))
    ensures Sound(Step(w, CancelTimer(i, now)))
  {
    var q := w.queue;
    var log := w.log + if q.timeouts[i] > 0 then [WasCancelled(i)] else [];
    CancelCorrect(q, i, now);
    CancelLogged(w, i);
    hide Deadlines, Valid, FiresDue, Replay, Clear, Restart;
    var o := Cancel(q, i, now);
    if q.next == Some(i) {
      CallsSound(log, Deadlines(q) - {i}, o.fired, now);
    } else {
      assert log + Calls(o.fired, now) == log;
    }
  }

  lemma CancelLogged(w: World, i: nat)
    requires Sound(w) && i < |w.queue.timeouts|
    ensures Replay(map[], w.log + if w.queue.timeouts[i] > 0 then [WasCancelled(i)] else []) ==
            Some(Deadlines(w.queue) - {i})
  {
    if w.queue.timeouts[i] > 0 {
      ReplayAppend(map[], w.log, [WasCancelled(i)]);
      ReplayOne(Deadlines(w.queue), WasCancelled(i));
    } else {
      assert w.log + [] == w.log;
      assert Deadlines(w.queue) - {i} == Deadlines(w.queue);
    }
  }

  lemma StepSound(w: World, e: Event)
    requires Sound(w) && Allowed(w.queue, e)
    ensures Sound(Step(w, e)) && Step(w, e).queue.stamp <= e.now
    ensures |Step(w, e).queue.timeouts| == |w.queue.timeouts|
  {
    match e
    case SetTimer(timeout, now) =>
      SetSound(w, timeout, now);
      SetCorrect(w.queue, timeout, now);
    case CancelTimer(i, now) =>
      CancelSound(w, i, now);
      CancelCorrect(w.queue, i, now);
    case Alarm(now) =>
      InterruptCorrect(w.queue, now);
      CallsSound(w.log, Deadlines(w.queue), Interrupt(w.queue, now).fired, now);
  }

  /** Events in order of time, within the range of the clock. */
  ghost predicate Timely(size: nat, from: nat, events: seq<Event>)
    decreases |events|
  {
    events == [] ||
    (var e := events[0];
     && from <= e.now
     && (e.SetTimer? ==> e.timeout + e.now < MANY)
     && (e.CancelTimer? ==> e.slot < size)
     && Timely(size, e.now, events[1..]))
  }

  ghost predicate Ready(w: World, from: nat, events: seq<Event>) {
    Sound(w) && w.queue.stamp <= from && Timely(|w.queue.timeouts|, from, events)
  }

  /** In every run, every setting, firing and cancelling makes sense against the log, and
      the queue holds exactly the deadlines that the log leaves pending. */
  ghost function Run(w: World, from: nat, events: seq<Event>): (last: World)
    requires Ready(w, from, events)
    ensures Sound(last)
    decreases |events|
  {
    if events == [] then w
    else
      StepSound(w, events[0]);
      Run(Step(w, events[0]), events[0].now, events[1..])
  }

  /** `_clkini` */
  function Initial(size: nat, stamp: nat): Queue {
    Queue(seq(size, _ => 0), seq(size, _ => false), None, stamp)
  }

  /** Entry `k` calls a handler: it follows a setting of the same slot whose deadline has
      come, with nothing about the slot in between. */
  ghost predicate Follows(log: seq<Entry>, k: nat)
    requires k < |log| && log[k].WasFired?
  {
    exists j | 0 <= j < k ::
      && log[j].WasSet? && log[j].slot == log[k].slot && log[j].deadline <= log[k].at
      && Untouched(log, log[k].slot, j + 1, k)
  }

  ghost predicate Untouched(log: seq<Entry>, slot: nat, from: nat, to: nat)
    requires from <= to <= |log|
  {
    forall m | from <= m < to :: log[m].slot != slot
  }

  lemma {:induction false} FiringsFollow(d: map<nat, nat>, log: seq<Entry>, k: nat)
    requires Replay(d, log).Some? && k < |log| && log[k].WasFired?
    ensures Follows(log, k) ||
            (log[k].slot in d && d[log[k].slot] <= log[k].at && Untouched(log, log[k].slot, 0, k))
    decreases |log|
  {
    if k > 0 {
      var slot, rest := log[k].slot, log[1..];
      var e := Next(d, log);
      FiringsFollow(e, rest, k - 1);
      if Follows(rest, k - 1) {
        var j :| 0 <= j < k - 1 && rest[j].WasSet? && rest[j].slot == slot && rest[j].deadline <= log[k].at &&
                 Untouched(rest, slot, j + 1, k - 1);
        assert forall m | j + 2 <= m < k :: log[m] == rest[m - 1];
        assert log[j + 1] == rest[j];
      } else {
        assert forall m | 1 <= m < k :: log[m] == rest[m - 1];
        if log[0].WasSet? && log[0].slot == slot {
          assert Untouched(log, slot, 1, k);
        }
      }
    }
  }

  ghost function Next(d: map<nat, nat>, log: seq<Entry>): (e: map<nat, nat>)
    requires log != [] && Replay(d, log).Some?
    ensures Replay(e, log[1..]) == Replay(d, log)
  {
    if log[0].WasSet? then d[log[0].slot := log[0].deadline] else d - {log[0].slot}
  }

  /** From an empty queue, every handler call in any run answers one setting of its slot:
      none comes early, and none comes twice for one setting. */
  lemma NoneEarlyNoneTwice(size: nat, from: nat, events: seq<Event>, k: nat)
    requires Ready(World(Initial(size, from), []), from, events)
    requires var log := Run(World(Initial(size, from), []), from, events).log; k < |log| && log[k].WasFired?
    ensures Follows(Run(World(Initial(size, from), []), from, events).log, k)
  {
    FiringsFollow(map[], Run(World(Initial(size, from), []), from, events).log, k);
  }

  lemma InitialReady(size: nat, from: nat, events: seq<Event>)
    requires Timely(size, from, events)
    ensures Ready(World(Initial(size, from), []), from, events)
  {
    assert Deadlines(Initial(size, from)) == map[];
  }

  // ---------- the alarm request ----------

  /** What `start_timer` asks for, in microseconds: `SEC` seconds and `USEC` more, with the
      product in `USEC` taken in 32 bits. */
  function Requested(ticks: nat): nat {
    ticks / 100 * 1000000 + ticks * 10000 % WORD % 1000000
  }

  lemma TicksInMicroseconds(ticks: nat)
    ensures ticks * 10000 == ticks / 100 * 1000000 + ticks * 10000 % 1000000
  {
    var q, r := ticks / 100, ticks % 100;
    assert ticks * 10000 == q * 1000000 + r * 10000;
    LastDigits(q, r * 10000);
  }

  lemma LastDigits(q: nat, r: nat)
    requires r < 1000000
    ensures (q * 1000000 + r) % 1000000 == r
  {
  }

  /** The request is exact if and only if the product fits in 32 bits: up to 429496 ticks,
      about seventy-one minutes. */
  lemma RequestedExact(ticks: nat)
    requires ticks < WORD
    ensures Requested(ticks) == ticks * 10000 <==> ticks * 10000 < WORD
  {
    TicksInMicroseconds(ticks);
    WrapShows(ticks * 10000);
  }

  /** Wrapping a product of a word with 10000 shows in its last six digits. */
  lemma WrapShows(x: nat)
    requires x < 10000 * WORD
    ensures x % WORD % 1000000 == x % 1000000 <==> x < WORD
  {
    if x >= WORD && x % WORD % 1000000 == x % 1000000 {
      SamePlace(x, x % WORD, x / WORD);
    }
  }

  /** Taking off fewer than 10000 times 2^32 keeps the last six digits only if nothing is
      taken off: 9231 is the inverse of 2^32 modulo 5^6. */
  lemma SamePlace(x: nat, y: nat, wraps: nat)
    requires x == wraps * WORD + y && wraps < 10000 && x % 1000000 == y % 1000000
    ensures wraps == 0
  {
    var m := x / 1000000 - y / 1000000;
    assert wraps * WORD == 1000000 * m;
    assert wraps == 15625 * (9231 * 64 * m - 2537397959 * wraps);
  }
}
