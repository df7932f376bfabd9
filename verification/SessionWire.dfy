/** What goes out on the wire of a session slot, packet by packet: exactly when a packet of
    one assembled array goes out twice. */
module SessionWire {
  import opened Options
  import opened ControlMessage
  import opened Session

  // ---------- packets that went out ----------

  /** One transmission: packet `packet` of the array that was assembled as the `number`th. */
  datatype Copy = Copy(number: nat, packet: nat)

  function Arrays(log: seq<Entry>): nat {
    if log == [] then 0 else Arrays(log[..|log| - 1]) + if log[|log| - 1].Assembled? then 1 else 0
  }

  /** How many packets an entry puts on the wire. */
  function Takes(e: Entry): nat {
    match e
    case Sent(batch) => |batch|
    case Refused(_, taken) => taken
    case _ => 0
  }

  function Copies(number: nat, n: nat): seq<Copy> {
    seq(n, i requires 0 <= i < n => Copy(number, i))
  }

  /** Everything that went out, in order. */
  function Out(log: seq<Entry>): seq<Copy> {
    if log == [] then []
    else Out(log[..|log| - 1]) + Copies(Arrays(log[..|log| - 1]), Takes(log[|log| - 1]))
  }

  predicate Distinct(s: seq<Copy>) {
    forall i, j | 0 <= i < j < |s| :: s[i] != s[j]
  }

  // ---------- what the history tells ----------

  /** A send of the array held was refused after some packets were taken. */
  function Touched(log: seq<Entry>): bool {
    log != [] && TouchedOne(Touched(log[..|log| - 1]), log[|log| - 1])
  }

  function TouchedOne(touched: bool, e: Entry): bool {
    match e
    case Assembled(_) => false
    case Sent(_) => false
    case Started => false
    case Stopped => false
    case Refused(_, taken) => touched || taken > 0
    case _ => touched
  }

  /** No send takes packets of an array of which some are out. */
  predicate NoRepeat(log: seq<Entry>) {
    log == [] ||
    (NoRepeat(log[..|log| - 1]) && !(Touched(log[..|log| - 1]) && Takes(log[|log| - 1]) > 0))
  }

  lemma AppendCopies(s: seq<Copy>, number: nat, n: nat)
    requires forall c | c in s :: c.number != number
    ensures Distinct(s + Copies(number, n)) <==> Distinct(s)
  {
    var all := s + Copies(number, n);
    if Distinct(s) {
      forall i, j | 0 <= i < j < |all|
        ensures all[i] != all[j]
      {
        assert i < |s| ==> s[i] in s;
      }
    }
    if Distinct(all) {
      forall i, j | 0 <= i < j < |s|
        ensures s[i] != s[j]
      {
        assert all[i] == s[i] && all[j] == s[j];
      }
    }
  }

  lemma AnotherCopy(s: seq<Copy>, number: nat, n: nat)
    requires Copy(number, 0) in s && n > 0
    ensures !Distinct(s + Copies(number, n))
  {
    var i :| 0 <= i < |s| && s[i] == Copy(number, 0);
    var all := s + Copies(number, n);
    assert all[i] == all[|s|];
  }

  /** Arrays are numbered in order; an untouched array has nothing out, a touched one has. */
  ghost predicate Numbered(log: seq<Entry>) {
    && (forall c | c in Out(log) :: c.number <= Arrays(log))
    && (Buffered(log).Holding? && !Touched(log) ==> forall c | c in Out(log) :: c.number != Arrays(log))
    && (Touched(log) ==> Buffered(log).Holding? && Copy(Arrays(log), 0) in Out(log))
  }

  /** The packets that went out are all different exactly if no send repeats. */
  lemma {:induction false} DistinctIff(log: seq<Entry>)
    requires !Buffered(log).Resent?
    ensures Numbered(log) && (Distinct(Out(log)) <==> NoRepeat(log))
  {
    if log != [] {
      var before, e := log[..|log| - 1], log[|log| - 1];
      DistinctIff(before);
      var n := Arrays(before);
      NumberedNext(log);
      if Takes(e) == 0 {
        assert Out(before) + Copies(n, 0) == Out(before);
      } else if Touched(before) {
        AnotherCopy(Out(before), n, Takes(e));
      } else {
        AppendCopies(Out(before), n, Takes(e));
      }
    }
  }

  lemma OutNext(log: seq<Entry>, c: Copy)
    requires log != []
    ensures var before, n := log[..|log| - 1], Takes(log[|log| - 1]);
            c in Out(log) <==> c in Out(before) || (c.number == Arrays(before) && c.packet < n)
  {
    var before, n := log[..|log| - 1], Takes(log[|log| - 1]);
    var more := Copies(Arrays(before), n);
    assert Out(log) == Out(before) + more;
    if c.number == Arrays(before) && c.packet < n {
      assert more[c.packet] == c;
    }
  }

  lemma NumberedNext(log: seq<Entry>)
    requires log != [] && !Buffered(log).Resent? && Numbered(log[..|log| - 1])
    ensures Numbered(log)
  {
    var before := log[..|log| - 1];
    forall c: Copy
      ensures c in Out(log) <==> c in Out(before) || (c.number == Arrays(before) && c.packet < Takes(log[|log| - 1]))
    {
      OutNext(log, c);
    }
    hide Out;
  }

  // ---------- what the steps do ----------

  lemma WireLogged(log: seq<Entry>, e: Entry)
    ensures Touched(log + [e]) == TouchedOne(Touched(log), e)
    ensures NoRepeat(log + [e]) == (NoRepeat(log) && !(Touched(log) && Takes(e) > 0))
  {
    assert (log + [e])[..|log + [e]| - 1] == log;
  }

  /** An array of which packets are out is still in the slot. */
  predicate Wired(w: World) {
    Touched(w.log) ==> w.slot.messages.Some? && w.slot.messages.value != []
  }

  /** An operation that repeats exactly if `repeats`. */
  predicate Does(w: World, after: World, repeats: bool) {
    Wired(after) && NoRepeat(after.log) == (NoRepeat(w.log) && !repeats)
  }

  lemma DoesBoth(w: World, a: World, b: World, first: bool, second: bool)
    requires Does(w, a, first) && Does(a, b, second)
    ensures Does(w, b, first || second)
  {
  }

  lemma RetriedWire(w: World)
    requires Wired(w)
    ensures var c := World(w.slot.(count := w.slot.count + 1), w.log + [Retried]);
            && Touched(c.log) == Touched(w.log) && Does(w, c, false)
            && Does(w, c.(slot := c.slot.(closing := true)), false)
  {
    WireLogged(w.log, Retried);
  }

  lemma StartWire(w: World)
    ensures Does(w, Start(w), false) && !Touched(Start(w).log)
  {
    WireLogged(w.log, Started);
  }

  lemma AssembleWire(w: World, batch: Batch)
    ensures Does(w, Assemble(w, batch), false) && !Touched(Assemble(w, batch).log)
  {
    WireLogged(w.log, Assembled(batch));
  }

  lemma SendWire(w: World, taken: nat)
    requires Wired(w)
    ensures Does(w, SendFragments(w, taken), Touched(w.log) && taken > 0)
    ensures Sends(w, taken) ==> !Touched(SendFragments(w, taken).log)
  {
    if Sends(w, taken) {
      WireLogged(w.log, Sent(w.slot.messages.value));
    } else if w.slot.messages.Some? {
      WireLogged(w.log, Refused(w.slot.messages.value, taken));
    }
  }

  lemma IssueWire(w: World, seqNum: nat, taken: nat)
    requires Wired(w)
    ensures Does(w, SendAcknowledged(w, seqNum, taken), Touched(w.log) && taken > 0)
    ensures Sends(w, taken) ==> !Touched(SendAcknowledged(w, seqNum, taken).log)
  {
    var issued := World(w.slot.(count := 0, outstanding := true, expected := seqNum), w.log + [Issued(seqNum)]);
    WireLogged(w.log, Issued(seqNum));
    SendWire(issued, taken);
  }

  lemma StopWire(w: World)
    requires Wired(w)
    ensures Does(w, Stop(w), false) && (w.slot.outstanding ==> !Touched(Stop(w).log))
  {
    WireLogged(w.log, Stopped);
  }

  lemma CloseWire(w: World)
    requires Wired(w)
    ensures Does(w, Close(w), false)
  {
    StopWire(w);
  }

  lemma CommandWire(w: World, request: Option<Batch>, seqNum: nat, taken: nat, timed: bool)
    requires Wired(w)
    ensures Does(w, Command(w, request, seqNum, taken, timed), false)
    ensures request.Some? ==> !Touched(Command(w, request, seqNum, taken, timed).log)
  {
    if request.Some? {
      var a := Assemble(w, request.value);
      AssembleWire(w, request.value);
      IssueWire(a, seqNum, taken);
      StopWire(SendAcknowledged(a, seqNum, taken));
    }
  }

  /** The timer acts: it counts, and does not give up. */
  predicate Acts(s: Slot, maxRetransmit: nat) {
    s.outstanding && s.messages.Some? && s.count + 1 < maxRetransmit
  }

  lemma TimerWire(w: World, maxRetransmit: nat, taken: nat, timed: bool)
    requires Wired(w)
    ensures Does(w, SoftTimer(w, maxRetransmit, taken, timed),
                 Touched(w.log) && taken > 0 && Acts(w.slot, maxRetransmit))
  {
    var c := World(w.slot.(count := w.slot.count + 1), w.log + [Retried]);
    RetriedWire(w);
    if Acts(w.slot, maxRetransmit) {
      SendWire(c, taken);
      hide Touched, Does, SendFragments, Close;
      var s, repeats := SendFragments(c, taken), Touched(w.log) && taken > 0;
      DoesBoth(w, c, s, false, repeats);
      SendThenCloseWire(c, taken);
      DoesBoth(w, c, Close(s), false, repeats);
    }
  }

  lemma SendThenCloseWire(w: World, taken: nat)
    requires Wired(w)
    ensures Does(w, Close(SendFragments(w, taken)), Touched(w.log) && taken > 0)
  {
    SendWire(w, taken);
    CloseWire(SendFragments(w, taken));
  }

  lemma FailedWire(w: World, batch: Batch, taken: nat)
    ensures Does(w, Close(SendFragments(Assemble(w, batch), taken)), false)
  {
    AssembleWire(w, batch);
    SendWire(Assemble(w, batch), taken);
    CloseWire(SendFragments(Assemble(w, batch), taken));
  }

  lemma DoneWire(w: World, response: Batch, messageType: nat)
    ensures var s := SendFragments(Assemble(w, response), |response|);
            var after := World(s.slot.(phase := Following(w.slot.phase)), s.log + [Accepted(messageType)]);
            Does(w, after, false) && !Touched(after.log)
  {
    AssembleWire(w, response);
    SendWire(Assemble(w, response), |response|);
    WireLogged(SendFragments(Assemble(w, response), |response|).log, Accepted(messageType));
  }

  lemma HandledWire(w: World, seqNum: nat)
    requires Wired(w)
    ensures var after := Stop(World(w.slot, w.log + [Handled(seqNum)]));
            Does(w, after, false) && (Touched(after.log) ==> Touched(w.log))
  {
    WireLogged(w.log, Handled(seqNum));
    StopWire(World(w.slot, w.log + [Handled(seqNum)]));
  }

  lemma HandleRequestWire(w: World, header: ControlHeader, fate: Fate)
    requires Wired(w)
    ensures Does(w, HandleRequest(w, header, fate), false)
    ensures var after := HandleRequest(w, header, fate); after.slot.live && Touched(after.log) ==> Touched(w.log)
  {
    CloseWire(w);
    hide Touched, NoRepeat, SendFragments, Assemble, Stop;
    if !w.slot.phase.Run? && header.messageType == Wanted(w.slot.phase) {
      match fate
      case Malformed =>
      case Failed(assembled, taken) =>
        if assembled.Some? {
          FailedWire(w, assembled.value, taken);
        }
      case Done(response) => DoneWire(w, response, header.messageType);
    }
  }

  lemma DeliverWire(w: World, header: ControlHeader, fate: Fate)
    requires Wired(w)
    ensures Does(w, Deliver(w, header, fate), false)
    ensures var after := Deliver(w, header, fate); after.slot.live && Touched(after.log) ==> Touched(w.log)
  {
    CloseWire(w);
    HandledWire(w, header.seqNum);
    HandleRequestWire(w, header, fate);
    hide Touched, NoRepeat, HandleRequest, Stop;
  }

  // ---------- runs ----------

  /** A step that sends from an array of which packets are out: the timer of a session that
      acts, or another session that sends without having assembled. */
  predicate Repeats(w: World, s: Step, maxRetransmit: nat) {
    Touched(w.log) &&
    ((s.Expiring? && w.slot.live && s.taken > 0 && Acts(w.slot, maxRetransmit)) || (s.OtherSending? && s.taken > 0))
  }

  lemma NextWire(w: World, s: Step, maxRetransmit: nat)
    requires Wired(w)
    ensures Does(w, Next(w, s, maxRetransmit), Repeats(w, s, maxRetransmit))
  {
    match s
    case Starting => StartWire(w);
    case Delivering(header, fate) => DeliverWire(w, header, fate);
    case Commanding(request, seqNum, taken, timed) => CommandWire(w, request, seqNum, taken, timed);
    case Expiring(taken, timed) => TimerWire(w, maxRetransmit, taken, timed);
    case Closing => CloseWire(w);
    case OtherAssembling(batch) => AssembleWire(w, batch);
    case OtherSending(seqNum, taken) => IssueWire(w, seqNum, taken);
    case OtherStopping => StopWire(w);
    case _ =>
  }

  predicate NoneRepeats(w: World, steps: seq<Step>, maxRetransmit: nat)
    decreases |steps|
  {
    steps == [] ||
    (!Repeats(w, steps[0], maxRetransmit) && NoneRepeats(Next(w, steps[0], maxRetransmit), steps[1..], maxRetransmit))
  }

  lemma {:induction false} RunWire(w: World, steps: seq<Step>, maxRetransmit: nat)
    requires Wired(w)
    ensures NoRepeat(RunSteps(w, steps, maxRetransmit).log) <==>
            NoRepeat(w.log) && NoneRepeats(w, steps, maxRetransmit)
    decreases |steps|
  {
    if steps != [] {
      NextWire(w, steps[0], maxRetransmit);
      hide Next, NoRepeat, Wired;
      RunWire(Next(w, steps[0], maxRetransmit), steps[1..], maxRetransmit);
    }
  }

  /** In every run: no packet of an assembled array goes out twice if and only if no step
      sends from an array of which a refused send left packets out. */
  lemma OnceIff(steps: seq<Step>, maxRetransmit: nat)
    ensures Distinct(Out(RunSteps(World(FREE, []), steps, maxRetransmit).log)) <==>
            NoneRepeats(World(FREE, []), steps, maxRetransmit)
  {
    FromFree(steps, maxRetransmit);
    DistinctIff(RunSteps(World(FREE, []), steps, maxRetransmit).log);
    RunWire(World(FREE, []), steps, maxRetransmit);
  }

  /** Without handovers no packet goes out twice. */
  lemma OnceWithoutHandover(steps: seq<Step>, maxRetransmit: nat)
    requires forall s | s in steps :: !Other(s)
    ensures Distinct(Out(RunSteps(World(FREE, []), steps, maxRetransmit).log))
  {
    OwnNeverRepeats(World(FREE, []), steps, maxRetransmit);
    OnceIff(steps, maxRetransmit);
  }

  lemma OwnStep(w: World, s: Step, maxRetransmit: nat)
    requires Wired(w) && Emptied(w.slot) && (w.slot.live ==> !Touched(w.log)) && !Other(s)
    ensures !Repeats(w, s, maxRetransmit)
    ensures var after := Next(w, s, maxRetransmit); after.slot.live ==> !Touched(after.log)
  {
    match s
    case Starting => StartWire(w);
    case Delivering(header, fate) => DeliverWire(w, header, fate);
    case Commanding(request, seqNum, taken, timed) => CommandWire(w, request, seqNum, taken, timed);
    case Expiring(_, _) => NothingToRetransmit(w, s, maxRetransmit);
    case _ =>
  }

  lemma {:induction false} OwnNeverRepeats(w: World, steps: seq<Step>, maxRetransmit: nat)
    requires Wired(w) && Emptied(w.slot) && (w.slot.live ==> !Touched(w.log)) && forall s | s in steps :: !Other(s)
    ensures NoneRepeats(w, steps, maxRetransmit)
    decreases |steps|
  {
    if steps != [] {
      OwnStep(w, steps[0], maxRetransmit);
      NextWire(w, steps[0], maxRetransmit);
      NothingToRetransmit(w, steps[0], maxRetransmit);
      hide Next, Touched, Wired;
      OwnNeverRepeats(Next(w, steps[0], maxRetransmit), steps[1..], maxRetransmit);
    }
  }

  /** With a handover a packet can: a session has a request outstanding, another session's
      send through its slot is refused after one packet, and the timer of the first request
      sends the whole array before the other session gives up. */
  lemma TwiceInHandover(response: Batch, first: Batch, batch: Batch)
    requires |batch| >= 2
    ensures var handover := [Commanding(Some(first), 3, |first|, true), OtherAssembling(batch)] +
                            [OtherSending(7, 1), Expiring(|batch|, true)];
            var steps := Joining(response) + handover;
            !Distinct(Out(RunSteps(World(FREE, []), steps, 5).log))
  {
    var joined := RunSteps(World(FREE, []), Joining(response), 5);
    JoiningWorks(World(FREE, []), response, 5);
    hide Joining;
    var command := Commanding(Some(first), 3, |first|, true);
    var ready := RunSteps(joined, [command, OtherAssembling(batch)], 5);
    RunTwo(joined, command, OtherAssembling(batch), 5);
    AssembleWire(Next(joined, command, 5), batch);
    RunAppend(World(FREE, []), Joining(response), [command, OtherAssembling(batch)], 5);
    RefusedThenTimer(ready, batch, 5);
    var before := Joining(response) + [command, OtherAssembling(batch)];
    var last := [OtherSending(7, 1), Expiring(|batch|, true)];
    RunAppend(World(FREE, []), before, last, 5);
    assert Joining(response) + ([command, OtherAssembling(batch)] + last) == before + last;
    FromFree(before + last, 5);
    DistinctIff(RunSteps(World(FREE, []), before + last, 5).log);
  }

  lemma RefusedThenTimer(w: World, batch: Batch, maxRetransmit: nat)
    requires w.slot.live && w.slot.messages == Some(batch) && |batch| >= 2 && maxRetransmit > 1
    ensures !NoRepeat(RunSteps(w, [OtherSending(7, 1), Expiring(|batch|, true)], maxRetransmit).log)
  {
    hide Touched, NoRepeat;
    var refused := Next(w, OtherSending(7, 1), maxRetransmit);
    WireLogged(w.log, Issued(7));
    WireLogged(w.log + [Issued(7)], Refused(batch, 1));
    RunTwo(w, OtherSending(7, 1), Expiring(|batch|, true), maxRetransmit);
    NextWire(refused, Expiring(|batch|, true), maxRetransmit);
  }
}
