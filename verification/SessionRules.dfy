/** What each step does to a session, with message types by their numbers, and over every run
    of any threads: when a request is outstanding and which response it awaits, when a session
    is live, and when a close is requested. */
module SessionRules {
  import opened Options
  import opened Bytes
  import opened ControlMessage
  import opened Session

  // ---------- messages in the run phase ----------

  /** Configuration Update, Clear Configuration, Station Configuration and 802.11 WLAN
      Configuration Response. */
  predicate IsResponse(messageType: nat) {
    messageType == 8 || messageType == 24 || messageType == 26 || messageType == 3398914
  }

  /** The awaited response completes the request: it is no longer outstanding, no number is
      expected, its messages are gone, and the history says so. */
  lemma ResponseCompletes(w: World, header: ControlHeader, response: Batch, maxRetransmit: nat)
    requires w.slot.live && w.slot.phase.Run? && w.slot.outstanding
    requires IsResponse(header.messageType) && header.seqNum == w.slot.expected
    ensures Next(w, Delivering(header, Done(response)), maxRetransmit) ==
            World(w.slot.(outstanding := false, expected := 0, messages := None),
                  w.log + [Handled(header.seqNum), Stopped])
  {
    assert w.log + [Handled(header.seqNum), Stopped] == w.log + [Handled(header.seqNum)] + [Stopped];
  }

  /** A message of an even type with another number, or a malformed one, changes nothing; nor
      does anything else that is handled and is no response. */
  lemma IgnoredInRun(w: World, header: ControlHeader, fate: Fate, maxRetransmit: nat)
    requires w.slot.live && w.slot.phase.Run?
    requires || fate.Malformed? || (header.messageType % 2 == 0 && header.seqNum != w.slot.expected)
             || (fate.Done? && !IsResponse(header.messageType))
    ensures Next(w, Delivering(header, fate), maxRetransmit) == w
  {
  }

  /** Any other failure ends the session and gives up its request. */
  lemma FailureInRun(w: World, header: ControlHeader, assembled: Option<Batch>, taken: nat, maxRetransmit: nat)
    requires w.slot.live && w.slot.phase.Run? && (header.messageType % 2 == 1 || header.seqNum == w.slot.expected)
    ensures var after := Next(w, Delivering(header, Failed(assembled, taken)), maxRetransmit);
            && !after.slot.live && !after.slot.outstanding && after.slot.phase.Run?
            && after.log == w.log + if w.slot.outstanding then [Stopped] else []
  {
  }

  // ---------- messages before the run phase ----------

  /** Join, Configure and Change State Event Request, each in its state. */
  predicate Asked(p: Phase, messageType: nat) {
    || (p.Join? && messageType == 3) || (p.Configure? && messageType == 5) || (p.DataCheck? && messageType == 11)
  }

  /** The request a state waits for is answered, and the session enters the next state. */
  lemma RequestAccepted(w: World, header: ControlHeader, response: Batch, maxRetransmit: nat)
    requires w.slot.live && Asked(w.slot.phase, header.messageType)
    ensures var after := Next(w, Delivering(header, Done(response)), maxRetransmit);
            && after.log == w.log + [Assembled(response), Sent(response), Accepted(header.messageType)]
            && after.slot == w.slot.(messages := None, phase := after.slot.phase)
            && (w.slot.phase.Join? ==> after.slot.phase.Configure?)
            && (w.slot.phase.Configure? ==> after.slot.phase.DataCheck?)
            && (w.slot.phase.DataCheck? ==> after.slot.phase.Run?)
  {
    assert w.log + [Assembled(response), Sent(response), Accepted(header.messageType)] ==
           w.log + [Assembled(response)] + [Sent(response)] + [Accepted(header.messageType)];
  }

  /** A message of another type, or a malformed one, leaves the session as it is. */
  lemma IgnoredBeforeRun(w: World, header: ControlHeader, fate: Fate, maxRetransmit: nat)
    requires w.slot.live && !w.slot.phase.Run? && (fate.Malformed? || !Asked(w.slot.phase, header.messageType))
    ensures Next(w, Delivering(header, fate), maxRetransmit) == w
  {
  }

  /** Any other failure ends the session in the state it is in. */
  lemma FailureBeforeRun(w: World, header: ControlHeader, assembled: Option<Batch>, taken: nat, maxRetransmit: nat)
    requires w.slot.live && Asked(w.slot.phase, header.messageType)
    ensures var after := Next(w, Delivering(header, Failed(assembled, taken)), maxRetransmit).slot;
            !after.live && !after.outstanding && after.phase == w.slot.phase
  {
  }

  // ---------- commands and the timer ----------

  /** A command whose packets are all taken, and for which the timer starts, leaves its request
      outstanding. Otherwise nothing of it is left but the history. */
  lemma CommandLeaves(w: World, batch: Batch, seqNum: nat, taken: nat, timed: bool, maxRetransmit: nat)
    requires w.slot.live
    ensures var after := Next(w, Commanding(Some(batch), seqNum, taken, timed), maxRetransmit);
            var sent := taken >= |batch|;
            && after.slot == w.slot.(outstanding := sent && timed, count := 0, messages := None,
                                     expected := if sent && timed then seqNum else 0)
            && after.log == w.log + [Assembled(batch), Issued(seqNum)]
                            + [if sent then Sent(batch) else Refused(batch, taken)]
                            + if sent && timed then [] else [Stopped]
  {
    assert w.log + [Assembled(batch), Issued(seqNum)] == w.log + [Assembled(batch)] + [Issued(seqNum)];
  }

  /** The timer of a session has something to do. */
  predicate Due(s: Slot) {
    s.live && s.outstanding && s.messages.Some?
  }

  /** The timer counts. At the maximum it requests a close and sends nothing. Below it sends
      the messages; if they are not all taken, or it cannot start again, the session ends. */
  lemma TimerLeaves(w: World, taken: nat, timed: bool, maxRetransmit: nat)
    ensures var after := Next(w, Expiring(taken, timed), maxRetransmit);
            var n := w.slot.count + 1;
            if !Due(w.slot) then after == w
            else if n >= maxRetransmit then after == World(w.slot.(count := n, closing := true), w.log + [Retried])
            else if taken >= |w.slot.messages.value| && timed then
              after == World(w.slot.(count := n, messages := None), w.log + [Retried, Sent(w.slot.messages.value)])
            else
              && after.slot == w.slot.(live := false, outstanding := false, count := n, expected := 0, messages := None)
              && w.log + [Retried] <= after.log
  {
    if Due(w.slot) {
      assert w.log + [Retried, Sent(w.slot.messages.value)] == w.log + [Retried] + [Sent(w.slot.messages.value)];
    }
  }

  // ---------- over runs ----------

  /** Three facts about a slot that steps bring about and take away. */
  datatype Fact = Outstanding | Live | CloseRequested

  predicate Holds(f: Fact, s: Slot) {
    match f
    case Outstanding => s.outstanding
    case Live => s.live
    case CloseRequested => s.closing
  }

  /** A message that fails in a way that ends the session. */
  predicate Fails(s: Slot, header: ControlHeader, fate: Fate) {
    && s.live && fate.Failed?
    && if s.phase.Run? then header.messageType % 2 == 1 || header.seqNum == s.expected
       else Asked(s.phase, header.messageType)
  }

  /** The timer sends, and it does not work. */
  predicate ResendFails(s: Slot, taken: nat, timed: bool, maxRetransmit: nat) {
    Due(s) && s.count + 1 < maxRetransmit && !(taken >= |s.messages.value| && timed)
  }

  /** A command succeeds, or another session sends a request through the slot. */
  predicate Issues(s: Slot, step: Step) {
    match step
    case Commanding(Some(batch), _, taken, timed) => s.live && taken >= |batch| && timed
    case OtherSending(_, _) => true
    case _ => false
  }

  /** The awaited response, a failure, a start or a close of the session, and giving up. */
  predicate Settles(s: Slot, step: Step, maxRetransmit: nat) {
    match step
    case Starting => !s.live
    case Delivering(header, fate) =>
      || Fails(s, header, fate)
      || (s.live && s.phase.Run? && fate.Done? && IsResponse(header.messageType) && header.seqNum == s.expected)
    case Commanding(Some(batch), _, taken, timed) => s.live && !(taken >= |batch| && timed)
    case Expiring(taken, timed) => ResendFails(s, taken, timed, maxRetransmit)
    case Closing => s.live
    case OtherStopping => true
    case _ => false
  }

  /** What ends a session: a close, a failing message, or a failing retransmission. */
  predicate Stops(s: Slot, step: Step, maxRetransmit: nat) {
    match step
    case Delivering(header, fate) => Fails(s, header, fate)
    case Expiring(taken, timed) => ResendFails(s, taken, timed, maxRetransmit)
    case Closing => true
    case _ => false
  }

  /** The step brings the fact about: a request is issued; a session starts; a close is
      requested, by another thread or by the timer at the maximum. */
  predicate Brings(f: Fact, s: Slot, step: Step, maxRetransmit: nat) {
    match f
    case Outstanding => Issues(s, step)
    case Live => step.Starting?
    case CloseRequested => step.Requesting? || (step.Expiring? && Due(s) && s.count + 1 >= maxRetransmit)
  }

  /** The step takes the fact away; a request to close goes when the slot is given away again. */
  predicate Takes(f: Fact, s: Slot, step: Step, maxRetransmit: nat) {
    match f
    case Outstanding => Settles(s, step, maxRetransmit)
    case Live => Stops(s, step, maxRetransmit)
    case CloseRequested => step.Allocate? && !s.live
  }

  lemma FactNext(f: Fact, w: World, step: Step, maxRetransmit: nat)
    ensures Holds(f, Next(w, step, maxRetransmit).slot) <==>
            Brings(f, w.slot, step, maxRetransmit) || (Holds(f, w.slot) && !Takes(f, w.slot, step, maxRetransmit))
  {
  }

  /** No step of the run takes the fact away. */
  predicate Stays(f: Fact, w: World, steps: seq<Step>, maxRetransmit: nat)
    decreases |steps|
  {
    steps == [] ||
    (&& !Takes(f, w.slot, steps[0], maxRetransmit)
     && Stays(f, Next(w, steps[0], maxRetransmit), steps[1..], maxRetransmit))
  }

  /** Some step of the run brings the fact about, and no later one takes it away. */
  predicate ComesAndStays(f: Fact, w: World, steps: seq<Step>, maxRetransmit: nat)
    decreases |steps|
  {
    && steps != []
    && var next := Next(w, steps[0], maxRetransmit);
       || (Brings(f, w.slot, steps[0], maxRetransmit) && Stays(f, next, steps[1..], maxRetransmit))
       || ComesAndStays(f, next, steps[1..], maxRetransmit)
  }

  /** After every run of any threads: a request is outstanding if and only if one was issued,
      in the run or before, and since then neither its response nor a failure, a stop, a start
      or a close came; and likewise for a live session and for a request to close. */
  lemma {:induction false} FactIff(f: Fact, w: World, steps: seq<Step>, maxRetransmit: nat)
    ensures Holds(f, RunSteps(w, steps, maxRetransmit).slot) <==>
            ComesAndStays(f, w, steps, maxRetransmit) || (Holds(f, w.slot) && Stays(f, w, steps, maxRetransmit))
    decreases |steps|
  {
    hide Next, Holds, Brings, Takes;
    if steps != [] {
      FactNext(f, w, steps[0], maxRetransmit);
      FactIff(f, Next(w, steps[0], maxRetransmit), steps[1..], maxRetransmit);
    }
  }

  /** No step of the run issues a request. */
  predicate NoneIssues(w: World, steps: seq<Step>, maxRetransmit: nat)
    decreases |steps|
  {
    steps == [] ||
    (!Issues(w.slot, steps[0]) && NoneIssues(Next(w, steps[0], maxRetransmit), steps[1..], maxRetransmit))
  }

  lemma AwaitsNext(w: World, step: Step, maxRetransmit: nat)
    ensures Issues(w.slot, step) ==> Next(w, step, maxRetransmit).slot.expected == step.seqNum
    ensures w.slot.outstanding && !Issues(w.slot, step) && !Settles(w.slot, step, maxRetransmit) ==>
              Next(w, step, maxRetransmit).slot.expected == w.slot.expected
  {
  }

  lemma {:induction false} KeepsAwaiting(w: World, steps: seq<Step>, maxRetransmit: nat)
    requires w.slot.outstanding && Stays(Outstanding, w, steps, maxRetransmit) && NoneIssues(w, steps, maxRetransmit)
    ensures RunSteps(w, steps, maxRetransmit).slot.expected == w.slot.expected
    decreases |steps|
  {
    hide Next, Issues, Settles;
    if steps != [] {
      FactNext(Outstanding, w, steps[0], maxRetransmit);
      AwaitsNext(w, steps[0], maxRetransmit);
      KeepsAwaiting(Next(w, steps[0], maxRetransmit), steps[1..], maxRetransmit);
    }
  }

  /** While a request is outstanding and no other is issued, the response with its own number
      is awaited. */
  lemma AwaitsItsNumber(w: World, step: Step, steps: seq<Step>, maxRetransmit: nat)
    requires Issues(w.slot, step)
    requires var next := Next(w, step, maxRetransmit);
             Stays(Outstanding, next, steps, maxRetransmit) && NoneIssues(next, steps, maxRetransmit)
    ensures RunSteps(Next(w, step, maxRetransmit), steps, maxRetransmit).slot.expected == step.seqNum
  {
    hide Next, Issues;
    FactNext(Outstanding, w, step, maxRetransmit);
    AwaitsNext(w, step, maxRetransmit);
    KeepsAwaiting(Next(w, step, maxRetransmit), steps, maxRetransmit);
  }
}
