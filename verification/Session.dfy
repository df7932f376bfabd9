/** One WTP session of the access controller as steps: the states a session goes through
    (section 2.3 of RFC 5415), and the one request it can have outstanding, with its
    response and its retransmission timer (section 4.5.3 of RFC 5415). */
module Session {
  import opened Options
  import opened Bytes
  import opened ControlMessage

  /** The packets of one assembled message. */
  type Batch = seq<seq<Byte>>

  datatype Phase = Join | Configure | DataCheck | Run

  /** The fields of a `gWTPs` entry that the protocol steps read and write. */
  datatype Slot = Slot(
    live: bool,               // a session thread is at work
    phase: Phase,             // currentState
    outstanding: bool,        // isRetransmitting
    count: nat,               // retransmissionCount
    expected: nat,            // responseSeqNum
    messages: Option<Batch>,  // messages, NULL or an array
    closing: bool)            // isRequestClose

  /** What is recorded of a slot's history. */
  datatype Entry =
    | Started
    | Accepted(messageType: nat)
    | Assembled(batch: Batch)
    | Sent(batch: Batch)
    | Refused(batch: Batch, taken: nat)
    | Issued(seqNum: nat)
    | Handled(seqNum: nat)
    | Retried
    | Stopped

  datatype World = World(slot: Slot, log: seq<Entry>)

  const JOIN_REQUEST := 3
  const CONFIGURE_REQUEST := 5
  const CONFIGURE_UPDATE_RESPONSE := 8
  const CHANGE_STATE_EVENT_REQUEST := 11
  const CLEAR_CONFIGURATION_RESPONSE := 24
  const STATION_CONFIGURATION_RESPONSE := 26
  const WLAN_CONFIGURATION_RESPONSE := 3398914

  // ---------- operations on a slot ----------

  /** Entering the session thread: everything is reset but the expected sequence number. */
  function Start(w: World): World {
    World(w.slot.(live := true, phase := Join, outstanding := false, count := 0, messages := None),
          w.log + [Started])
  }

  function Assemble(w: World, batch: Batch): World {
    World(w.slot.(messages := Some(batch)), w.log + [Assembled(batch)])
  }

  /** The network takes all packets of the array. */
  predicate Sends(w: World, taken: nat) {
    w.slot.messages.Some? && taken >= |w.slot.messages.value|
  }

  /** `CWACSendFragments`, with the number of packets that the network takes before it
      refuses one: an array that was sent in full is released, any other stays. */
  function SendFragments(w: World, taken: nat): World {
    if w.slot.messages.None? then w
    else if Sends(w, taken) then World(w.slot.(messages := None), w.log + [Sent(w.slot.messages.value)])
    else World(w.slot, w.log + [Refused(w.slot.messages.value, taken)])
  }

  /** `CWACSendAcknowledgedPacket` */
  function SendAcknowledged(w: World, seqNum: nat, taken: nat): World {
    SendFragments(World(w.slot.(count := 0, outstanding := true, expected := seqNum), w.log + [Issued(seqNum)]), taken)
  }

  /** `CWACStopRetransmission` */
  function Stop(w: World): World {
    if w.slot.outstanding then
      World(w.slot.(outstanding := false, expected := 0, messages := None), w.log + [Stopped])
    else w
  }

  /** `_CWCloseThread` */
  function Close(w: World): World {
    var s := Stop(w);
    s.(slot := s.slot.(live := false))
  }

  /** A command of the operator: a request is assembled and sent; if that fails it is
      given up. */
  function Command(w: World, request: Option<Batch>, seqNum: nat, taken: nat, timed: bool): World {
    if request.None? then w
    else
      var a := Assemble(w, request.value);
      var s := SendAcknowledged(a, seqNum, taken);
      if Sends(a, taken) && timed then s else Stop(s)
  }

  /** `CWSoftTimerExpiredHandler` */
  function SoftTimer(w: World, maxRetransmit: nat, taken: nat, timed: bool): World {
    if !w.slot.outstanding || w.slot.messages.None? then w
    else
      var c := World(w.slot.(count := w.slot.count + 1), w.log + [Retried]);
      if c.slot.count >= maxRetransmit then c.(slot := c.slot.(closing := true))
      else
        var s := SendFragments(c, taken);
        if Sends(c, taken) && timed then s else Close(s)
  }

  /** How the handling of a received message goes, apart from its header: its elements may
      be malformed, something else may fail, or all is done, with the response given. */
  datatype Fate = Malformed | Failed(assembled: Option<Batch>, taken: nat) | Done(response: Batch)

  /** `ACEnterJoin`, `ACEnterConfigure`, `ACEnterDataCheck` and what the session loop does
      with their result: a malformed message is ignored, any other failure closes. */
  function HandleRequest(w: World, header: ControlHeader, fate: Fate): World {
    if w.slot.phase.Run? || header.messageType != Wanted(w.slot.phase) then w
    else
      match fate
      case Malformed => w
      case Failed(assembled, taken) =>
        Close(if assembled.Some? then SendFragments(Assemble(w, assembled.value), taken) else w)
      case Done(response) =>
        var s := SendFragments(Assemble(w, response), |response|);
        World(s.slot.(phase := Following(w.slot.phase)), s.log + [Accepted(header.messageType)])
  }

  function Wanted(p: Phase): nat {
    match p
    case Join => JOIN_REQUEST
    case Configure => CONFIGURE_REQUEST
    case DataCheck => CHANGE_STATE_EVENT_REQUEST
    case Run => 0
  }

  function Following(p: Phase): Phase {
    match p
    case Join => Configure
    case Configure => DataCheck
    case DataCheck => Run
    case Run => Run
  }

  /** The responses `ACEnterRun` knows. */
  predicate Known(messageType: nat) {
    || messageType == CONFIGURE_UPDATE_RESPONSE
    || messageType == STATION_CONFIGURATION_RESPONSE
    || messageType == CLEAR_CONFIGURATION_RESPONSE
    || messageType == WLAN_CONFIGURATION_RESPONSE
  }

  /** `ACEnterRun` with `CWACParseGenericRunMessage`: odd types are requests; a response
      must carry the expected sequence number. A neighbour timer that cannot be restarted
      closes the session once the request was stopped: that is a message done, and then the
      step `Closing`. */
  function HandleRun(w: World, header: ControlHeader, fate: Fate): World {
    if header.messageType % 2 == 0 && header.seqNum != w.slot.expected then w
    else
      match fate
      case Malformed => w
      case Failed(_, _) => Close(w)
      case Done(_) => if Known(header.messageType) then Stop(World(w.slot, w.log + [Handled(header.seqNum)])) else w
  }

  function Deliver(w: World, header: ControlHeader, fate: Fate): World {
    if w.slot.phase.Run? then HandleRun(w, header, fate) else HandleRequest(w, header, fate)
  }

  // ---------- steps ----------

  /** Steps of the slot's own thread, of the main thread, and of other sessions' threads,
      which in a handover send a request through this slot. */
  datatype Step =
    | Allocate
    | Starting
    | Delivering(header: ControlHeader, fate: Fate)
    | Commanding(request: Option<Batch>, seqNum: nat, taken: nat, timed: bool)
    | Expiring(taken: nat, timed: bool)
    | Requesting
    | Closing
    | OtherAssembling(batch: Batch)
    | OtherSending(seqNum: nat, taken: nat)
    | OtherStopping

  predicate Other(s: Step) {
    s.OtherAssembling? || s.OtherSending? || s.OtherStopping?
  }

  /** A session that is not there takes no steps; a slot in use is not given away. */
  function Next(w: World, s: Step, maxRetransmit: nat): World {
    match s
    case Allocate => if w.slot.live then w else w.(slot := w.slot.(closing := false))
    case Starting => if w.slot.live then w else Start(w)
    case Delivering(header, fate) => if w.slot.live then Deliver(w, header, fate) else w
    case Commanding(request, seqNum, taken, timed) =>
      if w.slot.live then Command(w, request, seqNum, taken, timed) else w
    case Expiring(taken, timed) => if w.slot.live then SoftTimer(w, maxRetransmit, taken, timed) else w
    case Requesting => w.(slot := w.slot.(closing := true))
    case Closing => if w.slot.live then Close(w) else w
    case OtherAssembling(batch) => Assemble(w, batch)
    case OtherSending(seqNum, taken) => SendAcknowledged(w, seqNum, taken)
    case OtherStopping => Stop(w)
  }

  function RunSteps(w: World, steps: seq<Step>, maxRetransmit: nat): World
    decreases |steps|
  {
    if steps == [] then w else RunSteps(Next(w, steps[0], maxRetransmit), steps[1..], maxRetransmit)
  }

  const FREE := Slot(false, Join, false, 0, 0, None, false)

  // ---------- what a history may look like ----------

  /** A request in progress, as the history tells it. */
  datatype Tracking = Idle | Waiting(seqNum: nat) | Unasked

  /** A handled response with a non-zero sequence number answers the request issued last,
      which nothing answered or stopped before. */
  function Track(log: seq<Entry>): Tracking {
    if log == [] then Idle else TrackOne(Track(log[..|log| - 1]), log[|log| - 1])
  }

  function TrackOne(t: Tracking, e: Entry): Tracking {
    if t.Unasked? then t
    else
      match e
      case Issued(n) => Waiting(n)
      case Handled(n) => if n == 0 || t == Waiting(n) then Idle else Unasked
      case Started => Idle
      case Stopped => Idle
      case _ => t
  }

  datatype Buffer = Empty | Holding(batch: Batch) | Resent

  /** What is sent is the array assembled last, and only while it was not sent in full. */
  function Buffered(log: seq<Entry>): Buffer {
    if log == [] then Empty else BufferOne(Buffered(log[..|log| - 1]), log[|log| - 1])
  }

  function BufferOne(b: Buffer, e: Entry): Buffer {
    if b.Resent? then b
    else
      match e
      case Assembled(batch) => Holding(batch)
      case Sent(batch) => if b == Holding(batch) then Empty else Resent
      case Refused(batch, taken) => if b == Holding(batch) && taken < |batch| then b else Resent
      case Started => Empty
      case Stopped => Empty
      case _ => b
  }

  /** How often the timer acted since a request was issued or the session started. */
  function Retries(log: seq<Entry>): nat {
    if log == [] then 0 else RetriesOne(Retries(log[..|log| - 1]), log[|log| - 1])
  }

  function RetriesOne(n: nat, e: Entry): nat {
    match e
    case Issued(_) => 0
    case Started => 0
    case Retried => n + 1
    case _ => n
  }

  /** The requests accepted since the session started. */
  function AcceptedTypes(log: seq<Entry>): seq<nat> {
    if log == [] then [] else AcceptedOne(AcceptedTypes(log[..|log| - 1]), log[|log| - 1])
  }

  function AcceptedOne(types: seq<nat>, e: Entry): seq<nat> {
    match e
    case Started => []
    case Accepted(t) => types + [t]
    case _ => types
  }

  /** The requests that lead to a phase, in order. */
  function Path(p: Phase): seq<nat> {
    match p
    case Join => []
    case Configure => [JOIN_REQUEST]
    case DataCheck => [JOIN_REQUEST, CONFIGURE_REQUEST]
    case Run => [JOIN_REQUEST, CONFIGURE_REQUEST, CHANGE_STATE_EVENT_REQUEST]
  }

  /** The packets that went out, in order. */
  function PacketsOut(log: seq<Entry>): Batch {
    if log == [] then [] else PacketsOut(log[..|log| - 1]) + PacketsOf(log[|log| - 1])
  }

  function PacketsOf(e: Entry): Batch {
    match e
    case Sent(batch) => batch
    case Refused(batch, taken) => if taken <= |batch| then batch[..taken] else batch
    case _ => []
  }

  // ---------- invariants ----------

  /** A non-zero expected sequence number implies an outstanding request. */
  predicate Clean(s: Slot) {
    s.expected != 0 ==> s.outstanding
  }

  /** The request in progress is the one the history tells of. */
  predicate Answering(w: World) {
    Track(w.log) == if w.slot.outstanding then Waiting(w.slot.expected) else Idle
  }

  /** The array of messages, the phase and the retransmission count are those the history
      tells of. */
  predicate Recorded(w: World) {
    && Buffered(w.log) == (if w.slot.messages.Some? then Holding(w.slot.messages.value) else Empty)
    && AcceptedTypes(w.log) == Path(w.slot.phase)
    && Retries(w.log) == w.slot.count
  }

  predicate Bounded(s: Slot, maxRetransmit: nat) {
    s.live ==> s.count < maxRetransmit || s.closing
  }

  /** What every step of every thread keeps. */
  predicate Inv(w: World, maxRetransmit: nat) {
    Recorded(w) && Bounded(w.slot, maxRetransmit)
  }

  /** What an operation keeps: the record, and that the slot waits for what it asked. */
  predicate Keeps(w: World, after: World) {
    && (Recorded(w) ==> Recorded(after))
    && (Answering(w) ==> Answering(after))
  }

  lemma PacketsLogged(log: seq<Entry>, e: Entry)
    ensures PacketsOut(log + [e]) == PacketsOut(log) + PacketsOf(e)
  {
    assert (log + [e])[..|log + [e]| - 1] == log;
  }

  /** An entry that is not about sending puts nothing on the wire. */
  lemma NoPackets(log: seq<Entry>, e: Entry)
    requires !e.Sent? && !e.Refused?
    ensures PacketsOut(log + [e]) == PacketsOut(log)
  {
    PacketsLogged(log, e);
  }

  lemma Logged(log: seq<Entry>, e: Entry)
    ensures Track(log + [e]) == TrackOne(Track(log), e)
    ensures Buffered(log + [e]) == BufferOne(Buffered(log), e)
    ensures AcceptedTypes(log + [e]) == AcceptedOne(AcceptedTypes(log), e)
    ensures Retries(log + [e]) == RetriesOne(Retries(log), e)
  {
    assert (log + [e])[..|log + [e]| - 1] == log;
  }

  lemma StartKeeps(w: World)
    ensures Keeps(w, Start(w))
  {
    Logged(w.log, Started);
  }

  lemma AssembleKeeps(w: World, batch: Batch)
    ensures Keeps(w, Assemble(w, batch))
  {
    Logged(w.log, Assembled(batch));
  }

  lemma SendFragmentsKeeps(w: World, taken: nat)
    ensures Keeps(w, SendFragments(w, taken))
  {
    if Sends(w, taken) {
      Logged(w.log, Sent(w.slot.messages.value));
    } else if w.slot.messages.Some? {
      Logged(w.log, Refused(w.slot.messages.value, taken));
    }
  }

  lemma IssuedKeeps(w: World, seqNum: nat)
    ensures Keeps(w, World(w.slot.(count := 0, outstanding := true, expected := seqNum), w.log + [Issued(seqNum)]))
  {
    Logged(w.log, Issued(seqNum));
  }

  lemma SendAcknowledgedKeeps(w: World, seqNum: nat, taken: nat)
    ensures Keeps(w, SendAcknowledged(w, seqNum, taken))
  {
    var issued := World(w.slot.(count := 0, outstanding := true, expected := seqNum), w.log + [Issued(seqNum)]);
    IssuedKeeps(w, seqNum);
    SendFragmentsKeeps(issued, taken);
    hide Recorded, Answering;
  }

  lemma StopKeeps(w: World)
    ensures Keeps(w, Stop(w))
  {
    Logged(w.log, Stopped);
  }

  lemma CloseKeeps(w: World)
    ensures Keeps(w, Close(w))
  {
    StopKeeps(w);
  }

  lemma CommandKeeps(w: World, request: Option<Batch>, seqNum: nat, taken: nat, timed: bool)
    ensures Keeps(w, Command(w, request, seqNum, taken, timed))
  {
    if request.Some? {
      hide Recorded, Answering, Assemble, SendAcknowledged, Stop;
      AssembleKeeps(w, request.value);
      SendAcknowledgedKeeps(Assemble(w, request.value), seqNum, taken);
      StopKeeps(SendAcknowledged(Assemble(w, request.value), seqNum, taken));
    }
  }

  lemma RetriedKeeps(w: World)
    ensures var c := World(w.slot.(count := w.slot.count + 1), w.log + [Retried]);
            Keeps(w, c) && Keeps(w, c.(slot := c.slot.(closing := true)))
  {
    hide Track, Buffered, AcceptedTypes, Retries;
    Logged(w.log, Retried);
  }

  /** One more retry, with a close requested at the maximum. */
  function Retry(w: World, maxRetransmit: nat): World {
    var n := w.slot.count + 1;
    World(w.slot.(count := n, closing := n >= maxRetransmit || w.slot.closing), w.log + [Retried])
  }

  lemma RetryKeeps(w: World, maxRetransmit: nat)
    ensures Keeps(w, Retry(w, maxRetransmit))
    ensures Inv(w, maxRetransmit) ==> Inv(Retry(w, maxRetransmit), maxRetransmit)
  {
    hide Track, Buffered, AcceptedTypes, Retries;
    Logged(w.log, Retried);
  }

  lemma SoftTimerKeeps(w: World, maxRetransmit: nat, taken: nat, timed: bool)
    ensures Keeps(w, SoftTimer(w, maxRetransmit, taken, timed))
  {
    hide Recorded, Answering, SendFragments, Close;
    var c := World(w.slot.(count := w.slot.count + 1), w.log + [Retried]);
    RetriedKeeps(w);
    SendFragmentsKeeps(c, taken);
    CloseKeeps(SendFragments(c, taken));
  }

  lemma FailedKeeps(w: World, batch: Batch, taken: nat)
    ensures Keeps(w, Close(SendFragments(Assemble(w, batch), taken)))
  {
    hide Recorded, Answering, Assemble, SendFragments, Close;
    AssembleKeeps(w, batch);
    SendFragmentsKeeps(Assemble(w, batch), taken);
    CloseKeeps(SendFragments(Assemble(w, batch), taken));
  }

  lemma AcceptedKeeps(w: World)
    requires !w.slot.phase.Run?
    ensures Keeps(w, World(w.slot.(phase := Following(w.slot.phase)), w.log + [Accepted(Wanted(w.slot.phase))]))
  {
    hide Track, Buffered, AcceptedTypes, Retries;
    Logged(w.log, Accepted(Wanted(w.slot.phase)));
  }

  lemma DoneKeeps(w: World, response: Batch)
    requires !w.slot.phase.Run?
    ensures var s := SendFragments(Assemble(w, response), |response|);
            Keeps(w, World(s.slot.(phase := Following(w.slot.phase)), s.log + [Accepted(Wanted(w.slot.phase))]))
  {
    AssembleKeeps(w, response);
    SendFragmentsKeeps(Assemble(w, response), |response|);
    AcceptedKeeps(SendFragments(Assemble(w, response), |response|));
    hide Recorded, Answering;
  }

  lemma HandleRequestKeeps(w: World, header: ControlHeader, fate: Fate)
    ensures Keeps(w, HandleRequest(w, header, fate))
  {
    if !w.slot.phase.Run? && header.messageType == Wanted(w.slot.phase) {
      hide Recorded, Answering, Assemble, SendFragments, Stop;
      match fate
      case Malformed =>
      case Failed(assembled, taken) =>
        if assembled.Some? {
          FailedKeeps(w, assembled.value, taken);
        } else {
          CloseKeeps(w);
        }
      case Done(response) => DoneKeeps(w, response);
    }
  }

  /** A response is handled that answers nothing: it carries the expected number, which is
      not zero, and no request is outstanding. */
  predicate Unprompted(w: World, header: ControlHeader, fate: Fate) {
    && w.slot.phase.Run? && fate.Done? && Known(header.messageType)
    && header.seqNum == w.slot.expected != 0 && !w.slot.outstanding
  }

  lemma HandledRecorded(w: World, seqNum: nat)
    ensures Recorded(w) ==> Recorded(World(w.slot, w.log + [Handled(seqNum)]))
  {
    Logged(w.log, Handled(seqNum));
  }

  lemma HandledKeeps(w: World)
    ensures var after := Stop(World(w.slot, w.log + [Handled(w.slot.expected)]));
            && (Recorded(w) ==> Recorded(after))
            && (Answering(w) ==>
                if Clean(w.slot) then Answering(after) else Track(after.log).Unasked?)
  {
    hide Track, Buffered, AcceptedTypes, Retries;
    Logged(w.log, Handled(w.slot.expected));
    Logged(w.log + [Handled(w.slot.expected)], Stopped);
  }

  /** Every message keeps the record. It keeps the slot answering what was asked, except a
      response that answers nothing, which the history then tells. */
  lemma DeliverKeeps(w: World, header: ControlHeader, fate: Fate)
    ensures Recorded(w) ==> Recorded(Deliver(w, header, fate))
    ensures Answering(w) ==>
              if Unprompted(w, header, fate) then Track(Deliver(w, header, fate).log).Unasked?
              else Answering(Deliver(w, header, fate))
  {
    HandleRequestKeeps(w, header, fate);
    HandledKeeps(w);
    CloseKeeps(w);
    hide Recorded, Answering, Track, HandleRequest, Stop, Close;
  }

  /** A step that delivers a response which answers nothing. */
  predicate Astray(w: World, s: Step) {
    w.slot.live && s.Delivering? && Unprompted(w, s.header, s.fate)
  }

  /** Every step of every thread keeps the record, and the slot answering what was asked
      unless a response goes astray. */
  lemma NextKeeps(w: World, s: Step, maxRetransmit: nat)
    ensures Recorded(w) ==> Recorded(Next(w, s, maxRetransmit))
    ensures Answering(w) ==>
              if Astray(w, s) then Track(Next(w, s, maxRetransmit).log).Unasked?
              else Answering(Next(w, s, maxRetransmit))
  {
    match s
    case Starting => StartKeeps(w);
    case Delivering(header, fate) =>
      hide Recorded, Answering, Deliver, Unprompted, Track;
      DeliverKeeps(w, header, fate);
    case Commanding(request, seqNum, taken, timed) => CommandKeeps(w, request, seqNum, taken, timed);
    case Expiring(taken, timed) => SoftTimerKeeps(w, maxRetransmit, taken, timed);
    case Closing => CloseKeeps(w);
    case OtherAssembling(batch) => AssembleKeeps(w, batch);
    case OtherSending(seqNum, taken) => SendAcknowledgedKeeps(w, seqNum, taken);
    case OtherStopping => StopKeeps(w);
    case _ =>
  }

  lemma NextBounded(w: World, s: Step, maxRetransmit: nat)
    requires Bounded(w.slot, maxRetransmit) && maxRetransmit > 0
    ensures Bounded(Next(w, s, maxRetransmit).slot, maxRetransmit)
  {
  }

  // ---------- every run ----------

  /** In every run, of whatever threads: no array is sent in full twice, the requests
      accepted are those that lead to the phase, and the retransmission count is the number of times the
      timer acted since the request was issued; and that count stays within its bound. */
  lemma {:induction false} RunKeeps(w: World, steps: seq<Step>, maxRetransmit: nat)
    requires Recorded(w)
    ensures Recorded(RunSteps(w, steps, maxRetransmit))
    ensures maxRetransmit > 0 && Bounded(w.slot, maxRetransmit) ==>
              Bounded(RunSteps(w, steps, maxRetransmit).slot, maxRetransmit)
    decreases |steps|
  {
    if steps != [] {
      NextKeeps(w, steps[0], maxRetransmit);
      if maxRetransmit > 0 && Bounded(w.slot, maxRetransmit) {
        NextBounded(w, steps[0], maxRetransmit);
      }
      hide Next, Recorded, Bounded;
      RunKeeps(Next(w, steps[0], maxRetransmit), steps[1..], maxRetransmit);
    }
  }

  /** From a slot never used, in every run: the retransmission count of a live session is
      below the maximum unless a close was requested, and the run phase is reached exactly
      when a Join, a Configure and a Change State Event Request (types 3, 5 and 11) were
      accepted since the session started, in this order. */
  lemma FromFree(steps: seq<Step>, maxRetransmit: nat)
    ensures var w := RunSteps(World(FREE, []), steps, maxRetransmit);
            && Recorded(w) && (maxRetransmit > 0 ==> Inv(w, maxRetransmit))
            && (w.slot.phase.Run? <==> AcceptedTypes(w.log) == [3, 5, 11])
  {
    RunKeeps(World(FREE, []), steps, maxRetransmit);
  }

  // ---------- responses ----------

  lemma NextLogs(w: World, s: Step, maxRetransmit: nat)
    ensures w.log <= Next(w, s, maxRetransmit).log
  {
  }

  lemma {:induction false} RunLogs(w: World, steps: seq<Step>, maxRetransmit: nat)
    ensures w.log <= RunSteps(w, steps, maxRetransmit).log
    decreases |steps|
  {
    if steps != [] {
      NextLogs(w, steps[0], maxRetransmit);
      hide Next;
      RunLogs(Next(w, steps[0], maxRetransmit), steps[1..], maxRetransmit);
    }
  }

  /** No response goes astray. */
  predicate NoneAstray(w: World, steps: seq<Step>, maxRetransmit: nat)
    decreases |steps|
  {
    steps == [] ||
    (!Astray(w, steps[0]) && NoneAstray(Next(w, steps[0], maxRetransmit), steps[1..], maxRetransmit))
  }

  /** Every handled response with a non-zero number answers the one outstanding request if
      and only if no response goes astray. */
  lemma {:induction false} AnsweringIff(w: World, steps: seq<Step>, maxRetransmit: nat)
    requires Answering(w)
    ensures !Track(RunSteps(w, steps, maxRetransmit).log).Unasked? <==> NoneAstray(w, steps, maxRetransmit)
    ensures NoneAstray(w, steps, maxRetransmit) ==> Answering(RunSteps(w, steps, maxRetransmit))
    decreases |steps|
  {
    if steps != [] {
      var next := Next(w, steps[0], maxRetransmit);
      NextKeeps(w, steps[0], maxRetransmit);
      if Astray(w, steps[0]) {
        var last := RunSteps(next, steps[1..], maxRetransmit);
        RunLogs(next, steps[1..], maxRetransmit);
        UnaskedStays(next.log, last.log);
      } else {
        hide Next;
        AnsweringIff(next, steps[1..], maxRetransmit);
      }
    }
  }

  lemma UnaskedStays(log: seq<Entry>, longer: seq<Entry>)
    requires log <= longer && Track(log).Unasked?
    ensures Track(longer).Unasked?
  {
    assert longer[..|log|] == log;
    if !Track(longer).Unasked? {
      TrackPrefix(longer, |log|);
    }
  }

  /** A step leaves no stale expected sequence number if and only if it is not the start of
      a session on a slot that has one. */
  lemma NextClean(w: World, s: Step, maxRetransmit: nat)
    requires Clean(w.slot)
    ensures Clean(Next(w, s, maxRetransmit).slot) <==> !(s.Starting? && !w.slot.live && w.slot.expected != 0)
  {
  }

  /** No session starts on a slot that another thread left expecting a response. */
  predicate CleanStarts(w: World, steps: seq<Step>, maxRetransmit: nat)
    decreases |steps|
  {
    steps == [] ||
    (&& !(steps[0].Starting? && !w.slot.live && w.slot.expected != 0)
     && CleanStarts(Next(w, steps[0], maxRetransmit), steps[1..], maxRetransmit))
  }

  predicate AlwaysClean(w: World, steps: seq<Step>, maxRetransmit: nat)
    decreases |steps|
  {
    Clean(w.slot) && (steps == [] || AlwaysClean(Next(w, steps[0], maxRetransmit), steps[1..], maxRetransmit))
  }

  /** A non-zero expected sequence number implies an outstanding request throughout a run
      if and only if all its starts are clean. Then no response goes astray. */
  lemma {:induction false} CleanIff(w: World, steps: seq<Step>, maxRetransmit: nat)
    requires Clean(w.slot)
    ensures AlwaysClean(w, steps, maxRetransmit) <==> CleanStarts(w, steps, maxRetransmit)
    ensures CleanStarts(w, steps, maxRetransmit) ==> NoneAstray(w, steps, maxRetransmit)
    decreases |steps|
  {
    if steps != [] {
      NextClean(w, steps[0], maxRetransmit);
      if Clean(Next(w, steps[0], maxRetransmit).slot) {
        CleanIff(Next(w, steps[0], maxRetransmit), steps[1..], maxRetransmit);
      }
    }
  }

  // ---------- what the histories mean ----------

  /** Nothing about requests happens from entry `i` on. */
  predicate Quiet(log: seq<Entry>, i: nat) {
    forall m | i <= m < |log| :: !log[m].Issued? && !log[m].Handled? && !log[m].Stopped? && !log[m].Started?
  }

  lemma {:induction false} WaitingSince(log: seq<Entry>) returns (i: nat)
    requires Track(log).Waiting?
    ensures i < |log| && log[i] == Issued(Track(log).seqNum) && Quiet(log, i + 1)
  {
    var n := |log| - 1;
    if log[n].Issued? {
      i := n;
    } else {
      i := WaitingSince(log[..n]);
      assert forall m | i + 1 <= m < n :: log[m] == log[..n][m];
    }
  }

  lemma {:induction false} TrackPrefix(log: seq<Entry>, k: nat)
    requires !Track(log).Unasked? && k <= |log|
    ensures !Track(log[..k]).Unasked?
    decreases |log|
  {
    if k < |log| {
      TrackPrefix(log[..|log| - 1], k);
      assert log[..|log| - 1][..k] == log[..k];
    } else {
      assert log[..k] == log;
    }
  }

  /** In a run where no response goes astray, a handled response with a non-zero sequence
      number answers a request with that number, and nothing was issued, answered or
      stopped in between: so no request is answered twice and no response answers two. */
  lemma AnswersOneRequest(steps: seq<Step>, maxRetransmit: nat, k: nat) returns (i: nat)
    requires NoneAstray(World(FREE, []), steps, maxRetransmit)
    requires var log := RunSteps(World(FREE, []), steps, maxRetransmit).log;
             k < |log| && log[k].Handled? && log[k].seqNum != 0
    ensures var log := RunSteps(World(FREE, []), steps, maxRetransmit).log;
            i < k && log[i] == Issued(log[k].seqNum) && Quiet(log[..k], i + 1)
  {
    AnsweringIff(World(FREE, []), steps, maxRetransmit);
    var log := RunSteps(World(FREE, []), steps, maxRetransmit).log;
    TrackPrefix(log, k + 1);
    assert log[..k + 1][..k] == log[..k];
    i := WaitingSince(log[..k]);
  }

  /** Nothing about the array of messages happens from entry `i` on. */
  predicate Still(log: seq<Entry>, i: nat) {
    forall m | i <= m < |log| :: !log[m].Assembled? && !log[m].Sent? && !log[m].Stopped? && !log[m].Started?
  }

  lemma {:induction false} HoldingSince(log: seq<Entry>) returns (i: nat)
    requires Buffered(log).Holding?
    ensures i < |log| && log[i] == Assembled(Buffered(log).batch) && Still(log, i + 1)
  {
    var n := |log| - 1;
    if log[n].Assembled? {
      i := n;
    } else {
      i := HoldingSince(log[..n]);
      assert forall m | i + 1 <= m < n :: log[m] == log[..n][m];
    }
  }

  lemma {:induction false} BufferPrefix(log: seq<Entry>, k: nat)
    requires !Buffered(log).Resent? && k <= |log|
    ensures !Buffered(log[..k]).Resent?
    decreases |log|
  {
    if k < |log| {
      BufferPrefix(log[..|log| - 1], k);
      assert log[..|log| - 1][..k] == log[..k];
    } else {
      assert log[..k] == log;
    }
  }

  /** In every run, every array that is sent in full was assembled for it, and was not sent
      in full before. (When single packets go out twice is told in `SessionWire`.) A send is
      one step here; two threads inside one send, which no mutex rules out in a handover,
      are not modelled. */
  lemma SentOnce(steps: seq<Step>, maxRetransmit: nat, k: nat) returns (i: nat)
    requires var log := RunSteps(World(FREE, []), steps, maxRetransmit).log; k < |log| && log[k].Sent?
    ensures var log := RunSteps(World(FREE, []), steps, maxRetransmit).log;
            i < k && log[i] == Assembled(log[k].batch) && Still(log[..k], i + 1)
  {
    FromFree(steps, maxRetransmit);
    var log := RunSteps(World(FREE, []), steps, maxRetransmit).log;
    BufferPrefix(log, k + 1);
    assert log[..k + 1][..k] == log[..k];
    i := HoldingSince(log[..k]);
  }

  // ---------- phases ----------

  function Rank(p: Phase): nat {
    |Path(p)|
  }

  /** A live session stays in its phase or enters the following one, and the latter only by
      accepting the request that phase waits for. */
  lemma PhaseAdvances(w: World, s: Step, maxRetransmit: nat)
    requires w.slot.live
    ensures var after := Next(w, s, maxRetransmit).slot.phase;
            || after == w.slot.phase
            || (&& after == Following(w.slot.phase) && Rank(after) == Rank(w.slot.phase) + 1
                && s.Delivering? && s.header.messageType == Wanted(w.slot.phase) && s.fate.Done?)
  {
  }

  predicate StaysLive(w: World, steps: seq<Step>, maxRetransmit: nat)
    decreases |steps|
  {
    w.slot.live && (steps == [] || StaysLive(Next(w, steps[0], maxRetransmit), steps[1..], maxRetransmit))
  }

  /** The messages a run accepts, in order, among those delivered to it. */
  function AcceptedIn(w: World, steps: seq<Step>, maxRetransmit: nat): seq<nat>
    decreases |steps|
  {
    if steps == [] then []
    else
      var next := Next(w, steps[0], maxRetransmit);
      (if next.slot.phase != w.slot.phase && steps[0].Delivering? then [steps[0].header.messageType] else []) +
      AcceptedIn(next, steps[1..], maxRetransmit)
  }

  /** Over the life of a session the phases only advance, one at a time: the messages it
      accepts are exactly what separates the first phase from the last. */
  lemma {:induction false} PhasesInOrder(w: World, steps: seq<Step>, maxRetransmit: nat)
    requires StaysLive(w, steps, maxRetransmit)
    ensures Path(RunSteps(w, steps, maxRetransmit).slot.phase) ==
            Path(w.slot.phase) + AcceptedIn(w, steps, maxRetransmit)
    decreases |steps|
  {
    if steps != [] {
      var next := Next(w, steps[0], maxRetransmit);
      PhaseAdvances(w, steps[0], maxRetransmit);
      PhasesInOrder(next, steps[1..], maxRetransmit);
      var rest := AcceptedIn(next, steps[1..], maxRetransmit);
      if next.slot.phase != w.slot.phase {
        assert Path(next.slot.phase) == Path(w.slot.phase) + [Wanted(w.slot.phase)];
        assert Path(next.slot.phase) + rest == Path(w.slot.phase) + ([Wanted(w.slot.phase)] + rest);
      } else {
        assert [] + rest == rest;
      }
    }
  }

  // ---------- runs without handover ----------

  /** Whenever a request is outstanding its array is gone, so that there is nothing to
      retransmit; and between sessions no response is expected. */
  predicate Emptied(s: Slot) {
    && Clean(s)
    && (s.outstanding ==> s.live && s.messages.None?)
    && (s.live ==> s.count == 0)
  }

  /** Without steps of other sessions, the retransmission timer never does anything. */
  lemma NothingToRetransmit(w: World, s: Step, maxRetransmit: nat)
    requires Emptied(w.slot) && !Other(s)
    ensures Emptied(Next(w, s, maxRetransmit).slot)
    ensures s.Expiring? ==> Next(w, s, maxRetransmit) == w
  {
  }

  lemma {:induction false} NeverRetransmits(w: World, steps: seq<Step>, maxRetransmit: nat)
    requires Emptied(w.slot) && forall s | s in steps :: !Other(s)
    ensures Emptied(RunSteps(w, steps, maxRetransmit).slot) && CleanStarts(w, steps, maxRetransmit)
    decreases |steps|
  {
    if steps != [] {
      NothingToRetransmit(w, steps[0], maxRetransmit);
      NeverRetransmits(Next(w, steps[0], maxRetransmit), steps[1..], maxRetransmit);
    }
  }

  /** So without handovers no response goes astray in any run. */
  lemma WithoutHandover(steps: seq<Step>, maxRetransmit: nat)
    requires forall s | s in steps :: !Other(s)
    ensures var w := RunSteps(World(FREE, []), steps, maxRetransmit);
            && NoneAstray(World(FREE, []), steps, maxRetransmit)
            && Clean(w.slot) && Answering(w) && (w.slot.live ==> w.slot.count == 0)
  {
    NeverRetransmits(World(FREE, []), steps, maxRetransmit);
    CleanIff(World(FREE, []), steps, maxRetransmit);
    AnsweringIff(World(FREE, []), steps, maxRetransmit);
  }

  // ---------- runs with handover ----------

  lemma {:induction false} RunAppend(w: World, a: seq<Step>, b: seq<Step>, maxRetransmit: nat)
    ensures RunSteps(w, a + b, maxRetransmit) == RunSteps(RunSteps(w, a, maxRetransmit), b, maxRetransmit)
    decreases |a|
  {
    if a == [] {
      assert a + b == b;
    } else {
      assert (a + b)[1..] == a[1..] + b;
      RunAppend(Next(w, a[0], maxRetransmit), a[1..], b, maxRetransmit);
    }
  }

  lemma RunOne(w: World, s: Step, maxRetransmit: nat)
    ensures RunSteps(w, [s], maxRetransmit) == Next(w, s, maxRetransmit)
  {
    assert [s][1..] == [];
  }

  lemma RunTwo(w: World, s: Step, t: Step, maxRetransmit: nat)
    ensures RunSteps(w, [s, t], maxRetransmit) == Next(Next(w, s, maxRetransmit), t, maxRetransmit)
  {
    assert [s, t] == [s] + [t];
    RunAppend(w, [s], [t], maxRetransmit);
    RunOne(w, s, maxRetransmit);
    RunOne(Next(w, s, maxRetransmit), t, maxRetransmit);
  }

  function Accepting(messageType: nat, response: Batch): Step {
    Delivering(ControlHeader(messageType, 0, 0), Done(response))
  }

  /** The steps that bring a new session into the run phase. */
  function Joining(response: Batch): seq<Step> {
    [Allocate, Starting] + [Accepting(JOIN_REQUEST, response), Accepting(CONFIGURE_REQUEST, response)] +
    [Accepting(CHANGE_STATE_EVENT_REQUEST, response)]
  }

  lemma JoiningWorks(w: World, response: Batch, maxRetransmit: nat)
    requires !w.slot.live
    ensures RunSteps(w, Joining(response), maxRetransmit).slot ==
            Slot(true, Run, false, 0, w.slot.expected, None, false)
  {
    var w1 := RunSteps(w, [Allocate, Starting], maxRetransmit);
    RunTwo(w, Allocate, Starting, maxRetransmit);
    var requests := [Accepting(JOIN_REQUEST, response), Accepting(CONFIGURE_REQUEST, response)];
    var w2 := RunSteps(w1, requests, maxRetransmit);
    RunTwo(w1, requests[0], requests[1], maxRetransmit);
    RunOne(w2, Accepting(CHANGE_STATE_EVENT_REQUEST, response), maxRetransmit);
    RunAppend(w, [Allocate, Starting], requests, maxRetransmit);
    RunAppend(w, [Allocate, Starting] + requests, [Accepting(CHANGE_STATE_EVENT_REQUEST, response)], maxRetransmit);
  }

  /** With a handover the timer can act: a session in the run phase has a request
      outstanding, another session assembles a request on its slot, and the timer sends it
      first. */
  lemma TimerActsInHandover(response: Batch, batch: Batch, other: Batch)
    ensures var joined := RunSteps(World(FREE, []), Joining(response), 5);
            var handover := [Commanding(Some(batch), 7, |batch|, true), OtherAssembling(other)] +
                            [Expiring(|other|, true)];
            var last := RunSteps(World(FREE, []), Joining(response) + handover, 5);
            && last.slot.count == 1
            && last.log == joined.log + [Assembled(batch), Issued(7), Sent(batch), Assembled(other), Retried,
                                         Sent(other)]
  {
    JoiningWorks(World(FREE, []), response, 5);
    hide Joining;
    var joined := RunSteps(World(FREE, []), Joining(response), 5);
    var command := Commanding(Some(batch), 7, |batch|, true);
    var w := RunSteps(joined, [command, OtherAssembling(other)], 5);
    RunAppend(World(FREE, []), Joining(response), [command, OtherAssembling(other)] + [Expiring(|other|, true)], 5);
    RunAppend(joined, [command, OtherAssembling(other)], [Expiring(|other|, true)], 5);
    RunTwo(joined, command, OtherAssembling(other), 5);
    RunOne(w, Expiring(|other|, true), 5);
  }

  /** A session closes while one of its stations is handed over: the other session's request
      goes out through the slot that is free by then. */
  function LateHandover(batch: Batch): seq<Step> {
    [Closing, OtherAssembling(batch)] + [OtherSending(7, |batch|)]
  }

  /** The session that starts next on that slot reaches the run phase with an expected
      sequence number and no request; a response with that number goes astray. */
  lemma StaleExpected(response: Batch, batch: Batch)
    ensures var steps := Joining(response) + LateHandover(batch) + Joining(response);
            var w := RunSteps(World(FREE, []), steps, 5);
            && w.slot.live && w.slot.phase.Run? && !w.slot.outstanding && w.slot.expected == 7
            && Astray(w, Delivering(ControlHeader(CONFIGURE_UPDATE_RESPONSE, 7, 0), Done([])))
  {
    var w1 := RunSteps(World(FREE, []), Joining(response), 5);
    JoiningWorks(World(FREE, []), response, 5);
    hide Joining;
    var w2 := RunSteps(w1, LateHandover(batch), 5);
    LateHandoverLeaves(w1, batch, 5);
    JoiningWorks(w2, response, 5);
    RunAppend(World(FREE, []), Joining(response), LateHandover(batch), 5);
    RunAppend(World(FREE, []), Joining(response) + LateHandover(batch), Joining(response), 5);
  }

  lemma LateHandoverLeaves(w: World, batch: Batch, maxRetransmit: nat)
    requires w.slot.live
    ensures var s := RunSteps(w, LateHandover(batch), maxRetransmit).slot; !s.live && s.expected == 7
  {
    RunAppend(w, [Closing, OtherAssembling(batch)], [OtherSending(7, |batch|)], maxRetransmit);
    RunTwo(w, Closing, OtherAssembling(batch), maxRetransmit);
    RunOne(RunSteps(w, [Closing, OtherAssembling(batch)], maxRetransmit), OtherSending(7, |batch|), maxRetransmit);
  }
}
