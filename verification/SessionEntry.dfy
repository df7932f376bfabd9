/** The fields of a `gWTPs` entry, updated in place by the session thread: sending, giving
    up and retransmitting requests, and handling what arrives in each state. */
module SessionEntry {
  import opened Options
  import opened Bytes
  import opened ControlMessage
  import S = Session

  /** How many packets the network takes before it refuses one. */
  function Taken(accepts: seq<bool>): (n: nat)
    ensures n <= |accepts|
    ensures forall i | 0 <= i < n :: accepts[i]
    ensures n < |accepts| ==> !accepts[n]
  {
    if accepts == [] || !accepts[0] then 0 else 1 + Taken(accepts[1..])
  }

  class Entry {
    const maxRetransmit: nat
    var live: bool
    var phase: S.Phase
    var outstanding: bool
    var count: nat
    var expected: nat
    var messages: Option<S.Batch>
    var closing: bool
    /** The packets handed to the network. */
    var wire: seq<seq<Byte>>
    ghost var log: seq<S.Entry>

    ghost function Value(): S.World
      reads this
    {
      S.World(S.Slot(live, phase, outstanding, count, expected, messages, closing), log)
    }

    /** What every operation keeps. */
    ghost predicate Valid()
      reads this
    {
      maxRetransmit > 0 && S.Inv(Value(), maxRetransmit) && wire == S.PacketsOut(log)
    }

    /** A request is outstanding exactly if the history tells of one, with its number. */
    ghost predicate Answering()
      reads this
    {
      S.Answering(Value())
    }

    constructor (maxRetransmit: nat)
      requires maxRetransmit > 0
      ensures Valid() && Answering()
      ensures Value() == S.World(S.FREE, []) && wire == []
    {
      this.maxRetransmit := maxRetransmit;
      live, phase, outstanding, count, expected := false, S.Join, false, 0, 0;
      messages, closing, wire, log := None, false, [], [];
    }

    /** The start of `CWManageWTP` */
    method Start()
      requires Valid()
      modifies this
      ensures Valid()
      ensures old(Answering()) ==> Answering()
      ensures Value() == S.Start(old(Value()))
    {
      S.StartKeeps(Value());
      S.NoPackets(log, S.Started);
      hide S.Recorded, S.Answering, S.PacketsOut;
      live, phase := true, S.Join;
      messages, outstanding, count := None, false, 0;
      log := log + [S.Started];
    }

    method Assemble(batch: S.Batch)
      requires Valid()
      modifies this`messages, this`log
      ensures Valid()
      ensures old(Answering()) ==> Answering()
      ensures Value() == S.Assemble(old(Value()), batch)
    {
      S.AssembleKeeps(Value(), batch);
      S.NoPackets(log, S.Assembled(batch));
      hide S.Recorded, S.Answering, S.PacketsOut;
      messages := Some(batch);
      log := log + [S.Assembled(batch)];
    }

    /** Hands packets to the network until it refuses one. */
    method Transmit(batch: S.Batch, accepts: seq<bool>) returns (taken: nat)
      requires |accepts| == |batch|
      modifies this`wire
      ensures taken == Taken(accepts) && wire == old(wire) + batch[..taken]
    {
      taken := 0;
      while taken < |batch| && accepts[taken]
        invariant taken <= Taken(accepts) && wire == old(wire) + batch[..taken]
      {
        assert batch[..taken + 1] == batch[..taken] + [batch[taken]];
        wire := wire + [batch[taken]];
        taken := taken + 1;
      }
    }

    /** `CWACSendFragments`, with the network's answers packet by packet. */
    method SendFragments(accepts: seq<bool>) returns (ok: bool)
      requires messages.Some? ==> |accepts| == |messages.value|
      requires Valid()
      modifies this`messages, this`wire, this`log
      ensures Valid()
      ensures old(Answering()) ==> Answering()
      ensures ok == S.Sends(old(Value()), Taken(accepts))
      ensures Value() == S.SendFragments(old(Value()), Taken(accepts))
      ensures wire == old(wire) + if old(messages).Some? then old(messages).value[..Taken(accepts)] else []
    {
      S.SendFragmentsKeeps(Value(), Taken(accepts));
      hide S.Recorded, S.Answering, S.PacketsOut;
      if messages.None? {
        return false;
      }
      var batch := messages.value;
      var taken := Transmit(batch, accepts);
      if taken < |batch| {
        S.PacketsLogged(log, S.Refused(batch, taken));
        log := log + [S.Refused(batch, taken)];
        return false;
      }
      S.PacketsLogged(log, S.Sent(batch));
      log := log + [S.Sent(batch)];
      messages := None;
      return true;
    }

    /** `CWACSendAcknowledgedPacket` with `CWACResendAcknowledgedPacket` */
    method SendAcknowledgedPacket(seqNum: nat, accepts: seq<bool>, timed: bool) returns (ok: bool)
      requires messages.Some? ==> |accepts| == |messages.value|
      requires Valid()
      modifies this
      ensures Valid()
      ensures old(Answering()) ==> Answering()
      ensures ok == (S.Sends(old(Value()), Taken(accepts)) && timed)
      ensures Value() == S.SendAcknowledged(old(Value()), seqNum, Taken(accepts))
    {
      S.SendAcknowledgedKeeps(Value(), seqNum, Taken(accepts));
      S.NoPackets(log, S.Issued(seqNum));
      S.IssuedKeeps(Value(), seqNum);
      hide S.Recorded, S.Answering, S.PacketsOut;
      count, outstanding, expected := 0, true, seqNum;
      log := log + [S.Issued(seqNum)];
      ok := SendFragments(accepts);
      ok := ok && timed;
    }

    /** `CWACStopRetransmission` */
    method StopRetransmission()
      requires Valid()
      modifies this
      ensures Valid()
      ensures old(Answering()) ==> Answering()
      ensures Value() == S.Stop(old(Value()))
    {
      S.StopKeeps(Value());
      S.NoPackets(log, S.Stopped);
      hide S.Recorded, S.Answering, S.PacketsOut;
      if outstanding {
        outstanding, expected, messages := false, 0, None;
        log := log + [S.Stopped];
      }
    }

    /** `_CWCloseThread`, as far as this entry goes. */
    method CloseThread()
      requires Valid()
      modifies this
      ensures Valid()
      ensures old(Answering()) ==> Answering()
      ensures Value() == S.Close(old(Value()))
    {
      S.CloseKeeps(Value());
      hide S.Recorded, S.Answering, S.PacketsOut;
      StopRetransmission();
      live := false;
    }

    /** A command in the session loop. */
    method Command(request: Option<S.Batch>, seqNum: nat, accepts: seq<bool>, timed: bool)
      requires request.Some? ==> |accepts| == |request.value|
      requires Valid()
      modifies this
      ensures Valid()
      ensures old(Answering()) ==> Answering()
      ensures Value() == S.Command(old(Value()), request, seqNum, Taken(accepts), timed)
    {
      S.CommandKeeps(Value(), request, seqNum, Taken(accepts), timed);
      hide S.Recorded, S.Answering, S.PacketsOut;
      if request.Some? {
        Assemble(request.value);
        var ok := SendAcknowledgedPacket(seqNum, accepts, timed);
        if !ok {
          StopRetransmission();
        }
      }
    }

    /** One more retry; at the maximum a close is requested instead. */
    method CountRetry() returns (giveUp: bool)
      requires Valid()
      modifies this`count, this`log, this`closing
      ensures Valid()
      ensures old(Answering()) ==> Answering()
      ensures giveUp == (old(count) + 1 >= maxRetransmit)
      ensures Value() == S.Retry(old(Value()), maxRetransmit)
    {
      S.NoPackets(log, S.Retried);
      S.RetryKeeps(Value(), maxRetransmit);
      hide S.Inv, S.Recorded, S.Answering, S.PacketsOut;
      count := count + 1;
      log := log + [S.Retried];
      giveUp := count >= maxRetransmit;
      if giveUp {
        closing := true;
      }
    }

    /** `CWSoftTimerExpiredHandler` */
    method SoftTimerExpired(accepts: seq<bool>, timed: bool)
      requires messages.Some? ==> |accepts| == |messages.value|
      requires Valid()
      modifies this
      ensures Valid()
      ensures old(Answering()) ==> Answering()
      ensures Value() == S.SoftTimer(old(Value()), maxRetransmit, Taken(accepts), timed)
    {
      hide S.Inv, S.Answering, S.PacketsOut, S.SendFragments, S.Close;
      if !outstanding || messages.None? {
        return;
      }
      var giveUp := CountRetry();
      if !giveUp {
        Resend(accepts, timed);
      }
    }

    /** `CWACResendAcknowledgedPacket` from the timer: a failure closes the session. */
    method Resend(accepts: seq<bool>, timed: bool)
      requires messages.Some? && |accepts| == |messages.value|
      requires Valid()
      modifies this
      ensures Valid()
      ensures old(Answering()) ==> Answering()
      ensures var s := S.SendFragments(old(Value()), Taken(accepts));
              Value() == if S.Sends(old(Value()), Taken(accepts)) && timed then s else S.Close(s)
    {
      hide S.Inv, S.Answering, S.PacketsOut, S.SendFragments, S.Close;
      var ok := SendFragments(accepts);
      if !(ok && timed) {
        CloseThread();
      }
    }

    /** `ACEnterJoin`, `ACEnterConfigure` and `ACEnterDataCheck`, and the session loop's
        handling of their errors. */
    method EnterState(header: ControlHeader, fate: S.Fate, accepts: seq<bool>)
      requires fate.Done? ==> |accepts| == |fate.response| && Taken(accepts) == |accepts|
      requires fate.Failed? && fate.assembled.Some? ==>
                 |accepts| == |fate.assembled.value| && fate.taken == Taken(accepts)
      requires !phase.Run?
      requires Valid()
      modifies this
      ensures Valid()
      ensures old(Answering()) ==> Answering()
      ensures Value() == S.HandleRequest(old(Value()), header, fate)
    {
      S.HandleRequestKeeps(Value(), header, fate);
      hide S.Recorded, S.Answering, S.PacketsOut;
      if header.messageType != S.Wanted(phase) {
        return;
      }
      match fate
      case Malformed =>
      case Failed(assembled, _) =>
        if assembled.Some? {
          Assemble(assembled.value);
          var _ := SendFragments(accepts);
        }
        CloseThread();
      case Done(response) =>
        Assemble(response);
        var _ := SendFragments(accepts);
        S.NoPackets(log, S.Accepted(header.messageType));
        S.AcceptedKeeps(Value());
        phase := S.Following(phase);
        log := log + [S.Accepted(header.messageType)];
    }

    /** `ACEnterRun` on a control message. */
    method EnterRun(header: ControlHeader, fate: S.Fate)
      requires phase.Run?
      requires Valid()
      modifies this
      ensures Valid()
      ensures old(Answering()) ==>
                if old(S.Unprompted(Value(), header, fate)) then S.Track(log).Unasked? else Answering()
      ensures Value() == S.HandleRun(old(Value()), header, fate)
    {
      S.DeliverKeeps(Value(), header, fate);
      hide S.Recorded, S.Answering, S.PacketsOut;
      if header.messageType % 2 == 0 && expected != header.seqNum {
        return;
      }
      match fate
      case Malformed =>
      case Failed(_, _) => CloseThread();
      case Done(_) =>
        if S.Known(header.messageType) {
          S.NoPackets(log, S.Handled(header.seqNum));
          S.HandledRecorded(Value(), header.seqNum);
          log := log + [S.Handled(header.seqNum)];
          StopRetransmission();
        }
    }
  }
}
