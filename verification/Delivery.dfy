/**
  The outbound delivery protocol over whole runs. One plugin process answers one request at a time;
  it may crash between any two steps and is then respawned. The ledger is durable, everything else
  is lost with the process. An exception that escapes a request is a crash.
 */
module Delivery {
  import opened Wrappers
  import opened IdempotencyStore
  import opened Outbound

  datatype Phase =
    | Ready
    | Sending(key: Key)                           // the ledger does not know the key
    | Unrecorded(key: Key, id: MessageId)         // the platform has the message, the ledger does not
    | Answering(key: Key, reply: Reply)           // the handler has returned
    | Returning(key: Key, reply: Reply, at: real) // the dispatcher has settled the rate limit, at this time

  datatype Event =
    | Sent(key: Key, id: MessageId)
    | Answered(key: Key, reply: Reply)
    | Conflicted(key: Key)
    | Crashed(lost: Option<Key>)      // the key whose accepted message was not recorded yet
    | Emitted(at: real, window: nat)  // a rate-limit signal
    | Cleared                         // a delivery resets the deadlines
    | Pruned(keys: set<Key>)

  datatype State = State(ledger: Ledger, deadlines: Deadlines, clock: real, phase: Phase, log: seq<Event>)

  /** What may happen next. A step that the phase does not allow changes nothing. */
  datatype Step =
    | Receive(key: Key)
    | Accept(id: MessageId)
    | Refuse(outcome: SendOutcome)
    | Record
    | Settle
    | Return
    | Crash
    | Tick(elapsed: real)
    | Prune(keys: set<Key>)

  function Logging(s: State, e: Event): State { s.(log := s.log + [e]) }

  /** The process is gone; the ledger is not. */
  function Respawned(s: State, e: Event): State { Logging(s.(phase := Ready, deadlines := map[]), e) }

  function Received(s: State, key: Key): State
    requires s.phase.Ready?
  {
    match Found(s.ledger, key)
    case Some(id) => s.(phase := Answering(key, Delivered(id)))
    case None => s.(phase := Sending(key))
  }

  function RecordedState(s: State): State
    requires s.phase.Unrecorded?
  {
    var (ledger, conflict) := Recorded(s.ledger, s.phase.key, s.phase.id);
    if conflict then Respawned(s, Conflicted(s.phase.key))
    else s.(ledger := ledger, phase := Answering(s.phase.key, Delivered(s.phase.id)))
  }

  /** The dispatcher: signal before returning a rate limit, clear after a delivery. */
  function Settled(s: State): State
    requires s.phase.Answering?
  {
    var reply := s.phase.reply;
    var settled := s.(phase := Returning(s.phase.key, reply, s.clock));
    if IsRateLimited(Some(reply)) then
      if IsDue(s.deadlines, ChannelSend, s.clock)
      then Logging(settled.(deadlines := Signalled(s.deadlines, ChannelSend, reply.after, s.clock)),
                   Emitted(s.clock, reply.after))
      else settled
    else if IsDelivered(Some(reply)) then Logging(settled.(deadlines := map[]), Cleared)
    else settled
  }

  function Apply(s: State, step: Step): State {
    match step
    case Receive(key) => if s.phase.Ready? then Received(s, key) else s
    case Accept(id) =>
      if s.phase.Sending? then Logging(s.(phase := Unrecorded(s.phase.key, id)), Sent(s.phase.key, id)) else s
    case Refuse(o) =>
      if s.phase.Sending? && FailureReply(o).Some?
      then s.(phase := Answering(s.phase.key, FailureReply(o).value)) else s
    case Record => if s.phase.Unrecorded? then RecordedState(s) else s
    case Settle => if s.phase.Answering? then Settled(s) else s
    case Return =>
      if s.phase.Returning? then Logging(s.(phase := Ready), Answered(s.phase.key, s.phase.reply)) else s
    case Crash => Respawned(s, Crashed(if s.phase.Unrecorded? then Some(s.phase.key) else None))
    case Tick(elapsed) => if elapsed >= 0.0 then s.(clock := s.clock + elapsed) else s
    case Prune(keys) => Logging(s.(ledger := s.ledger - keys), Pruned(keys))
  }

  const START := State(map[], map[], 0.0, Ready, [])

  function After(run: seq<Step>): State {
    if run == [] then START else Apply(After(run[..|run| - 1]), run[|run| - 1])
  }

  /** The frames the sink has accepted. */
  function Signals(log: seq<Event>): seq<Signal> {
    if log == [] then []
    else
      var e := log[|log| - 1];
      Signals(log[..|log| - 1]) + if e.Emitted? then [Signal(ChannelSend, e.window, e.at)] else []
  }

  lemma SignalsOneMore(log: seq<Event>, e: Event)
    ensures Signals(log + [e]) == Signals(log) + if e.Emitted? then [Signal(ChannelSend, e.window, e.at)] else []
  {
    assert (log + [e])[..|log + [e]| - 1] == log;
  }

  /** One request carried out without a crash, as far as the handler goes ... */
  function Handling(s: State, key: Key, o: SendOutcome): State {
    var received := Apply(s, Receive(key));
    if !received.phase.Sending? then received
    else if o.Accepted? then Apply(Apply(received, Accept(o.id)), Record)
    else Apply(received, Refuse(o))
  }

  lemma HandlingIsHandled(s: State, key: Key, o: SendOutcome)
    requires s.phase.Ready? && Handled(s.ledger, key, o).1.Some?
    ensures
      var (ledger, reply) := Handled(s.ledger, key, o);
      var s' := Handling(s, key, o);
      && s'.phase == Answering(key, reply.value) && s'.ledger == ledger
      && s'.deadlines == s.deadlines && s'.clock == s.clock && Signals(s'.log) == Signals(s.log)
  {
    if o.Accepted? {
      SignalsOneMore(s.log, Sent(key, o.id));
    }
  }

  /** ... and to the end. */
  function Dispatching(s: State, key: Key, o: SendOutcome): State {
    Apply(Apply(Handling(s, key, o), Settle), Return)
  }

  /** The steps add up to what the dispatcher's method promises. */
  lemma DispatchingIsDispatch(s: State, key: Key, o: SendOutcome)
    requires s.phase.Ready? && Handled(s.ledger, key, o).1.Some?
    ensures
      var (ledger, reply) := Handled(s.ledger, key, o);
      var s' := Dispatching(s, key, o);
      && s'.phase.Ready? && s'.ledger == ledger
      && s'.log != [] && s'.log[|s'.log| - 1] == Answered(key, reply.value)
      && s'.deadlines == (if IsRateLimited(reply) then Signalled(s.deadlines, ChannelSend, reply.value.after, s.clock)
                          else if IsDelivered(reply) then map[] else s.deadlines)
      && Signals(s'.log) == Signals(s.log)
           + if IsRateLimited(reply) && IsDue(s.deadlines, ChannelSend, s.clock)
             then [Signal(ChannelSend, reply.value.after, s.clock)] else []
  {
    HandlingIsHandled(s, key, o);
    SettledThenReturned(Handling(s, key, o));
  }

  lemma SettledThenReturned(s: State)
    requires s.phase.Answering?
    ensures
      var s' := Apply(Apply(s, Settle), Return);
      var reply := Some(s.phase.reply);
      && s'.phase.Ready? && s'.ledger == s.ledger
      && s'.log != [] && s'.log[|s'.log| - 1] == Answered(s.phase.key, s.phase.reply)
      && s'.deadlines == (if IsRateLimited(reply) then Signalled(s.deadlines, ChannelSend, reply.value.after, s.clock)
                          else if IsDelivered(reply) then map[] else s.deadlines)
      && Signals(s'.log) == Signals(s.log)
           + if IsRateLimited(reply) && IsDue(s.deadlines, ChannelSend, s.clock)
             then [Signal(ChannelSend, reply.value.after, s.clock)] else []
  {
    var settled := Apply(s, Settle);
    if settled.log != s.log {
      SignalsOneMore(s.log, settled.log[|settled.log| - 1]);
    }
    SignalsOneMore(settled.log, Answered(s.phase.key, s.phase.reply));
  }

  // ----- reading the log -----

  predicate IsSend(e: Event, key: Key) { e.Sent? && e.key == key }

  ghost function Sends(log: seq<Event>, key: Key): nat {
    if log == [] then 0
    else Sends(log[..|log| - 1], key) + if IsSend(log[|log| - 1], key) then 1 else 0
  }

  /** Crashes between the platform's acceptance of this key's message and its record. */
  ghost function LostRecords(log: seq<Event>, key: Key): nat {
    if log == [] then 0
    else LostRecords(log[..|log| - 1], key) + if log[|log| - 1] == Crashed(Some(key)) then 1 else 0
  }

  ghost predicate WasPruned(log: seq<Event>, key: Key) {
    exists e | e in log :: e.Pruned? && key in e.keys
  }

  lemma CountOne(log: seq<Event>, e: Event, key: Key)
    ensures Sends(log + [e], key) == Sends(log, key) + if IsSend(e, key) then 1 else 0
    ensures LostRecords(log + [e], key) == LostRecords(log, key) + if e == Crashed(Some(key)) then 1 else 0
    ensures WasPruned(log + [e], key) <==> WasPruned(log, key) || (e.Pruned? && key in e.keys)
    ensures forall x :: x in log + [e] <==> x in log || x == e
  {
    assert (log + [e])[..|log + [e]| - 1] == log;
    assert forall x :: x in log + [e] <==> x in log || x == e;
  }

  lemma PruningStays(s: State, step: Step, key: Key)
    ensures WasPruned(s.log, key) ==> WasPruned(Apply(s, step).log, key)
    ensures step.Prune? && key in step.keys ==> WasPruned(Apply(s, step).log, key)
  {
    if step.Prune? {
      CountOne(s.log, Pruned(step.keys), key);
    }
    assert s.log <= Apply(s, step).log;
  }

  // ----- delivery -----

  predicate InFlight(p: Phase, key: Key) { (p.Sending? || p.Unrecorded?) && p.key == key }

  predicate IsUnrecorded(p: Phase, key: Key) { p.Unrecorded? && p.key == key }

  /** The reply on its way to the host, if it is about this key. */
  predicate IsReplying(p: Phase, key: Key) { (p.Answering? || p.Returning?) && p.key == key }

  ghost predicate SendsAreAccounted(s: State, key: Key) {
    Sends(s.log, key) == LostRecords(s.log, key) + (if key in s.ledger then 1 else 0)
                       + (if IsUnrecorded(s.phase, key) then 1 else 0)
  }

  ghost predicate LedgerIsHonest(s: State, key: Key) {
    && (key in s.ledger ==> !InFlight(s.phase, key) && Sent(key, s.ledger[key]) in s.log)
    && (IsUnrecorded(s.phase, key) ==> Sent(key, s.phase.id) in s.log)
    && Conflicted(key) !in s.log
  }

  ghost predicate AnswersAreRecorded(s: State, key: Key) {
    && (IsReplying(s.phase, key) && s.phase.reply.Delivered? ==> Found(s.ledger, key) == Some(s.phase.reply.id))
    && (IsReplying(s.phase, key) && key in s.ledger ==> s.phase.reply == Delivered(s.ledger[key]))
    && (forall id: MessageId :: Answered(key, Delivered(id)) in s.log ==> Found(s.ledger, key) == Some(id))
  }

  ghost predicate KeyInv(s: State, key: Key) {
    SendsAreAccounted(s, key) && LedgerIsHonest(s, key) && AnswersAreRecorded(s, key)
  }

  lemma AcceptKeepsKeyInv(s: State, id: MessageId, key: Key)
    requires KeyInv(s, key)
    ensures KeyInv(Apply(s, Accept(id)), key)
  {
    if s.phase.Sending? {
      CountOne(s.log, Sent(s.phase.key, id), key);
    }
  }

  /** A key that was sent is not in the ledger, so recording it does not conflict. */
  lemma OwnRecordKeepsKeyInv(s: State)
    requires s.phase.Unrecorded? && KeyInv(s, s.phase.key)
    ensures KeyInv(RecordedState(s), s.phase.key)
  {
    assert s.phase.key !in s.ledger;
  }

  lemma OtherRecordKeepsKeyInv(s: State, key: Key)
    requires s.phase.Unrecorded? && s.phase.key != key && KeyInv(s, key)
    ensures KeyInv(RecordedState(s), key)
  {
    if Recorded(s.ledger, s.phase.key, s.phase.id).1 {
      CountOne(s.log, Conflicted(s.phase.key), key);
    } else {
      assert RecordedState(s).log == s.log;
    }
  }

  lemma RecordKeepsKeyInv(s: State, key: Key)
    requires KeyInv(s, key)
    ensures KeyInv(Apply(s, Record), key)
  {
    if s.phase.Unrecorded? {
      if s.phase.key == key {
        OwnRecordKeepsKeyInv(s);
      } else {
        OtherRecordKeepsKeyInv(s, key);
      }
    }
  }

  /** Handing a reply on, noting nothing or a rate-limit event, is neutral. */
  lemma NoteKeepsKeyInv(s: State, s': State, key: Key)
    requires KeyInv(s, key) && s.phase.Answering? && s'.ledger == s.ledger
    requires s'.phase.Returning? && s'.phase.key == s.phase.key && s'.phase.reply == s.phase.reply
    requires s'.log == s.log || (s'.log != [] && s'.log == s.log + [s'.log[|s'.log| - 1]]
                                 && (s'.log[|s'.log| - 1].Emitted? || s'.log[|s'.log| - 1].Cleared?))
    ensures KeyInv(s', key)
  {
    if s'.log != s.log {
      CountOne(s.log, s'.log[|s'.log| - 1], key);
    }
  }

  lemma SettleKeepsKeyInv(s: State, key: Key)
    requires KeyInv(s, key)
    ensures KeyInv(Apply(s, Settle), key)
  {
    if s.phase.Answering? {
      NoteKeepsKeyInv(s, Settled(s), key);
    }
  }

  lemma ReturnKeepsKeyInv(s: State, key: Key)
    requires KeyInv(s, key)
    ensures KeyInv(Apply(s, Return), key)
  {
    if s.phase.Returning? {
      var e := Answered(s.phase.key, s.phase.reply);
      CountOne(s.log, e, key);
      forall id: MessageId | Answered(key, Delivered(id)) in s.log + [e] ensures Found(s.ledger, key) == Some(id) {
        assert Answered(key, Delivered(id)) in s.log || Answered(key, Delivered(id)) == e;
      }
    }
  }

  lemma CrashKeepsKeyInv(s: State, key: Key)
    requires KeyInv(s, key)
    ensures KeyInv(Apply(s, Crash), key)
  {
    CountOne(s.log, Crashed(if s.phase.Unrecorded? then Some(s.phase.key) else None), key);
  }

  lemma PruneKeepsKeyInv(s: State, keys: set<Key>, key: Key)
    requires KeyInv(s, key) && key !in keys
    ensures KeyInv(Apply(s, Prune(keys)), key)
  {
    CountOne(s.log, Pruned(keys), key);
  }

  lemma ApplyKeepsKeyInv(s: State, step: Step, key: Key)
    requires KeyInv(s, key) && !(step.Prune? && key in step.keys)
    ensures KeyInv(Apply(s, step), key)
  {
    match step
    case Accept(id) => AcceptKeepsKeyInv(s, id, key);
    case Record => RecordKeepsKeyInv(s, key);
    case Settle => SettleKeepsKeyInv(s, key);
    case Return => ReturnKeepsKeyInv(s, key);
    case Crash => CrashKeepsKeyInv(s, key);
    case Prune(keys) => PruneKeepsKeyInv(s, keys, key);
    case _ =>
  }

  lemma {:induction false} RunKeepsKeyInv(run: seq<Step>, key: Key)
    requires !WasPruned(After(run).log, key)
    ensures KeyInv(After(run), key)
  {
    if run != [] {
      var before, step := run[..|run| - 1], run[|run| - 1];
      PruningStays(After(before), step, key);
      RunKeepsKeyInv(before, key);
      ApplyKeepsKeyInv(After(before), step, key);
    }
  }

  /** Every answer after a delivered one repeats it. */
  ghost predicate AnswersAgree(log: seq<Event>, key: Key) {
    forall p, q | 0 <= p < q < |log| ::
      log[p].Answered? && log[p].key == key && log[p].reply.Delivered? && log[q].Answered? && log[q].key == key ==>
        log[q] == log[p]
  }

  /** What one step adds to the log; an answer about a recorded key carries the recorded id. */
  lemma OneStepLogs(s: State, step: Step, key: Key)
    requires KeyInv(s, key)
    ensures Apply(s, step).log == s.log || Apply(s, step).log[..|Apply(s, step).log| - 1] == s.log
    ensures forall reply :: key in s.ledger && Apply(s, step).log == s.log + [Answered(key, reply)] ==>
              reply == Delivered(s.ledger[key])
  {
    var log' := Apply(s, step).log;
    if log' != s.log {
      assert log' == s.log + [log'[|log'| - 1]];
    }
    forall reply | key in s.ledger && log' == s.log + [Answered(key, reply)] ensures reply == Delivered(s.ledger[key]) {
      assert log'[|log'| - 1] == Answered(key, reply);
      assert s.phase.Returning? && step.Return?;
    }
  }

  lemma {:induction false} RunKeepsAnswers(run: seq<Step>, key: Key)
    requires !WasPruned(After(run).log, key)
    ensures AnswersAgree(After(run).log, key)
  {
    if run != [] {
      var before, step := run[..|run| - 1], run[|run| - 1];
      PruningStays(After(before), step, key);
      RunKeepsAnswers(before, key);
      RunKeepsKeyInv(before, key);
      OneStepLogs(After(before), step, key);
      OneMoreAnswer(After(before), After(run).log, key);
    }
  }

  lemma OneMoreAnswer(s: State, log': seq<Event>, key: Key)
    requires AnswersAreRecorded(s, key) && AnswersAgree(s.log, key)
    requires log' == s.log || (log' != [] && log'[..|log'| - 1] == s.log)
    requires forall reply :: key in s.ledger && log' == s.log + [Answered(key, reply)] ==>
               reply == Delivered(s.ledger[key])
    ensures AnswersAgree(log', key)
  {
    forall p, q | 0 <= p < q < |log'| && log'[p].Answered? && log'[p].key == key && log'[p].reply.Delivered?
                  && log'[q].Answered? && log'[q].key == key
      ensures log'[q] == log'[p]
    {
      assert log'[p] == s.log[p];
      if q < |s.log| {
        assert log'[q] == s.log[q];
      } else {
        assert Answered(key, Delivered(log'[p].reply.id)) in s.log;
        assert log' == s.log + [Answered(key, log'[q].reply)];
      }
    }
  }

  /** Over every run, for every key that was not pruned: the platform was sent the message at most
      once more than the process crashed between a send and its record; no record ever conflicted;
      every delivered answer carries the recorded id, that id was sent for that key, and every later
      answer about the key is the same. */
  lemma DeliveredOncePerRecord(run: seq<Step>, key: Key)
    requires !WasPruned(After(run).log, key)
    ensures
      var s := After(run);
      && LostRecords(s.log, key) <= Sends(s.log, key) <= 1 + LostRecords(s.log, key)
      && (key in s.ledger ==> Sends(s.log, key) == 1 + LostRecords(s.log, key))
      && Conflicted(key) !in s.log
      && (forall id: MessageId :: Answered(key, Delivered(id)) in s.log ==>
            Found(s.ledger, key) == Some(id) && Sent(key, id) in s.log)
      && AnswersAgree(s.log, key)
  {
    RunKeepsKeyInv(run, key);
    RunKeepsAnswers(run, key);
  }

  /** Exactly-once is out of reach: from any state that does not know the key, a crash after the send
      and before the record makes the next request for it send again. */
  lemma CrashInTheWindowResends(s: State, key: Key, first: MessageId, second: MessageId)
    requires s.phase.Ready? && key !in s.ledger
    ensures
      var crashed := Apply(Apply(Apply(s, Receive(key)), Accept(first)), Crash);
      var again := Apply(Apply(crashed, Receive(key)), Accept(second));
      && LostRecords(again.log, key) == LostRecords(s.log, key) + 1
      && Sends(again.log, key) == Sends(s.log, key) + 2
  {
    CountOne(s.log, Sent(key, first), key);
    CountOne(s.log + [Sent(key, first)], Crashed(Some(key)), key);
    CountOne(s.log + [Sent(key, first)] + [Crashed(Some(key))], Sent(key, second), key);
  }

  lemma StepOnRecordedKey(s: State, step: Step, key: Key)
    requires KeyInv(s, key) && key in s.ledger && !(step.Prune? && key in step.keys)
    ensures Found(Apply(s, step).ledger, key) == Found(s.ledger, key)
    ensures Sends(Apply(s, step).log, key) == Sends(s.log, key)
  {
    ApplyKeepsKeyInv(s, step, key);
    match step
    case Accept(id) => if s.phase.Sending? { CountOne(s.log, Sent(s.phase.key, id), key); }
    case Crash => CountOne(s.log, Crashed(if s.phase.Unrecorded? then Some(s.phase.key) else None), key);
    case _ => NothingLost(s, step, key);
  }

  lemma NothingLost(s: State, step: Step, key: Key)
    requires !step.Crash? && !step.Accept?
    ensures LostRecords(Apply(s, step).log, key) == LostRecords(s.log, key)
  {
    var log' := Apply(s, step).log;
    if log' != s.log {
      var e := log'[|log'| - 1];
      assert !e.Crashed? && log' == s.log + [e];
      CountOne(s.log, e, key);
    }
  }

  /** Once a key is recorded it is never sent again and never rebound, and every later answer about it
      carries the recorded id. */
  lemma {:induction false} NeverSentAgain(run: seq<Step>, i: nat, key: Key)
    requires i <= |run| && key in After(run[..i]).ledger && !WasPruned(After(run).log, key)
    ensures Found(After(run).ledger, key) == Found(After(run[..i]).ledger, key)
    ensures Sends(After(run).log, key) == Sends(After(run[..i]).log, key)
    ensures After(run[..i]).log <= After(run).log
    ensures forall j, reply | |After(run[..i]).log| <= j < |After(run).log| ::
              After(run).log[j] == Answered(key, reply) ==> reply == Delivered(After(run[..i]).ledger[key])
  {
    if i == |run| {
      assert run[..i] == run;
    } else {
      var before, step := run[..|run| - 1], run[|run| - 1];
      PruningStays(After(before), step, key);
      assert before[..i] == run[..i];
      NeverSentAgain(before, i, key);
      RunKeepsKeyInv(before, key);
      StepOnRecordedKey(After(before), step, key);
      OneStepLogs(After(before), step, key);
      LaterAnswers(After(before).log, After(run).log, |After(run[..i]).log|, key, After(run[..i]).ledger[key]);
    }
  }

  lemma LaterAnswers(log: seq<Event>, log': seq<Event>, from: nat, key: Key, id: MessageId)
    requires from <= |log|
    requires log' == log || (log' != [] && log'[..|log'| - 1] == log)
    requires forall j, reply | from <= j < |log| :: log[j] == Answered(key, reply) ==> reply == Delivered(id)
    requires forall reply :: log' == log + [Answered(key, reply)] ==> reply == Delivered(id)
    ensures log <= log'
    ensures forall j, reply | from <= j < |log'| :: log'[j] == Answered(key, reply) ==> reply == Delivered(id)
  {
    forall j, reply | from <= j < |log'| && log'[j] == Answered(key, reply) ensures reply == Delivered(id) {
      if j < |log| {
        assert log'[j] == log[j];
      } else {
        assert log' == log + [Answered(key, reply)];
      }
    }
  }
}
