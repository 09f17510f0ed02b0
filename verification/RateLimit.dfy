/**
  Rate-limit signalling over the runs of the delivery protocol: every rate-limited answer is covered
  by a signal, and signals for the send endpoint are spaced by their windows.
 */
module RateLimit {
  import opened Wrappers
  import opened IdempotencyStore
  import opened Outbound
  import opened Delivery

  /** A delivery, or the loss of the process, forgets the deadlines. */
  predicate IsReset(e: Event) { e.Cleared? || e.Crashed? || e.Conflicted? }

  /** Signal `i` has not been followed by a reset. */
  ghost predicate IsLive(log: seq<Event>, i: int) {
    0 <= i < |log| && log[i].Emitted? && forall j | i < j < |log| :: !IsReset(log[j])
  }

  function WindowEnd(e: Event): real
    requires e.Emitted?
  {
    e.at + e.window as real
  }

  /** A signal sent at `t`, or whose window still contains `t`, with no reset since. */
  ghost predicate Covers(log: seq<Event>, i: int, t: real) {
    IsLive(log, i) && log[i].at <= t && (log[i].at == t || t < WindowEnd(log[i]))
  }

  /** Two signals with no reset between them are at least the first one's window apart. */
  ghost predicate IsSpaced(log: seq<Event>) {
    forall i, j | 0 <= i < j < |log| && log[i].Emitted? && log[j].Emitted?
                  && (forall k | i < k < j :: !IsReset(log[k])) :: WindowEnd(log[i]) <= log[j].at
  }

  ghost predicate DeadlinesMatch(s: State) {
    && s.deadlines.Keys <= {ChannelSend}
    && (forall i | IsLive(s.log, i) :: ChannelSend in s.deadlines && WindowEnd(s.log[i]) <= s.deadlines[ChannelSend])
    && (forall i | IsLive(s.log, i) :: s.log[i].at <= s.clock)
    && (ChannelSend in s.deadlines ==> exists i :: IsLive(s.log, i) && WindowEnd(s.log[i]) == s.deadlines[ChannelSend])
  }

  ghost predicate AnswerIsCovered(s: State) {
    s.phase.Returning? && IsRateLimited(Some(s.phase.reply)) ==>
      s.phase.at <= s.clock && exists i :: Covers(s.log, i, s.phase.at)
  }

  ghost predicate SignalInv(s: State) {
    DeadlinesMatch(s) && AnswerIsCovered(s) && IsSpaced(s.log)
  }

  // ----- appending one event -----

  lemma ResetAppended(log: seq<Event>, e: Event)
    requires IsReset(e)
    ensures forall i :: !IsLive(log + [e], i)
  {
    assert (log + [e])[|log|] == e;
  }

  lemma OtherAppended(log: seq<Event>, e: Event)
    requires !IsReset(e) && !e.Emitted?
    ensures forall i :: IsLive(log + [e], i) <==> IsLive(log, i)
    ensures forall i, t :: Covers(log, i, t) ==> Covers(log + [e], i, t)
    ensures forall i | IsLive(log, i) :: (log + [e])[i] == log[i]
  {
    forall i ensures IsLive(log + [e], i) <==> IsLive(log, i) {
      assert forall j | 0 <= j < |log| :: (log + [e])[j] == log[j];
    }
  }

  lemma SignalAppended(log: seq<Event>, e: Event)
    requires e.Emitted?
    ensures forall i :: IsLive(log + [e], i) <==> IsLive(log, i) || i == |log|
  {
    forall i ensures IsLive(log + [e], i) <==> IsLive(log, i) || i == |log| {
      assert forall j | 0 <= j < |log| :: (log + [e])[j] == log[j];
    }
  }

  lemma SpacingKept(log: seq<Event>, e: Event)
    requires IsSpaced(log)
    requires e.Emitted? ==> forall i | IsLive(log, i) :: WindowEnd(log[i]) <= e.at
    ensures IsSpaced(log + [e])
  {
    var log' := log + [e];
    forall i, j | 0 <= i < j < |log'| && log'[i].Emitted? && log'[j].Emitted?
                  && (forall k | i < k < j :: !IsReset(log'[k]))
      ensures WindowEnd(log'[i]) <= log'[j].at
    {
      assert forall k | 0 <= k < |log| :: log'[k] == log[k];
      if j == |log| {
        assert IsLive(log, i);
      }
    }
  }

  // ----- the steps -----

  /** A step that logs nothing, or nothing about signals, and keeps the deadlines. */
  lemma QuietStep(s: State, s': State)
    requires SignalInv(s) && s'.deadlines == s.deadlines && s.clock <= s'.clock
    requires s'.log == s.log || (s.log < s'.log && s'.log == s.log + [s'.log[|s.log|]]
                                 && !IsReset(s'.log[|s.log|]) && !s'.log[|s.log|].Emitted?)
    requires s'.phase.Returning? ==> s'.phase == s.phase || !IsRateLimited(Some(s'.phase.reply))
    ensures SignalInv(s')
  {
    if s'.log != s.log {
      var e := s'.log[|s.log|];
      OtherAppended(s.log, e);
      SpacingKept(s.log, e);
    }
  }

  lemma ResetStep(s: State, s': State, e: Event)
    requires SignalInv(s) && IsReset(e) && s'.log == s.log + [e] && s'.deadlines == map[]
    requires s'.phase.Returning? ==> !IsRateLimited(Some(s'.phase.reply))
    ensures SignalInv(s')
  {
    ResetAppended(s.log, e);
    SpacingKept(s.log, e);
  }

  /** A rate limit while the deadline is ahead: suppressed, and covered by the signal that set it. */
  lemma SuppressedStep(s: State, s': State)
    requires SignalInv(s) && !IsDue(s.deadlines, ChannelSend, s.clock)
    requires s'.log == s.log && s'.deadlines == s.deadlines && s'.clock == s.clock
    requires s'.phase.Returning? && s'.phase.at == s.clock
    ensures SignalInv(s')
  {
    var i :| IsLive(s.log, i) && WindowEnd(s.log[i]) == s.deadlines[ChannelSend];
    assert Covers(s'.log, i, s.clock);
  }

  /** A rate limit once the deadline has passed: a new signal, at least a window after the last. */
  lemma EmittedStep(s: State, s': State, window: nat)
    requires SignalInv(s) && IsDue(s.deadlines, ChannelSend, s.clock)
    requires s'.log == s.log + [Emitted(s.clock, window)] && s'.clock == s.clock
    requires s'.deadlines == s.deadlines[ChannelSend := s.clock + window as real]
    requires s'.phase.Returning? && s'.phase.at == s.clock
    ensures SignalInv(s')
  {
    var e := Emitted(s.clock, window);
    SignalAppended(s.log, e);
    SpacingKept(s.log, e);
    assert s'.log[|s.log|] == e && forall i | 0 <= i < |s.log| :: s'.log[i] == s.log[i];
    assert IsLive(s'.log, |s.log|) && Covers(s'.log, |s.log|, s.clock);
    assert WindowEnd(s'.log[|s.log|]) == s'.deadlines[ChannelSend];
  }

  lemma SettleKeepsSignalInv(s: State)
    requires SignalInv(s) && s.phase.Answering?
    ensures SignalInv(Settled(s))
  {
    var reply := s.phase.reply;
    if IsRateLimited(Some(reply)) {
      if IsDue(s.deadlines, ChannelSend, s.clock) {
        EmittedStep(s, Settled(s), reply.after);
      } else {
        SuppressedStep(s, Settled(s));
      }
    } else if IsDelivered(Some(reply)) {
      ResetStep(s, Settled(s), Cleared);
    } else {
      QuietStep(s, Settled(s));
    }
  }

  lemma ApplyKeepsSignalInv(s: State, step: Step)
    requires SignalInv(s)
    ensures SignalInv(Apply(s, step))
  {
    var s' := Apply(s, step);
    if step.Settle? && s.phase.Answering? {
      SettleKeepsSignalInv(s);
    } else if step.Crash? {
      ResetStep(s, s', Crashed(if s.phase.Unrecorded? then Some(s.phase.key) else None));
    } else if step.Record? && s.phase.Unrecorded? && Recorded(s.ledger, s.phase.key, s.phase.id).1 {
      ResetStep(s, s', Conflicted(s.phase.key));
    } else {
      QuietStep(s, s');
    }
  }

  lemma {:induction false} RunKeepsSignalInv(run: seq<Step>)
    ensures SignalInv(After(run))
  {
    if run != [] {
      RunKeepsSignalInv(run[..|run| - 1]);
      ApplyKeepsSignalInv(After(run[..|run| - 1]), run[|run| - 1]);
    }
  }

  /** Whenever a rate-limited answer is about to be returned, the host has a pause signal for it: one
      emitted in this very call, or an earlier one whose window still contains the time of the call
      and that no delivery or crash has cancelled. */
  lemma RateLimitIsCovered(run: seq<Step>)
    requires After(run).phase.Returning? && IsRateLimited(Some(After(run).phase.reply))
    ensures exists i :: Covers(After(run).log, i, After(run).phase.at)
  {
    RunKeepsSignalInv(run);
  }

  /** Two signals with no delivery and no crash between them are at least the first window apart. */
  lemma SignalsAreSpaced(run: seq<Step>, i: nat, j: nat)
    requires i < j < |After(run).log| && After(run).log[i].Emitted? && After(run).log[j].Emitted?
    requires forall k | i < k < j :: !IsReset(After(run).log[k])
    ensures After(run).log[i].at + After(run).log[i].window as real <= After(run).log[j].at
  {
    RunKeepsSignalInv(run);
  }
}
