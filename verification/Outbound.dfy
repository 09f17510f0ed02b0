/**
  The outbound send path of one plugin process: the handler that deduplicates, sends, records and
  maps failures, the debounced rate-limit emitter, and the dispatcher that orders them.
 */
module Outbound {
  import opened Wrappers
  import opened IdempotencyStore
  import opened Timestamps

  datatype ErrorClass =
    | RateLimitedClass
    | ServerErrorClass
    | ClientErrorClass
    | ForbiddenClass
    | NotFoundClass
    | InvalidDataClass
    | TerminalClass

  datatype Reply =
    | Delivered(id: MessageId)
    | Retryable(after: nat, class_: ErrorClass)
    | Terminal(class_: ErrorClass)

  /** The platform's back-off hint: absent, a number, text or NaN, or infinity. */
  datatype RetryAfter = Absent | Seconds(value: real) | Unparsable | Infinite

  /** How resolving the target and sending to it ends. */
  datatype SendOutcome =
    | Accepted(id: MessageId)
    | Forbidden
    | NotFound
    | HttpError(status: Option<int>, retryAfter: RetryAfter)
    | InvalidData
    | BadTarget
    | Unexpected

  const DEFAULT_RETRY_AFTER: nat := 5

  function Ceiling(x: real): int {
    if x.Floor as real == x then x.Floor else x.Floor + 1
  }

  /** `None` when the conversion itself raises: an infinity has no integer ceiling. */
  function ReadRetryAfter(r: RetryAfter): Option<int> {
    match r
    case Absent => Some(DEFAULT_RETRY_AFTER)
    case Unparsable => Some(DEFAULT_RETRY_AFTER)
    case Seconds(value) => Some(Ceiling(value))
    case Infinite => None
  }

  /** `None` when an exception escapes; a reply cannot carry a negative back-off. */
  function MapHttpException(status: Option<int>, r: RetryAfter): Option<Reply> {
    if status == Some(429) then
      var after := ReadRetryAfter(r);
      if after.Some? && after.value >= 0 then Some(Retryable(after.value, RateLimitedClass)) else None
    else if status.Some? && 500 <= status.value < 600 then
      Some(Retryable(DEFAULT_RETRY_AFTER, ServerErrorClass))
    else Some(Terminal(ClientErrorClass))
  }

  /** The reply to a send that was not accepted, `None` when an exception escapes. */
  function FailureReply(o: SendOutcome): Option<Reply> {
    match o
    case Accepted(_) => None
    case Forbidden => Some(Terminal(ForbiddenClass))
    case NotFound => Some(Terminal(NotFoundClass))
    case HttpError(status, retryAfter) => MapHttpException(status, retryAfter)
    case InvalidData => Some(Terminal(InvalidDataClass))
    case BadTarget => Some(Terminal(TerminalClass))
    case Unexpected => None
  }

  /** The host is never told to resume before the platform's window has elapsed, and never more than
      a second late. */
  lemma BackOffCoversTheWindow(value: real)
    requires value >= 0.0
    ensures
      var reply := MapHttpException(Some(429), Seconds(value));
      && reply.Some? && reply.value.Retryable? && reply.value.class_ == RateLimitedClass
      && value <= reply.value.after as real < value + 1.0
  {
  }

  /** Only a rate limit or a server error is answered as retryable; everything else is final or escapes. */
  lemma RetriedOnlyIfTransient(o: SendOutcome)
    ensures FailureReply(o).Some? && FailureReply(o).value.Retryable? ==>
              o.HttpError? && o.status.Some? && (o.status.value == 429 || 500 <= o.status.value < 600)
    ensures o.HttpError? && o.status.Some? && 500 <= o.status.value < 600 ==>
              FailureReply(o) == Some(Retryable(DEFAULT_RETRY_AFTER, ServerErrorClass))
    ensures IsRateLimited(FailureReply(o)) ==> o.HttpError? && o.status == Some(429)
  {
  }

  /** Which answer a failed send gets. An exception escapes exactly for an unexpected error and for a rate
      limit whose hint has no whole number of seconds from zero up. A rate limit without a readable hint backs
      off five seconds. Every other failure is final, under the class of its cause. */
  lemma FailuresAreClassified(o: SendOutcome)
    requires !o.Accepted?
    ensures
      var isLimit := o.HttpError? && o.status == Some(429);
      var isServer := o.HttpError? && o.status.Some? && 500 <= o.status.value < 600;
      var r := FailureReply(o);
      && (r.None? <==> || o.Unexpected?
                       || (isLimit && o.retryAfter.Infinite?)
                       || (isLimit && o.retryAfter.Seconds? && o.retryAfter.value <= -1.0))
      && (isLimit && (o.retryAfter.Absent? || o.retryAfter.Unparsable?) ==> r == Some(Retryable(5, RateLimitedClass)))
      && (r.Some? && r.value.Terminal? <==> !o.Unexpected? && !isLimit && !isServer)
      && (r == Some(Terminal(ForbiddenClass)) <==> o.Forbidden?)
      && (r == Some(Terminal(NotFoundClass)) <==> o.NotFound?)
      && (r == Some(Terminal(InvalidDataClass)) <==> o.InvalidData?)
      && (r == Some(Terminal(TerminalClass)) <==> o.BadTarget?)
      && (r == Some(Terminal(ClientErrorClass)) <==> o.HttpError? && !isLimit && !isServer)
  {
  }

  /** What one call does to the ledger and answers, with `o` the outcome of sending if it sends. */
  function Handled(l: Ledger, key: Key, o: SendOutcome): (Ledger, Option<Reply>) {
    if key in l then (l, Some(Delivered(l[key])))
    else if o.Accepted? then (l[key := o.id], Some(Delivered(o.id)))
    else (l, FailureReply(o))
  }

  class Handler {
    const store: Store

    constructor (store: Store)
      ensures this.store == store
    {
      this.store := store;
    }

    method HandleOutbound(key: Key, o: SendOutcome, now: Stamp) returns (reply: Option<Reply>)
      requires store.Valid() && IsValid(now)
      modifies store
      ensures store.Valid()
      ensures store.Ids() == Handled(old(store.Ids()), key, o).0
      ensures reply == Handled(old(store.Ids()), key, o).1
    {
      var cached := store.Lookup(key);
      if cached.Some? {
        return Some(Delivered(cached.value));
      }
      if !o.Accepted? {
        return FailureReply(o);
      }
      var conflict := store.Record(key, o.id, now);
      if conflict {
        return None;
      }
      reply := Some(Delivered(o.id));
    }
  }

  // ----- the rate-limit emitter -----

  /** The label the host keys its pause on: the dispatcher's constant, or one read off a response. */
  datatype Endpoint = ChannelSend | Labelled(text: string)

  /** Until when a repeated signal for an endpoint is suppressed. */
  type Deadlines = map<Endpoint, real>

  /** A signal is due unless the endpoint's deadline is still ahead. */
  predicate IsDue(d: Deadlines, endpoint: Endpoint, now: real) {
    endpoint !in d || d[endpoint] <= now
  }

  function Signalled(d: Deadlines, endpoint: Endpoint, window: nat, now: real): Deadlines {
    if IsDue(d, endpoint, now) then d[endpoint := now + window as real] else d
  }

  datatype Signal = Signal(endpoint: Endpoint, window: nat, at: real)

  class Emitter {
    var debounceUntil: Deadlines
    /** The frames the sink has accepted. */
    ghost var sink: seq<Signal>

    constructor ()
      ensures debounceUntil == map[] && sink == []
    {
      debounceUntil, sink := map[], [];
    }

    method EmitSignal(window: nat, endpoint: Endpoint, now: real)
      modifies this
      ensures debounceUntil == Signalled(old(debounceUntil), endpoint, window, now)
      ensures sink == old(sink)
                + if IsDue(old(debounceUntil), endpoint, now) then [Signal(endpoint, window, now)] else []
    {
      if endpoint in debounceUntil && now < debounceUntil[endpoint] {
        return;
      }
      debounceUntil := debounceUntil[endpoint := now + window as real];
      sink := sink + [Signal(endpoint, window, now)];
    }

    method Clear()
      modifies this
      ensures debounceUntil == map[] && sink == old(sink)
    {
      debounceUntil := map[];
    }
  }

  // ----- the dispatcher -----

  predicate IsRateLimited(reply: Option<Reply>) {
    reply.Some? && reply.value.Retryable? && reply.value.class_ == RateLimitedClass
  }

  predicate IsDelivered(reply: Option<Reply>) {
    reply.Some? && reply.value.Delivered?
  }

  class Dispatcher {
    const handler: Handler
    const emitter: Emitter

    constructor (handler: Handler, emitter: Emitter)
      ensures this.handler == handler && this.emitter == emitter
    {
      this.handler, this.emitter := handler, emitter;
    }

    /** A rate-limited reply leaves a deadline in force, a delivery clears all deadlines, and
        nothing else touches them. */
    method Dispatch(key: Key, o: SendOutcome, now: Stamp, monotonic: real) returns (reply: Option<Reply>)
      requires handler.store.Valid() && IsValid(now)
      modifies handler.store, emitter
      ensures handler.store.Valid()
      ensures handler.store.Ids() == Handled(old(handler.store.Ids()), key, o).0
      ensures reply == Handled(old(handler.store.Ids()), key, o).1
      ensures IsRateLimited(reply) ==>
                && emitter.debounceUntil
                   == Signalled(old(emitter.debounceUntil), ChannelSend, reply.value.after, monotonic)
                && emitter.sink == old(emitter.sink)
                   + if IsDue(old(emitter.debounceUntil), ChannelSend, monotonic)
                     then [Signal(ChannelSend, reply.value.after, monotonic)] else []
      ensures IsDelivered(reply) ==> emitter.debounceUntil == map[] && emitter.sink == old(emitter.sink)
      ensures !IsRateLimited(reply) && !IsDelivered(reply) ==>
                emitter.debounceUntil == old(emitter.debounceUntil) && emitter.sink == old(emitter.sink)
    {
      reply := handler.HandleOutbound(key, o, now);
      if reply.None? {
        return;
      }
      if reply.value.Retryable? && reply.value.class_ == RateLimitedClass {
        emitter.EmitSignal(reply.value.after, ChannelSend, monotonic);
        return;
      }
      if reply.value.Delivered? {
        emitter.Clear();
      }
    }
  }
}
