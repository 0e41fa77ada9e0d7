/**
 * `initializeInternal`: dial the remote address, open the bidirectional
 * stream, send the connect request, receive one message and check that it
 * is a connect response. The transport calls are not modelled; their
 * answers are an input.
 */
module Handshake {
  import opened Wrappers
  import opened Events

  /** The answer of one transport call: success, or the error it returned. */
  datatype Step = Ok | Failed(cause: string)

  /** The message type of the first message the stream delivers. */
  datatype Variant = ConnectResponseVariant | OtherVariant(name: string)

  /**
   * What the transport answers, call by call, during one connection
   * attempt; `variant` is what `Recv` delivered when `recv` succeeded.
   */
  datatype Transport = Transport(dial: Step, open: Step, send: Step, recv: Step, variant: Variant)

  /** The transport calls, in the order `initializeInternal` makes them. */
  datatype Call = Dial | OpenStream | SendConnectRequest | ReceiveResponse

  const Calls: seq<Call> := [Dial, OpenStream, SendConnectRequest, ReceiveResponse]

  function AnswerTo(t: Transport, c: Call): Step
  {
    match c
    case Dial => t.dial
    case OpenStream => t.open
    case SendConnectRequest => t.send
    case ReceiveResponse => t.recv
  }

  /** An error returned by a transport call, or the wrong response variant. */
  datatype ConnectError = TransportError(cause: string) | InvalidConnectResponse

  /**
   * The result of one attempt: the error returned (None on success), whether
   * the writer's connection and stream fields were assigned, the calls made,
   * the events published, and whether the liveness monitor was started.
   */
  datatype Attempt = Attempt(
    error: Option<ConnectError>,
    connSet: bool,
    streamSet: bool,
    calls: seq<Call>,
    events: seq<Event>,
    monitorStarted: bool)

  /** Every call but the last one made succeeded. */
  ghost predicate EarlierCallsSucceeded(t: Transport, calls: seq<Call>)
  {
    forall k :: 0 <= k < |calls| - 1 ==> AnswerTo(t, calls[k]).Ok?
  }

  function InitializeInternal(address: string, t: Transport): (r: Attempt)
    ensures 1 <= |r.calls| <= |Calls| && r.calls == Calls[..|r.calls|]
    ensures EarlierCallsSucceeded(t, r.calls)
    ensures |r.calls| < |Calls| ==> AnswerTo(t, r.calls[|r.calls| - 1]).Failed?
    ensures r.error.None? ==> r.calls == Calls
    ensures r.error.None? <==>
              t.dial.Ok? && t.open.Ok? && t.send.Ok? && t.recv.Ok? && t.variant.ConnectResponseVariant?
    ensures r.error == Some(InvalidConnectResponse) <==>
              |r.calls| == |Calls| && t.recv.Ok? && !t.variant.ConnectResponseVariant?
    ensures (r.error.Some? && r.error.value.TransportError?) <==> AnswerTo(t, r.calls[|r.calls| - 1]).Failed?
    ensures r.error.Some? && r.error.value.TransportError? ==>
              r.error.value.cause == AnswerTo(t, r.calls[|r.calls| - 1]).cause
    ensures r.events == (if r.error.None? then [EndpointConnected(address)] else [])
    ensures r.monitorStarted <==> r.error.None?
    ensures r.connSet <==> t.dial.Ok?
    ensures r.streamSet <==> t.dial.Ok? && t.open.Ok?
  {
    if t.dial.Failed? then
      Attempt(Some(TransportError(t.dial.cause)), false, false, [Dial], [], false)
    else if t.open.Failed? then
      Attempt(Some(TransportError(t.open.cause)), true, false, [Dial, OpenStream], [], false)
    else if t.send.Failed? then
      Attempt(Some(TransportError(t.send.cause)), true, true, [Dial, OpenStream, SendConnectRequest], [], false)
    else if t.recv.Failed? then
      Attempt(Some(TransportError(t.recv.cause)), true, true, Calls, [], false)
    else if !t.variant.ConnectResponseVariant? then
      Attempt(Some(InvalidConnectResponse), true, true, Calls, [], false)
    else
      Attempt(None, true, true, Calls, [EndpointConnected(address)], true)
  }

  /**
   * A response of the wrong variant yields the invalid-connect-response
   * error after all four calls succeeded, and nothing is published.
   */
  lemma WrongVariantRejected(address: string, t: Transport)
    requires t.dial.Ok? && t.open.Ok? && t.send.Ok? && t.recv.Ok?
    requires !t.variant.ConnectResponseVariant?
    ensures InitializeInternal(address, t).error == Some(InvalidConnectResponse)
    ensures InitializeInternal(address, t).events == []
  {
  }

  /**
   * The first failing call decides the error: no later call is made and
   * its answer does not matter.
   */
  lemma FirstFailureDecides(address: string, t: Transport, t': Transport, n: nat)
    requires n < |Calls|
    requires forall k :: 0 <= k < n ==> AnswerTo(t, Calls[k]).Ok? && AnswerTo(t', Calls[k]) == AnswerTo(t, Calls[k])
    requires AnswerTo(t, Calls[n]).Failed? && AnswerTo(t', Calls[n]) == AnswerTo(t, Calls[n])
    ensures InitializeInternal(address, t) == InitializeInternal(address, t')
    ensures InitializeInternal(address, t).error == Some(TransportError(AnswerTo(t, Calls[n]).cause))
  {
    assert AnswerTo(t, Calls[0]) == t.dial && AnswerTo(t', Calls[0]) == t'.dial;
    if n > 0 {
      assert AnswerTo(t, Calls[1]) == t.open && AnswerTo(t', Calls[1]) == t'.open;
    }
    if n > 1 {
      assert AnswerTo(t, Calls[2]) == t.send && AnswerTo(t', Calls[2]) == t'.send;
    }
  }
}
