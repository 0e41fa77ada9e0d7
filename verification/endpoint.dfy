/**
 * The endpoint writer actor: its `Receive` dispatch, `initialize`,
 * `closeClientConn`, and a run of one actor incarnation over a sequence of
 * mailbox messages. Side effects (transport calls, publishing, stopping,
 * stashing, panicking) are returned as a list of effects; the answers of the
 * outside world are inputs.
 */
module Endpoint {
  import opened Wrappers
  import opened Events
  import opened Batch
  import opened Handshake

  /** A message in the writer's mailbox, by the Go type it has. */
  datatype Message<M> =
    | Started
    | Stopped
    | Restarting
    | Terminated(address: string)
    | Deliveries(items: seq<Item<M>>)
    | SystemMessage
    | AutoReceive
    | Unexpected(kind: string)

  /** The writer's state: its remote address, and whether `conn` and `stream` are set. */
  datatype Writer = Writer(address: string, conn: bool, stream: bool)

  /** What a panic carries. */
  datatype Failure = ConnectFailed(error: ConnectError) | BatchFailed(fault: Fault)

  datatype Effect =
    | StartMonitor
    | Publish(event: Event)
    | Transmit(batch: MessageBatch)
    | CloseSend
    | CloseConn
    | StopSelf
    | Stash
    | Crash(failure: Failure)

  /**
   * The outside world's answers while one message is handled: the transport
   * during a connection attempt, and the stream's answer to a batch send.
   */
  datatype World = World(transport: Transport, accepts: bool)

  predicate Crashes(effects: seq<Effect>)
  {
    exists e :: e in effects && e.Crash?
  }

  /**
   * `initialize`: attempt the connection; on error, panic with it (after a
   * fixed delay, not modelled). The fields assigned during the attempt stay
   * assigned either way.
   */
  function Initialize(w: Writer, t: Transport): (r: (Writer, seq<Effect>))
    ensures r.0.address == w.address
    ensures r.0.conn <==> w.conn || t.dial.Ok?
    ensures r.0.stream <==> w.stream || (t.dial.Ok? && t.open.Ok?)
    ensures Publish(EndpointConnected(w.address)) in r.1 <==> InitializeInternal(w.address, t).error.None?
    ensures Crashes(r.1) <==> InitializeInternal(w.address, t).error.Some?
    ensures Crashes(r.1) ==> r.1 == [Crash(ConnectFailed(InitializeInternal(w.address, t).error.value))]
    ensures !Crashes(r.1) ==> r.1 == [StartMonitor, Publish(EndpointConnected(w.address))]
  {
    var a := InitializeInternal(w.address, t);
    var w' := w.(conn := w.conn || a.connSet, stream := w.stream || a.streamSet);
    match a.error
    case Some(err) =>
      var effects := [Crash(ConnectFailed(err))];
      assert effects[0].Crash?;
      (w', effects)
    case None => (w', [StartMonitor, Publish(a.events[0])])
  }

  /** `closeClientConn`: close the stream's send side if set, then the connection if set. */
  function CloseClientConn(w: Writer): (r: seq<Effect>)
    ensures CloseSend in r <==> w.stream
    ensures CloseConn in r <==> w.conn
    ensures forall k :: 0 <= k < |r| ==> r[k] == CloseSend || r[k] == CloseConn
    ensures forall i, j :: 0 <= i < |r| && 0 <= j < |r| && r[i] == CloseConn && r[j] == CloseSend ==> j < i
    ensures |r| == (if w.stream then 1 else 0) + (if w.conn then 1 else 0)
  {
    (if w.stream then [CloseSend] else []) + (if w.conn then [CloseConn] else [])
  }

  /** The effects of one outcome of `sendEnvelopes`, in the order the writer performs them. */
  function OutcomeEffects(o: SendOutcome): (r: seq<Effect>)
    ensures forall k :: 0 <= k < |r| && r[k].Transmit? ==> o.Sent? && r[k].batch == o.batch
    ensures (exists k :: 0 <= k < |r| && r[k].Transmit?) <==> o.Sent?
    ensures StopSelf in r <==> o.Stopped?
    ensures Crashes(r) <==> o.Crashed?
    ensures Stash in r <==> o.Crashed? && o.stashed
    ensures o.Crashed? ==> r == (if o.stashed then [Stash] else []) + [Crash(BatchFailed(o.fault))]
    ensures Crash(BatchFailed(NilStream)) in r <==> o.Crashed? && o.fault == NilStream
    ensures forall k :: 0 <= k < |r| ==> !r[k].Publish?
    ensures o.Sent? ==> r == [Transmit(o.batch)]
    ensures o.Stopped? ==> r == [StopSelf]
  {
    match o
    case Sent(batch) =>
      var r := [Transmit(batch)];
      assert r[0].Transmit?;
      r
    case Stopped => [StopSelf]
    case Crashed(fault, stashed) =>
      var r := (if stashed then [Stash] else []) + [Crash(BatchFailed(fault))];
      assert r[|r| - 1] == Crash(BatchFailed(fault));
      r
  }

  /** `sendEnvelopes` as the writer runs it, on its stream if it has one. */
  function SendBatch<M>(w: Writer, items: seq<Item<M>>, world: World, serialize: (M, nat) -> Serialized): (r: seq<Effect>)
    ensures forall k :: 0 <= k < |r| && r[k].Transmit? ==>
              && w.stream && world.accepts
              && Covers(items, serialize, |items|, r[k].batch) && WellFormed(r[k].batch)
              && TablesFirstSeen(items, serialize, |items|, r[k].batch)
    ensures (exists k :: 0 <= k < |r| && r[k].Transmit?) <==>
              w.stream && world.accepts && forall k :: 0 <= k < |items| ==> Fine(items[k], serialize)
    ensures StopSelf in r <==> exists j: nat :: FirstUnfit(items, serialize, 0, j) && items[j].TerminatedNotice?
    ensures Stash in r <==> w.stream && !world.accepts && forall k :: 0 <= k < |items| ==> Fine(items[k], serialize)
    ensures forall k :: 0 <= k < |r| ==> !r[k].Publish?
    ensures forall k :: 0 <= k < |r| && r[k].Transmit? ==> r == [r[k]]
    ensures StopSelf in r ==> r == [StopSelf]
  {
    OutcomeEffects(SendEnvelopes(items, serialize, if w.stream then Open(world.accepts) else NoStream))
  }

  /**
   * A list that gets through on a stream that accepts is sent once, as the
   * assembled batch, and nothing else happens.
   */
  lemma SendBatchSends<M>(w: Writer, items: seq<Item<M>>, world: World, serialize: (M, nat) -> Serialized)
    requires w.stream && world.accepts
    requires forall k :: 0 <= k < |items| ==> Fine(items[k], serialize)
    ensures SendBatch(w, items, world, serialize) == [Transmit(Assemble(items, serialize).batch)]
  {
  }

  /** A list whose first unsendable element is a termination notice only stops the writer. */
  lemma SendBatchStops<M>(w: Writer, items: seq<Item<M>>, world: World, serialize: (M, nat) -> Serialized, j: nat)
    requires FirstUnfit(items, serialize, 0, j) && items[j].TerminatedNotice?
    ensures SendBatch(w, items, world, serialize) == [StopSelf]
  {
  }

  /** The batch send panics, and with one fault only, when it fails at an element the loop cannot get past. */
  ghost predicate PanicsAtElement(r: seq<Effect>)
  {
    |r| == 1 && r[0].Crash? && r[0].failure.BatchFailed? && r[0].failure.fault.AtElement()
  }

  /**
   * The panics of a batch send: the writer panics exactly when it neither
   * transmits nor stops, and a refused send stashes the message and then
   * panics.
   */
  lemma SendBatchPanics<M>(w: Writer, items: seq<Item<M>>, world: World, serialize: (M, nat) -> Serialized)
    ensures var r := SendBatch(w, items, world, serialize);
      Crashes(r) <==> !(exists k :: 0 <= k < |r| && r[k].Transmit?) && StopSelf !in r
    ensures var r := SendBatch(w, items, world, serialize);
      Stash in r ==> r == [Stash, Crash(BatchFailed(SendFailed))]
  {
    var o := SendEnvelopes(items, serialize, if w.stream then Open(world.accepts) else NoStream);
    assert SendBatch(w, items, world, serialize) == OutcomeEffects(o);
  }

  /** A writer without a stream panics with the nil-stream fault exactly when every element got through. */
  lemma SendBatchNilStream<M>(w: Writer, items: seq<Item<M>>, world: World, serialize: (M, nat) -> Serialized)
    ensures Crash(BatchFailed(NilStream)) in SendBatch(w, items, world, serialize) <==>
              !w.stream && forall k :: 0 <= k < |items| ==> Fine(items[k], serialize)
  {
    var o := SendEnvelopes(items, serialize, if w.stream then Open(world.accepts) else NoStream);
    assert SendBatch(w, items, world, serialize) == OutcomeEffects(o);
  }

  /**
   * An element that is neither a sendable delivery nor a termination notice,
   * met before any such notice, makes the batch send panic on its own,
   * naming that element; no other panic is at an element.
   */
  lemma SendBatchElementPanic<M>(w: Writer, items: seq<Item<M>>, world: World, serialize: (M, nat) -> Serialized)
    ensures PanicsAtElement(SendBatch(w, items, world, serialize)) <==>
              exists j: nat :: FirstUnfit(items, serialize, 0, j) && !items[j].TerminatedNotice?
    ensures var r := SendBatch(w, items, world, serialize);
      PanicsAtElement(r) ==> FirstUnfit(items, serialize, 0, r[0].failure.fault.position)
  {
    var o := SendEnvelopes(items, serialize, if w.stream then Open(world.accepts) else NoStream);
    var r := SendBatch(w, items, world, serialize);
    assert r == OutcomeEffects(o);
    if o.Crashed? && o.fault.AtElement() {
      assert !o.stashed;
      assert r == [Crash(BatchFailed(o.fault))];
    } else {
      assert !PanicsAtElement(r);
    }
  }

  /** `Receive`: the writer's reaction to one mailbox message. */
  function Receive<M>(w: Writer, msg: Message<M>, world: World, serialize: (M, nat) -> Serialized): (r: (Writer, seq<Effect>))
    ensures r.0.address == w.address
    ensures !msg.Started? ==> r.0 == w
    ensures msg.Started? ==> r == Initialize(w, world.transport)
    ensures msg.Stopped? || msg.Restarting? ==> r.1 == CloseClientConn(w)
    ensures msg.Terminated? ==> r.1 == [StopSelf]
    ensures msg.Deliveries? ==> r.1 == SendBatch(w, msg.items, world, serialize)
    ensures msg.SystemMessage? || msg.AutoReceive? || msg.Unexpected? ==> r.1 == []
    ensures forall k :: 0 <= k < |r.1| && r.1[k].Transmit? ==> msg.Deliveries? && w.stream
    ensures Publish(EndpointConnected(w.address)) in r.1 <==>
              msg.Started? && InitializeInternal(w.address, world.transport).error.None?
    ensures r.0.stream ==> w.stream || Publish(EndpointConnected(w.address)) in r.1 || Crashes(r.1)
  {
    match msg
    case Started => Initialize(w, world.transport)
    case Stopped => (w, CloseClientConn(w))
    case Restarting => (w, CloseClientConn(w))
    case Terminated(_) => (w, [StopSelf])
    case Deliveries(items) => (w, SendBatch(w, items, world, serialize))
    case SystemMessage => (w, [])
    case AutoReceive => (w, [])
    case Unexpected(_) => (w, [])
  }

  /**
   * One incarnation's run: its final state, the effects in order, whether it
   * ended in a panic, and how many messages it handled.
   */
  datatype Run = Run(writer: Writer, trace: seq<Effect>, crashed: bool, handled: nat)

  /**
   * The writer handles `msgs` in order, `worlds[k]` answering for `msgs[k]`,
   * until a message makes it panic; a panic ends the incarnation.
   */
  function RunFrom<M>(w: Writer, msgs: seq<Message<M>>, worlds: seq<World>, serialize: (M, nat) -> Serialized): (r: Run)
    requires |worlds| == |msgs|
    decreases |msgs|
    ensures r.writer.address == w.address
    ensures r.crashed ==> Crashes(r.trace)
    ensures !r.crashed ==> !Crashes(r.trace)
    ensures r.handled <= |msgs|
    ensures !r.crashed ==> r.handled == |msgs|
  {
    if msgs == [] then
      Run(w, [], false, 0)
    else
      var (w', effects) := Receive(w, msgs[0], worlds[0], serialize);
      if Crashes(effects) then
        Run(w', effects, true, 1)
      else
        var rest := RunFrom(w', msgs[1..], worlds[1..], serialize);
        Run(rest.writer, effects + rest.trace, rest.crashed, 1 + rest.handled)
  }

  /**
   * The reference reading of a sequence of messages, ignoring panics: entry
   * `k` is what `Receive` returns for `msgs[k]` in the state the previous
   * message left, the first message being handled in state `w`.
   */
  function Steps<M>(w: Writer, msgs: seq<Message<M>>, worlds: seq<World>, serialize: (M, nat) -> Serialized): (r: seq<(Writer, seq<Effect>)>)
    requires |worlds| == |msgs|
    decreases |msgs|
    ensures |r| == |msgs|
    ensures |msgs| > 0 ==> r[0] == Receive(w, msgs[0], worlds[0], serialize)
    ensures forall k :: 0 < k < |r| ==> r[k] == Receive(r[k - 1].0, msgs[k], worlds[k], serialize)
  {
    if msgs == [] then []
    else
      var first := Receive(w, msgs[0], worlds[0], serialize);
      [first] + Steps(first.0, msgs[1..], worlds[1..], serialize)
  }

  /** The effects of a sequence of steps, one step's after the previous one's. */
  function Trace(steps: seq<(Writer, seq<Effect>)>): seq<Effect>
  {
    if steps == [] then [] else steps[0].1 + Trace(steps[1..])
  }

  /**
   * A run is the prefix of the reference steps up to and including the
   * first one that panics, or all of them when none does: its trace is
   * their effects in order, and its final state is the last handled one's.
   */
  lemma {:induction false} RunFromSteps<M>(w: Writer, msgs: seq<Message<M>>, worlds: seq<World>,
                                           serialize: (M, nat) -> Serialized)
    requires |worlds| == |msgs|
    decreases |msgs|
    ensures var r, s := RunFrom(w, msgs, worlds, serialize), Steps(w, msgs, worlds, serialize);
      && r.trace == Trace(s[..r.handled])
      && (forall k :: 0 <= k < r.handled - 1 ==> !Crashes(s[k].1))
      && (r.crashed <==> r.handled > 0 && Crashes(s[r.handled - 1].1))
      && r.writer == (if r.handled == 0 then w else s[r.handled - 1].0)
  {
    if msgs != [] {
      var first := Receive(w, msgs[0], worlds[0], serialize);
      var s' := Steps(first.0, msgs[1..], worlds[1..], serialize);
      var s := Steps(w, msgs, worlds, serialize);
      assert s == [first] + s';
      if Crashes(first.1) {
        TraceCons(first, s', 0);
      } else {
        var rest := RunFrom(first.0, msgs[1..], worlds[1..], serialize);
        RunFromSteps(first.0, msgs[1..], worlds[1..], serialize);
        TraceCons(first, s', rest.handled);
      }
    }
  }

  /** Putting one step in front of a prefix of steps puts its effects in front of the trace. */
  lemma TraceCons(first: (Writer, seq<Effect>), steps: seq<(Writer, seq<Effect>)>, n: nat)
    requires n <= |steps|
    ensures ([first] + steps)[..n + 1] == [first] + steps[..n]
    ensures Trace(([first] + steps)[..n + 1]) == first.1 + Trace(steps[..n])
    ensures forall k :: 0 <= k < n ==> ([first] + steps)[k + 1] == steps[k]
  {
    assert ([first] + steps[..n])[1..] == steps[..n];
  }

  /** The connected event for `address` occurs before position `k` of `trace`. */
  ghost predicate ConnectedBefore(trace: seq<Effect>, k: nat, address: string)
  {
    exists j :: 0 <= j < k && j < |trace| && trace[j] == Publish(EndpointConnected(address))
  }

  /** Every transmit in `trace` happens on a stream already held, or after the connected event. */
  ghost predicate GatedFrom(held: bool, trace: seq<Effect>, address: string)
  {
    forall k :: 0 <= k < |trace| && trace[k].Transmit? ==> held || ConnectedBefore(trace, k, address)
  }

  /**
   * The gating property carries over from the rest of a run to the run
   * with one more message's effects in front.
   */
  lemma GatedPrefix(w: Writer, w': Writer, effects: seq<Effect>, rest: seq<Effect>)
    requires w'.stream ==> w.stream || Publish(EndpointConnected(w.address)) in effects
    requires forall i :: 0 <= i < |effects| && effects[i].Transmit? ==> w.stream
    requires GatedFrom(w'.stream, rest, w.address)
    ensures GatedFrom(w.stream, effects + rest, w.address)
  {
    var trace := effects + rest;
    forall k | 0 <= k < |trace| && trace[k].Transmit?
      ensures w.stream || ConnectedBefore(trace, k, w.address)
    {
      if k < |effects| {
        assert effects[k] == trace[k];
      } else if !w.stream {
        var k' := k - |effects|;
        assert rest[k'] == trace[k];
        if ConnectedBefore(rest, k', w.address) {
          var j :| 0 <= j < k' && j < |rest| && rest[j] == Publish(EndpointConnected(w.address));
          assert trace[|effects| + j] == rest[j];
        } else {
          var j :| 0 <= j < |effects| && effects[j] == Publish(EndpointConnected(w.address));
          assert trace[j] == effects[j];
        }
      }
    }
  }

  /**
   * Every batch transmitted in a run is transmitted on a stream the writer
   * already had, or after the connected event was published.
   */
  lemma {:induction false} TransmitGated<M>(w: Writer, msgs: seq<Message<M>>, worlds: seq<World>,
                                            serialize: (M, nat) -> Serialized)
    requires |worlds| == |msgs|
    decreases |msgs|
    ensures GatedFrom(w.stream, RunFrom(w, msgs, worlds, serialize).trace, w.address)
  {
    if msgs != [] {
      var step := Receive(w, msgs[0], worlds[0], serialize);
      if !Crashes(step.1) {
        var rest := RunFrom(step.0, msgs[1..], worlds[1..], serialize);
        TransmitGated(step.0, msgs[1..], worlds[1..], serialize);
        assert step.0.address == w.address;
        GatedPrefix(w, step.0, step.1, rest.trace);
      }
    }
  }

  /**
   * No batch is transmitted before a successful handshake: starting from a
   * writer without a stream, every transmit follows the connected event.
   */
  lemma HandshakeGatesTransmit<M>(w: Writer, msgs: seq<Message<M>>, worlds: seq<World>,
                                  serialize: (M, nat) -> Serialized)
    requires |worlds| == |msgs| && !w.stream
    ensures var r := RunFrom(w, msgs, worlds, serialize);
      forall k :: 0 <= k < |r.trace| && r.trace[k].Transmit? ==> ConnectedBefore(r.trace, k, w.address)
  {
    TransmitGated(w, msgs, worlds, serialize);
  }

  /**
   * A batch holding a termination notice, with only sendable deliveries
   * before it, stops the writer and transmits nothing.
   */
  lemma TerminationTakesPrecedence<M>(w: Writer, items: seq<Item<M>>, world: World,
                                      serialize: (M, nat) -> Serialized, j: nat)
    requires j < |items| && items[j].TerminatedNotice?
    requires forall k :: 0 <= k < j ==> Fine(items[k], serialize)
    ensures Receive(w, Deliveries(items), world, serialize).1 == [StopSelf]
  {
    assert FirstUnfit(items, serialize, 0, j);
  }

  /** A writer that never connected closes nothing on stop or restart. */
  lemma CloseBeforeConnectIsNoop(address: string)
    ensures CloseClientConn(Writer(address, false, false)) == []
  {
  }
}
