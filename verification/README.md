# Endpoint writer of the remote actor transport

This project models the endpoint writer of protoactor-go's remote
subsystem (`remote/endpoint_writer.go`). The writer is the actor that owns
the one gRPC connection to a remote node. It makes four decisions, and
each is modelled as a pure Dafny function:

- **Interning tables** (`addToLookup`, `addToPidLookup`), module `Lookup`.
  - A Go map and its parallel slice are one `Table`: a `map<string, nat>`
    plus the sequence of entries.
  - Type names are stored under themselves.
  - Actor references are stored under `Address + "/" + Id`, with their
    request id cleared.
  - Type indices are 0-based. Reference indices are 1-based, and 0 means
    an absent reference.
- **Batch assembly** (the loop of `sendEnvelopes`), module `Batch`.
  - The loop is a left fold (`AccOf`) over the list of deliveries.
  - A classification recursion (`AssembleFrom`) decides the outcome:
    - a wrapped `EndpointTerminatedEvent` stops the writer;
    - a non-delivery element panics on the nil delivery;
    - a payload that does not serialize panics;
    - otherwise the whole batch is handed to the stream.
  - Serialization is a function parameter. It is always called with
    serializer id 0, because `serializerID` is never assigned.
  - The stream is either absent, or open with an answer ("accepted" or not)
    to the one send.
- **Connection handshake** (`initializeInternal` and `initialize`), modules
  `Handshake` and `Endpoint`.
  - Each transport call (dial, open stream, send the connect request,
    receive) is an input step outcome.
  - So is the variant of the received message.
  - The result gives:
    - the error, if any;
    - which writer fields were assigned;
    - the calls made;
    - the events published;
    - whether the liveness monitor was started.
- **Liveness monitor and dispatch**, modules `Monitor` and `Endpoint`.
  - The monitor goroutine's switch maps one read outcome to "publish
    Terminated?" and "read again?".
  - `Watch` folds that switch over a sequence of read outcomes.
  - `Receive` maps each mailbox message kind to the writer's reaction, as a
    list of effects.
  - `RunFrom` runs one actor incarnation over a sequence of messages, until
    a panic ends it.

Three places where the code does something other than what a reader would
expect. The model follows the code in each:

- **Terminated event address.** On a top-level `EndpointTerminatedEvent`,
  `Receive` stops the writer whatever address the event names
  (`remote/endpoint_writer.go:245-247`). The event is not compared with
  `state.address`.
- **End of stream.** On end of stream the monitor keeps reading
  (`remote/endpoint_writer.go:96-98`), because `break` leaves only the
  `switch`. The log line "EndpointWriter stream completed" at line 97 says
  that the stream is over, and the loop goes on to call `Recv` again. See
  "## Findings".
- **Interning key.** References are deduplicated on the concatenated string
  `Address + "/" + Id`, not on the pair. `Actor.KeyCollision` shows two
  different references that share a key.

## Model

| member | source | states |
|---|---|---|
| Actor.Strip | remote/endpoint_writer.go:228-229 | the copy stored in a table has request id 0 and keeps the address and id |
| Actor.KeyIgnoresRequestId | remote/endpoint_writer.go:225 | the interning key depends on address and id only, so a stripped copy has the key of the original |
| Actor.KeyCollision | remote/endpoint_writer.go:225 | two references with different addresses can share one interning key (`("a/b","c")` and `("a","b/c")`) |
| Lookup.Intern | remote/endpoint_writer.go:208-216 | the shared lookup-or-append keeps the table invariant; a present key returns its position and leaves the table unchanged; a new key gets position old size and is appended |
| Lookup.AddToLookup | remote/endpoint_writer.go:208-217 | `addToLookup`: returned index holds the name; a present name leaves the table unchanged; a new name is appended at index old length; the table invariant (as many keys as entries, every entry at its key's position) is kept; grows by at most one |
| Lookup.AddToPidLookup | remote/endpoint_writer.go:219-235 | `addToPidLookup`: nil returns 0 with the table unchanged; otherwise the index is one past an entry with the same key; the table grows exactly when the key is new, by the stripped reference; every stored entry has request id 0 |
| Lookup.IndexedDistinct | remote/endpoint_writer.go:208-217 | under the table invariant no two entries share a key |
| Lookup.FirstSeen | remote/endpoint_writer.go:208-235 | the reference order of an interning table, defined without maps: the elements whose key has not occurred before, in order; it is duplicate-free, no longer than its input, and holds every input key |
| Lookup.FirstSeenIsFirst | remote/endpoint_writer.go:208-235 | every entry of the reference order is the first element of the input with its key |
| Lookup.FirstSeenPrefix | remote/endpoint_writer.go:208-235 | seeing more elements only appends to the reference order: entries already placed never move |
| Lookup.AddToLookupFirstSeen | remote/endpoint_writer.go:208-217 | a table in first-seen order of some names stays in first-seen order after `addToLookup` of one more name |
| Lookup.AddToPidLookupFirstSeen | remote/endpoint_writer.go:219-235 | a table in first-seen order of some stripped references stays so after `addToPidLookup`; an absent reference adds nothing |
| Batch.AccOf | remote/endpoint_writer.go:143-189 | the loop state after `n` sendable deliveries: consistent tables and exactly `n` envelopes |
| Batch.AccOfCovers | remote/endpoint_writer.go:143-189 | loop invariant: envelope `k` carries delivery `k` (header, bytes, type index naming its type, serializer id 0, target and sender indices resolving to entries with the reference's key, request ids copied or 0), and every table entry comes from some delivery |
| Batch.AssembleFrom | remote/endpoint_writer.go:143-164 | the loop completes exactly when every remaining element is a serializable delivery; it stops exactly when the first element it cannot get past is a termination notice; a panic names that first element and why (nil delivery, or the serializer's error) |
| Batch.AssembleFromBatch | remote/endpoint_writer.go:143-189 | a completed loop yields the batch of the final loop state |
| Batch.AccOfTables | remote/endpoint_writer.go:165-167 | every loop state's type, target and sender tables are the first-seen order of the names and stripped references met so far |
| Batch.Assemble | remote/endpoint_writer.go:122-189 | a completed batch covers the list in order and is well formed: duplicate-free tables, stripped references, every type index below the type table's length and every reference index at most its table's length; its tables are in first-seen order, each stored reference the stripped first one with its key |
| Batch.CoversDetermines | remote/endpoint_writer.go:143-189 | covering the list with tables in first-seen order fixes the batch: any two batches that do so are equal |
| Batch.SendEnvelopes | remote/endpoint_writer.go:122-206 | the batch is sent only when the whole loop completed and the stream accepted it, with first-seen tables; a termination notice stops with nothing sent; a nil stream panics; a refused send stashes then panics; an earlier bad element panics before any send, on the nil delivery for a non-delivery and with the serializer's own error for a payload that does not serialize |
| Batch.SharedEntry | remote/endpoint_writer.go:219-235 | deliveries whose references share a key get the same index, and that index names the only entry with the key |
| Batch.RequestIdsTravelApart | remote/endpoint_writer.go:166-177 | two deliveries to targets with the same key share one target index while each envelope keeps its own request id |
| Batch.AbsentSendersLeaveTableEmpty | remote/endpoint_writer.go:167-177 | deliveries without senders leave the sender table empty and every sender index 0 |
| Handshake.InitializeInternal | remote/endpoint_writer.go:47-120 | success exactly when dial, stream open, request send and receive succeed and the response is a connect response; the calls made are a prefix of the four, all but the last succeeded, fewer than four calls means the last one failed, success makes all four, and a failed last call's error is returned; the connected event is published and the monitor started exactly on success; `conn` is set once dialled, `stream` once opened |
| Handshake.WrongVariantRejected | remote/endpoint_writer.go:84-90 | a response of another variant gives the invalid-connect-response error and publishes nothing |
| Handshake.FirstFailureDecides | remote/endpoint_writer.go:48-82 | the first failing call decides the outcome; the answers of later calls do not matter |
| Monitor.OnRead | remote/endpoint_writer.go:94-112 | per read: end of stream publishes nothing and reads again; an error publishes Terminated for the address and stops; a message publishes Terminated and reads again |
| Monitor.OnReadIntended | remote/endpoint_writer.go:96-98 | the corrected switch: end of stream publishes nothing and stops; it agrees with `OnRead` on every other outcome |
| Monitor.Watch | remote/endpoint_writer.go:93-113 | the loop reads until a reaction stops it; events counted and drawn from the consumed reads only |
| Monitor.WatchExitsOnError | remote/endpoint_writer.go:93-113 | as written, the loop exits exactly when a transport error is read, at the first one |
| Monitor.WatchPublishesTerminated | remote/endpoint_writer.go:99-111 | every event the monitor publishes is Terminated for the writer's address |
| Monitor.EofNeverExits | remote/endpoint_writer.go:93-98 | as written, any number of end-of-stream reads never leaves the loop and publishes nothing |
| Monitor.IntendedStopsAtEof | remote/endpoint_writer.go:96-98 | corrected: the loop stops at the first end of stream, after one Terminated per message before it |
| Monitor.ErrorPublishesOnceAndExits | remote/endpoint_writer.go:99-105 | a read error publishes exactly one Terminated and ends the loop, whatever the stream would deliver after it, under both switches |
| Endpoint.Initialize | remote/endpoint_writer.go:33-45 | a failed attempt panics with its error and keeps the fields it assigned; a successful one starts the monitor and then publishes the connected event |
| Endpoint.CloseClientConn | remote/endpoint_writer.go:257-270 | the stream's send side is closed exactly when set, the connection exactly when set, each at most once, the stream first |
| Endpoint.OutcomeEffects | remote/endpoint_writer.go:191-205 | a sent batch is exactly one transmit of that batch; a stop is exactly one stop; a panic is the last effect, preceded by a stash exactly when the send was refused; nothing is published |
| Endpoint.SendBatch | remote/endpoint_writer.go:143-205 | a transmit happens only on an open stream that accepts, exactly when every element got through, is the only effect, and carries the covering batch with first-seen tables; the writer stops exactly on a leading termination notice, and then does nothing else; it stashes exactly on a refused send; nothing is published |
| Endpoint.SendBatchSends | remote/endpoint_writer.go:143-200 | a list that gets through on an accepting stream is sent once, as the assembled batch, and nothing else happens |
| Endpoint.SendBatchStops | remote/endpoint_writer.go:143-148 | a list whose first unsendable element is a termination notice only stops the writer |
| Endpoint.SendBatchPanics | remote/endpoint_writer.go:191-205 | the writer panics exactly when it neither transmits nor stops; a refused send gives exactly a stash and then the send-failure panic |
| Endpoint.SendBatchNilStream | remote/endpoint_writer.go:191 | the nil-stream panic happens exactly when the writer has no stream and every element got through |
| Endpoint.SendBatchElementPanic | remote/endpoint_writer.go:151-164 | the send panics alone at an element exactly when the first element the loop cannot get past is not a termination notice, and the panic names that element |
| Endpoint.Receive | remote/endpoint_writer.go:237-255 | Started connects; Stopped and Restarting close; a Terminated event stops the writer; a list is assembled and sent; system, auto-receive and unknown messages do nothing; only Started changes the writer; a stream only appears together with the connected event or a panic |
| Endpoint.RunFrom | remote/endpoint_writer.go:237-255 | an incarnation ends in a panic exactly when its trace holds one; it handles at most the given messages, and all of them when it does not panic |
| Endpoint.Steps | remote/endpoint_writer.go:237-255 | the reference reading: message `k` is handled by `Receive` in the state the previous message left |
| Endpoint.RunFromSteps | remote/endpoint_writer.go:237-255 | a run is the reference steps up to and including the first that panics: its trace is their effects in order, no earlier step panics, it panicked exactly when its last step did, and its final state is the last step's |
| Endpoint.GatedPrefix | remote/endpoint_writer.go:237-249 | gating carries over when one more message's effects are put in front of a run |
| Endpoint.TransmitGated | remote/endpoint_writer.go:237-249 | every transmit in a run happens on a stream already held or after the connected event |
| Endpoint.HandshakeGatesTransmit | remote/endpoint_writer.go:47-120 | from a writer without a stream, no batch is transmitted before the connected event is published |
| Endpoint.TerminationTakesPrecedence | remote/endpoint_writer.go:143-149 | a termination notice after only sendable deliveries stops the writer and transmits nothing |
| Endpoint.CloseBeforeConnectIsNoop | remote/endpoint_writer.go:257-270 | a writer that never connected closes nothing |

## Left out

- gRPC calls are not modelled: `grpc.Dial`, `Receive`, `stream.Send`, `stream.Recv`, `CloseSend` and `conn.Close`. Their outcomes are inputs: `Transport`, `Stream`, `World.accepts` and `ReadOutcome`. The errors from `CloseSend` and `Close` are only logged, so they are dropped.
- The connect request's contents (system id and local address) are not modelled. They have no effect on the writer's decisions.
- The monitor goroutine's concurrency with the actor is not modelled. `Initialize` records only that the monitor was started, and `Watch` models the loop on its own.
- `time.Sleep(2 * time.Second)`, `time.Now` and the duration log are not modelled. They are wall-clock behaviour.
- Logging is not modelled, so an unknown message and an ignored system message both have no effect.
- `panic`, `ctx.Stash`, `ctx.Stop` and the supervisor restart become the effects `Crash`, `Stash` and `StopSelf`.
- `RunFrom` ends an incarnation at a panic. It does not model when the runtime delivers the stop that `StopSelf` requests.
- `Serialize` is the `serialize` parameter.
- `proto.Clone` is the copy made by `Actor.Strip`.
- `rd.header.ToMap()` is the identity on the header map.
- `EventStream.Publish` is the `Publish` effect.
- `errors.Is(err, io.EOF)` is not modelled. `ReadEof` stands for any error that wraps `io.EOF`.
- Lookup.AddToLookup: indices are unbounded `nat`. Go's `int32` index (`max := int32(len(m))`) would wrap only past 2^31 distinct keys in one batch.
- Lookup.AddToPidLookup: indices are unbounded `nat`. `id + 1` in `int32` would wrap only past 2^31 - 1 distinct references in one batch.
- Endpoint.Receive: the writer holds flags for `conn` and `stream`, not handles. The second `state.stream = stream` at line 118 assigns the same stream and is not modelled.

## Findings

| source | as written | input that shows it | evidently intended | confidence | as-written member | corrected member |
|---|---|---|---|---|---|---|
| remote/endpoint_writer.go:96-98 | on `io.EOF` the `break` leaves only the `switch`, so the `for` loop calls `Recv` again | a stream whose reads all report end of stream: the loop never exits and publishes nothing, spinning on `Recv` | end of stream leaves the loop without publishing, as the log line "stream completed" says | medium, not executed | Monitor.EofNeverExits | Monitor.IntendedStopsAtEof |

The corrected switch is `Monitor.OnReadIntended`. It differs from
`Monitor.OnRead` only on end of stream. The rest of the model records only
that the monitor was started, so it depends on neither.
