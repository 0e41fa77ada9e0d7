/**
 * The liveness monitor started after a successful handshake: it reads the
 * stream's inbound direction in a loop and turns what it reads into
 * lifecycle events. The loop runs on its own goroutine; here it is a fold
 * over the sequence of read outcomes.
 */
module Monitor {
  import opened Wrappers
  import opened Events

  /** The outcome of one `Recv` on the stream. */
  datatype ReadOutcome = ReadMessage | ReadEof | ReadFailed(cause: string)

  /** What one read leads to: an event to publish, and whether the loop reads again. */
  datatype Reaction = Reaction(publish: Option<Event>, keepReading: bool)

  /**
   * The switch as written: end of stream publishes nothing and, since the
   * `break` leaves only the switch, the loop reads again; a transport error
   * publishes Terminated and returns; a message publishes Terminated and
   * reads again.
   */
  function OnRead(address: string, read: ReadOutcome): (r: Reaction)
    ensures r.publish.Some? ==> r.publish.value == EndpointTerminated(address)
    ensures r.publish.None? <==> read.ReadEof?
    ensures r.keepReading <==> !read.ReadFailed?
  {
    match read
    case ReadEof => Reaction(None, true)
    case ReadFailed(_) => Reaction(Some(EndpointTerminated(address)), false)
    case ReadMessage => Reaction(Some(EndpointTerminated(address)), true)
  }

  /**
   * The switch with the end-of-stream case leaving the loop, as the log
   * line "stream completed" describes: nothing published, no further read.
   */
  function OnReadIntended(address: string, read: ReadOutcome): (r: Reaction)
    ensures r.publish.Some? ==> r.publish.value == EndpointTerminated(address)
    ensures r.publish.None? <==> read.ReadEof?
    ensures r.keepReading <==> read.ReadMessage?
    ensures !read.ReadEof? ==> r == OnRead(address, read)
  {
    match read
    case ReadEof => Reaction(None, false)
    case ReadFailed(_) => Reaction(Some(EndpointTerminated(address)), false)
    case ReadMessage => Reaction(Some(EndpointTerminated(address)), true)
  }

  /** The events of a reaction, as a list. */
  function Published(x: Reaction): seq<Event>
  {
    if x.publish.Some? then [x.publish.value] else []
  }

  /** Number of outcomes in `outcomes` that publish under `react`. */
  function CountPublishing(address: string, outcomes: seq<ReadOutcome>, react: (string, ReadOutcome) -> Reaction): nat
  {
    if outcomes == [] then 0
    else (if react(address, outcomes[0]).publish.Some? then 1 else 0) + CountPublishing(address, outcomes[1..], react)
  }

  /** The loop's run over a sequence of read outcomes. */
  datatype Watched = Watched(events: seq<Event>, consumed: nat, exited: bool)

  /**
   * The monitor loop driven by `react`: read after read until a reaction
   * stops it or the given outcomes run out.
   */
  function Watch(address: string, outcomes: seq<ReadOutcome>, react: (string, ReadOutcome) -> Reaction): (r: Watched)
    decreases |outcomes|
    ensures r.consumed <= |outcomes|
    ensures forall k :: 0 <= k < r.consumed - 1 ==> react(address, outcomes[k]).keepReading
    ensures r.exited <==> r.consumed > 0 && !react(address, outcomes[r.consumed - 1]).keepReading
    ensures !r.exited ==> r.consumed == |outcomes|
    ensures |r.events| == CountPublishing(address, outcomes[..r.consumed], react)
    ensures forall e :: e in r.events ==> exists k :: 0 <= k < r.consumed && react(address, outcomes[k]).publish == Some(e)
  {
    if outcomes == [] then
      Watched([], 0, false)
    else
      var x := react(address, outcomes[0]);
      if !x.keepReading then
        assert outcomes[..1] == [outcomes[0]];
        Watched(Published(x), 1, true)
      else
        var rest := Watch(address, outcomes[1..], react);
        assert outcomes[..1 + rest.consumed][1..] == outcomes[1..][..rest.consumed];
        Watched(Published(x) + rest.events, 1 + rest.consumed, rest.exited)
  }

  /** As written, the loop leaves exactly at the first transport error. */
  lemma {:induction false} WatchExitsOnError(address: string, outcomes: seq<ReadOutcome>)
    ensures var r := Watch(address, outcomes, OnRead);
      r.exited <==> exists k :: 0 <= k < |outcomes| && outcomes[k].ReadFailed?
    ensures var r := Watch(address, outcomes, OnRead);
      r.exited ==> outcomes[r.consumed - 1].ReadFailed? && forall k :: 0 <= k < r.consumed - 1 ==> !outcomes[k].ReadFailed?
  {
    var r := Watch(address, outcomes, OnRead);
    if r.exited {
      assert OnRead(address, outcomes[r.consumed - 1]).keepReading == false;
      forall k | 0 <= k < r.consumed - 1
        ensures !outcomes[k].ReadFailed?
      {
        assert OnRead(address, outcomes[k]).keepReading;
      }
    } else {
      forall k | 0 <= k < |outcomes|
        ensures !outcomes[k].ReadFailed?
      {
        assert OnRead(address, outcomes[k]).keepReading;
      }
    }
  }

  /** As written, every event the loop publishes is Terminated for its address. */
  lemma WatchPublishesTerminated(address: string, outcomes: seq<ReadOutcome>)
    ensures forall e :: e in Watch(address, outcomes, OnRead).events ==> e == EndpointTerminated(address)
  {
  }

  /**
   * As written, a stream that only ever reports end of stream keeps the
   * loop reading for as long as there are outcomes, publishing nothing:
   * the loop never leaves.
   */
  lemma {:induction false} EofNeverExits(address: string, n: nat)
    ensures Watch(address, seq(n, _ => ReadEof), OnRead) == Watched([], n, false)
  {
    var outcomes := seq(n, _ => ReadEof);
    if n > 0 {
      EofNeverExits(address, n - 1);
      assert outcomes[1..] == seq(n - 1, _ => ReadEof);
    }
  }

  /**
   * With the end-of-stream case leaving the loop, the monitor reads nothing
   * after the stream ends and publishes nothing for it.
   */
  lemma {:induction false} IntendedStopsAtEof(address: string, outcomes: seq<ReadOutcome>, j: nat)
    requires j < |outcomes| && outcomes[j].ReadEof?
    requires forall k :: 0 <= k < j ==> outcomes[k].ReadMessage?
    ensures Watch(address, outcomes, OnReadIntended) == Watched(seq(j, _ => EndpointTerminated(address)), j + 1, true)
  {
    if j > 0 {
      IntendedStopsAtEof(address, outcomes[1..], j - 1);
      assert seq(j, _ => EndpointTerminated(address))
          == [EndpointTerminated(address)] + seq(j - 1, _ => EndpointTerminated(address));
    }
  }

  /**
   * A read error ends the loop with exactly one Terminated event for it;
   * whatever the stream would deliver afterwards is never read.
   */
  lemma ErrorPublishesOnceAndExits(address: string, outcomes: seq<ReadOutcome>)
    requires |outcomes| > 0 && outcomes[0].ReadFailed?
    ensures Watch(address, outcomes, OnRead) == Watched([EndpointTerminated(address)], 1, true)
    ensures Watch(address, outcomes, OnReadIntended) == Watched([EndpointTerminated(address)], 1, true)
  {
  }
}
