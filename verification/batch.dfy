/**
 * Batch assembly of `sendEnvelopes`: a left fold over the delivered list that
 * interns type names, targets and senders into fresh per-batch tables and
 * emits one envelope per delivery, in input order.
 */
module Batch {
  import opened Wrappers
  import opened Actor
  import opened Lookup

  newtype byte = x: int | 0 <= x < 256

  /** A `remoteDeliver`: optional header map, payload, optional target and sender. */
  datatype RemoteDeliver<M> = RemoteDeliver(
    header: Option<map<string, string>>,
    message: M,
    target: Option<Pid>,
    sender: Option<Pid>)

  /**
   * One element of the `[]interface{}` list: a delivery, a wrapped
   * `EndpointTerminatedEvent` (pointer or value), or anything else.
   */
  datatype Item<M> =
    | Deliver(rd: RemoteDeliver<M>)
    | TerminatedNotice(address: string)
    | Foreign

  /** What the serialization registry returns for a payload and serializer id. */
  datatype Serialized =
    | Serialized(bytes: seq<byte>, typeName: string)
    | SerializeError(cause: string)

  /** `serializerID` is declared and never assigned, so it is always Go's zero value. */
  const SerializerId: nat := 0

  datatype Envelope = Envelope(
    header: Option<map<string, string>>,
    data: seq<byte>,
    sender: nat,
    target: nat,
    typeId: nat,
    serializerId: nat,
    targetRequestId: uint32,
    senderRequestId: uint32)

  datatype MessageBatch = MessageBatch(
    typeNames: seq<string>,
    targets: seq<Pid>,
    senders: seq<Pid>,
    envelopes: seq<Envelope>)

  /**
   * Why assembly or sending panicked: the list element at `position` was
   * not a delivery or did not serialize, the writer had no stream to send
   * on, or the stream refused the batch.
   */
  datatype Fault =
    | NilDelivery(position: nat)
    | SerializeFailed(position: nat, cause: string)
    | NilStream
    | SendFailed
  {
    predicate AtElement()
    {
      NilDelivery? || SerializeFailed?
    }
  }

  datatype Assembly =
    | Assembled(batch: MessageBatch)
    | StopRequested
    | Panicked(fault: Fault)

  /** The loop state of `sendEnvelopes`: three tables and the envelopes so far. */
  datatype Acc = Acc(types: Table<string>, targets: Table<Pid>, senders: Table<Pid>, envelopes: seq<Envelope>)

  function BatchOf(acc: Acc): MessageBatch
  {
    MessageBatch(acc.types.entries, acc.targets.entries, acc.senders.entries, acc.envelopes)
  }

  /** A nil or empty header is sent as no header at all. */
  function MessageHeaderOf(h: Option<map<string, string>>): Option<map<string, string>>
  {
    if h.None? || |h.value| == 0 then None else h
  }

  /** The request id travelling beside a reference; 0 for an absent one. */
  function RequestIdOf(p: Option<Pid>): uint32
  {
    if p.Some? then p.value.requestId else 0
  }

  /** An element the loop gets past: a delivery whose payload serializes. */
  predicate Fine<M>(item: Item<M>, serialize: (M, nat) -> Serialized)
  {
    item.Deliver? && serialize(item.rd.message, SerializerId).Serialized?
  }

  /** `j` is the first element at or after `i` the loop does not get past. */
  ghost predicate FirstUnfit<M>(msg: seq<Item<M>>, serialize: (M, nat) -> Serialized, i: nat, j: nat)
  {
    && i <= j < |msg|
    && !Fine(msg[j], serialize)
    && (forall k :: i <= k < j ==> Fine(msg[k], serialize))
  }

  datatype Role = TargetRole | SenderRole

  function RefOf<M>(rd: RemoteDeliver<M>, role: Role): Option<Pid>
  {
    match role
    case TargetRole => rd.target
    case SenderRole => rd.sender
  }

  function TableOf(b: MessageBatch, role: Role): seq<Pid>
  {
    match role
    case TargetRole => b.targets
    case SenderRole => b.senders
  }

  function IndexOf(e: Envelope, role: Role): nat
  {
    match role
    case TargetRole => e.target
    case SenderRole => e.sender
  }

  /** Envelope `e` of batch `b` carries delivery `rd`. */
  ghost predicate EnvelopeFor<M>(b: MessageBatch, e: Envelope, rd: RemoteDeliver<M>, serialize: (M, nat) -> Serialized)
  {
    var s := serialize(rd.message, SerializerId);
    && s.Serialized?
    && e.header == MessageHeaderOf(rd.header)
    && e.data == s.bytes
    && e.typeId < |b.typeNames| && b.typeNames[e.typeId] == s.typeName
    && e.serializerId == SerializerId
    && Resolves(b.targets, e.target, rd.target)
    && Resolves(b.senders, e.sender, rd.sender)
    && e.targetRequestId == RequestIdOf(rd.target)
    && e.senderRequestId == RequestIdOf(rd.sender)
  }

  /** Table entry `p` is the stripped reference of `item` in `role`. */
  ghost predicate DrawsRef<M>(item: Item<M>, role: Role, p: Pid)
  {
    item.Deliver? && RefOf(item.rd, role).Some? && Strip(RefOf(item.rd, role).value) == p
  }

  /** Type name `name` is the one `item`'s payload serialized under. */
  ghost predicate DrawsName<M>(item: Item<M>, serialize: (M, nat) -> Serialized, name: string)
  {
    && item.Deliver?
    && serialize(item.rd.message, SerializerId).Serialized?
    && serialize(item.rd.message, SerializerId).typeName == name
  }

  /** Some delivery among the first `n` contributed reference `p` in `role`. */
  ghost predicate RefDrawn<M>(msg: seq<Item<M>>, n: nat, role: Role, p: Pid)
    requires n <= |msg|
  {
    exists k :: 0 <= k < n && DrawsRef(msg[k], role, p)
  }

  /** Some delivery among the first `n` contributed type name `name`. */
  ghost predicate NameDrawn<M>(msg: seq<Item<M>>, serialize: (M, nat) -> Serialized, n: nat, name: string)
    requires n <= |msg|
  {
    exists k :: 0 <= k < n && DrawsName(msg[k], serialize, name)
  }

  ghost predicate RefsDrawn<M>(msg: seq<Item<M>>, n: nat, role: Role, table: seq<Pid>)
    requires n <= |msg|
  {
    forall e :: 0 <= e < |table| ==> RefDrawn(msg, n, role, table[e])
  }

  ghost predicate NamesDrawn<M>(msg: seq<Item<M>>, serialize: (M, nat) -> Serialized, n: nat, names: seq<string>)
    requires n <= |msg|
  {
    forall e :: 0 <= e < |names| ==> NameDrawn(msg, serialize, n, names[e])
  }

  /**
   * Batch `b` is exactly what the first `n` elements of `msg` produce: one
   * envelope per delivery in order, and no table entry that no delivery
   * contributed.
   */
  ghost predicate Covers<M>(msg: seq<Item<M>>, serialize: (M, nat) -> Serialized, n: nat, b: MessageBatch)
    requires n <= |msg|
  {
    EnvelopesCover(msg, serialize, n, b) && TablesDrawn(msg, serialize, n, b)
  }

  /** The first `n` elements are deliveries whose envelopes are those of `b`, in order. */
  ghost predicate EnvelopesCover<M>(msg: seq<Item<M>>, serialize: (M, nat) -> Serialized, n: nat, b: MessageBatch)
    requires n <= |msg|
  {
    && |b.envelopes| == n
    && (forall k :: 0 <= k < n ==> Fine(msg[k], serialize) && EnvelopeFor(b, b.envelopes[k], msg[k].rd, serialize))
  }

  /** None of the first `n` elements carries a reference in `role`. */
  ghost predicate NoRefs<M>(msg: seq<Item<M>>, n: nat, role: Role)
    requires n <= |msg|
  {
    forall k :: 0 <= k < n ==> msg[k].Deliver? && RefOf(msg[k].rd, role).None?
  }

  /**
   * Every table entry of `b` was contributed by one of the first `n`
   * deliveries; in particular a role no delivery fills has an empty table.
   */
  ghost predicate TablesDrawn<M>(msg: seq<Item<M>>, serialize: (M, nat) -> Serialized, n: nat, b: MessageBatch)
    requires n <= |msg|
  {
    && NamesDrawn(msg, serialize, n, b.typeNames)
    && RefsDrawn(msg, n, TargetRole, b.targets)
    && RefsDrawn(msg, n, SenderRole, b.senders)
    && (NoRefs(msg, n, TargetRole) ==> b.targets == [])
    && (NoRefs(msg, n, SenderRole) ==> b.senders == [])
  }

  /** `b'` is `b` after one iteration: tables grown by at most one entry, one envelope appended. */
  ghost predicate BatchGrows(b: MessageBatch, b': MessageBatch)
  {
    && GrowsByAtMostOne(b.typeNames, b'.typeNames)
    && GrowsByAtMostOne(b.targets, b'.targets)
    && GrowsByAtMostOne(b.senders, b'.senders)
    && |b'.envelopes| == |b.envelopes| + 1
    && b'.envelopes[..|b.envelopes|] == b.envelopes
  }

  /**
   * What a receiver relies on, independent of the input: every table is
   * duplicate-free, stored references carry request id 0, and every index
   * is in range (0 meaning absent for references).
   */
  ghost predicate WellFormed(b: MessageBatch)
  {
    && DistinctKeys(b.typeNames, NameKey)
    && DistinctKeys(b.targets, Key)
    && DistinctKeys(b.senders, Key)
    && Stripped(b.targets)
    && Stripped(b.senders)
    && (forall k :: 0 <= k < |b.envelopes| ==>
          && b.envelopes[k].typeId < |b.typeNames|
          && b.envelopes[k].target <= |b.targets|
          && b.envelopes[k].sender <= |b.senders|)
  }

  /** The loop invariant of `sendEnvelopes` after `i` elements. */
  ghost predicate Progress<M>(msg: seq<Item<M>>, serialize: (M, nat) -> Serialized, i: nat, acc: Acc)
  {
    && i <= |msg|
    && TablesIndexed(acc)
    && Covers(msg, serialize, i, BatchOf(acc))
  }

  /** The invariants every table keeps during the loop. */
  ghost predicate TablesIndexed(acc: Acc)
  {
    && Indexed(acc.types, NameKey)
    && Indexed(acc.targets, Key)
    && Indexed(acc.senders, Key)
    && Stripped(acc.targets.entries)
    && Stripped(acc.senders.entries)
  }

  /** One iteration's table updates and envelope for a delivery that serialized. */
  function Append<M>(acc: Acc, rd: RemoteDeliver<M>, serialize: (M, nat) -> Serialized): (r: Acc)
    requires serialize(rd.message, SerializerId).Serialized?
    requires TablesIndexed(acc)
    ensures TablesIndexed(r)
    ensures |r.envelopes| == |acc.envelopes| + 1 && r.envelopes[..|acc.envelopes|] == acc.envelopes
  {
    var s := serialize(rd.message, SerializerId);
    var types := AddToLookup(acc.types, s.typeName);
    var targets := AddToPidLookup(acc.targets, rd.target);
    var senders := AddToPidLookup(acc.senders, rd.sender);
    var e := Envelope(MessageHeaderOf(rd.header), s.bytes, senders.0, targets.0, types.0,
                      SerializerId, RequestIdOf(rd.target), RequestIdOf(rd.sender));
    Acc(types.1, targets.1, senders.1, acc.envelopes + [e])
  }

  /** The tables after an iteration are those the three interning calls return. */
  lemma AppendTables<M>(acc: Acc, rd: RemoteDeliver<M>, serialize: (M, nat) -> Serialized)
    requires serialize(rd.message, SerializerId).Serialized?
    requires TablesIndexed(acc)
    ensures var r := Append(acc, rd, serialize);
      && r.types == AddToLookup(acc.types, serialize(rd.message, SerializerId).typeName).1
      && r.targets == AddToPidLookup(acc.targets, rd.target).1
      && r.senders == AddToPidLookup(acc.senders, rd.sender).1
  {
  }

  /** An iteration appends at most the delivery's type name, and one envelope. */
  lemma AppendGrowsTypes<M>(acc: Acc, rd: RemoteDeliver<M>, serialize: (M, nat) -> Serialized)
    requires serialize(rd.message, SerializerId).Serialized?
    requires TablesIndexed(acc)
    ensures var b, b' := BatchOf(acc), BatchOf(Append(acc, rd, serialize));
      && GrowsByAtMostOne(b.typeNames, b'.typeNames)
      && |b'.envelopes| == |b.envelopes| + 1
      && b'.envelopes[..|b.envelopes|] == b.envelopes
      && (|b'.typeNames| == |b.typeNames| + 1 ==> b'.typeNames[|b.typeNames|] == serialize(rd.message, SerializerId).typeName)
  {
    AppendTables(acc, rd, serialize);
  }

  /** An iteration appends at most the delivery's stripped target. */
  lemma AppendGrowsTargets<M>(acc: Acc, rd: RemoteDeliver<M>, serialize: (M, nat) -> Serialized)
    requires serialize(rd.message, SerializerId).Serialized?
    requires TablesIndexed(acc)
    ensures var b, b' := BatchOf(acc), BatchOf(Append(acc, rd, serialize));
      && GrowsByAtMostOne(b.targets, b'.targets)
      && (|b'.targets| == |b.targets| + 1 ==> rd.target.Some? && b'.targets[|b.targets|] == Strip(rd.target.value))
  {
    AppendTables(acc, rd, serialize);
    var r := AddToPidLookup(acc.targets, rd.target);
    assert Append(acc, rd, serialize).targets == r.1;
    if |r.1.entries| == |acc.targets.entries| + 1 {
      assert r.1.entries[|acc.targets.entries|] == Strip(rd.target.value);
    }
  }

  /** An iteration appends at most the delivery's stripped sender. */
  lemma AppendGrowsSenders<M>(acc: Acc, rd: RemoteDeliver<M>, serialize: (M, nat) -> Serialized)
    requires serialize(rd.message, SerializerId).Serialized?
    requires TablesIndexed(acc)
    ensures var b, b' := BatchOf(acc), BatchOf(Append(acc, rd, serialize));
      && GrowsByAtMostOne(b.senders, b'.senders)
      && (|b'.senders| == |b.senders| + 1 ==> rd.sender.Some? && b'.senders[|b.senders|] == Strip(rd.sender.value))
  {
    AppendTables(acc, rd, serialize);
    var r := AddToPidLookup(acc.senders, rd.sender);
    assert Append(acc, rd, serialize).senders == r.1;
    if |r.1.entries| == |acc.senders.entries| + 1 {
      assert r.1.entries[|acc.senders.entries|] == Strip(rd.sender.value);
    }
  }

  /** The envelope an iteration appends carries the delivery, in the grown tables. */
  lemma AppendEnvelope<M>(acc: Acc, rd: RemoteDeliver<M>, serialize: (M, nat) -> Serialized)
    requires serialize(rd.message, SerializerId).Serialized?
    requires TablesIndexed(acc)
    ensures var r := Append(acc, rd, serialize);
      EnvelopeFor(BatchOf(r), r.envelopes[|acc.envelopes|], rd, serialize)
  {
    var s := serialize(rd.message, SerializerId);
    var types := AddToLookup(acc.types, s.typeName);
    var targets := AddToPidLookup(acc.targets, rd.target);
    var senders := AddToPidLookup(acc.senders, rd.sender);
    AppendTables(acc, rd, serialize);
    var b := BatchOf(Append(acc, rd, serialize));
    var e := b.envelopes[|acc.envelopes|];
    assert b.typeNames == types.1.entries && e.typeId == types.0;
    assert b.targets == targets.1.entries && e.target == targets.0;
    assert b.senders == senders.1.entries && e.sender == senders.0;
  }

  /** An envelope stays valid when the tables only grow at the end. */
  lemma EnvelopeForExtends<M>(b: MessageBatch, b': MessageBatch, e: Envelope, rd: RemoteDeliver<M>,
                              serialize: (M, nat) -> Serialized)
    requires EnvelopeFor(b, e, rd, serialize)
    requires |b.typeNames| <= |b'.typeNames| && b'.typeNames[..|b.typeNames|] == b.typeNames
    requires |b.targets| <= |b'.targets| && b'.targets[..|b.targets|] == b.targets
    requires |b.senders| <= |b'.senders| && b'.senders[..|b.senders|] == b.senders
    ensures EnvelopeFor(b', e, rd, serialize)
  {
    assert b'.typeNames[e.typeId] == b'.typeNames[..|b.typeNames|][e.typeId];
    if rd.target.Some? {
      assert b'.targets[e.target - 1] == b'.targets[..|b.targets|][e.target - 1];
    }
    if rd.sender.Some? {
      assert b'.senders[e.sender - 1] == b'.senders[..|b.senders|][e.sender - 1];
    }
  }

  lemma RefsDrawnStep<M>(msg: seq<Item<M>>, n: nat, role: Role, table: seq<Pid>, table': seq<Pid>)
    requires n < |msg|
    requires RefsDrawn(msg, n, role, table)
    requires GrowsByAtMostOne(table, table')
    requires |table'| == |table| + 1 ==> DrawsRef(msg[n], role, table'[|table|])
    ensures RefsDrawn(msg, n + 1, role, table')
  {
    forall e | 0 <= e < |table'|
      ensures RefDrawn(msg, n + 1, role, table'[e])
    {
      if e < |table| {
        assert table'[e] == table'[..|table|][e] == table[e];
        assert RefDrawn(msg, n, role, table[e]);
        var k :| 0 <= k < n && DrawsRef(msg[k], role, table[e]);
      } else {
        assert DrawsRef(msg[n], role, table'[e]);
      }
    }
  }

  lemma NamesDrawnStep<M>(msg: seq<Item<M>>, serialize: (M, nat) -> Serialized, n: nat,
                          names: seq<string>, names': seq<string>)
    requires n < |msg|
    requires NamesDrawn(msg, serialize, n, names)
    requires GrowsByAtMostOne(names, names')
    requires |names'| == |names| + 1 ==> DrawsName(msg[n], serialize, names'[|names|])
    ensures NamesDrawn(msg, serialize, n + 1, names')
  {
    forall e | 0 <= e < |names'|
      ensures NameDrawn(msg, serialize, n + 1, names'[e])
    {
      if e < |names| {
        assert names'[e] == names'[..|names|][e] == names[e];
        assert NameDrawn(msg, serialize, n, names[e]);
        var k :| 0 <= k < n && DrawsName(msg[k], serialize, names[e]);
      } else {
        assert DrawsName(msg[n], serialize, names'[e]);
      }
    }
  }

  lemma EnvelopesStep<M>(msg: seq<Item<M>>, serialize: (M, nat) -> Serialized, i: nat, b: MessageBatch, b': MessageBatch)
    requires i < |msg| && Fine(msg[i], serialize)
    requires EnvelopesCover(msg, serialize, i, b)
    requires BatchGrows(b, b')
    requires EnvelopeFor(b', b'.envelopes[i], msg[i].rd, serialize)
    ensures EnvelopesCover(msg, serialize, i + 1, b')
  {
    forall k | 0 <= k < i + 1
      ensures Fine(msg[k], serialize) && EnvelopeFor(b', b'.envelopes[k], msg[k].rd, serialize)
    {
      if k < i {
        assert b'.envelopes[k] == b'.envelopes[..i][k] == b.envelopes[k];
        EnvelopeForExtends(b, b', b.envelopes[k], msg[k].rd, serialize);
      }
    }
  }

  lemma TablesDrawnStep<M>(msg: seq<Item<M>>, serialize: (M, nat) -> Serialized, i: nat, b: MessageBatch, b': MessageBatch)
    requires i < |msg|
    requires TablesDrawn(msg, serialize, i, b)
    requires BatchGrows(b, b')
    requires Fine(msg[i], serialize)
    requires |b'.typeNames| == |b.typeNames| + 1 ==>
               b'.typeNames[|b.typeNames|] == serialize(msg[i].rd.message, SerializerId).typeName
    requires |b'.targets| == |b.targets| + 1 ==>
               msg[i].rd.target.Some? && b'.targets[|b.targets|] == Strip(msg[i].rd.target.value)
    requires |b'.senders| == |b.senders| + 1 ==>
               msg[i].rd.sender.Some? && b'.senders[|b.senders|] == Strip(msg[i].rd.sender.value)
    ensures TablesDrawn(msg, serialize, i + 1, b')
  {
    if |b'.typeNames| == |b.typeNames| + 1 {
      assert DrawsName(msg[i], serialize, b'.typeNames[|b.typeNames|]);
    }
    if |b'.targets| == |b.targets| + 1 {
      assert DrawsRef(msg[i], TargetRole, b'.targets[|b.targets|]);
    }
    if |b'.senders| == |b.senders| + 1 {
      assert DrawsRef(msg[i], SenderRole, b'.senders[|b.senders|]);
    }
    NamesDrawnStep(msg, serialize, i, b.typeNames, b'.typeNames);
    RefsDrawnStep(msg, i, TargetRole, b.targets, b'.targets);
    RefsDrawnStep(msg, i, SenderRole, b.senders, b'.senders);
    if NoRefs(msg, i + 1, TargetRole) {
      assert NoRefs(msg, i, TargetRole);
    }
    if NoRefs(msg, i + 1, SenderRole) {
      assert NoRefs(msg, i, SenderRole);
    }
  }

  /** One iteration of the loop keeps its invariant. */
  lemma ProgressStep<M>(msg: seq<Item<M>>, serialize: (M, nat) -> Serialized, i: nat, acc: Acc, acc': Acc)
    requires Progress(msg, serialize, i, acc)
    requires i < |msg| && Fine(msg[i], serialize)
    requires acc' == Append(acc, msg[i].rd, serialize)
    ensures Progress(msg, serialize, i + 1, acc')
  {
    var b, b' := BatchOf(acc), BatchOf(acc');
    AppendGrowsTypes(acc, msg[i].rd, serialize);
    AppendGrowsTargets(acc, msg[i].rd, serialize);
    AppendGrowsSenders(acc, msg[i].rd, serialize);
    AppendEnvelope(acc, msg[i].rd, serialize);
    EnvelopesStep(msg, serialize, i, b, b');
    TablesDrawnStep(msg, serialize, i, b, b');
  }

  /** The loop has run to the end: the tables are duplicate-free. */
  lemma ProgressDone<M>(msg: seq<Item<M>>, serialize: (M, nat) -> Serialized, acc: Acc)
    requires Progress(msg, serialize, |msg|, acc)
    ensures Covers(msg, serialize, |msg|, BatchOf(acc)) && WellFormed(BatchOf(acc))
  {
    IndexedDistinct(acc.types, NameKey);
    IndexedDistinct(acc.targets, Key);
    IndexedDistinct(acc.senders, Key);
    var b := BatchOf(acc);
    forall k | 0 <= k < |b.envelopes|
      ensures b.envelopes[k].typeId < |b.typeNames|
      ensures b.envelopes[k].target <= |b.targets| && b.envelopes[k].sender <= |b.senders|
    {
      assert EnvelopeFor(b, b.envelopes[k], msg[k].rd, serialize);
    }
  }

  /** Getting past element `i` does not change which later element stops the loop. */
  lemma FirstUnfitShift<M>(msg: seq<Item<M>>, serialize: (M, nat) -> Serialized, i: nat)
    requires i < |msg| && Fine(msg[i], serialize)
    ensures forall j :: FirstUnfit(msg, serialize, i + 1, j) <==> FirstUnfit(msg, serialize, i, j)
  {
  }

  function EmptyAcc(): (r: Acc)
    ensures TablesIndexed(r) && r.envelopes == []
  {
    EmptyIndexed<string>(NameKey);
    EmptyIndexed<Pid>(Key);
    Acc(Empty(), Empty(), Empty(), [])
  }

  /**
   * The loop state once the first `n` elements are through: each iteration
   * interns the delivery's type name, target and sender and appends its
   * envelope.
   */
  function AccOf<M>(msg: seq<Item<M>>, serialize: (M, nat) -> Serialized, n: nat): (r: Acc)
    requires n <= |msg| && forall k :: 0 <= k < n ==> Fine(msg[k], serialize)
    ensures TablesIndexed(r) && |r.envelopes| == n
  {
    if n == 0 then EmptyAcc()
    else
      assert Fine(msg[n - 1], serialize);
      Append(AccOf(msg, serialize, n - 1), msg[n - 1].rd, serialize)
  }

  /** The loop invariant holds of every loop state. */
  lemma {:induction false} AccOfCovers<M>(msg: seq<Item<M>>, serialize: (M, nat) -> Serialized, n: nat)
    requires n <= |msg| && forall k :: 0 <= k < n ==> Fine(msg[k], serialize)
    ensures Progress(msg, serialize, n, AccOf(msg, serialize, n))
  {
    if n > 0 {
      AccOfCovers(msg, serialize, n - 1);
      assert Fine(msg[n - 1], serialize);
      ProgressStep(msg, serialize, n - 1, AccOf(msg, serialize, n - 1), AccOf(msg, serialize, n));
    }
  }

  /** The type names the sendable deliveries among the first `n` elements serialize under, in list order. */
  function NamesOf<M>(msg: seq<Item<M>>, serialize: (M, nat) -> Serialized, n: nat): seq<string>
    requires n <= |msg|
  {
    if n == 0 then []
    else
      NamesOf(msg, serialize, n - 1)
      + (if Fine(msg[n - 1], serialize) then [serialize(msg[n - 1].rd.message, SerializerId).typeName] else [])
  }

  /** The stripped references in `role` of the deliveries among the first `n` elements, in list order. */
  function RefsOf<M>(msg: seq<Item<M>>, n: nat, role: Role): seq<Pid>
    requires n <= |msg|
  {
    if n == 0 then []
    else
      RefsOf(msg, n - 1, role)
      + (if msg[n - 1].Deliver? && RefOf(msg[n - 1].rd, role).Some? then [Strip(RefOf(msg[n - 1].rd, role).value)] else [])
  }

  /**
   * The tables of `b` hold, in order of first occurrence among the first `n`
   * elements, one type name per distinct name and one reference per distinct
   * key, the stored reference being the stripped first one with that key.
   */
  ghost predicate TablesFirstSeen<M>(msg: seq<Item<M>>, serialize: (M, nat) -> Serialized, n: nat, b: MessageBatch)
    requires n <= |msg|
  {
    && b.typeNames == FirstSeen(NamesOf(msg, serialize, n), NameKey)
    && b.targets == FirstSeen(RefsOf(msg, n, TargetRole), Key)
    && b.senders == FirstSeen(RefsOf(msg, n, SenderRole), Key)
  }

  /** Every loop state's tables are in first-seen order. */
  lemma {:induction false} AccOfTables<M>(msg: seq<Item<M>>, serialize: (M, nat) -> Serialized, n: nat)
    requires n <= |msg| && forall k :: 0 <= k < n ==> Fine(msg[k], serialize)
    ensures TablesFirstSeen(msg, serialize, n, BatchOf(AccOf(msg, serialize, n)))
  {
    if n > 0 {
      AccOfTables(msg, serialize, n - 1);
      assert Fine(msg[n - 1], serialize);
      var acc := AccOf(msg, serialize, n - 1);
      var rd := msg[n - 1].rd;
      var name := serialize(rd.message, SerializerId).typeName;
      var acc' := AccOf(msg, serialize, n);
      assert acc' == Append(acc, rd, serialize);
      AppendTables(acc, rd, serialize);
      assert NamesOf(msg, serialize, n) == NamesOf(msg, serialize, n - 1) + [name];
      assert RefOf(rd, TargetRole) == rd.target && RefOf(rd, SenderRole) == rd.sender;
      AddToLookupFirstSeen(acc.types, NamesOf(msg, serialize, n - 1), name);
      AddToPidLookupFirstSeen(acc.targets, RefsOf(msg, n - 1, TargetRole), rd.target);
      AddToPidLookupFirstSeen(acc.senders, RefsOf(msg, n - 1, SenderRole), rd.sender);
    }
  }

  /**
   * The loop of `sendEnvelopes` from element `i` on, the first `i` having
   * got through. A termination notice stops it; a non-delivery element
   * panics on the nil delivery; a payload that fails to serialize panics;
   * otherwise the element is interned and its envelope appended, and the
   * batch exists only once every element is through.
   */
  function AssembleFrom<M>(msg: seq<Item<M>>, serialize: (M, nat) -> Serialized, i: nat): (r: Assembly)
    requires i <= |msg| && forall k :: 0 <= k < i ==> Fine(msg[k], serialize)
    decreases |msg| - i
    ensures r.Assembled? <==> forall k :: i <= k < |msg| ==> Fine(msg[k], serialize)
    ensures r.StopRequested? <==> exists j: nat :: FirstUnfit(msg, serialize, i, j) && msg[j].TerminatedNotice?
    ensures r.Panicked? ==> r.fault.AtElement() && FirstUnfit(msg, serialize, i, r.fault.position)
    ensures r.Panicked? && r.fault.NilDelivery? ==> msg[r.fault.position].Foreign?
    ensures r.Panicked? && r.fault.SerializeFailed? ==>
              && msg[r.fault.position].Deliver?
              && serialize(msg[r.fault.position].rd.message, SerializerId) == SerializeError(r.fault.cause)
  {
    if i == |msg| then
      Assembled(BatchOf(AccOf(msg, serialize, |msg|)))
    else
      match msg[i]
      case TerminatedNotice(_) =>
        assert FirstUnfit(msg, serialize, i, i);
        StopRequested
      case Foreign =>
        assert FirstUnfit(msg, serialize, i, i);
        Panicked(NilDelivery(i))
      case Deliver(rd) =>
        var s := serialize(rd.message, SerializerId);
        if s.SerializeError? then
          assert FirstUnfit(msg, serialize, i, i);
          Panicked(SerializeFailed(i, s.cause))
        else
          FirstUnfitShift(msg, serialize, i);
          AssembleFrom(msg, serialize, i + 1)
  }

  /** A completed loop hands over the batch of its final state. */
  lemma {:induction false} AssembleFromBatch<M>(msg: seq<Item<M>>, serialize: (M, nat) -> Serialized, i: nat)
    requires i <= |msg| && forall k :: 0 <= k < i ==> Fine(msg[k], serialize)
    decreases |msg| - i
    ensures var r := AssembleFrom(msg, serialize, i);
      r.Assembled? ==> r.batch == BatchOf(AccOf(msg, serialize, |msg|))
  {
    if i < |msg| && Fine(msg[i], serialize) {
      AssembleFromBatch(msg, serialize, i + 1);
    }
  }

  /** Batch assembly over the whole list, starting from empty tables. */
  function Assemble<M>(msg: seq<Item<M>>, serialize: (M, nat) -> Serialized): (r: Assembly)
    ensures r.Assembled? <==> forall k :: 0 <= k < |msg| ==> Fine(msg[k], serialize)
    ensures r.Assembled? ==> Covers(msg, serialize, |msg|, r.batch) && WellFormed(r.batch)
    ensures r.Assembled? ==> TablesFirstSeen(msg, serialize, |msg|, r.batch)
    ensures r.StopRequested? <==> exists j: nat :: FirstUnfit(msg, serialize, 0, j) && msg[j].TerminatedNotice?
    ensures r.Panicked? ==> r.fault.AtElement() && FirstUnfit(msg, serialize, 0, r.fault.position)
    ensures r.Panicked? && r.fault.NilDelivery? ==> msg[r.fault.position].Foreign?
    ensures r.Panicked? && r.fault.SerializeFailed? ==>
              && msg[r.fault.position].Deliver?
              && serialize(msg[r.fault.position].rd.message, SerializerId) == SerializeError(r.fault.cause)
  {
    var r := AssembleFrom(msg, serialize, 0);
    if r.Assembled? then
      AssembleFromBatch(msg, serialize, 0);
      AccOfCovers(msg, serialize, |msg|);
      AccOfTables(msg, serialize, |msg|);
      ProgressDone(msg, serialize, AccOf(msg, serialize, |msg|));
      r
    else
      r
  }

  /** With duplicate-free tables, an envelope carrying a delivery is unique. */
  lemma EnvelopeUnique<M>(b: MessageBatch, e1: Envelope, e2: Envelope, rd: RemoteDeliver<M>, serialize: (M, nat) -> Serialized)
    requires EnvelopeFor(b, e1, rd, serialize) && EnvelopeFor(b, e2, rd, serialize)
    requires DistinctKeys(b.typeNames, NameKey) && DistinctKeys(b.targets, Key) && DistinctKeys(b.senders, Key)
    ensures e1 == e2
  {
    DistinctKeysUnique(b.typeNames, NameKey, e1.typeId, e2.typeId);
    if rd.target.Some? {
      DistinctKeysUnique(b.targets, Key, e1.target - 1, e2.target - 1);
    }
    if rd.sender.Some? {
      DistinctKeysUnique(b.senders, Key, e1.sender - 1, e2.sender - 1);
    }
  }

  /**
   * Covering the list with tables in first-seen order determines the batch:
   * two batches that both do so are equal.
   */
  lemma CoversDetermines<M>(msg: seq<Item<M>>, serialize: (M, nat) -> Serialized, b1: MessageBatch, b2: MessageBatch)
    requires Covers(msg, serialize, |msg|, b1) && TablesFirstSeen(msg, serialize, |msg|, b1)
    requires Covers(msg, serialize, |msg|, b2) && TablesFirstSeen(msg, serialize, |msg|, b2)
    ensures b1 == b2
  {
    forall k | 0 <= k < |msg|
      ensures b1.envelopes[k] == b2.envelopes[k]
    {
      assert EnvelopeFor(b1, b1.envelopes[k], msg[k].rd, serialize);
      assert EnvelopeFor(b2, b2.envelopes[k], msg[k].rd, serialize);
      EnvelopeUnique(b1, b1.envelopes[k], b2.envelopes[k], msg[k].rd, serialize);
    }
  }

  /**
   * The writer's stream as `sendEnvelopes` finds it: never opened (nil), or
   * open, with its answer to the one send of the batch.
   */
  datatype Stream = NoStream | Open(accepts: bool)

  /**
   * What `sendEnvelopes` does with a list: stop, panic, or hand the whole
   * batch to the stream; a refused send stashes the message first.
   */
  datatype SendOutcome =
    | Sent(batch: MessageBatch)
    | Stopped
    | Crashed(fault: Fault, stashed: bool)

  function SendEnvelopes<M>(msg: seq<Item<M>>, serialize: (M, nat) -> Serialized, stream: Stream): (r: SendOutcome)
    ensures r.Sent? <==> stream == Open(true) && forall k :: 0 <= k < |msg| ==> Fine(msg[k], serialize)
    ensures r.Sent? ==> Covers(msg, serialize, |msg|, r.batch) && WellFormed(r.batch)
    ensures r.Sent? ==> TablesFirstSeen(msg, serialize, |msg|, r.batch)
    ensures r.Stopped? <==> exists j: nat :: FirstUnfit(msg, serialize, 0, j) && msg[j].TerminatedNotice?
    ensures r.Crashed? && r.fault.NilStream? <==> stream.NoStream? && forall k :: 0 <= k < |msg| ==> Fine(msg[k], serialize)
    ensures r.Crashed? && r.stashed <==> stream == Open(false) && forall k :: 0 <= k < |msg| ==> Fine(msg[k], serialize)
    ensures r.Crashed? && r.stashed ==> r.fault == SendFailed
    ensures r.Crashed? && r.fault.AtElement() <==>
              exists j: nat :: FirstUnfit(msg, serialize, 0, j) && !msg[j].TerminatedNotice?
    ensures r.Crashed? && r.fault.AtElement() ==> !r.stashed && FirstUnfit(msg, serialize, 0, r.fault.position)
    ensures r.Crashed? && r.fault.NilDelivery? ==> msg[r.fault.position].Foreign?
    ensures r.Crashed? && r.fault.SerializeFailed? ==>
              && msg[r.fault.position].Deliver?
              && serialize(msg[r.fault.position].rd.message, SerializerId) == SerializeError(r.fault.cause)
  {
    match Assemble(msg, serialize)
    case StopRequested => Stopped
    case Panicked(fault) => Crashed(fault, false)
    case Assembled(batch) =>
      match stream
      case NoStream => Crashed(NilStream, false)
      case Open(accepts) => if accepts then Sent(batch) else Crashed(SendFailed, true)
  }

  /** A delivery's reference in `role` resolves, in the assembled batch, through its envelope. */
  lemma EnvelopeResolves<M>(msg: seq<Item<M>>, serialize: (M, nat) -> Serialized, b: MessageBatch, role: Role, k: nat)
    requires Covers(msg, serialize, |msg|, b)
    requires k < |msg|
    ensures msg[k].Deliver?
    ensures Resolves(TableOf(b, role), IndexOf(b.envelopes[k], role), RefOf(msg[k].rd, role))
  {
    assert EnvelopeFor(b, b.envelopes[k], msg[k].rd, serialize);
  }

  /**
   * Interning is by key: deliveries whose references in `role` share a key
   * get the same index, which is the only table position holding that key.
   */
  lemma {:induction false} SharedEntry<M>(msg: seq<Item<M>>, serialize: (M, nat) -> Serialized, role: Role, k1: nat, k2: nat)
    requires forall k :: 0 <= k < |msg| ==> Fine(msg[k], serialize)
    requires k1 < |msg| && k2 < |msg|
    requires msg[k1].Deliver? && msg[k2].Deliver?
    requires RefOf(msg[k1].rd, role).Some? && RefOf(msg[k2].rd, role).Some?
    requires Key(RefOf(msg[k1].rd, role).value) == Key(RefOf(msg[k2].rd, role).value)
    ensures var b := Assemble(msg, serialize).batch;
      && IndexOf(b.envelopes[k1], role) == IndexOf(b.envelopes[k2], role)
      && forall e :: 0 <= e < |TableOf(b, role)| && Key(TableOf(b, role)[e]) == Key(RefOf(msg[k1].rd, role).value) ==>
           e == IndexOf(b.envelopes[k1], role) - 1
  {
    var b := Assemble(msg, serialize).batch;
    var table := TableOf(b, role);
    EnvelopeResolves(msg, serialize, b, role, k1);
    EnvelopeResolves(msg, serialize, b, role, k2);
    var i1, i2 := IndexOf(b.envelopes[k1], role), IndexOf(b.envelopes[k2], role);
    assert DistinctKeys(table, Key);
    DistinctKeysUnique(table, Key, i1 - 1, i2 - 1);
    forall e | 0 <= e < |table| && Key(table[e]) == Key(RefOf(msg[k1].rd, role).value)
      ensures e == i1 - 1
    {
      DistinctKeysUnique(table, Key, e, i1 - 1);
    }
  }

  /**
   * Request ids travel beside the table: two deliveries to targets with the
   * same key share one target entry and index, and each envelope keeps its
   * own delivery's request id.
   */
  lemma RequestIdsTravelApart<M>(msg: seq<Item<M>>, serialize: (M, nat) -> Serialized, k1: nat, k2: nat)
    requires forall k :: 0 <= k < |msg| ==> Fine(msg[k], serialize)
    requires k1 < |msg| && k2 < |msg|
    requires msg[k1].Deliver? && msg[k2].Deliver?
    requires msg[k1].rd.target.Some? && msg[k2].rd.target.Some?
    requires Key(msg[k1].rd.target.value) == Key(msg[k2].rd.target.value)
    ensures var b := Assemble(msg, serialize).batch;
      && b.envelopes[k1].target == b.envelopes[k2].target
      && b.envelopes[k1].targetRequestId == msg[k1].rd.target.value.requestId
      && b.envelopes[k2].targetRequestId == msg[k2].rd.target.value.requestId
  {
    var b := Assemble(msg, serialize).batch;
    SharedEntry(msg, serialize, TargetRole, k1, k2);
    assert EnvelopeFor(b, b.envelopes[k1], msg[k1].rd, serialize);
    assert EnvelopeFor(b, b.envelopes[k2], msg[k2].rd, serialize);
  }

  /** In a covering batch, a role no delivery fills has an empty table and only sentinel indices. */
  lemma NoRefsNoEntries<M>(msg: seq<Item<M>>, serialize: (M, nat) -> Serialized, b: MessageBatch, role: Role)
    requires Covers(msg, serialize, |msg|, b)
    requires NoRefs(msg, |msg|, role)
    ensures TableOf(b, role) == []
    ensures forall k :: 0 <= k < |msg| ==> IndexOf(b.envelopes[k], role) == 0
  {
    forall k | 0 <= k < |msg|
      ensures IndexOf(b.envelopes[k], role) == 0
    {
      assert EnvelopeFor(b, b.envelopes[k], msg[k].rd, serialize);
    }
  }

  /** A list of deliveries without senders fills no sender role. */
  lemma SendersAbsent<M>(msg: seq<Item<M>>)
    requires forall k :: 0 <= k < |msg| ==> msg[k].Deliver? && msg[k].rd.sender.None?
    ensures NoRefs(msg, |msg|, SenderRole)
  {
  }

  /**
   * A batch none of whose deliveries has a sender gets an empty sender table,
   * and every envelope's sender index is the absent sentinel 0.
   */
  lemma AbsentSendersLeaveTableEmpty<M>(msg: seq<Item<M>>, serialize: (M, nat) -> Serialized)
    requires forall k :: 0 <= k < |msg| ==> Fine(msg[k], serialize)
    requires forall k :: 0 <= k < |msg| ==> msg[k].Deliver? && msg[k].rd.sender.None?
    ensures Assemble(msg, serialize).batch.senders == []
    ensures forall k :: 0 <= k < |msg| ==> Assemble(msg, serialize).batch.envelopes[k].sender == 0
  {
    var b := Assemble(msg, serialize).batch;
    SendersAbsent(msg);
    NoRefsNoEntries(msg, serialize, b, SenderRole);
  }
}
