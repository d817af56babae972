/**
  Consumer groups: one stream key, one group reading it, and any interleaving of the
  commands that touch them, each command one atomic step.

  The ledger fields record what happened to every `>` delivery; the server itself
  keeps only the cursor, the consumers and the pending entries.
 */
module ConsumerGroups {
  import opened Bytes
  import opened Values
  import opened Streams

  type Consumer = bytes

  /** A delivered entry awaiting acknowledgement. */
  datatype Pending = Pending(consumer: Consumer, deliveredAt: u64, deliveries: nat)

  datatype Group = Group(cursor: StreamId, consumers: set<Consumer>, pending: map<StreamId, Pending>)

  datatype Ledger = Ledger(
    delivered: seq<StreamId>,  // every id a `>` read returned, in order, across all consumers
    acked: set<StreamId>,
    dropped: set<StreamId>,    // pending entries that went with their deleted consumer
    unlogged: set<StreamId>,   // deliveries under NOACK
    forgotten: set<StreamId>   // pending entries of a group that was created anew
  )

  datatype State = State(key: StreamKey, group: Group, ledger: Ledger)

  datatype Op =
    | OnStream(op: StreamOp)
    | DeleteKey
    | ReadNew(consumer: Consumer, count: Option<nat>, noack: bool, now: u64)
    | ReadHistory(consumer: Consumer)
    | Ack(ids: seq<StreamId>)
    | Claim(consumer: Consumer, minIdle: u64, ids: seq<StreamId>, now: u64)
    | CreateConsumer(consumer: Consumer)
    | DeleteConsumer(consumer: Consumer)
    | Recreate(start: StreamId, mkstream: bool) // XGROUP CREATE or SETID on a group that exists

  // ----- reading -----

  function Entries(k: StreamKey): (es: seq<StreamEntry>)
    requires IsStream(k)
  {
    if k.Some? then k.value.entries else []
  }

  /** The entries above an id, in stream order. */
  function Above(es: seq<StreamEntry>, after: StreamId): (r: seq<StreamEntry>) {
    if es == [] then []
    else if after.Below(es[0].id) then [es[0]] + Above(es[1..], after)
    else Above(es[1..], after)
  }

  /** `stream_entries_after`. */
  function EntriesAfter(es: seq<StreamEntry>, after: StreamId, count: Option<nat>): (r: seq<StreamEntry>) {
    var above := Above(es, after);
    if count.Some? && count.value < |above| then above[..count.value] else above
  }

  function Ids(es: seq<StreamEntry>): (ids: seq<StreamId>)
    ensures |ids| == |es|
    ensures forall i | 0 <= i < |es| :: ids[i] == es[i].id
  {
    seq(|es|, i requires 0 <= i < |es| => es[i].id)
  }

  /** A read of `>`: what it returns. */
  function Delivered(s: State, count: Option<nat>): (es: seq<StreamEntry>)
    requires IsStream(s.key)
  {
    EntriesAfter(Entries(s.key), s.group.cursor, count)
  }

  function Deliver(s: State, consumer: Consumer, count: Option<nat>, noack: bool, now: u64): (s': State)
    requires IsStream(s.key)
  {
    var ids := Ids(Delivered(s, count));
    var joined := s.group.(consumers := s.group.consumers + {consumer});
    if ids == [] then s.(group := joined)
    else
      var records := map id | id in ids :: Pending(consumer, now, 1);
      s.(group := joined.(cursor := ids[|ids| - 1],
                          pending := if noack then joined.pending else joined.pending + records),
         ledger := s.ledger.(delivered := s.ledger.delivered + ids,
                             unlogged := if noack then s.ledger.unlogged + (set id | id in ids) else s.ledger.unlogged))
  }

  // ----- acknowledging, claiming, deleting consumers -----

  function Acked(g: Group, ids: seq<StreamId>): (gone: set<StreamId>) {
    set id | id in ids && id in g.pending
  }

  /** The record has been idle long enough to be claimed. */
  predicate Due(pending: map<StreamId, Pending>, id: StreamId, minIdle: u64, now: u64) {
    id in pending && (if now > pending[id].deliveredAt then now - pending[id].deliveredAt else 0) >= minIdle
  }

  /** One id of XCLAIM: the record changes hands if it has been idle long enough. */
  function ClaimOne(pending: map<StreamId, Pending>, id: StreamId, consumer: Consumer, minIdle: u64, now: u64)
    : (r: map<StreamId, Pending>)
    ensures r.Keys == pending.Keys
  {
    if Due(pending, id, minIdle, now) then
      pending[id := Pending(consumer, now, pending[id].deliveries + 1)]
    else pending
  }

  function ClaimAll(pending: map<StreamId, Pending>, ids: seq<StreamId>, consumer: Consumer, minIdle: u64, now: u64)
    : (r: map<StreamId, Pending>)
    ensures r.Keys == pending.Keys
    decreases |ids|
  {
    if ids == [] then pending
    else ClaimAll(ClaimOne(pending, ids[0], consumer, minIdle, now), ids[1..], consumer, minIdle, now)
  }

  /** The ids XCLAIM reports: those whose record changed hands, in argument order. */
  function ClaimedIds(pending: map<StreamId, Pending>, ids: seq<StreamId>, consumer: Consumer, minIdle: u64, now: u64)
    : (claimed: seq<StreamId>)
    decreases |ids|
  {
    if ids == [] then []
    else
      var after := ClaimOne(pending, ids[0], consumer, minIdle, now);
      (if after != pending then [ids[0]] else []) + ClaimedIds(after, ids[1..], consumer, minIdle, now)
  }

  function Held(g: Group, consumer: Consumer): (ids: set<StreamId>) {
    set id | id in g.pending && g.pending[id].consumer == consumer
  }

  function Step(s: State, op: Op): (s': State)
    requires IsStream(s.key)
    ensures IsStream(s'.key)
  {
    var g := s.group;
    match op
    case OnStream(sop) => s.(key := Run1(s.key, sop).0)
    case DeleteKey => s.(key := None)
    case ReadNew(consumer, count, noack, now) => Deliver(s, consumer, count, noack, now)
    case ReadHistory(consumer) => s.(group := g.(consumers := g.consumers + {consumer}))
    case Ack(ids) =>
      var gone := Acked(g, ids);
      s.(group := g.(pending := g.pending - gone), ledger := s.ledger.(acked := s.ledger.acked + gone))
    case Claim(consumer, minIdle, ids, now) =>
      s.(group := g.(consumers := g.consumers + {consumer},
                     pending := ClaimAll(g.pending, ids, consumer, minIdle, now)))
    case CreateConsumer(consumer) => s.(group := g.(consumers := g.consumers + {consumer}))
    case DeleteConsumer(consumer) =>
      var gone := Held(g, consumer);
      s.(group := g.(consumers := g.consumers - {consumer}, pending := g.pending - gone),
         ledger := s.ledger.(dropped := s.ledger.dropped + gone))
    case Recreate(start, mkstream) =>
      if s.key.Some? then Replaced(s, start)
      else if mkstream then Replaced(s.(key := Some(Stream([], ZERO_ID))), start)
      else s
  }

  // ----- what each command does to the group -----

  /** A read of `>` joins the consumer, moves the cursor to its last entry, and unless it
      is NOACK records each entry for the consumer at the time of the read, first delivery;
      every other record stays. */
  lemma ReadRecords(s: State, consumer: Consumer, count: Option<nat>, noack: bool, now: u64)
    requires IsStream(s.key)
    ensures var es, g, s' := Delivered(s, count), s.group, Step(s, ReadNew(consumer, count, noack, now));
            && s'.key == s.key
            && s'.group.consumers == g.consumers + {consumer}
            && s'.group.cursor == (if es == [] then g.cursor else es[|es| - 1].id)
            && (noack ==> s'.group.pending == g.pending)
            && (!noack ==> forall e | e in es :: e.id in s'.group.pending && s'.group.pending[e.id] == Pending(consumer, now, 1))
            && (forall id | id in s'.group.pending && (forall e | e in es :: e.id != id) ::
                  id in g.pending && s'.group.pending[id] == g.pending[id])
            && g.pending.Keys <= s'.group.pending.Keys
            && s'.ledger.delivered == s.ledger.delivered + Ids(es)
  {
    IdsOf(Delivered(s, count));
  }

  /** XACK, XGROUP DELCONSUMER, and what creates or replaces. */
  lemma OtherCommands(s: State, op: Op)
    requires IsStream(s.key)
    ensures var g, s' := s.group, Step(s, op);
            && (op.Ack? ==> s'.key == s.key && s'.group == g.(pending := g.pending - (set id | id in op.ids)))
            && (op.DeleteConsumer? ==>
                  && s'.key == s.key && s'.group.cursor == g.cursor && s'.group.consumers == g.consumers - {op.consumer}
                  && (forall id :: id in s'.group.pending <==> id in g.pending && g.pending[id].consumer != op.consumer)
                  && (forall id | id in s'.group.pending :: s'.group.pending[id] == g.pending[id]))
            && (op.CreateConsumer? || op.ReadHistory? ==>
                  s' == s.(group := g.(consumers := g.consumers + {op.consumer})))
            && (op.Recreate? && (s.key.Some? || op.mkstream) ==> s'.group == Group(op.start, {}, map[]))
            && (op.Recreate? && s.key == None && !op.mkstream ==> s' == s)
            && (op.Recreate? && s.key == None && op.mkstream ==> s'.key == Some(Stream([], ZERO_ID)))
            && (op.DeleteKey? ==> s' == s.(key := None))
            && (op.OnStream? ==> s'.group == g)
  {
    AckedMeans(s.group, if op.Ack? then op.ids else []);
  }

  /** The group is replaced by a new one, with no consumers and nothing pending. */
  function Replaced(s: State, start: StreamId): (s': State) {
    s.(group := Group(start, {}, map[]), ledger := s.ledger.(forgotten := s.ledger.forgotten + s.group.pending.Keys))
  }

  function Run(s: State, ops: seq<Op>): (s': State)
    requires IsStream(s.key)
    ensures IsStream(s'.key)
    decreases |ops|
  {
    if ops == [] then s else Run(Step(s, ops[0]), ops[1..])
  }

  // ----- the invariant -----

  /** Deliveries came in strictly increasing id order, none above the cursor. */
  ghost predicate InOrder(s: State) {
    var d := s.ledger.delivered;
    && (forall i, j | 0 <= i < j < |d| :: d[i].Below(d[j]))
    && (forall i | 0 <= i < |d| :: d[i].AtMost(s.group.cursor))
  }

  /** Every delivery is in exactly one place, and nothing else is in any of them. */
  ghost predicate Partitioned(s: State) {
    var l := s.ledger;
    && s.group.pending.Keys !! l.acked !! l.dropped !! l.unlogged !! l.forgotten
    && s.group.pending.Keys + l.acked + l.dropped + l.unlogged + l.forgotten == set id | id in l.delivered
  }

  ghost predicate Inv(s: State) {
    IsStream(s.key) && KeyOrdered(s.key) && InOrder(s) && Partitioned(s)
  }

  // ----- preservation -----

  lemma {:induction false} AboveExactly(es: seq<StreamEntry>, after: StreamId)
    requires Increasing(es)
    ensures Increasing(Above(es, after))
    ensures forall e :: e in Above(es, after) <==> e in es && after.Below(e.id)
  {
    if es != [] {
      var tail := es[1..];
      AboveExactly(tail, after);
      assert forall e :: e in es <==> e == es[0] || e in tail;
    }
  }

  /** What a `>` read returns: the next entries above the cursor, in order, up to the
      limit, and none passed over: what stays behind is above everything returned. */
  lemma DeliveredExactly(s: State, count: Option<nat>)
    requires Inv(s)
    ensures var es := Delivered(s, count);
            && Increasing(es)
            && (forall e | e in es :: e in Entries(s.key) && s.group.cursor.Below(e.id))
            && (count.Some? ==> |es| <= count.value)
            && (forall e | e in Entries(s.key) && s.group.cursor.Below(e.id) && e !in es ::
                  && count == Some(|es|)
                  && forall d | d in es :: d.id.Below(e.id))
  {
    var above, es := Above(Entries(s.key), s.group.cursor), Delivered(s, count);
    AboveExactly(Entries(s.key), s.group.cursor);
    assert forall i | 0 <= i < |es| :: es[i] == above[i];
    assert forall i | 0 <= i < |es| :: above[i] in es;
    forall e | e in above && e !in es ensures count == Some(|es|) && forall d | d in es :: d.id.Below(e.id) {
      var j :| 0 <= j < |above| && above[j] == e;
      forall d | d in es ensures d.id.Below(e.id) {
        var i :| 0 <= i < |es| && es[i] == d;
        assert above[i] == d;
      }
    }
  }

  /** A new delivery concerns ids never delivered before, so it overwrites no record. */
  lemma DeliveryIsFresh(s: State, count: Option<nat>)
    requires Inv(s)
    ensures forall id | id in Ids(Delivered(s, count)) ::
              s.group.cursor.Below(id) && id !in s.ledger.delivered && id !in s.group.pending
  {
    DeliveredExactly(s, count);
    var es := Delivered(s, count);
    forall id | id in Ids(es) ensures s.group.cursor.Below(id) && id !in s.ledger.delivered && id !in s.group.pending {
      var i :| 0 <= i < |es| && es[i].id == id;
      assert es[i] in es;
      assert id in s.group.pending ==> id in s.group.pending.Keys + s.ledger.acked + s.ledger.dropped + s.ledger.unlogged + s.ledger.forgotten;
    }
  }

  lemma DeliverKeepsOrder(s: State, consumer: Consumer, count: Option<nat>, noack: bool, now: u64)
    requires Inv(s)
    ensures InOrder(Deliver(s, consumer, count, noack, now))
  {
    hide Delivered, Partitioned, KeyOrdered;
    DeliveredExactly(s, count);
    var es := Delivered(s, count);
    var ids, prior := Ids(es), s.ledger.delivered;
    if ids != [] {
      var last := ids[|ids| - 1];
      assert forall i | 0 <= i < |ids| :: es[i] in es;
      forall i | 0 <= i < |prior| ensures prior[i].Below(ids[0]) && prior[i].AtMost(last) {
        BelowTransitive(prior[i], s.group.cursor, ids[0]);
        BelowTransitive(prior[i], s.group.cursor, last);
      }
      forall i, j | 0 <= i < |prior| && 0 <= j < |ids| ensures prior[i].Below(ids[j]) {
        BelowTransitive(prior[i], s.group.cursor, ids[j]);
      }
    }
  }

  lemma DeliverKeepsPartition(s: State, consumer: Consumer, count: Option<nat>, noack: bool, now: u64)
    requires Inv(s)
    ensures Partitioned(Deliver(s, consumer, count, noack, now))
  {
    hide Delivered, InOrder, KeyOrdered;
    DeliveryIsFresh(s, count);
    var ids, prior := Ids(Delivered(s, count)), s.ledger.delivered;
    var s' := Deliver(s, consumer, count, noack, now);
    if ids != [] {
      assert forall id :: id in prior + ids <==> id in prior || id in ids;
      assert forall id | id in ids :: id !in (set x | x in prior);
      assert noack || s'.group.pending.Keys == s.group.pending.Keys + set id | id in ids;
    }
  }

  lemma AckKeeps(s: State, ids: seq<StreamId>)
    requires Inv(s)
    ensures Inv(Step(s, Ack(ids)))
  {
    var gone := Acked(s.group, ids);
    assert (s.group.pending - gone).Keys == s.group.pending.Keys - gone;
  }

  lemma DeleteConsumerKeeps(s: State, consumer: Consumer)
    requires Inv(s)
    ensures Inv(Step(s, DeleteConsumer(consumer)))
  {
    var gone := Held(s.group, consumer);
    assert (s.group.pending - gone).Keys == s.group.pending.Keys - gone;
  }

  /** Creating the group anew does not set it back: its start is not below any delivery. */
  ghost predicate Forward(s: State, op: Op) {
    op.Recreate? && (s.key.Some? || op.mkstream) ==>
      forall i | 0 <= i < |s.ledger.delivered| :: s.ledger.delivered[i].AtMost(op.start)
  }

  ghost predicate ForwardRun(s: State, ops: seq<Op>)
    requires IsStream(s.key)
    decreases |ops|
  {
    ops == [] || (Forward(s, ops[0]) && ForwardRun(Step(s, ops[0]), ops[1..]))
  }

  /** A group created anew keeps the order if and only if its start is not below the last
      delivery, and the partition in any case. */
  lemma ReplacedKeepsOrder(s: State, start: StreamId)
    requires Inv(s)
    ensures var d := s.ledger.delivered;
            && Partitioned(Replaced(s, start))
            && (InOrder(Replaced(s, start)) <==> d == [] || d[|d| - 1].AtMost(start))
  {
    var d := s.ledger.delivered;
    if d != [] && d[|d| - 1].AtMost(start) {
      forall i | 0 <= i < |d| ensures d[i].AtMost(start) {
        BelowTransitive(d[i], d[|d| - 1], start);
      }
    }
  }

  /** Set back, it delivers again: the next unlimited read of `>` returns an id already
      delivered if and only if such an entry above the new start is still stored. */
  lemma ReplacedRedelivers(s: State, start: StreamId)
    requires Inv(s)
    ensures (exists id | id in Ids(Delivered(Replaced(s, start), None)) :: id in s.ledger.delivered)
            <==> (exists e | e in Entries(s.key) :: start.Below(e.id) && e.id in s.ledger.delivered)
  {
    var es := Delivered(Replaced(s, start), None);
    AboveExactly(Entries(s.key), start);
    if e :| e in Entries(s.key) && start.Below(e.id) && e.id in s.ledger.delivered {
      var i :| 0 <= i < |es| && es[i] == e;
      assert Ids(es)[i] == e.id;
    }
    if id :| id in Ids(es) && id in s.ledger.delivered {
      var i :| 0 <= i < |es| && Ids(es)[i] == id;
      assert es[i] in es;
    }
  }

  lemma RecreateKeeps(s: State, op: Op)
    requires Inv(s) && op.Recreate? && Forward(s, op)
    ensures Inv(Step(s, op))
  {
    if s.key.Some? || op.mkstream {
      ReplacedKeepsOrder(s, op.start);
    }
  }

  lemma StepKeeps(s: State, op: Op)
    requires Inv(s) && Forward(s, op)
    ensures Inv(Step(s, op))
  {
    match op
    case OnStream(sop) => StepOrdered(s.key, sop);
    case ReadNew(consumer, count, noack, now) =>
      DeliverKeepsOrder(s, consumer, count, noack, now);
      DeliverKeepsPartition(s, consumer, count, noack, now);
    case Ack(ids) => AckKeeps(s, ids);
    case DeleteConsumer(consumer) => DeleteConsumerKeeps(s, consumer);
    case Recreate(_, _) => RecreateKeeps(s, op);
    case _ =>
  }

  lemma {:induction false} RunKeeps(s: State, ops: seq<Op>)
    requires Inv(s) && ForwardRun(s, ops)
    ensures Inv(Run(s, ops))
    decreases |ops|
  {
    if ops != [] {
      StepKeeps(s, ops[0]);
      RunKeeps(Step(s, ops[0]), ops[1..]);
    }
  }

  /** A group as XGROUP CREATE makes it, on any stream and from any starting id. */
  function Created(key: StreamKey, start: StreamId): (s: State) {
    State(key, Group(start, {}, map[]), Ledger([], {}, {}, {}, {}))
  }

  /** Consumer-group delivery: over any run of commands by any consumers that does not set
      the group back, no entry is delivered twice through `>`, deliveries come in id order,
      every pending id is at or below the cursor, and each delivery is in exactly one of
      pending, acked, dropped with its consumer, sent without acknowledgement, or forgotten
      when the group was created anew. */
  lemma DeliveryLedger(key: StreamKey, start: StreamId, ops: seq<Op>)
    requires IsStream(key) && KeyOrdered(key) && ForwardRun(Created(key, start), ops)
    ensures var s := Run(Created(key, start), ops);
            && InOrder(s)
            && Partitioned(s)
            && (forall id | id in s.group.pending :: id in s.ledger.delivered && id.AtMost(s.group.cursor))
  {
    var s := Run(Created(key, start), ops);
    RunKeeps(Created(key, start), ops);
    forall id | id in s.group.pending ensures id in s.ledger.delivered && id.AtMost(s.group.cursor) {
      assert id in s.group.pending.Keys + s.ledger.acked + s.ledger.dropped + s.ledger.unlogged + s.ledger.forgotten;
    }
  }

  /** Nothing is passed over: right after an unlimited `>` read, every entry still in
      the stream is at or below the cursor. */
  lemma ReadCatchesUp(s: State, consumer: Consumer, noack: bool, now: u64)
    requires Inv(s)
    ensures var s' := Step(s, ReadNew(consumer, None, noack, now));
            forall e | e in Entries(s'.key) :: e.id.AtMost(s'.group.cursor)
  {
    DeliveredExactly(s, None);
    var es, c := Delivered(s, None), s.group.cursor;
    var s' := Step(s, ReadNew(consumer, None, noack, now));
    forall e | e in Entries(s'.key) ensures e.id.AtMost(s'.group.cursor) {
      if c.Below(e.id) {
        var i :| 0 <= i < |es| && es[i] == e;
        assert i == |es| - 1 || es[i].id.Below(es[|es| - 1].id);
      } else if es != [] {
        assert es[|es| - 1] in es;
        BelowTransitive(e.id, c, es[|es| - 1].id);
      }
    }
  }

  // ----- the group as the server holds it -----

  lemma AckedMeans(g: Group, ids: seq<StreamId>)
    ensures Acked(g, ids) <= g.pending.Keys
    ensures g.pending - Acked(g, ids) == g.pending - (set id | id in ids)
  {
  }

  lemma AckedNone(g: Group)
    ensures Acked(g, []) == {} && g.pending - {} == g.pending
  {
  }

  /** One id more. */
  lemma AckedSnoc(g: Group, ids: seq<StreamId>, id: StreamId)
    ensures var gone := Acked(g, ids);
            && Acked(g, ids + [id]) == (if id in g.pending - gone then gone + {id} else gone)
            && g.pending - gone - {id} == g.pending - (gone + {id})
  {
  }

  lemma ClaimStep(
    pending: map<StreamId, Pending>, ids: seq<StreamId>, k: nat, consumer: Consumer, minIdle: u64, now: u64)
    requires k < |ids|
    ensures var due := Due(pending, ids[k], minIdle, now);
            var after := if due then pending[ids[k] := Pending(consumer, now, pending[ids[k]].deliveries + 1)] else pending;
            && ClaimAll(pending, ids[k..], consumer, minIdle, now) == ClaimAll(after, ids[k + 1..], consumer, minIdle, now)
            && ClaimedIds(pending, ids[k..], consumer, minIdle, now)
               == (if due then [ids[k]] else []) + ClaimedIds(after, ids[k + 1..], consumer, minIdle, now)
  {
    assert ids[k..][1..] == ids[k + 1..];
    var after := ClaimOne(pending, ids[k], consumer, minIdle, now);
    assert after != pending ==> ids[k] in pending;
    if ids[k] in pending && after[ids[k]].deliveries == pending[ids[k]].deliveries {
      assert after == pending;
    }
  }

  /** How often an id that is due is claimed: a record just claimed has been idle for no
      time, so that a repeated id is claimed again only if no idle time is asked for. */
  function Claims(ids: seq<StreamId>, id: StreamId, minIdle: u64): (n: nat) {
    if minIdle == 0 then multiset(ids)[id] else if id in ids then 1 else 0
  }

  lemma {:induction false} ClaimCounts(
    pending: map<StreamId, Pending>, ids: seq<StreamId>, consumer: Consumer, minIdle: u64, now: u64, id: StreamId)
    ensures multiset(ClaimedIds(pending, ids, consumer, minIdle, now))[id]
         == if Due(pending, id, minIdle, now) then Claims(ids, id, minIdle) else 0
    decreases |ids|
  {
    hide ClaimAll, ClaimedIds;
    if ids == [] {
      ClaimNone(pending, consumer, minIdle, now);
    } else {
      var head, tail := ids[0], ids[1..];
      var due := Due(pending, head, minIdle, now);
      var after := if due then pending[head := Pending(consumer, now, pending[head].deliveries + 1)] else pending;
      DueAfter(pending, after, head, consumer, minIdle, now, id);
      hide Due, Claims;
      ClaimStep(pending, ids, 0, consumer, minIdle, now);
      assert ids[0..] == ids == [head] + tail;
      ClaimCounts(after, tail, consumer, minIdle, now, id);
      ClaimsCons(head, tail, id, minIdle);
      var rest := ClaimedIds(after, tail, consumer, minIdle, now);
      ClaimsCons(head, rest, id, 0);
      assert [] + rest == rest;
    }
  }

  lemma {:induction false} ClaimRecords(
    pending: map<StreamId, Pending>, ids: seq<StreamId>, consumer: Consumer, minIdle: u64, now: u64, id: StreamId)
    requires id in pending
    ensures ClaimAll(pending, ids, consumer, minIdle, now)[id]
         == if id in ids && Due(pending, id, minIdle, now)
            then Pending(consumer, now, pending[id].deliveries + Claims(ids, id, minIdle))
            else pending[id]
    decreases |ids|
  {
    hide ClaimAll, ClaimedIds;
    if ids == [] {
      ClaimNone(pending, consumer, minIdle, now);
    } else {
      var head, tail := ids[0], ids[1..];
      var due := Due(pending, head, minIdle, now);
      var after := if due then pending[head := Pending(consumer, now, pending[head].deliveries + 1)] else pending;
      DueAfter(pending, after, head, consumer, minIdle, now, id);
      hide Due, Claims;
      ClaimStep(pending, ids, 0, consumer, minIdle, now);
      assert ids[0..] == ids == [head] + tail;
      ClaimRecords(after, tail, consumer, minIdle, now, id);
      ClaimsCons(head, tail, id, minIdle);
    }
  }

  /** XCLAIM, id by id: a record that is due and named goes to the consumer and counts
      its deliveries, its id is reported once for each; every other record stays. */
  lemma ClaimedExactly(
    pending: map<StreamId, Pending>, ids: seq<StreamId>, consumer: Consumer, minIdle: u64, now: u64, id: StreamId)
    ensures var r, claimed := ClaimAll(pending, ids, consumer, minIdle, now), ClaimedIds(pending, ids, consumer, minIdle, now);
            && multiset(claimed)[id] == (if Due(pending, id, minIdle, now) then Claims(ids, id, minIdle) else 0)
            && (id in r <==> id in pending)
            && (id in pending ==>
                  r[id] == if id in ids && Due(pending, id, minIdle, now)
                           then Pending(consumer, now, pending[id].deliveries + Claims(ids, id, minIdle))
                           else pending[id])
  {
    hide ClaimAll, ClaimedIds, Due, Claims;
    ClaimCounts(pending, ids, consumer, minIdle, now, id);
    if id in pending {
      ClaimRecords(pending, ids, consumer, minIdle, now, id);
    }
  }

  /** A record is due once `minIdle` milliseconds have passed since its delivery. */
  lemma DueExactly(pending: map<StreamId, Pending>, id: StreamId, minIdle: u64, now: u64)
    ensures Due(pending, id, minIdle, now) <==> id in pending && (minIdle == 0 || pending[id].deliveredAt + minIdle <= now)
  {
  }

  lemma ClaimsExactly(ids: seq<StreamId>, id: StreamId, minIdle: u64)
    ensures id in ids ==> Claims(ids, id, minIdle) == if minIdle == 0 then multiset(ids)[id] else 1
    ensures id !in ids ==> Claims(ids, id, minIdle) == 0
  {
  }

  /** XCLAIM in closed form, for one id and for all. */
  lemma ClaimedClosed(
    pending: map<StreamId, Pending>, ids: seq<StreamId>, consumer: Consumer, minIdle: u64, now: u64, id: StreamId)
    ensures var r, claimed := ClaimAll(pending, ids, consumer, minIdle, now), ClaimedIds(pending, ids, consumer, minIdle, now);
            var n := if minIdle == 0 then multiset(ids)[id] else 1;
            if id in pending && id in ids && (minIdle == 0 || pending[id].deliveredAt + minIdle <= now)
            then r[id] == Pending(consumer, now, pending[id].deliveries + n) && multiset(claimed)[id] == n
            else (id in pending ==> r[id] == pending[id]) && multiset(claimed)[id] == 0
  {
    hide ClaimAll, ClaimedIds, Due, Claims;
    ClaimedExactly(pending, ids, consumer, minIdle, now, id);
    DueExactly(pending, id, minIdle, now);
    ClaimsExactly(ids, id, minIdle);
  }

  lemma ClaimedEach(
    pending: map<StreamId, Pending>, ids: seq<StreamId>, consumer: Consumer, minIdle: u64, now: u64)
    ensures var r, claimed := ClaimAll(pending, ids, consumer, minIdle, now), ClaimedIds(pending, ids, consumer, minIdle, now);
            && (forall id | id in pending && id in ids && (minIdle == 0 || pending[id].deliveredAt + minIdle <= now) ::
                  var n := if minIdle == 0 then multiset(ids)[id] else 1;
                  r[id] == Pending(consumer, now, pending[id].deliveries + n) && multiset(claimed)[id] == n)
            && (forall id | id in pending && !(id in ids && (minIdle == 0 || pending[id].deliveredAt + minIdle <= now)) ::
                  r[id] == pending[id] && multiset(claimed)[id] == 0)
            && (forall id | id !in pending :: multiset(claimed)[id] == 0)
  {
    hide ClaimAll, ClaimedIds;
    var r, claimed := ClaimAll(pending, ids, consumer, minIdle, now), ClaimedIds(pending, ids, consumer, minIdle, now);
    forall id | id in pending && id in ids && (minIdle == 0 || pending[id].deliveredAt + minIdle <= now)
      ensures var n := if minIdle == 0 then multiset(ids)[id] else 1;
              r[id] == Pending(consumer, now, pending[id].deliveries + n) && multiset(claimed)[id] == n
    {
      ClaimedClosed(pending, ids, consumer, minIdle, now, id);
    }
    forall id | id in pending && !(id in ids && (minIdle == 0 || pending[id].deliveredAt + minIdle <= now))
      ensures r[id] == pending[id] && multiset(claimed)[id] == 0
    {
      ClaimedClosed(pending, ids, consumer, minIdle, now, id);
    }
    forall id | id !in pending ensures multiset(claimed)[id] == 0 {
      ClaimedClosed(pending, ids, consumer, minIdle, now, id);
    }
  }

  lemma DueAfter(
    pending: map<StreamId, Pending>, after: map<StreamId, Pending>, head: StreamId, consumer: Consumer, minIdle: u64,
    now: u64, id: StreamId)
    requires Due(pending, head, minIdle, now) ==>
               after == pending[head := Pending(consumer, now, pending[head].deliveries + 1)]
    requires !Due(pending, head, minIdle, now) ==> after == pending
    ensures id in after <==> id in pending
    ensures Due(after, id, minIdle, now) <==> Due(pending, id, minIdle, now) && (id != head || minIdle == 0)
    ensures id in after && (id != head || !Due(pending, id, minIdle, now)) ==> after[id] == pending[id]
    ensures Due(pending, id, minIdle, now) ==> id in pending
    ensures Claims([], id, minIdle) == 0
  {
  }

  lemma ClaimsCons(head: StreamId, tail: seq<StreamId>, id: StreamId, minIdle: u64)
    ensures multiset([head] + tail)[id] == (if head == id then 1 else 0) + multiset(tail)[id]
    ensures Claims([head] + tail, id, minIdle)
         == if head == id then (if minIdle == 0 then 1 + Claims(tail, id, minIdle) else 1) else Claims(tail, id, minIdle)
    ensures id in [head] + tail <==> id == head || id in tail
    ensures Claims(tail, id, minIdle) > 0 <==> id in tail
  {
    assert multiset([head] + tail) == multiset{head} + multiset(tail);
  }

  lemma ClaimNone(pending: map<StreamId, Pending>, consumer: Consumer, minIdle: u64, now: u64)
    ensures ClaimAll(pending, [], consumer, minIdle, now) == pending
    ensures ClaimedIds(pending, [], consumer, minIdle, now) == []
  {
  }

  lemma IdsOf(es: seq<StreamEntry>)
    ensures forall id :: id in Ids(es) <==> exists e | e in es :: e.id == id
  {
    forall e | e in es ensures e.id in Ids(es) {
      var i :| 0 <= i < |es| && es[i] == e;
      assert Ids(es)[i] == e.id;
    }
    forall id | id in Ids(es) ensures exists e | e in es :: e.id == id {
      var i :| 0 <= i < |es| && Ids(es)[i] == id;
      assert es[i] in es;
    }
  }

  lemma SizeLess(pending: map<StreamId, Pending>, gone: set<StreamId>)
    requires gone <= pending.Keys
    ensures |pending - gone| == |pending| - |gone|
  {
    assert (pending - gone).Keys == pending.Keys - gone;
    assert |pending.Keys - gone| == |pending.Keys| - |gone|;
    assert |(pending - gone).Keys| == |pending - gone| && |pending.Keys| == |pending|;
  }

  method Record(pending: map<StreamId, Pending>, ids: seq<StreamId>, consumer: Consumer, now: u64)
    returns (r: map<StreamId, Pending>)
    ensures r == pending + map id | id in ids :: Pending(consumer, now, 1)
  {
    r := pending;
    for k := 0 to |ids|
      invariant r == pending + map id | id in ids[..k] :: Pending(consumer, now, 1)
    {
      r := r[ids[k] := Pending(consumer, now, 1)];
      assert ids[..k + 1] == ids[..k] + [ids[k]];
    }
    assert ids[..|ids|] == ids;
  }

  /** The loop of XCLAIM; `at` says from which arguments the claimed ids are. */
  method ClaimLoop(pending: map<StreamId, Pending>, consumer: Consumer, minIdle: u64, ids: seq<StreamId>, now: u64)
    returns (r: map<StreamId, Pending>, claimed: seq<StreamId>, ghost at: seq<nat>)
    ensures r == ClaimAll(pending, ids, consumer, minIdle, now)
    ensures claimed == ClaimedIds(pending, ids, consumer, minIdle, now)
    ensures |at| == |claimed| && (forall j | 0 <= j < |at| :: at[j] < |ids| && claimed[j] == ids[at[j]])
    ensures forall i, j | 0 <= i < j < |at| :: at[i] < at[j]
  {
    hide ClaimAll, ClaimedIds, ClaimOne, Due, Claims;
    r, claimed, at := pending, [], [];
    for k := 0 to |ids|
      invariant ClaimAll(r, ids[k..], consumer, minIdle, now) == ClaimAll(pending, ids, consumer, minIdle, now)
      invariant claimed + ClaimedIds(r, ids[k..], consumer, minIdle, now)
             == ClaimedIds(pending, ids, consumer, minIdle, now)
      invariant |at| == |claimed| && (forall j | 0 <= j < |at| :: at[j] < k && claimed[j] == ids[at[j]])
      invariant forall i, j | 0 <= i < j < |at| :: at[i] < at[j]
    {
      ClaimStep(r, ids, k, consumer, minIdle, now);
      DueKnown(r, ids[k], minIdle, now);
      if Due(r, ids[k], minIdle, now) {
        r := r[ids[k] := Pending(consumer, now, r[ids[k]].deliveries + 1)];
        claimed := claimed + [ids[k]];
        at := at + [k];
      }
    }
    assert ids[|ids|..] == [];
    ClaimNone(r, consumer, minIdle, now);
  }

  lemma DueKnown(pending: map<StreamId, Pending>, id: StreamId, minIdle: u64, now: u64)
    ensures Due(pending, id, minIdle, now) ==> id in pending
  {
  }

  class ConsumerGroup {
    var cursor: StreamId
    var consumers: set<Consumer>
    var pending: map<StreamId, Pending>

    ghost function View(): (g: Group)
      reads this
    {
      Group(cursor, consumers, pending)
    }

    constructor (start: StreamId)
      ensures View() == Group(start, {}, map[])
    {
      cursor, consumers, pending := start, {}, map[];
    }

    /** XREADGROUP with `>`: the cursor moves, and unless `noack` each entry is recorded. */
    method ReadNew(key: StreamKey, consumer: Consumer, count: Option<nat>, noack: bool, now: u64, ghost l: Ledger)
      returns (entries: seq<StreamEntry>)
      requires IsStream(key)
      modifies this
      ensures var s := State(key, old(View()), l);
              entries == Delivered(s, count) && View() == Deliver(s, consumer, count, noack, now).group
      ensures consumers == old(consumers) + {consumer}
      ensures cursor == if entries == [] then old(cursor) else entries[|entries| - 1].id
      ensures noack ==> pending == old(pending)
      ensures !noack ==> forall e | e in entries :: e.id in pending && pending[e.id] == Pending(consumer, now, 1)
      ensures forall id | id in pending && (forall e | e in entries :: e.id != id) ::
                id in old(pending) && pending[id] == old(pending)[id]
      ensures old(pending).Keys <= pending.Keys
    {
      hide EntriesAfter;
      consumers := consumers + {consumer};
      entries := EntriesAfter(Entries(key), cursor, count);
      IdsOf(entries);
      if entries == [] { return; }
      cursor := entries[|entries| - 1].id;
      if !noack {
        pending := Record(pending, Ids(entries), consumer, now);
      }
    }

    /** XGROUP DELCONSUMER: the consumer goes with its records; how many it held. */
    method RemoveConsumer(consumer: Consumer) returns (count: nat)
      modifies this
      ensures View() == Group(old(cursor), old(consumers) - {consumer}, old(pending) - Held(old(View()), consumer))
      ensures forall id :: id in pending <==> id in old(pending) && old(pending)[id].consumer != consumer
      ensures forall id | id in pending :: pending[id] == old(pending)[id]
      ensures count == |old(pending)| - |pending|
    {
      consumers := consumers - {consumer};
      var held := set id | id in pending && pending[id].consumer == consumer;
      count := |held|;
      SizeLess(pending, held);
      pending := map id | id in pending && pending[id].consumer != consumer :: pending[id];
      assert pending == old(pending) - held;
    }

    /** XACK: the number of records it removed. */
    method Acknowledge(ids: seq<StreamId>) returns (acked: nat)
      modifies this
      ensures View() == old(View()).(pending := old(pending) - Acked(old(View()), ids))
      ensures pending == old(pending) - (set id | id in ids)
      ensures acked == |old(pending)| - |pending|
    {
      hide Acked;
      acked := 0;
      ghost var g, gone := View(), {};
      AckedNone(g);
      for k := 0 to |ids|
        invariant View() == g.(pending := g.pending - gone)
        invariant gone == Acked(g, ids[..k]) && acked == |gone|
      {
        assert ids[..k + 1] == ids[..k] + [ids[k]];
        AckedSnoc(g, ids[..k], ids[k]);
        if ids[k] in pending {
          pending := pending - {ids[k]};
          acked := acked + 1;
          gone := gone + {ids[k]};
        }
      }
      assert ids[..|ids|] == ids;
      AckedMeans(g, ids);
      SizeLess(g.pending, gone);
    }

    /** XCLAIM: the ids whose record changed hands, in argument order. */
    method TakeOver(consumer: Consumer, minIdle: u64, ids: seq<StreamId>, now: u64)
      returns (claimed: seq<StreamId>, ghost at: seq<nat>)
      modifies this
      ensures View() == Group(old(cursor), old(consumers) + {consumer},
                              ClaimAll(old(pending), ids, consumer, minIdle, now))
      ensures claimed == ClaimedIds(old(pending), ids, consumer, minIdle, now)
      ensures forall id | id in old(pending) && id in ids && (minIdle == 0 || old(pending)[id].deliveredAt + minIdle <= now) ::
                var n := if minIdle == 0 then multiset(ids)[id] else 1;
                pending[id] == Pending(consumer, now, old(pending)[id].deliveries + n) && multiset(claimed)[id] == n
      ensures forall id | id in old(pending)
                          && !(id in ids && (minIdle == 0 || old(pending)[id].deliveredAt + minIdle <= now)) ::
                pending[id] == old(pending)[id] && multiset(claimed)[id] == 0
      ensures forall id | id !in old(pending) :: multiset(claimed)[id] == 0
      ensures |at| == |claimed| && (forall j | 0 <= j < |at| :: at[j] < |ids| && claimed[j] == ids[at[j]])
      ensures forall i, j | 0 <= i < j < |at| :: at[i] < at[j]
    {
      hide ClaimAll, ClaimedIds;
      ghost var was := pending;
      consumers := consumers + {consumer};
      pending, claimed, at := ClaimLoop(pending, consumer, minIdle, ids, now);
      ClaimedEach(was, ids, consumer, minIdle, now);
    }
  }
}
