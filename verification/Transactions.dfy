/**
  MULTI, EXEC, DISCARD, WATCH and UNWATCH: optimistic locking over version counters.
 */
module Transactions {
  import opened Bytes
  import opened Values
  import opened CommandLog
  import opened Commands

  /** A watched key and the version recorded for it. */
  datatype Watch = Watch(key: bytes, version: nat)

  /** `get_version`: zero for a missing or expired key; `None` for a missing database. */
  function Version(s: Server, key: bytes, now: nat): (v: Option<nat>) {
    if s.dbIndex >= |s.dbs| then None
    else
      match Lookup(s.dbs[s.dbIndex], key, now)
      case None => Some(0)
      case Some(e) => Some(e.version)
  }

  /** What WATCH records for one key. */
  function Record(s: Server, key: bytes, now: nat): (w: Watch) {
    match Version(s, key, now)
    case None => Watch(key, 0)
    case Some(v) => Watch(key, v)
  }

  function RecordAll(s: Server, keys: seq<bytes>, now: nat): (ws: seq<Watch>)
    ensures |ws| == |keys|
    ensures forall i | 0 <= i < |keys| :: ws[i] == Record(s, keys[i], now)
  {
    seq(|keys|, i requires 0 <= i < |keys| => Record(s, keys[i], now))
  }

  /** The check EXEC makes before it runs anything. */
  predicate Unviolated(s: Server, watched: seq<Watch>, now: nat) {
    forall i | 0 <= i < |watched| :: Version(s, watched[i].key, now) == Some(watched[i].version)
  }

  /** In a database that does not exist WATCH records zero and EXEC refuses any watch. */
  lemma MissingDatabase(s: Server, keys: seq<bytes>, now: nat, watched: seq<Watch>)
    requires s.dbIndex >= |s.dbs|
    ensures forall w | w in RecordAll(s, keys, now) :: w.version == 0
    ensures Unviolated(s, watched, now) <==> watched == []
  {
    if watched != [] {
      assert Version(s, watched[0].key, now) == None;
    }
  }

  /** Running the queue in order; `run` is the dispatcher. */
  function RunQueue(s: Server, queue: seq<Command>, run: (Server, Command) -> Server): (s': Server)
    decreases |queue|
  {
    if queue == [] then s else RunQueue(run(s, queue[0]), queue[1..], run)
  }

  datatype ExecReply = NotInMulti | Aborted | Ran(count: nat)

  class ClientContext {
    var multiMode: bool
    var queue: seq<Command>
    var watched: seq<Watch>

    constructor ()
      ensures !multiMode && queue == [] && watched == []
    {
      multiMode, queue, watched := false, [], [];
    }

    method Multi()
      modifies this
      ensures multiMode && queue == [] && watched == old(watched)
    {
      multiMode, queue := true, [];
    }

    method Discard()
      modifies this
      ensures !multiMode && queue == [] && watched == []
    {
      multiMode, queue, watched := false, [], [];
    }

    method Unwatch()
      modifies this
      ensures watched == [] && multiMode == old(multiMode) && queue == old(queue)
    {
      watched := [];
    }

    /** WATCH is ignored inside MULTI; otherwise it adds to what is watched. */
    method AddWatches(s: Server, keys: seq<bytes>, now: nat)
      modifies this
      ensures multiMode == old(multiMode) && queue == old(queue)
      ensures watched == old(watched) + if multiMode then [] else RecordAll(s, keys, now)
    {
      if multiMode { return; }
      for k := 0 to |keys|
        invariant watched == old(watched) + RecordAll(s, keys, now)[..k]
        invariant multiMode == old(multiMode) && queue == old(queue)
      {
        watched := watched + [Record(s, keys[k], now)];
      }
    }

    /** A command arriving inside MULTI is kept for EXEC. */
    method Enqueue(cmd: Command)
      requires multiMode
      modifies this
      ensures multiMode && queue == old(queue) + [cmd] && watched == old(watched)
    {
      queue := queue + [cmd];
    }

    /** EXEC: the queue and the watches are gone either way. */
    method Exec(s: Server, now: nat, run: (Server, Command) -> Server)
      returns (s': Server, reply: ExecReply, ghost states: seq<Server>)
      modifies this
      ensures !old(multiMode) ==> reply == NotInMulti && s' == s && unchanged(this)
      ensures old(multiMode) ==> !multiMode && queue == [] && watched == []
      ensures old(multiMode) && Unviolated(s, old(watched), now) ==>
                && s' == RunQueue(s, old(queue), run) && reply == Ran(|old(queue)|)
                && |states| == |old(queue)| + 1 && states[0] == s && states[|old(queue)|] == s'
                && forall i | 0 <= i < |old(queue)| :: states[i + 1] == run(states[i], old(queue)[i])
      ensures old(multiMode) && !Unviolated(s, old(watched), now) ==> s' == s && reply == Aborted
    {
      s', states := s, [s];
      if !multiMode { return s, NotInMulti, states; }
      var cmds, ws := queue, watched;
      multiMode, queue, watched := false, [], [];
      for i := 0 to |ws|
        invariant forall j | 0 <= j < i :: Version(s, ws[j].key, now) == Some(ws[j].version)
        invariant !multiMode && queue == [] && watched == []
      {
        if Version(s, ws[i].key, now) != Some(ws[i].version) { return s, Aborted, states; }
      }
      for k := 0 to |cmds|
        invariant RunQueue(s', cmds[k..], run) == RunQueue(s, cmds, run)
        invariant |states| == k + 1 && states[0] == s && states[k] == s'
        invariant forall i | 0 <= i < k :: states[i + 1] == run(states[i], cmds[i])
        invariant !multiMode && queue == [] && watched == []
      {
        assert cmds[k..][0] == cmds[k] && cmds[k..][1..] == cmds[k + 1..];
        s' := run(s', cmds[k]);
        states := states + [s'];
      }
      reply := Ran(|cmds|);
    }
  }

  // ----- what happens between WATCH and EXEC -----

  /** Changes made to the watched database. `DeleteKey` is any removal, by a command,
      eviction or expiry; `Modify` is any command that changes or creates a value in
      place without `set`, such as RPUSH; `Expire` sets or clears an expiry time;
      `Rename` moves an entry, version and all. */
  datatype Event =
    | SetKey(key: bytes, text: bytes, expireAt: Option<u64>)
    | DeleteKey(key: bytes)
    | Modify(key: bytes, value: Value)
    | Expire(key: bytes, expireAt: Option<u64>)
    | Rename(from: bytes, key: bytes)

  function ApplyEvent(db: Db, e: Event): (r: Db) {
    match e
    case SetKey(k, text, at) => db[k := Entry(Text(text), at, (if k in db then db[k].version else 0) + 1)]
    case DeleteKey(k) => db - {k}
    case Modify(k, v) => if k in db then db[k := db[k].(value := v)] else db[k := Entry(v, None, 0)]
    case Expire(k, at) => if k in db then db[k := db[k].(expireAt := at)] else db
    case Rename(from, k) => if from in db then (db - {from})[k := db[from]] else db
  }

  function ApplyEvents(db: Db, es: seq<Event>): (r: Db)
    decreases |es|
  {
    if es == [] then db else ApplyEvent(ApplyEvents(db, es[..|es| - 1]), es[|es| - 1])
  }

  lemma {:induction false} ApplySplit(db: Db, es: seq<Event>, at: nat)
    requires at <= |es|
    ensures ApplyEvents(ApplyEvents(db, es[..at]), es[at..]) == ApplyEvents(db, es)
    decreases |es|
  {
    if at == |es| {
      assert es[..at] == es && es[at..] == [];
    } else {
      var n := |es| - 1;
      ApplySplit(db, es[..n], at);
      assert es[..n][..at] == es[..at] && es[at..][..n - at] == es[..n][at..] && es[at..][n - at] == es[n];
    }
  }

  function StoredVersion(db: Db, k: bytes): (n: nat) {
    if k in db then db[k].version else 0
  }

  /** Where the entry under a key comes from: the name it had before the events, unless
      it was made since, and how often it was set since, under whatever name. */
  datatype Trace = Trace(origin: Option<bytes>, sets: nat)

  /** The events followed back from a key. */
  function TraceBack(db: Db, es: seq<Event>, k: bytes): (t: Trace)
    decreases |es|
  {
    if es == [] then Trace(Some(k), 0)
    else
      var before, e := es[..|es| - 1], es[|es| - 1];
      if e.Rename? && e.from in ApplyEvents(db, before) then
        if e.key == k then TraceBack(db, before, e.from)
        else if e.from == k then Trace(None, 0)
        else TraceBack(db, before, k)
      else if e == DeleteKey(k) then Trace(None, 0)
      else
        var t := TraceBack(db, before, k);
        if e.SetKey? && e.key == k then t.(sets := t.sets + 1) else t
  }

  /** After any events: the stored version is the number of `set`s to the entry now under
      the key, on top of the version of the key it comes from, if it comes from one. */
  lemma {:induction false} VersionCounts(db: Db, es: seq<Event>, k: bytes)
    ensures var t := TraceBack(db, es, k);
            StoredVersion(ApplyEvents(db, es), k)
            == t.sets + if t.origin.Some? then StoredVersion(db, t.origin.value) else 0
    decreases |es|
  {
    if es != [] {
      var before, e := es[..|es| - 1], es[|es| - 1];
      VersionCounts(db, before, k);
      if e.Rename? {
        VersionCounts(db, before, e.from);
      }
    }
  }

  /** How often a key was set. */
  function Sets(es: seq<Event>, k: bytes): (n: nat)
    decreases |es|
  {
    if es == [] then 0
    else Sets(es[..|es| - 1], k) + if es[|es| - 1].SetKey? && es[|es| - 1].key == k then 1 else 0
  }

  /** The events after the last removal of a key; all of them if there is none. */
  function SinceDelete(es: seq<Event>, k: bytes): (later: seq<Event>)
    decreases |es|
  {
    if es == [] || es[|es| - 1] == DeleteKey(k) then []
    else SinceDelete(es[..|es| - 1], k) + [es[|es| - 1]]
  }

  /** No entry is renamed to or from the key. */
  predicate Unmoved(es: seq<Event>, k: bytes) {
    forall i | 0 <= i < |es| && es[i].Rename? :: es[i].from != k && es[i].key != k
  }

  /** Of a key that is not renamed: its version counts the `set`s since its last removal. */
  lemma {:induction false} UnmovedTrace(db: Db, es: seq<Event>, k: bytes)
    requires Unmoved(es, k)
    ensures TraceBack(db, es, k)
         == Trace(if DeleteKey(k) in es then None else Some(k), Sets(SinceDelete(es, k), k))
    ensures DeleteKey(k) !in es ==> SinceDelete(es, k) == es
    decreases |es|
  {
    hide TraceBack, SinceDelete, Sets;
    TraceNothing(db, k);
    if es != [] {
      var before, e := es[..|es| - 1], es[|es| - 1];
      UnmovedInit(es, k);
      hide Unmoved;
      UnmovedTrace(db, before, k);
      UnmovedLast(db, before, e, es, k);
    }
  }

  lemma TraceNothing(db: Db, k: bytes)
    ensures TraceBack(db, [], k) == Trace(Some(k), 0) && SinceDelete([], k) == [] && Sets([], k) == 0
  {
  }

  lemma UnmovedInit(es: seq<Event>, k: bytes)
    requires es != [] && Unmoved(es, k)
    ensures Unmoved(es[..|es| - 1], k) && es == es[..|es| - 1] + [es[|es| - 1]]
  {
  }

  lemma UnmovedLast(db: Db, before: seq<Event>, e: Event, es: seq<Event>, k: bytes)
    requires es == before + [e] && Unmoved(es, k)
    ensures DeleteKey(k) in es <==> e == DeleteKey(k) || DeleteKey(k) in before
    ensures e == DeleteKey(k) ==> TraceBack(db, es, k) == Trace(None, 0) && SinceDelete(es, k) == []
    ensures e != DeleteKey(k) ==>
              var one := if e.SetKey? && e.key == k then 1 else 0;
              && TraceBack(db, es, k) == TraceBack(db, before, k).(sets := TraceBack(db, before, k).sets + one)
              && SinceDelete(es, k) == SinceDelete(before, k) + [e]
              && Sets(SinceDelete(es, k), k) == Sets(SinceDelete(before, k), k) + one
  {
    hide ApplyEvents;
    assert es[..|es| - 1] == before && es[|es| - 1] == e;
    var later := SinceDelete(before, k);
    assert (later + [e])[..|later|] == later;
  }

  predicate Visible(db: Db, k: bytes, now: nat) {
    Lookup(db, k, now).Some?
  }

  /** What a watch on `k` notices of any events at all: a key that can be seen at EXEC
      passes if and only if the version recorded is what its entry was set since, on top of
      the version of the key it comes from; one that cannot be seen passes if and only if
      the version recorded is zero. */
  predicate Passes(db: Db, es: seq<Event>, k: bytes, watchedAt: nat, now: nat) {
    var recorded := if Visible(db, k, watchedAt) then StoredVersion(db, k) else 0;
    var t := TraceBack(db, es, k);
    if Visible(ApplyEvents(db, es), k, now)
    then recorded == t.sets + if t.origin.Some? then StoredVersion(db, t.origin.value) else 0
    else recorded == 0
  }

  /** One watch, under any events. */
  lemma WatchExactly(db: Db, es: seq<Event>, k: bytes, watchedAt: nat, now: nat)
    ensures Version(Server([ApplyEvents(db, es)], 0), k, now) == Version(Server([db], 0), k, watchedAt)
            <==> Passes(db, es, k, watchedAt, now)
  {
    VersionCounts(db, es, k);
  }

  // ----- watches made at any time -----

  /** A WATCH of one key, made after the first `at` events. */
  datatype WatchCall = WatchCall(key: bytes, at: nat, time: nat)

  ghost predicate CallsFit(calls: seq<WatchCall>, es: seq<Event>) {
    forall i | 0 <= i < |calls| :: calls[i].at <= |es|
  }

  /** The store once the first `at` events have happened to database `i`. */
  function ServerAt(dbs: seq<Db>, i: nat, es: seq<Event>, at: nat): (s: Server)
    requires i < |dbs| && at <= |es|
  {
    Server(dbs[i := ApplyEvents(dbs[i], es[..at])], i)
  }

  /** What the calls record. */
  function RecordCalls(dbs: seq<Db>, i: nat, calls: seq<WatchCall>, es: seq<Event>): (ws: seq<Watch>)
    requires i < |dbs| && CallsFit(calls, es)
    ensures |ws| == |calls|
  {
    seq(|calls|, j requires 0 <= j < |calls| => Record(ServerAt(dbs, i, es, calls[j].at), calls[j].key, calls[j].time))
  }

  /** The watch of one call passes, under the events after it. */
  ghost predicate CallPasses(db: Db, es: seq<Event>, c: WatchCall, now: nat)
    requires c.at <= |es|
  {
    Passes(ApplyEvents(db, es[..c.at]), es[c.at..], c.key, c.time, now)
  }

  /** EXEC's check passes if and only if every watch does, whenever it was made and
      whatever mix of events came after it. */
  lemma ExecExactly(dbs: seq<Db>, i: nat, calls: seq<WatchCall>, es: seq<Event>, now: nat)
    requires i < |dbs| && CallsFit(calls, es)
    ensures Unviolated(ServerAt(dbs, i, es, |es|), RecordCalls(dbs, i, calls, es), now)
            <==> forall j | 0 <= j < |calls| :: CallPasses(dbs[i], es, calls[j], now)
  {
    hide ApplyEvents, Passes;
    var watched := RecordCalls(dbs, i, calls, es);
    assert es[..|es|] == es;
    forall j | 0 <= j < |calls|
      ensures Version(ServerAt(dbs, i, es, |es|), watched[j].key, now) == Some(watched[j].version)
              <==> CallPasses(dbs[i], es, calls[j], now)
    {
      var c := calls[j];
      ApplySplit(dbs[i], es, c.at);
      WatchExactly(ApplyEvents(dbs[i], es[..c.at]), es[c.at..], c.key, c.time, now);
    }
  }

  // ----- watched keys that are only set -----

  /** The key is touched by nothing but `set`. */
  ghost predicate OnlySet(es: seq<Event>, k: bytes) {
    forall i | 0 <= i < |es| && (es[i].key == k || (es[i].Rename? && es[i].from == k)) :: es[i].SetKey?
  }

  /** Every `set` counts the stored version up by one, from zero for a new key. */
  lemma {:induction false} SetsCount(db: Db, es: seq<Event>, k: bytes)
    requires OnlySet(es, k)
    ensures StoredVersion(ApplyEvents(db, es), k) == StoredVersion(db, k) + Sets(es, k)
    ensures Sets(es, k) == 0 && k in db ==> k in ApplyEvents(db, es) && ApplyEvents(db, es)[k] == db[k]
    ensures Sets(es, k) == 0 && k !in db ==> k !in ApplyEvents(db, es)
    decreases |es|
  {
    if es != [] {
      SetsCount(db, es[..|es| - 1], k);
    }
  }

  /** No watched key expires from WATCH to EXEC: one that was set is live at EXEC, and
      one that was not and was live at WATCH still is. */
  ghost predicate StaysLive(db: Db, es: seq<Event>, k: bytes, watchedAt: nat, now: nat) {
    var end := ApplyEvents(db, es);
    if Sets(es, k) > 0 then k in end && !Expired(end[k], now)
    else k in db && !Expired(db[k], watchedAt) ==> !Expired(db[k], now)
  }

  /** One watch: while its key is only set and stays live, the version EXEC reads is
      the recorded one if and only if the key was not set. */
  lemma WatchDetects(db: Db, es: seq<Event>, k: bytes, watchedAt: nat, now: nat)
    requires OnlySet(es, k) && StaysLive(db, es, k, watchedAt, now) && watchedAt <= now
    ensures Version(Server([ApplyEvents(db, es)], 0), k, now) == Version(Server([db], 0), k, watchedAt)
            <==> Sets(es, k) == 0
    ensures Passes(db, es, k, watchedAt, now) <==> Sets(es, k) == 0
  {
    SetsCount(db, es, k);
    WatchExactly(db, es, k, watchedAt, now);
  }

  /** After the call its key is only set and stays live, and no clock runs backwards. */
  ghost predicate OnlySetAfter(db: Db, es: seq<Event>, c: WatchCall, now: nat)
    requires c.at <= |es|
  {
    c.time <= now && OnlySet(es[c.at..], c.key)
    && StaysLive(ApplyEvents(db, es[..c.at]), es[c.at..], c.key, c.time, now)
  }

  /** WATCH and EXEC: if the watched keys are, once watched, written only by `set` and none
      is removed or expires, EXEC's check passes if and only if no watched key was set
      since its WATCH, whatever happened to other keys. */
  lemma ExecIffUntouched(dbs: seq<Db>, i: nat, calls: seq<WatchCall>, es: seq<Event>, now: nat)
    requires i < |dbs| && CallsFit(calls, es)
    requires forall j | 0 <= j < |calls| :: OnlySetAfter(dbs[i], es, calls[j], now)
    ensures Unviolated(ServerAt(dbs, i, es, |es|), RecordCalls(dbs, i, calls, es), now)
            <==> forall j | 0 <= j < |calls| :: Sets(es[calls[j].at..], calls[j].key) == 0
  {
    hide ApplyEvents, OnlySet, StaysLive, Sets, Passes;
    ExecExactly(dbs, i, calls, es, now);
    forall j | 0 <= j < |calls|
      ensures CallPasses(dbs[i], es, calls[j], now) <==> Sets(es[calls[j].at..], calls[j].key) == 0
    {
      var c := calls[j];
      assert OnlySetAfter(dbs[i], es, c, now);
      WatchDetects(ApplyEvents(dbs[i], es[..c.at]), es[c.at..], c.key, c.time, now);
    }
  }

  // ----- whole transactions -----

  /** MULTI and the commands queued in it. */
  method QueueAll(ctx: ClientContext, cmds: seq<Command>)
    modifies ctx
    ensures ctx.multiMode && ctx.queue == cmds && ctx.watched == old(ctx.watched)
  {
    ctx.Multi();
    for n := 0 to |cmds|
      invariant ctx.multiMode && ctx.queue == cmds[..n] && ctx.watched == old(ctx.watched)
    {
      ctx.Enqueue(cmds[n]);
      assert cmds[..n + 1] == cmds[..n] + [cmds[n]];
    }
    assert cmds[..|cmds|] == cmds;
  }

  /** The WATCH calls of a new connection, made as the events come in. */
  method WatchAll(dbs: seq<Db>, i: nat, calls: seq<WatchCall>, es: seq<Event>) returns (ctx: ClientContext)
    requires i < |dbs| && CallsFit(calls, es)
    ensures fresh(ctx) && !ctx.multiMode && ctx.watched == RecordCalls(dbs, i, calls, es)
  {
    hide ApplyEvents, Record;
    ctx := new ClientContext();
    for j := 0 to |calls|
      invariant fresh(ctx) && !ctx.multiMode && ctx.watched == RecordCalls(dbs, i, calls, es)[..j]
    {
      ctx.AddWatches(ServerAt(dbs, i, es, calls[j].at), [calls[j].key], calls[j].time);
      assert ctx.watched == RecordCalls(dbs, i, calls, es)[..j + 1];
    }
  }

  /** A whole transaction on a new connection: WATCH calls while `es` happen to the watched
      database, MULTI, the queued commands, and EXEC. The queue runs in order on what EXEC
      finds exactly if every watch passes; if the keys are only set and stay live, that is
      exactly if none was set since its WATCH. Otherwise nothing runs and nothing changes. */
  method WatchedTransaction(
    dbs: seq<Db>, i: nat, calls: seq<WatchCall>, cmds: seq<Command>, es: seq<Event>, now: nat,
    run: (Server, Command) -> Server) returns (s': Server, reply: ExecReply, ghost states: seq<Server>)
    requires i < |dbs| && CallsFit(calls, es)
    ensures var later := ServerAt(dbs, i, es, |es|);
            if forall j | 0 <= j < |calls| :: CallPasses(dbs[i], es, calls[j], now)
            then
              && reply == Ran(|cmds|)
              && |states| == |cmds| + 1 && states[0] == later && states[|cmds|] == s'
              && forall n | 0 <= n < |cmds| :: states[n + 1] == run(states[n], cmds[n])
            else s' == later && reply == Aborted
    ensures (forall j | 0 <= j < |calls| :: OnlySetAfter(dbs[i], es, calls[j], now)) ==>
              (reply.Ran? <==> forall j | 0 <= j < |calls| :: Sets(es[calls[j].at..], calls[j].key) == 0)
  {
    hide ApplyEvents, CallPasses, OnlySetAfter, Sets, Unviolated, RunQueue, ServerAt;
    var ctx := WatchAll(dbs, i, calls, es);
    QueueAll(ctx, cmds);
    ExecExactly(dbs, i, calls, es, now);
    if forall j | 0 <= j < |calls| :: OnlySetAfter(dbs[i], es, calls[j], now) {
      ExecIffUntouched(dbs, i, calls, es, now);
    }
    s', reply, states := ctx.Exec(ServerAt(dbs, i, es, |es|), now, run);
  }

  /** UNWATCH before MULTI takes every watch back: the queue runs whatever happened. */
  method UnwatchedTransaction(
    dbs: seq<Db>, i: nat, calls: seq<WatchCall>, cmds: seq<Command>, es: seq<Event>, now: nat,
    run: (Server, Command) -> Server) returns (s': Server, reply: ExecReply, ghost states: seq<Server>)
    requires i < |dbs| && CallsFit(calls, es)
    ensures reply == Ran(|cmds|)
    ensures |states| == |cmds| + 1 && states[0] == ServerAt(dbs, i, es, |es|) && states[|cmds|] == s'
    ensures forall n | 0 <= n < |cmds| :: states[n + 1] == run(states[n], cmds[n])
  {
    hide ApplyEvents, RunQueue, ServerAt, RecordCalls;
    var ctx := WatchAll(dbs, i, calls, es);
    ctx.Unwatch();
    QueueAll(ctx, cmds);
    s', reply, states := ctx.Exec(ServerAt(dbs, i, es, |es|), now, run);
  }

  /** DISCARD ends the transaction: an EXEC after it is an error and changes nothing, and a
      transaction begun afterwards runs its own commands alone, under no watch. */
  method DiscardedTransaction(
    dbs: seq<Db>, i: nat, calls: seq<WatchCall>, dropped: seq<Command>, cmds: seq<Command>, es: seq<Event>, now: nat,
    run: (Server, Command) -> Server) returns (refused: ExecReply, s': Server, reply: ExecReply, ghost states: seq<Server>)
    requires i < |dbs| && CallsFit(calls, es)
    ensures refused == NotInMulti
    ensures reply == Ran(|cmds|)
    ensures |states| == |cmds| + 1 && states[0] == ServerAt(dbs, i, es, |es|) && states[|cmds|] == s'
    ensures forall n | 0 <= n < |cmds| :: states[n + 1] == run(states[n], cmds[n])
  {
    hide ApplyEvents, RunQueue, ServerAt, RecordCalls;
    var ctx := WatchAll(dbs, i, calls, es);
    QueueAll(ctx, dropped);
    ctx.Discard();
    var later := ServerAt(dbs, i, es, |es|);
    later, refused, states := ctx.Exec(later, now, run);
    QueueAll(ctx, cmds);
    s', reply, states := ctx.Exec(later, now, run);
  }

  // ----- changes the versions do not show -----

  /** Removing a key restarts its counter: if it was removed and not renamed, its watch
      passes if and only if it was since set as often as the version recorded says. */
  lemma DeleteRestarts(db: Db, es: seq<Event>, k: bytes, watchedAt: nat, now: nat)
    requires DeleteKey(k) in es && Unmoved(es, k) && Visible(db, k, watchedAt)
    ensures Version(Server([ApplyEvents(db, es)], 0), k, now) == Version(Server([db], 0), k, watchedAt)
            <==> db[k].version == if Visible(ApplyEvents(db, es), k, now) then Sets(SinceDelete(es, k), k) else 0
  {
    WatchExactly(db, es, k, watchedAt, now);
    UnmovedTrace(db, es, k);
  }

  /** So a value can be replaced under a watch: a key set once, deleted and set again. */
  lemma ReplacedUnnoticed(k: bytes)
    ensures var db: Db := map[k := Entry(Text([97]), None, 1)];
            var es := [DeleteKey(k), SetKey(k, [98], None)];
            && k in ApplyEvents(db, es) && ApplyEvents(db, es)[k].value == Text([98])
            && Version(Server([ApplyEvents(db, es)], 0), k, 0) == Version(Server([db], 0), k, 0)
  {
    var db: Db := map[k := Entry(Text([97]), None, 1)];
    var es := [DeleteKey(k), SetKey(k, [98], None)];
    assert es[..1] == [DeleteKey(k)] && es[..1][..0] == [];
    assert ApplyEvents(db, es[..1]) == ApplyEvent(db, DeleteKey(k)) == map[];
  }

  /** Renaming another key over a watched one goes unnoticed if and only if the two
      versions are the same, as long as both can be seen. */
  lemma RenameUnnoticed(db: Db, from: bytes, k: bytes, now: nat)
    requires Visible(db, from, now) && Visible(db, k, now)
    ensures Version(Server([ApplyEvents(db, [Rename(from, k)])], 0), k, now) == Version(Server([db], 0), k, now)
            <==> db[from].version == db[k].version
  {
    assert [Rename(from, k)][..0] == [];
  }

  /** Changes made without `set`, removal or renaming are noticed only as far as expiry
      hides or reveals a version that is not zero: never on a key that was missing, and
      never on one that can be seen at both ends. */
  lemma ModifyUnnoticed(db: Db, es: seq<Event>, k: bytes, watchedAt: nat, now: nat)
    requires DeleteKey(k) !in es && Unmoved(es, k) && Sets(es, k) == 0
    ensures Version(Server([ApplyEvents(db, es)], 0), k, now) == Version(Server([db], 0), k, watchedAt)
            <==> StoredVersion(db, k) == 0
                 || (Visible(db, k, watchedAt) <==> Visible(ApplyEvents(db, es), k, now))
  {
    WatchExactly(db, es, k, watchedAt, now);
    UnmovedTrace(db, es, k);
  }
}
