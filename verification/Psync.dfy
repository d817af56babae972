/**
  The PSYNC protocol between a master and one replica, as a state machine.

  The master side is `handle_psync` (registration and catch-up under one lock, then
  the full or the partial branch, then live streaming); the replica side is
  `connect_to_master` and `stream_commands`. The socket is a FIFO of bytes behind
  the reply line. Either side may drop the link at any time, and the master may
  restart with a new replication id and an empty backlog.
 */
module Psync {
  import opened Bytes
  import opened CommandLog
  import opened Backlog

  const UNKNOWN: bytes := [QUESTION]  // the id a replica sends before its first sync

  /** What the master answers: resume where the replica stopped, or load a snapshot
      and continue from `offset`. `base` counts the commands before `offset`. */
  datatype Reply =
    | Continue
    | FullResync(replid: bytes, offset: nat, snapshot: seq<Command>, base: nat)

  /** The master's progress on a connection. */
  datatype Link =
    | NoLink
    | Snapshotting(offset: nat, base: nat)  // registered, snapshot not yet taken
    | FillingGap(offset: nat, base: nat)    // snapshot sent, gap not yet read
    | Live

  datatype Phase = Offline | Handshake | Streaming

  datatype State = State(
    // master
    replid: bytes,
    ring: Ring,
    link: Link,
    queue: seq<bytes>,  // pushes accepted for the replica, not yet written to the socket
    // socket, master to replica
    reply: Option<Reply>,
    wire: bytes,
    // replica
    phase: Phase,
    knownReplid: bytes,
    knownOffset: int,
    buf: bytes,
    // history
    logs: map<bytes, seq<Command>>,  // every command ever logged, by replication id
    loaded: seq<Command>,            // commands reflected in the last snapshot loaded
    startIndex: nat,                 // command index at which streaming started
    applied: seq<Command>            // commands applied from the stream since then
  ) {
    function Log(): (log: seq<Command>) {
      if replid in logs then logs[replid] else []
    }

    /** How many commands the replica has applied from the stream since its last full resync. */
    function Taken(): (p: nat) {
      if phase.Streaming? then |applied| else 0
    }

    /** The command index the replica has reached in the log it follows. */
    function Index(): (j: nat) {
      startIndex + |applied|
    }
  }

  datatype Step =
    | Push(cmd: Command)
    | Connect
    | SaveSnapshot
    | SendGap
    | Forward
    | Answer
    | Read(n: nat)
    | Drop
    | Restart(newReplid: bytes)

  predicate Enabled(s: State, step: Step) {
    match step
    case Push(cmd) => Loggable(cmd)
    case Connect => s.phase.Offline?
    case SaveSnapshot => s.link.Snapshotting?
    case SendGap => s.link.FillingGap?
    case Forward => s.link.Live? && s.queue != []
    case Answer => s.phase.Handshake? && s.reply.Some?
    case Read(n) => s.phase.Streaming? && 0 < n <= |s.wire|
    case Drop => !s.phase.Offline?
    case Restart(id) => id !in s.logs && id != UNKNOWN
  }

  function Disconnect(s: State): (s': State) {
    s.(link := NoLink, queue := [], reply := None, wire := [], buf := [], phase := Offline)
  }

  /** The decision and the registration `handle_psync` makes under the backlog's lock. */
  function Accept(s: State): (s': State)
    requires s.ring.Shaped()
  {
    var link := s.(queue := [], reply := None, wire := [], buf := [], phase := Handshake);
    if s.knownOffset >= 0 && s.ring.CanServePartial(s.knownReplid, s.replid, s.knownOffset) then
      link.(link := Live, reply := Some(Continue), wire := s.ring.ReadFrom(s.knownOffset))
    else
      link.(link := Snapshotting(s.ring.globalOffset, |s.Log()|))
  }

  /** The consuming loop of `stream_commands` on what one read delivered: it applies
      whole commands, and throws the rest of the buffer away on a parse error. */
  function Receive(s: State, n: nat): (s': State)
    requires n <= |s.wire|
  {
    var buf := s.buf + s.wire[..n];
    var d := Drain(buf);
    s.(wire := s.wire[n..],
       buf := if d.failed then [] else buf[d.consumed..],
       knownOffset := s.knownOffset + d.consumed,
       applied := s.applied + d.cmds)
  }

  function Next(s: State, step: Step): (s': State)
    requires s.ring.Shaped() && Enabled(s, step)
    ensures s'.ring.Shaped()
  {
    match step
    case Push(cmd) =>
      s.(ring := s.ring.Push(Encode(cmd)),
         logs := s.logs[s.replid := s.Log() + [cmd]],
         queue := if s.link.NoLink? then s.queue else s.queue + [Encode(cmd)])
    case Connect => Accept(s)
    case SaveSnapshot =>
      s.(link := FillingGap(s.link.offset, s.link.base),
         reply := Some(FullResync(s.replid, s.link.offset, s.Log(), s.link.base)))
    case SendGap => s.(link := Live, wire := s.wire + s.ring.ReadFrom(s.link.offset))
    case Forward => s.(wire := s.wire + s.queue[0], queue := s.queue[1..])
    case Answer =>
      var resumed := s.(phase := Streaming, reply := None);
      (match s.reply.value
       case Continue => resumed
       case FullResync(replid, offset, snapshot, base) =>
         resumed.(knownReplid := replid, knownOffset := offset,
                  loaded := snapshot, startIndex := base, applied := []))
    case Read(n) => Receive(s, n)
    case Drop => Disconnect(s)
    case Restart(id) =>
      Disconnect(s).(replid := id, ring := NewRing(s.ring.Capacity()), logs := s.logs[id := []])
  }

  predicate Initial(s: State) {
    && s.ring.Shaped() && s.ring == NewRing(s.ring.Capacity())
    && s.replid != UNKNOWN && s.logs == map[s.replid := []]
    && s == Disconnect(s)
    && s.knownReplid == UNKNOWN && s.knownOffset == -1
    && s.loaded == [] && s.startIndex == 0 && s.applied == []
  }

  // ----- the runs the guarantee is about -----

  ghost predicate AllLoggable(cmds: seq<Command>) {
    forall c | c in cmds :: Loggable(c)
  }

  /** The first `n` bytes of a stream end where a command ends. */
  ghost predicate OnBoundary(stream: bytes, n: nat)
    requires n <= |stream|
  {
    exists cmds: seq<Command> :: AllLoggable(cmds) && EncodeAll(cmds) == stream[..n]
  }

  /** Reads end on command boundaries; a full resync takes its snapshot before anything
      more is logged, and finds an empty gap. */
  ghost predicate Clean(s: State, step: Step)
    requires s.ring.Shaped() && Enabled(s, step)
  {
    match step
    case Read(n) => OnBoundary(s.wire, n)
    case SaveSnapshot => s.link.base == |s.Log()|
    case SendGap => s.ring.ReadFrom(s.link.offset) == []
    case _ => true
  }

  ghost predicate CleanRun(s: State, steps: seq<Step>)
    requires s.ring.Shaped()
    decreases |steps|
  {
    steps == [] ||
    (Enabled(s, steps[0]) && Clean(s, steps[0]) && CleanRun(Next(s, steps[0]), steps[1..]))
  }

  function Run(s: State, steps: seq<Step>): (s': State)
    requires s.ring.Shaped()
    decreases |steps|
  {
    if steps == [] || !Enabled(s, steps[0]) then s else Run(Next(s, steps[0]), steps[1..])
  }

  // ----- the invariant -----

  /** The bytes of the first `j` commands of a log. */
  function Offset(log: seq<Command>, j: nat): (n: nat)
    requires j <= |log|
  {
    |EncodeAll(log[..j])|
  }

  /** The commands the replica has taken are exactly the front of one master log, up to the
      offset it remembers: those behind its last snapshot, then every one after them. */
  ghost predicate Ledger(s: State) {
    if s.knownReplid == UNKNOWN then s.knownOffset == -1
    else
      && s.knownReplid in s.logs
      && var log := s.logs[s.knownReplid];
         && s.Index() <= |log|
         && s.applied == log[s.startIndex..s.Index()]
         && s.knownOffset == Offset(log, s.Index())
         && s.loaded == log[..s.startIndex]
  }

  /** The command index at which the bytes still on their way to the replica start. */
  function Pending(s: State): (p: nat) {
    match s.link
    case Snapshotting(_, base) => base
    case _ => if s.reply.Some? && s.reply.value.FullResync? then s.reply.value.base else s.Index()
  }

  /** The bytes in flight are exactly the log from `Pending` on. */
  ghost predicate InStep(s: State) {
    && Pending(s) <= |s.Log()|
    && s.wire + Flatten(s.queue) == EncodeAll(s.Log()[Pending(s)..])
  }

  ghost predicate LinkOk(s: State) {
    match s.link
    case NoLink => s == Disconnect(s)
    case Snapshotting(offset, base) =>
      s.phase.Handshake? && s.reply == None && s.wire == []
      && InStep(s) && offset == Offset(s.Log(), base)
    case FillingGap(offset, base) =>
      s.wire == [] && ReplyOk(s) && InStep(s) && Pending(s) == base && offset == Offset(s.Log(), base)
    case Live => ReplyOk(s) && InStep(s)
  }

  /** A reply in flight agrees with the master's log; once it is consumed, the replica
      follows this master. */
  ghost predicate ReplyOk(s: State) {
    match s.phase
    case Offline => false
    case Streaming => s.reply == None && s.knownReplid == s.replid
    case Handshake =>
      s.reply.Some? &&
      (match s.reply.value
       case Continue => s.knownReplid == s.replid
       case FullResync(replid, offset, snapshot, base) =>
         && replid == s.replid
         && base <= |s.Log()|
         && snapshot == s.Log()[..base]
         && offset == Offset(s.Log(), base))
  }

  ghost predicate MasterOk(s: State) {
    && s.replid in s.logs
    && UNKNOWN !in s.logs
    && (forall id | id in s.logs :: AllLoggable(s.logs[id]))
    && s.ring.Shaped() && Agrees(s.ring, EncodeAll(s.Log()))
  }

  ghost predicate Inv(s: State) {
    MasterOk(s) && Ledger(s) && LinkOk(s) && s.buf == []
  }

  // ----- sequence facts -----

  lemma {:induction false} FlattenSnoc(pushes: seq<bytes>, last: bytes)
    ensures Flatten(pushes + [last]) == Flatten(pushes) + last
  {
    if pushes != [] {
      assert (pushes + [last])[1..] == pushes[1..] + [last];
      FlattenSnoc(pushes[1..], last);
    }
  }

  /** A log is the bytes before an index followed by the bytes after it. */
  lemma SplitLog(log: seq<Command>, j: nat)
    requires j <= |log|
    ensures EncodeAll(log) == EncodeAll(log[..j]) + EncodeAll(log[j..])
    ensures EncodeAll(log)[Offset(log, j)..] == EncodeAll(log[j..])
  {
    EncodeAllAppend(log[..j], log[j..]);
    assert log[..j] + log[j..] == log;
  }

  lemma EmptyLog(log: seq<Command>)
    ensures EncodeAll(log) == [] <==> log == []
  {
  }

  // ----- every clean step keeps the invariant -----

  lemma PushKeepsMaster(s: State, cmd: Command)
    requires MasterOk(s) && Loggable(cmd)
    ensures MasterOk(Next(s, Push(cmd)))
    ensures EncodeAll(s.Log() + [cmd]) == EncodeAll(s.Log()) + Encode(cmd)
  {
    EncodeAllAppend(s.Log(), [cmd]);
    EncodeOne(cmd);
    PushAgrees(s.ring, EncodeAll(s.Log()), Encode(cmd));
  }

  lemma ExtendStream(log: seq<Command>, p: nat, wire: bytes, queue: seq<bytes>, cmd: Command)
    requires p <= |log| && wire + Flatten(queue) == EncodeAll(log[p..])
    ensures wire + Flatten(queue + [Encode(cmd)]) == EncodeAll((log + [cmd])[p..])
  {
    hide Encode;
    assert (log + [cmd])[p..] == log[p..] + [cmd];
    EncodeAllAppend(log[p..], [cmd]);
    EncodeOne(cmd);
    FlattenSnoc(queue, Encode(cmd));
    ConcatAssociative(wire, Flatten(queue), Encode(cmd));
  }

  lemma PushKeepsLink(s: State, cmd: Command)
    requires Inv(s) && Loggable(cmd)
    ensures LinkOk(Next(s, Push(cmd)))
  {
    hide Encode, EncodeAll, Ledger, Agrees;
    var s' := Next(s, Push(cmd));
    if !s.link.NoLink? {
      var p := Pending(s);
      ExtendStream(s.Log(), p, s.wire, s.queue, cmd);
      assert s'.Log()[..p] == s.Log()[..p];
      if s.reply.Some? && s.reply.value.FullResync? {
        assert s'.Log()[..s.reply.value.base] == s.Log()[..s.reply.value.base];
      }
    }
  }

  lemma PushKeepsLedger(s: State, cmd: Command)
    requires Inv(s) && Loggable(cmd)
    ensures Ledger(Next(s, Push(cmd)))
  {
    hide Encode, EncodeAll, LinkOk, Agrees;
    var s' := Next(s, Push(cmd));
    if s.knownReplid == s.replid {
      var log, log' := s.logs[s.knownReplid], s'.logs[s.knownReplid];
      assert log'[..s.Index()] == log[..s.Index()];
      assert log'[s.startIndex..s.Index()] == log[s.startIndex..s.Index()];
      assert log'[..s.startIndex] == log[..s.startIndex];
    }
  }

  lemma ConnectKeeps(s: State)
    requires Inv(s) && Enabled(s, Connect)
    ensures Inv(Next(s, Connect))
  {
    hide EncodeAll;
    EmptyLog([]);
    ConnectLink(s);
    hide Agrees, AllLoggable, ReplyOk, LinkOk;
  }

  lemma ConnectLink(s: State)
    requires Inv(s) && Enabled(s, Connect)
    ensures LinkOk(Next(s, Connect))
  {
    hide EncodeAll, AllLoggable;
    EmptyLog([]);
    var s', log := Next(s, Connect), s.Log();
    if s'.link.Live? {
      SplitLog(log, s.Index());
      ReadFromIsSuffix(s.ring, EncodeAll(log), s.knownOffset);
      assert s'.wire + Flatten(s'.queue) == s'.wire;
    } else {
      assert log[|log|..] == [] && log[..|log|] == log;
    }
  }

  lemma SaveSnapshotKeeps(s: State)
    requires Inv(s) && Enabled(s, SaveSnapshot) && Clean(s, SaveSnapshot)
    ensures Inv(Next(s, SaveSnapshot))
  {
    hide Encode, EncodeAll;
    assert s.Log()[..|s.Log()|] == s.Log();
  }

  lemma SendGapKeeps(s: State)
    requires Inv(s) && Enabled(s, SendGap) && Clean(s, SendGap)
    ensures Inv(Next(s, SendGap))
  {
    hide Encode, EncodeAll;
    assert Next(s, SendGap).wire == s.wire;
  }

  lemma ForwardKeeps(s: State)
    requires Inv(s) && Enabled(s, Forward)
    ensures Inv(Next(s, Forward))
  {
    hide Encode, EncodeAll;
    var s' := Next(s, Forward);
    assert s'.wire + Flatten(s'.queue) == s.wire + Flatten(s.queue);
  }

  lemma AnswerKeeps(s: State)
    requires Inv(s) && Enabled(s, Answer)
    ensures Inv(Next(s, Answer))
  {
    hide Encode, EncodeAll;
    var s' := Next(s, Answer);
    assert s.reply.value.FullResync? ==> s'.applied == s.Log()[s'.startIndex..s'.Index()];
  }

  /** Reading up to a boundary applies exactly the next commands of the log. */
  lemma ReadDrains(log: seq<Command>, wire: bytes, later: bytes, n: nat) returns (k: nat)
    requires AllLoggable(log) && wire + later == EncodeAll(log)
    requires n <= |wire| && OnBoundary(wire, n)
    ensures k <= |log| && Offset(log, k) == n
    ensures Drain(wire[..n]) == Drained(log[..k], n, false)
    ensures wire[n..] + later == EncodeAll(log[k..])
  {
    hide Drain, Encode, EncodeAll, Whole;
    var cmds: seq<Command> :| AllLoggable(cmds) && EncodeAll(cmds) == wire[..n];
    LogRoundTrip(cmds);
    hide AllLoggable;
    assert EncodeAll(log)[..n] == wire[..n];
    TornLogRecovery(log, n) by { AllLoggableMeans(log); }
    k := Whole(log, n);
    SplitLog(log, k);
    assert wire[n..] + later == (wire + later)[n..];
  }

  lemma AllLoggableMeans(cmds: seq<Command>)
    requires AllLoggable(cmds)
    ensures forall c | c in cmds :: Loggable(c)
  {
  }

  lemma ReadKeeps(s: State, n: nat)
    requires Inv(s) && Enabled(s, Read(n)) && OnBoundary(s.wire, n)
    ensures Inv(Next(s, Read(n)))
  {
    hide Drain, EncodeAll, OnBoundary, Agrees, Ledger;
    assert s.ring.Shaped();
    FollowsMaster(s);
    MasterFrame(s, Next(s, Read(n)));
    var log, j := s.Log(), s.Index();
    assert AllLoggable(log);
    hide MasterOk, AllLoggable;
    var k := ReadRest(log, j, s.wire, Flatten(s.queue), n);
    assert s.buf + s.wire[..n] == s.wire[..n] && s.wire[..n][n..] == [];
    assert log[j..][..k] == log[j..j + k];
    LedgerAdvances(s, Next(s, Read(n)), k);
  }

  lemma CutKeeps(s: State, step: Step)
    requires Inv(s) && Enabled(s, step) && (step.Drop? || step.Restart?)
    ensures Inv(Next(s, step))
  {
    if step.Restart? {
      assert EncodeAll([]) == [];
      assert Agrees(NewRing(s.ring.Capacity()), []);
    }
  }

  lemma StepKeeps(s: State, step: Step)
    requires Inv(s) && Enabled(s, step) && Clean(s, step)
    ensures Inv(Next(s, step))
  {
    match step
    case Push(cmd) =>
      PushKeepsMaster(s, cmd);
      PushKeepsLink(s, cmd);
      PushKeepsLedger(s, cmd);
    case Connect => ConnectKeeps(s);
    case Read(n) => ReadKeeps(s, n);
    case Drop => CutKeeps(s, step);
    case Restart(_) => CutKeeps(s, step);
    case SaveSnapshot => SaveSnapshotKeeps(s);
    case SendGap => SendGapKeeps(s);
    case Forward => ForwardKeeps(s);
    case Answer => AnswerKeeps(s);
  }

  lemma {:induction false} RunKeeps(s: State, steps: seq<Step>)
    requires Inv(s) && CleanRun(s, steps)
    ensures Inv(Run(s, steps))
    decreases |steps|
  {
    if steps != [] {
      StepKeeps(s, steps[0]);
      RunKeeps(Next(s, steps[0]), steps[1..]);
    }
  }

  /** Exactly-once replication: after any clean run of pushes, drops, reconnects and
      master restarts, the commands behind the replica's last snapshot followed by those
      it applied since are exactly the front of the log of the master it follows, each once
      and in order, and the offset it remembers is where they end in that log. */
  lemma ExactlyOnce(s: State, steps: seq<Step>)
    requires Initial(s) && CleanRun(s, steps)
    ensures var t := Run(s, steps);
            t.knownReplid != UNKNOWN ==>
              && t.knownReplid in t.logs
              && var log, done := t.logs[t.knownReplid], t.loaded + t.applied;
                 && |done| <= |log| && done == log[..|done|]
                 && t.knownOffset == |EncodeAll(done)|
  {
    hide Run, CleanRun, Inv, Initial, EncodeAll;
    StartsIn(s);
    RunKeeps(s, steps);
    InvShaped(s);
    var t := Run(s, steps);
    if t.knownReplid != UNKNOWN {
      LedgerMeans(t);
    }
  }

  lemma InvShaped(s: State)
    requires Inv(s)
    ensures s.ring.Shaped()
  {
  }

  lemma StartsIn(s: State)
    requires Initial(s)
    ensures Inv(s)
  {
    EmptyLog([]);
  }

  lemma LedgerMeans(t: State)
    requires Inv(t) && t.knownReplid != UNKNOWN
    ensures t.knownReplid in t.logs
    ensures var log, done := t.logs[t.knownReplid], t.loaded + t.applied;
            && |done| <= |log| && done == log[..|done|]
            && t.knownOffset == |EncodeAll(done)|
  {
    hide EncodeAll, LinkOk, MasterOk;
    var log := t.logs[t.knownReplid];
    assert log[..t.startIndex] + log[t.startIndex..t.Index()] == log[..t.Index()];
  }

  /** Nothing is held back: once a live link has drained, the replica has applied
      everything the master ever logged from the start of its stream. */
  lemma DrainedMeansCaughtUp(s: State, steps: seq<Step>)
    requires Initial(s) && CleanRun(s, steps)
    ensures var t := Run(s, steps);
            t.link.Live? && t.phase.Streaming? && t.wire == [] && t.queue == [] ==>
              && t.loaded + t.applied == t.Log()
              && t.knownOffset == t.ring.globalOffset
  {
    hide Run, CleanRun, Inv, Initial, EncodeAll;
    StartsIn(s);
    RunKeeps(s, steps);
    InvShaped(s);
    var t := Run(s, steps);
    if t.link.Live? && t.phase.Streaming? && t.wire == [] && t.queue == [] {
      CaughtUp(t);
    }
  }

  lemma CaughtUp(t: State)
    requires Inv(t) && t.link.Live? && t.phase.Streaming? && t.wire == [] && t.queue == []
    ensures t.loaded + t.applied == t.Log() && t.knownOffset == t.ring.globalOffset
  {
    hide Encode, EncodeAll;
    var log, j := t.Log(), t.Index();
    EmptyLog(log[j..]);
    assert log[..j] == log && log[..t.startIndex] + log[t.startIndex..] == log;
  }

  /** A reconnecting replica is resumed, without a snapshot, if and only if it follows
      this master and what was logged since it stopped still fits the ring; what it is
      then sent is exactly that. */
  lemma ResumedExactly(s: State)
    requires Inv(s) && s.phase.Offline?
    ensures var s' := Next(s, Connect);
            && (s'.link.Live? <==>
                  s.knownReplid == s.replid && |EncodeAll(s.Log()[s.Index()..])| <= s.ring.Capacity())
            && (s'.link.Live? ==> s'.reply == Some(Continue) && s'.wire == EncodeAll(s.Log()[s.Index()..]))
            && (!s'.link.Live? ==> s'.link == Snapshotting(|EncodeAll(s.Log())|, |s.Log()|))
  {
    hide Encode, EncodeAll;
    if s.knownReplid == s.replid {
      SplitLog(s.Log(), s.Index());
      ReadFromIsSuffix(s.ring, EncodeAll(s.Log()), s.knownOffset);
    }
  }

  // ----- reads that split a command -----

  /** A read that ends inside a command applies the whole commands before it, throws the
      rest away, and leaves bytes in flight that are too short for the rest of the log. */
  lemma TornRead(log: seq<Command>, wire: bytes, later: bytes, n: nat) returns (k: nat)
    requires AllLoggable(log) && wire + later == EncodeAll(log)
    requires n <= |wire| && !OnBoundary(wire, n)
    ensures k <= |log| && Drain(wire[..n]) == Drained(log[..k], Offset(log, k), true)
    ensures Offset(log, k) < n
    ensures |wire[n..] + later| < |EncodeAll(log[k..])|
  {
    hide Drain, Encode;
    assert EncodeAll(log)[..n] == wire[..n];
    TornLogRecovery(log, n);
    k := Whole(log, n);
    WholeIsLargest(log, n, k);
    SplitLog(log, k);
    assert AllLoggable(log[..k]) && EncodeAll(log[..k]) == EncodeAll(log)[..Offset(log, k)];
  }

  /** A read that splits a command discards its bytes: the bytes still in flight
      match the rest of the log if and only if the read ends on a boundary. */
  lemma TornReadLosesStep(s: State, n: nat)
    requires Inv(s) && s.link.Live? && Enabled(s, Read(n))
    ensures InStep(Next(s, Read(n))) <==> OnBoundary(s.wire, n)
  {
    hide OnBoundary, InStep;
    if OnBoundary(s.wire, n) {
      hide MasterOk, Ledger, LinkOk;
      ReadKeeps(s, n);
      InvInStep(Next(s, Read(n)));
    } else {
      TornOutOfStep(s, n);
    }
  }

  lemma InvInStep(s: State)
    requires Inv(s) && s.link.Live?
    ensures InStep(s)
  {
    hide Encode, EncodeAll, Agrees, Ledger;
  }

  lemma TornOutOfStep(s: State, n: nat)
    requires Inv(s) && s.link.Live? && Enabled(s, Read(n)) && !OnBoundary(s.wire, n)
    ensures !InStep(Next(s, Read(n)))
  {
    hide OnBoundary, EncodeAll, Drain, MasterOk, Ledger, InStep;
    var k := TornReceive(s, n);
    var s' := Next(s, Read(n));
    assert s'.link.Live? && s'.reply == None && s'.Log() == s.Log();
    assert s'.Index() == s.Index() + k;
    hide LinkOk, Next, ReplyOk;
    assert s.Log()[s.Index()..][k..] == s.Log()[s.Index() + k..];
    ShortOutOfStep(s');
  }

  lemma ShortOutOfStep(s: State)
    requires s.link.Live? && s.reply == None && s.Index() <= |s.Log()|
    requires |s.wire + Flatten(s.queue)| < |EncodeAll(s.Log()[s.Index()..])|
    ensures !InStep(s)
  {
    hide EncodeAll, Flatten;
  }

  /** Too few bytes are buffered and in flight for the replica to reach the master. */
  predicate Lags(s: State) {
    && s.ring.Shaped() && s.link.Live? && s.phase.Streaming?
    && s.knownOffset + |s.buf| + |s.wire| + |Flatten(s.queue)| < s.ring.globalOffset
  }

  /** After a read that splits a command the replica lags. */
  lemma TornReadLags(s: State, n: nat)
    requires Inv(s) && Enabled(s, Read(n)) && !OnBoundary(s.wire, n)
    ensures Lags(Next(s, Read(n)))
  {
    hide Drain, Encode, EncodeAll, OnBoundary;
    var log, j := s.Log(), s.Index();
    SplitLog(log, j);
    var k := TornRead(log[j..], s.wire, Flatten(s.queue), n);
    assert s.buf + s.wire[..n] == s.wire[..n];
    assert |s.wire + Flatten(s.queue)| == |EncodeAll(log[j..])|;
  }

  /** It goes on lagging for as long as the link lasts, whatever is read or pushed. */
  lemma LagLasts(s: State, step: Step)
    requires Lags(s) && Enabled(s, step) && !step.Drop? && !step.Restart?
    ensures Lags(Next(s, step))
  {
    hide Drain, Encode, Loggable;
    match step
    case Push(cmd) => FlattenSnoc(s.queue, Encode(cmd));
    case Forward => assert |Flatten(s.queue)| == |s.queue[0]| + |Flatten(s.queue[1..])|;
    case Read(n) =>
    case _ =>
  }

  lemma {:induction false} LagLastsRun(s: State, steps: seq<Step>)
    requires Lags(s) && forall step | step in steps :: !step.Drop? && !step.Restart?
    ensures Lags(Run(s, steps))
    decreases |steps|
  {
    hide Lags, Enabled;
    assert s.ring.Shaped() by { LagsShaped(s); }
    if steps != [] && Enabled(s, steps[0]) {
      LagLasts(s, steps[0]);
      LagLastsRun(Next(s, steps[0]), steps[1..]);
    }
  }

  lemma LagsShaped(s: State)
    requires Lags(s)
    ensures s.ring.Shaped()
  {
  }

  /** But no longer: what it remembers is still a command boundary up to which it holds
      everything once, so that a drop right after the read restores the invariant. */
  lemma DropRecovers(s: State, n: nat)
    requires Inv(s) && Enabled(s, Read(n))
    ensures Inv(Disconnect(Next(s, Read(n))))
  {
    assert s.ring.Shaped();
    hide Next, Enabled;
    if OnBoundary(s.wire, n) {
      ReadKeeps(s, n);
    } else {
      TornKeepsLedger(s, n);
    }
    hide MasterOk, Ledger, LinkOk;
    DropRestores(Next(s, Read(n)));
  }

  lemma TornKeepsLedger(s: State, n: nat)
    requires Inv(s) && Enabled(s, Read(n)) && !OnBoundary(s.wire, n)
    ensures var s' := Next(s, Read(n)); MasterOk(s') && Ledger(s')
  {
    hide Next, Enabled, OnBoundary, LinkOk, EncodeAll;
    var k := TornReceive(s, n);
    hide MasterOk, Ledger;
    MasterFrame(s, Next(s, Read(n)));
    LedgerAdvances(s, Next(s, Read(n)), k);
  }

  lemma DropRestores(s: State)
    requires MasterOk(s) && Ledger(s)
    ensures Inv(Disconnect(s))
  {
    hide Encode, EncodeAll, Agrees, AllLoggable;
  }

  lemma MasterFrame(s: State, s': State)
    requires MasterOk(s) && s'.replid == s.replid && s'.logs == s.logs && s'.ring == s.ring
    ensures MasterOk(s')
  {
  }

  /** What a read that splits a command applies. */
  lemma TornReceive(s: State, n: nat) returns (k: nat)
    requires Inv(s) && Enabled(s, Read(n)) && !OnBoundary(s.wire, n)
    ensures s.knownReplid == s.replid && s.replid in s.logs && s.replid != UNKNOWN && s.Index() + k <= |s.Log()|
    ensures var s', rest := Next(s, Read(n)), s.Log()[s.Index()..];
            && s'.applied == s.applied + rest[..k]
            && s'.knownOffset == s.knownOffset + Offset(rest, k)
            && |s'.wire + Flatten(s'.queue)| < |EncodeAll(rest[k..])|
            && s' == s.(wire := s'.wire, buf := [], knownOffset := s'.knownOffset, applied := s'.applied)
            && |rest[..k]| == k
  {
    hide Ledger, Drain, Encode, EncodeAll, OnBoundary, Agrees;
    FollowsMaster(s);
    var rest := s.Log()[s.Index()..];
    assert AllLoggable(rest);
    hide AllLoggable;
    assert s.wire + Flatten(s.queue) == EncodeAll(rest);
    k := TornRead(rest, s.wire, Flatten(s.queue), n);
    assert s.buf + s.wire[..n] == s.wire[..n];
  }

  lemma FollowsMaster(s: State)
    requires Inv(s) && s.phase.Streaming?
    ensures s.knownReplid == s.replid && s.replid != UNKNOWN && s.Index() <= |s.Log()|
  {
    hide EncodeAll, Agrees;
  }

  /** Applying the next `k` commands of the log and counting their bytes keeps the ledger. */
  lemma LedgerAdvances(s: State, s': State, k: nat)
    requires Ledger(s) && s.knownReplid in s.logs && s.Index() + k <= |s.logs[s.knownReplid]|
    requires s'.knownReplid == s.knownReplid != UNKNOWN && s'.logs == s.logs
    requires s'.loaded == s.loaded && s'.startIndex == s.startIndex
    requires s'.applied == s.applied + s.logs[s.knownReplid][s.Index()..][..k]
    requires s'.knownOffset == s.knownOffset + Offset(s.logs[s.knownReplid][s.Index()..], k)
    ensures Ledger(s')
  {
    hide EncodeAll;
    var log, j := s.logs[s.knownReplid], s.Index();
    assert log[j..][..k] == log[j..j + k];
    assert log[s.startIndex..j] + log[j..j + k] == log[s.startIndex..j + k];
    assert log[..j + k] == log[..j] + log[j..j + k];
    EncodeAllAppend(log[..j], log[j..j + k]);
  }

  // ----- full resyncs in general -----

  /** Where a full resync from log index `base` stands, with `since` the commands its gap
      repeated: bytes buffered for the replica are exactly what is left of the gap and of
      the log from `base` on, and what the replica applied is exactly what went before. */
  ghost predicate Carrying(s: State, base: nat, since: seq<Command>) {
    && MasterOk(s) && s.buf == []
    && base + |since| <= |s.Log()| && since == s.Log()[base..base + |since|]
    && s.Taken() <= |since + s.Log()[base..]|
    && s.wire + Flatten(s.queue) == EncodeAll((since + s.Log()[base..])[s.Taken()..])
    && LinkCarries(s, base, since)
    && (s.link.Snapshotting? || ReplyCarries(s, base, since))
  }

  ghost predicate LinkCarries(s: State, base: nat, since: seq<Command>)
    requires base <= |s.Log()|
  {
    match s.link
    case NoLink => false
    case Snapshotting(offset, b) =>
      b == base && offset == Offset(s.Log(), base) && since == [] && s.wire == []
      && s.phase.Handshake? && s.reply == None
    case FillingGap(offset, b) =>
      b == base && offset == Offset(s.Log(), base) && since == [] && s.wire == [] && s.Taken() == 0
    case Live => true
  }

  ghost predicate ReplyCarries(s: State, base: nat, since: seq<Command>)
    requires base <= |s.Log()| && s.Taken() <= |since + s.Log()[base..]|
  {
    match s.phase
    case Offline => false
    case Handshake =>
      && s.reply.Some? && s.reply.value.FullResync?
      && var r := s.reply.value;
         && r.replid == s.replid && r.offset == Offset(s.Log(), base) && r.base == base
         && base <= |r.snapshot| <= |s.Log()| && r.snapshot == s.Log()[..|r.snapshot|]
    case Streaming =>
      && s.reply == None && s.knownReplid == s.replid && s.startIndex == base
      && base <= |s.loaded| <= |s.Log()| && s.loaded == s.Log()[..|s.loaded|]
      && s.applied == (since + s.Log()[base..])[..s.Taken()]
      && s.knownOffset == Offset(s.Log(), base) + |EncodeAll(s.applied)|
  }

  /** The snapshot, sent or loaded, ends where the stream starts. */
  predicate Tight(s: State, base: nat) {
    && (s.reply.Some? && s.reply.value.FullResync? ==> |s.reply.value.snapshot| == base)
    && (s.phase.Streaming? ==> |s.loaded| == base)
  }

  /** The link holds, and reads end on command boundaries. */
  ghost predicate Undisturbed(s: State, step: Step) {
    match step
    case Read(n) => n <= |s.wire| && OnBoundary(s.wire, n)
    case Drop => false
    case Restart(_) => false
    case _ => true
  }

  ghost predicate LinkedRun(s: State, steps: seq<Step>)
    requires s.ring.Shaped()
    decreases |steps|
  {
    steps == [] ||
    (Enabled(s, steps[0]) && Undisturbed(s, steps[0]) && LinkedRun(Next(s, steps[0]), steps[1..]))
  }

  /** One more command at the end of the log. */
  lemma LogGrows(log: seq<Command>, cmd: Command, base: nat, since: seq<Command>)
    requires base + |since| <= |log|
    ensures forall k | 0 <= k <= |log| :: (log + [cmd])[..k] == log[..k]
    ensures (log + [cmd])[base..base + |since|] == log[base..base + |since|]
    ensures since + (log + [cmd])[base..] == since + log[base..] + [cmd]
  {
  }

  lemma CarryPush(s: State, base: nat, since: seq<Command>, cmd: Command)
    requires Carrying(s, base, since) && Loggable(cmd)
    ensures Carrying(Next(s, Push(cmd)), base, since)
  {
    hide Encode, EncodeAll, Agrees, Loggable;
    PushKeepsMaster(s, cmd);
    hide MasterOk;
    var sent, p := since + s.Log()[base..], s.Taken();
    assert Next(s, Push(cmd)).Log() == s.Log() + [cmd];
    LogGrows(s.Log(), cmd, base, since);
    assert sent[p..] + [cmd] == (sent + [cmd])[p..] && (sent + [cmd])[..p] == sent[..p];
    ExtendStream(sent, p, s.wire, s.queue, cmd);
  }

  /** Reading up to a boundary takes the next commands of what is being sent. */
  lemma ReadRest(sent: seq<Command>, p: nat, wire: bytes, later: bytes, n: nat) returns (k: nat)
    requires p <= |sent| && AllLoggable(sent) && wire + later == EncodeAll(sent[p..])
    requires n <= |wire| && OnBoundary(wire, n)
    ensures p + k <= |sent| && Drain(wire[..n]) == Drained(sent[p..p + k], n, false)
    ensures wire[n..] + later == EncodeAll(sent[p + k..])
    ensures sent[..p] + sent[p..p + k] == sent[..p + k]
    ensures |EncodeAll(sent[p..p + k])| == n && |EncodeAll(sent[..p + k])| == |EncodeAll(sent[..p])| + n
  {
    hide Drain, Encode, EncodeAll, OnBoundary;
    k := ReadDrains(sent[p..], wire, later, n);
    assert sent[p..][..k] == sent[p..p + k] && sent[p..][k..] == sent[p + k..];
    assert sent[..p] + sent[p..p + k] == sent[..p + k];
    EncodeAllAppend(sent[..p], sent[p..p + k]);
  }

  lemma CarryRead(s: State, base: nat, since: seq<Command>, n: nat)
    requires Carrying(s, base, since) && Enabled(s, Read(n)) && OnBoundary(s.wire, n)
    ensures Carrying(Next(s, Read(n)), base, since)
  {
    hide Drain, EncodeAll, OnBoundary, Agrees;
    assert s.ring.Shaped();
    MasterFrame(s, Next(s, Read(n)));
    var sent, p := since + s.Log()[base..], s.Taken();
    assert AllLoggable(sent);
    hide MasterOk, AllLoggable;
    var k := ReadRest(sent, p, s.wire, Flatten(s.queue), n);
    assert s.buf + s.wire[..n] == s.wire[..n] && s.wire[..n][n..] == [];
  }

  /** The gap, if it is not empty, is everything logged since registration once more. */
  lemma CarryGap(s: State, base: nat) returns (since: seq<Command>)
    requires Carrying(s, base, []) && s.link.FillingGap?
    ensures Carrying(Next(s, SendGap), base, since)
    ensures since == [] <==> s.ring.ReadFrom(s.link.offset) == []
    ensures since == [] || since == s.Log()[base..]
    ensures since == [] <==> s.Log()[base..] == [] || |EncodeAll(s.Log()[base..])| > s.ring.Capacity()
    ensures Next(s, SendGap).wire == EncodeAll(since)
  {
    hide Encode, EncodeAll, AllLoggable;
    var log := s.Log();
    var gap := s.ring.ReadFrom(s.link.offset);
    SplitLog(log, base);
    ReadFromIsSuffix(s.ring, EncodeAll(log), s.link.offset);
    EmptyLog(log[base..]);
    EmptyLog([]);
    assert [] + log[base..] == log[base..] && log[base..][0..] == log[base..];
    if gap == [] {
      since := [];
    } else {
      since := log[base..];
      EncodeAllAppend(since, since);
      assert log[base..base + |since|] == since;
      assert (since + log[base..])[0..] == since + since && (since + since)[..0] == [];
    }
  }

  lemma CarryOther(s: State, base: nat, since: seq<Command>, step: Step)
    requires Carrying(s, base, since) && Enabled(s, step)
    requires step.SaveSnapshot? || step.Forward? || step.Answer?
    ensures Carrying(Next(s, step), base, since)
  {
    hide Encode, EncodeAll, Agrees, AllLoggable;
    EmptyLog([]);
    var s' := Next(s, step);
    assert s.Log()[..|s.Log()|] == s.Log();
    assert (since + s.Log()[base..])[..0] == [];
    if step.Forward? {
      assert s'.wire + Flatten(s'.queue) == s.wire + Flatten(s.queue);
    }
  }

  /** One step of a full resync, and whether it keeps each command from being held twice. */
  lemma CarryStep(s: State, base: nat, since: seq<Command>, step: Step) returns (since': seq<Command>)
    requires Carrying(s, base, since) && Enabled(s, step) && Undisturbed(s, step)
    ensures Carrying(Next(s, step), base, since')
    ensures Tight(Next(s, step), base) && since' == [] <==> Tight(s, base) && since == [] && Clean(s, step)
  {
    since' := since;
    match step
    case Push(cmd) => CarryPush(s, base, since, cmd);
    case Read(n) => CarryRead(s, base, since, n);
    case SendGap => since' := CarryGap(s, base);
    case SaveSnapshot => CarryOther(s, base, since, step);
    case Forward => CarryOther(s, base, since, step);
    case Answer => CarryOther(s, base, since, step);
    case Connect =>
  }

  lemma {:induction false} CarryRun(s: State, base: nat, since: seq<Command>, steps: seq<Step>)
    returns (since': seq<Command>)
    requires Carrying(s, base, since) && LinkedRun(s, steps)
    ensures Carrying(Run(s, steps), base, since')
    ensures Tight(Run(s, steps), base) && since' == [] <==> Tight(s, base) && since == [] && CleanRun(s, steps)
    decreases |steps|
  {
    assert s.ring.Shaped();
    hide Carrying, Clean, Tight;
    since' := since;
    if steps != [] {
      var next := CarryStep(s, base, since, steps[0]);
      since' := CarryRun(Next(s, steps[0]), base, next, steps[1..]);
    }
  }

  lemma ResyncStarts(s: State)
    requires MasterOk(s) && Enabled(s, Connect) && Next(s, Connect).link.Snapshotting?
    ensures Carrying(Next(s, Connect), |s.Log()|, []) && Tight(Next(s, Connect), |s.Log()|)
  {
    hide Encode, EncodeAll, AllLoggable;
    var base, s' := |s.Log()|, Next(s, Connect);
    EmptyLog([]);
    assert s'.Log() == s.Log() && s.Log()[..base] == s.Log() && s.Log()[base..] == [] == [] + [];
    var none: seq<Command> := [];
    assert (none + s.Log()[base..])[0..] == none && Flatten(s'.queue) == [];
  }

  /** Every full resync is at least once: whatever the replica held or remembered before,
      and whatever is logged meanwhile, a replica that has drained its link holds in its
      snapshot the log up to where the snapshot was taken, and has applied the log from
      where the resync began, `again` commands of it twice over; its offset is past the
      master's by as many bytes as were repeated. It is exactly once if and only if the
      run was clean. */
  lemma FullResyncDelivers(s: State, steps: seq<Step>)
    requires MasterOk(s) && Enabled(s, Connect) && Next(s, Connect).link.Snapshotting?
    requires LinkedRun(Next(s, Connect), steps)
    ensures var base, t := |s.Log()|, Run(Next(s, Connect), steps);
            var log := t.Log();
            t.link.Live? && t.phase.Streaming? && t.wire == [] && t.queue == [] ==>
              && base <= |t.loaded| <= |log| && t.loaded == log[..|t.loaded|]
              && |log| - base <= |t.applied|
              && var again := |t.applied| - (|log| - base);
                 && base + again <= |log|
                 && t.applied == log[base..base + again] + log[base..]
                 && t.knownOffset == t.ring.globalOffset + |EncodeAll(log[base..base + again])|
                 && (t.loaded + t.applied == log <==> CleanRun(Next(s, Connect), steps))
  {
    hide Encode, EncodeAll, AllLoggable, Clean;
    var base, s' := |s.Log()|, Next(s, Connect);
    ResyncStarts(s);
    var since := CarryRun(s', base, [], steps);
    var t := Run(s', steps);
    hide Run, CleanRun, Carrying, LinkedRun, Tight;
    if t.link.Live? && t.phase.Streaming? && t.wire == [] && t.queue == [] {
      DrainedResync(t, base, since);
    }
  }

  lemma DrainedResync(t: State, base: nat, since: seq<Command>)
    requires Carrying(t, base, since)
    requires t.link.Live? && t.phase.Streaming? && t.wire == [] && t.queue == []
    ensures var log := t.Log();
            && base <= |t.loaded| <= |log| && t.loaded == log[..|t.loaded|]
            && base + |since| <= |log| && since == log[base..base + |since|]
            && t.applied == since + log[base..]
            && |t.applied| == |since| + (|log| - base)
            && t.knownOffset == t.ring.globalOffset + |EncodeAll(since)|
            && (t.loaded + t.applied == log <==> Tight(t, base) && since == [])
  {
    hide Encode, EncodeAll, AllLoggable;
    var log, sent := t.Log(), since + t.Log()[base..];
    EmptyLog(sent[t.Taken()..]);
    assert sent[..|sent|] == sent;
    EncodeAllAppend(since, log[base..]);
    SplitLog(log, base);
    assert log[..base] + ([] + log[base..]) == log;
    assert |t.loaded + t.applied| == |t.loaded| + |since| + (|log| - base);
  }

  /** The gap of a full resync repeats what the replica's queue already carries. With
      `since` the commands logged since registration, the gap is empty if and only if
      `since` is empty or no longer fits the ring; otherwise the replica is sent every
      command of `since` twice, and its offset runs past the master's. */
  lemma GapRepeatsQueue(s: State, base: nat)
    requires Carrying(s, base, []) && s.link.FillingGap?
    ensures var since, s' := s.Log()[base..], Next(s, SendGap);
            && (s'.wire == [] <==> since == [] || |EncodeAll(since)| > s.ring.Capacity())
            && (s'.wire != [] ==>
                  && Drain(s'.wire + Flatten(s'.queue)).cmds == since + since
                  && s.link.offset + Drain(s'.wire + Flatten(s'.queue)).consumed > s.ring.globalOffset)
  {
    hide Drain, Encode, EncodeAll, Loggable;
    var log, since := s.Log(), s.Log()[base..];
    var repeated := CarryGap(s, base);
    EmptyLog(repeated);
    SplitLog(log, base);
    assert AllLoggable(since + since);
    assert ([] + since)[0..] == since;
    if repeated != [] {
      EncodeAllAppend(since, since);
      LogRoundTrip(since + since);
    }
  }

  /** What an offset past the truth costs: a replica whose log position is `j` but whose
      offset is `d` bytes further is, when resumed, never sent those `d` bytes. */
  lemma OffsetPastSkips(s: State, j: nat, d: nat)
    requires MasterOk(s) && Enabled(s, Connect) && s.knownReplid == s.replid
    requires j <= |s.Log()| && s.knownOffset == Offset(s.Log(), j) + d
    ensures var s' := Next(s, Connect);
            s'.link.Live? ==>
              && d <= |EncodeAll(s.Log()[j..])|
              && s'.wire == EncodeAll(s.Log()[j..])[d..]
  {
    hide Encode, EncodeAll;
    SplitLog(s.Log(), j);
    ReadFromIsSuffix(s.ring, EncodeAll(s.Log()), s.knownOffset);
  }
}
