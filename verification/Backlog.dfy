/**
  The replication backlog: a ring buffer that keeps the most recent bytes of the
  master's replication log, and the list of live replicas it feeds.
 */
module Backlog {
  import opened Bytes

  /** The ring's contents as a value. `globalOffset` counts every byte ever pushed. */
  datatype Ring = Ring(buffer: bytes, writePos: nat, globalOffset: nat) {
    predicate Shaped() {
      writePos < |buffer|
    }

    function Capacity(): (c: nat) {
      |buffer|
    }

    /** `global_offset.saturating_sub(capacity)`: the oldest offset still held. */
    function WindowStart(): (start: nat) {
      if globalOffset < |buffer| then 0 else globalOffset - |buffer|
    }

    predicate InWindow(offset: nat) {
      WindowStart() <= offset <= globalOffset
    }

    predicate CanServePartial(requested: bytes, current: bytes, offset: nat) {
      requested == current && InWindow(offset)
    }

    /** The bytes from an absolute offset to the end; empty outside the window. */
    function ReadFrom(offset: nat): (data: bytes)
      requires Shaped()
    {
      if !InWindow(offset) then []
      else seq(globalOffset - offset, i requires 0 <= i => buffer[(offset + i) % |buffer|])
    }

    function WriteByte(b: byte): (r: Ring)
      requires Shaped()
      ensures r.Shaped() && |r.buffer| == |buffer| && r.globalOffset == globalOffset
    {
      this.(buffer := buffer[writePos := b], writePos := (writePos + 1) % |buffer|)
    }

    function WriteAll(data: bytes): (r: Ring)
      requires Shaped()
      ensures r.Shaped() && |r.buffer| == |buffer| && r.globalOffset == globalOffset
      decreases |data|
    {
      if data == [] then this else WriteByte(data[0]).WriteAll(data[1..])
    }

    /** One push: every byte in turn, then the offset. */
    function Push(data: bytes): (r: Ring)
      requires Shaped()
      ensures r.Shaped() && |r.buffer| == |buffer|
    {
      WriteAll(data).(globalOffset := globalOffset + |data|)
    }
  }

  function PushAll(r: Ring, pushes: seq<bytes>): (r': Ring)
    requires r.Shaped()
    ensures r'.Shaped() && |r'.buffer| == |r.buffer|
    decreases |pushes|
  {
    if pushes == [] then r else PushAll(r.Push(pushes[0]), pushes[1..])
  }

  function NewRing(capacity: nat): (r: Ring)
    requires capacity > 0
    ensures r.Shaped()
  {
    Ring(seq(capacity, _ => 0), 0, 0)
  }

  // ----- the ring refines the unbounded log -----

  /** The cells hold the last bytes of `log`, each at its offset modulo the capacity. */
  ghost predicate Holds(r: Ring, log: bytes) {
    && r.Shaped()
    && r.writePos == |log| % |r.buffer|
    && forall o: nat | |log| - |r.buffer| <= o < |log| :: r.buffer[o % |r.buffer|] == log[o]
  }

  /** The ring stands for `log`: it holds its last bytes and counts all of them. */
  ghost predicate Agrees(r: Ring, log: bytes) {
    Holds(r, log) && r.globalOffset == |log|
  }

  lemma ModDistinct(a: nat, b: nat, c: nat)
    requires a < b < a + c
    ensures a % c != b % c
  {
    if a % c == b % c {
      MultipleTooBig(c, b / c - a / c, b - a);
    }
  }

  lemma MultipleTooBig(c: nat, k: int, m: int)
    requires c > 0 && m == c * k
    ensures !(0 < m < c)
  {
    if k >= 1 {
      assert c * k >= c;
    } else {
      assert c * k <= 0;
    }
  }

  lemma QuotientUnique(n: nat, q: nat, r: nat, c: nat)
    requires r < c && n == c * q + r
    ensures n % c == r
  {
    var q', r' := n / c, n % c;
    assert n == c * q' + r';
    assert c * (q' - q) == r - r' && c * (q - q') == r' - r;
    MultipleTooBig(c, q' - q, r - r');
    MultipleTooBig(c, q - q', r' - r);
  }

  lemma DivMod(a: nat, c: nat) returns (q: nat, r: nat)
    requires c > 0
    ensures a == c * q + r && r == a % c < c
  {
    q, r := a / c, a % c;
  }

  lemma ModSuccessor(a: nat, c: nat)
    requires c > 0
    ensures (a % c + 1) % c == (a + 1) % c
  {
    var q, r := DivMod(a, c);
    if r + 1 < c {
      QuotientUnique(a + 1, q, r + 1, c);
      QuotientUnique(r + 1, 0, r + 1, c);
    } else {
      NextMultiple(c, q);
      QuotientUnique(a + 1, q + 1, 0, c);
      QuotientUnique(r + 1, 1, 0, c);
    }
  }

  lemma NextMultiple(c: nat, q: nat)
    ensures c * (q + 1) == c * q + c
  {
  }

  lemma WriteByteHolds(r: Ring, log: bytes, b: byte)
    requires Holds(r, log)
    ensures Holds(r.WriteByte(b), log + [b])
  {
    var c, r', log' := |r.buffer|, r.WriteByte(b), log + [b];
    ModSuccessor(|log|, c);
    forall o: nat | |log'| - c <= o < |log'|
      ensures r'.buffer[o % c] == log'[o]
    {
      if o < |log| {
        ModDistinct(o, |log|, c);
      }
    }
  }

  lemma {:induction false} WriteAllHolds(r: Ring, log: bytes, data: bytes)
    requires Holds(r, log)
    ensures Holds(r.WriteAll(data), log + data)
    decreases |data|
  {
    if data == [] {
      assert log + data == log;
    } else {
      WriteByteHolds(r, log, data[0]);
      WriteAllHolds(r.WriteByte(data[0]), log + [data[0]], data[1..]);
      assert log + [data[0]] + data[1..] == log + data;
    }
  }

  /** A push of any length, longer than the ring included, appends to the log it stands for. */
  lemma PushAgrees(r: Ring, log: bytes, data: bytes)
    requires Agrees(r, log)
    ensures Agrees(r.Push(data), log + data)
  {
    WriteAllHolds(r, log, data);
  }

  /** Reading at an offset gives exactly the log from there on when the ring still
      holds it, and nothing when it does not; the ring holds an offset if and only
      if at most a ring's length of log lies beyond it. */
  lemma ReadFromIsSuffix(r: Ring, log: bytes, offset: nat)
    requires Agrees(r, log)
    ensures r.InWindow(offset) <==> offset <= |log| && |log| - offset <= r.Capacity()
    ensures r.InWindow(offset) ==> r.ReadFrom(offset) == log[offset..]
    ensures !r.InWindow(offset) ==> r.ReadFrom(offset) == []
  {
    if r.InWindow(offset) {
      var data := r.ReadFrom(offset);
      forall i | 0 <= i < |data| ensures data[i] == log[offset..][i] {
        assert r.buffer[(offset + i) % |r.buffer|] == log[offset + i];
      }
    }
  }

  function Flatten(pushes: seq<bytes>): (s: bytes) {
    if pushes == [] then [] else pushes[0] + Flatten(pushes[1..])
  }

  /** Ring-buffer refinement over whole runs: after any pushes into a new ring, every
      offset a partial resync is granted for is served exactly from the full log. */
  lemma RingRefinesLog(capacity: nat, pushes: seq<bytes>, requested: bytes, current: bytes, offset: nat)
    requires capacity > 0
    ensures var ring, log := PushAll(NewRing(capacity), pushes), Flatten(pushes);
            && ring.globalOffset == |log|
            && ring.writePos == |log| % capacity
            && (ring.CanServePartial(requested, current, offset) <==>
                  requested == current && offset <= |log| && |log| - offset <= capacity)
            && (ring.CanServePartial(requested, current, offset) ==> ring.ReadFrom(offset) == log[offset..])
  {
    PushAllAgrees(NewRing(capacity), [], pushes);
    assert [] + Flatten(pushes) == Flatten(pushes);
    ReadFromIsSuffix(PushAll(NewRing(capacity), pushes), Flatten(pushes), offset);
  }

  lemma {:induction false} PushAllAgrees(r: Ring, log: bytes, pushes: seq<bytes>)
    requires Agrees(r, log)
    ensures Agrees(PushAll(r, pushes), log + Flatten(pushes))
    decreases |pushes|
  {
    if pushes == [] {
      assert log + Flatten(pushes) == log;
    } else {
      PushAgrees(r, log, pushes[0]);
      PushAllAgrees(r.Push(pushes[0]), log + pushes[0], pushes[1..]);
      assert log + pushes[0] + Flatten(pushes[1..]) == log + Flatten(pushes);
    }
  }

  // ----- live replicas -----

  /** A registered replica: the queue feeding its connection, and whether that
      connection still takes messages. */
  datatype Subscriber = Subscriber(id: nat, queue: seq<bytes>, open: bool)

  /** One push reaches every open subscriber and forgets the closed ones. */
  function FanOut(subs: seq<Subscriber>, data: bytes): (r: seq<Subscriber>) {
    if subs == [] then []
    else if subs[0].open then [subs[0].(queue := subs[0].queue + [data])] + FanOut(subs[1..], data)
    else FanOut(subs[1..], data)
  }

  function Unregister(subs: seq<Subscriber>, id: nat): (r: seq<Subscriber>) {
    if subs == [] then []
    else if subs[0].id != id then [subs[0]] + Unregister(subs[1..], id)
    else Unregister(subs[1..], id)
  }

  /** Subscriber by subscriber, in order: an open one has the data queued once, a closed one
      is dropped; unregistering drops those with the id and changes no other. */
  lemma {:induction false} SubscribersInOrder(a: seq<Subscriber>, b: seq<Subscriber>, data: bytes, id: nat, t: Subscriber)
    ensures FanOut(a + b, data) == FanOut(a, data) + FanOut(b, data)
    ensures FanOut([t], data) == if t.open then [t.(queue := t.queue + [data])] else []
    ensures Unregister(a + b, id) == Unregister(a, id) + Unregister(b, id)
    ensures Unregister([t], id) == if t.id == id then [] else [t]
  {
    if a == [] {
      assert a + b == b;
    } else {
      assert (a + b)[1..] == a[1..] + b;
      SubscribersInOrder(a[1..], b, data, id, t);
    }
  }

  /** After a push the subscribers are exactly the open ones, each with the data
      appended to its queue. */
  lemma {:induction false} FanOutExactly(subs: seq<Subscriber>, data: bytes, s: Subscriber)
    ensures s in FanOut(subs, data) <==>
            exists t | t in subs :: t.open && s == t.(queue := t.queue + [data])
  {
    if subs != [] {
      FanOutExactly(subs[1..], data, s);
      if s in FanOut(subs[1..], data) {
        var t :| t in subs[1..] && t.open && s == t.(queue := t.queue + [data]);
        assert t in subs;
      }
    }
  }

  lemma {:induction false} UnregisterExactly(subs: seq<Subscriber>, id: nat, s: Subscriber)
    ensures s in Unregister(subs, id) <==> s in subs && s.id != id
  {
    if subs != [] {
      UnregisterExactly(subs[1..], id, s);
    }
  }

  // ----- the backlog as the master holds it -----

  class ReplBacklog {
    var buffer: array<byte>
    var writePos: nat
    var globalOffset: nat
    var replicas: seq<Subscriber>
    var nextReplicaId: nat

    ghost function View(): (r: Ring)
      reads this, buffer
    {
      Ring(buffer[..], writePos, globalOffset)
    }

    /** The write position is inside the ring and every registered id was handed out. */
    ghost predicate Valid()
      reads this, buffer
    {
      View().Shaped() && forall s | s in replicas :: s.id < nextReplicaId
    }

    constructor (capacity: nat)
      requires capacity > 0
      ensures Valid() && fresh(buffer)
      ensures View() == NewRing(capacity) && replicas == []
    {
      buffer := new byte[capacity](_ => 0);
      writePos, globalOffset := 0, 0;
      replicas, nextReplicaId := [], 0;
      new;
      assert buffer[..] == NewRing(capacity).buffer;
    }

    method Push(data: bytes)
      requires Valid()
      modifies this, buffer
      ensures Valid() && buffer == old(buffer)
      ensures View() == old(View()).Push(data)
      ensures replicas == FanOut(old(replicas), data) && nextReplicaId == old(nextReplicaId)
    {
      ghost var before := View();
      for k := 0 to |data|
        invariant buffer == old(buffer) && writePos < buffer.Length
        invariant globalOffset == before.globalOffset
        invariant replicas == old(replicas) && nextReplicaId == old(nextReplicaId)
        invariant View().WriteAll(data[k..]) == before.WriteAll(data)
      {
        ghost var r := View();
        buffer[writePos] := data[k];
        writePos := (writePos + 1) % buffer.Length;
        assert View() == r.WriteByte(data[k]);
        assert data[k..][1..] == data[k + 1..];
      }
      assert data[|data|..] == [];
      globalOffset := globalOffset + |data|;
      replicas := FanOut(replicas, data);
      forall s | s in replicas ensures s.id < nextReplicaId {
        FanOutExactly(old(replicas), data, s);
      }
    }

    method ReadFrom(offset: nat) returns (result: bytes)
      requires Valid()
      ensures result == View().ReadFrom(offset)
    {
      var start := if globalOffset < buffer.Length then 0 else globalOffset - buffer.Length;
      if offset < start || offset > globalOffset { return []; }
      result := [];
      for i := 0 to globalOffset - offset
        invariant result == View().ReadFrom(offset)[..i]
      {
        result := result + [buffer[(offset + i) % buffer.Length]];
      }
    }

    /** A fresh id for a replica whose queue starts empty. */
    method RegisterReplica() returns (id: nat)
      requires Valid()
      modifies this
      ensures Valid() && View() == old(View()) && buffer == old(buffer)
      ensures replicas == old(replicas) + [Subscriber(id, [], true)]
      ensures forall s | s in old(replicas) :: s.id != id
    {
      id := nextReplicaId;
      nextReplicaId := nextReplicaId + 1;
      replicas := replicas + [Subscriber(id, [], true)];
    }

    method UnregisterReplica(id: nat)
      requires Valid()
      modifies this
      ensures Valid() && View() == old(View()) && buffer == old(buffer)
      ensures replicas == Unregister(old(replicas), id) && nextReplicaId == old(nextReplicaId)
    {
      replicas := Unregister(replicas, id);
      forall s | s in replicas ensures s.id < nextReplicaId {
        UnregisterExactly(old(replicas), id, s);
      }
    }
  }
}
