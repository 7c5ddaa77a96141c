/**
  The queues of one link and the scheduler that serves them
  (src/service/queue_set.rs): strict ranks first, then weighted rotation with
  a cursor.  `PopStrict` and `PopWeighted` are the selection rules; the class
  `QueueSet` carries them out in place.
 */
module Queues {
  import opened Basics

  datatype Priority = Weighted(weight: nat) | Strict(rank: nat)

  /** What the configuration admits: u16 ranks and non-zero u16 weights. */
  predicate ValidPriority(p: Priority) {
    match p
    case Weighted(weight) => 1 <= weight <= 0xffff
    case Strict(rank) => rank <= 0xffff
  }

  /**
    One queue.  `queued` is an atomic counter of entries still occupying the
    queue, including ones that were popped and not yet finished; a push counts
    its entry only after it has been appended.  `permits` are the free places.
   */
  datatype Slot<T> = Slot(id: nat, capacity: nat, priority: Priority, permits: nat, queued: u64, entries: seq<T>)

  const MAXIMUM_QUEUE_CAPACITY: nat := 1_048_576

  /** The atomic counter wraps in both directions. */
  function WrapUp(q: u64): u64 { if q == U64_MAX then 0 else q + 1 }

  function WrapDown(q: u64): u64 { if q == 0 then U64_MAX else q - 1 }

  datatype Cursor = Cursor(weightedIndex: nat, weightedUsed: nat, strictIndex: nat)

  ghost predicate ValidSlots<T>(slots: seq<Slot<T>>) {
    forall i :: 0 <= i < |slots| ==> ValidPriority(slots[i].priority)
  }

  // ------------------------------------------------------------ rotation

  /** Position reached from `start` after `offset` places on a ring of `n`. */
  function Ring(start: nat, offset: nat, n: nat): (i: nat)
    requires start < n && offset <= n
    ensures i < n
    ensures i == if start + offset < n then start + offset else start + offset - n
  {
    RingMod(start + offset, n);
    (start + offset) % n
  }

  lemma RingMod(x: nat, n: nat)
    requires 0 < n && x < 2 * n
    ensures x % n == if x < n then x else x - n
  {
    if x >= n {
      assert x == n * 1 + (x - n);
    }
  }

  /** Places from `i` forward to `j`, a full turn when they coincide. */
  function Distance(i: nat, j: nat, n: nat): nat
    requires i < n && j < n
  {
    if j > i then j - i else j + n - i
  }

  // ----------------------------------------------------------- selection

  predicate StrictReady<T>(s: Slot<T>, rank: nat) { s.priority == Strict(rank) && s.entries != [] }

  predicate WeightedReady<T>(s: Slot<T>) { s.priority.Weighted? && s.entries != [] }

  /** Highest strict rank among queues that count at least one entry. */
  function TopRank<T>(slots: seq<Slot<T>>): (r: Option<nat>)
    ensures r.None? <==> forall i :: 0 <= i < |slots| ==> !(slots[i].priority.Strict? && slots[i].queued > 0)
    ensures r.Some? ==> exists i :: 0 <= i < |slots| && slots[i].priority == Strict(r.value) && slots[i].queued > 0
    ensures r.Some? ==> forall i :: 0 <= i < |slots| && slots[i].priority.Strict? && slots[i].queued > 0 ==>
      slots[i].priority.rank <= r.value
  {
    if slots == [] then None
    else
      var n := |slots| - 1;
      var before := TopRank(slots[..n]);
      var last := slots[n];
      assert forall i :: 0 <= i < n ==> slots[..n][i] == slots[i];
      if last.priority.Strict? && last.queued > 0 && (before.None? || before.value < last.priority.rank)
      then Some(last.priority.rank)
      else before
  }

  /** First slot at `offset` or later, going round from `start`, that is ready at `rank`. */
  function ScanStrict<T>(slots: seq<Slot<T>>, start: nat, rank: nat, offset: nat): (r: Option<nat>)
    requires start < |slots| && 1 <= offset <= |slots| + 1
    ensures r.Some? ==> r.value < |slots| && StrictReady(slots[r.value], rank)
    ensures r.None? ==> forall o :: offset <= o <= |slots| ==> !StrictReady(slots[Ring(start, o, |slots|)], rank)
    ensures r.Some? ==> offset <= Distance(start, r.value, |slots|)
    ensures r.Some? ==>
      forall o :: offset <= o < Distance(start, r.value, |slots|) ==> !StrictReady(slots[Ring(start, o, |slots|)], rank)
    decreases |slots| + 1 - offset
  {
    if offset > |slots| then None
    else
      var i := Ring(start, offset, |slots|);
      if StrictReady(slots[i], rank) then Some(i) else ScanStrict(slots, start, rank, offset + 1)
  }

  /** The same search among weighted slots, stopping short of `start` itself. */
  function ScanWeighted<T>(slots: seq<Slot<T>>, start: nat, offset: nat): (r: Option<nat>)
    requires start < |slots| && 1 <= offset <= |slots|
    ensures r.Some? ==> r.value < |slots| && r.value != start && WeightedReady(slots[r.value])
    ensures r.None? ==> forall o :: offset <= o < |slots| ==> !WeightedReady(slots[Ring(start, o, |slots|)])
    ensures r.Some? ==> offset <= Distance(start, r.value, |slots|)
    ensures r.Some? ==>
      forall o :: offset <= o < Distance(start, r.value, |slots|) ==> !WeightedReady(slots[Ring(start, o, |slots|)])
    decreases |slots| - offset
  {
    if offset == |slots| then None
    else
      var i := Ring(start, offset, |slots|);
      if WeightedReady(slots[i]) then Some(i) else ScanWeighted(slots, start, offset + 1)
  }

  /** Which queue is served, if any, and the cursor afterwards. */
  datatype Pick = Pick(index: Option<nat>, cursor: Cursor)

  predicate ValidCursor<T>(c: Cursor, slots: seq<Slot<T>>) { c.strictIndex < |slots| || slots == [] }

  function PopStrict<T>(slots: seq<Slot<T>>, c: Cursor): Pick
    requires ValidCursor(c, slots)
  {
    match TopRank(slots)
    case None => Pick(None, c)
    case Some(rank) =>
      match ScanStrict(slots, c.strictIndex, rank, 1)
      case None => Pick(None, c)
      case Some(i) => Pick(Some(i), c.(strictIndex := i))
  }

  /** The weighted cursor, reset when it points past the last slot. */
  function Wrapped(c: Cursor, n: nat): Cursor {
    if c.weightedIndex >= n then c.(weightedIndex := 0, weightedUsed := 0) else c
  }

  function PopWeighted<T>(slots: seq<Slot<T>>, c: Cursor): (r: Pick)
    ensures r.index.Some? ==> r.index.value < |slots| && WeightedReady(slots[r.index.value])
    ensures r.cursor.strictIndex == c.strictIndex
  {
    if slots == [] then Pick(None, c)
    else
      var w := Wrapped(c, |slots|);
      var current := slots[w.weightedIndex];
      if WeightedReady(current) && w.weightedUsed < current.priority.weight
      then Pick(Some(w.weightedIndex), w.(weightedUsed := w.weightedUsed + 1))
      else
        match ScanWeighted(slots, w.weightedIndex, 1)
        case Some(i) => Pick(Some(i), w.(weightedIndex := i, weightedUsed := 1))
        case None =>
          if WeightedReady(current)
          then Pick(Some(w.weightedIndex), w.(weightedUsed := current.priority.weight))
          else Pick(None, w)
  }

  function PopScheduled<T>(slots: seq<Slot<T>>, c: Cursor): (r: Pick)
    requires ValidCursor(c, slots)
    ensures ValidCursor(r.cursor, slots)
    ensures r.index.Some? ==> r.index.value < |slots| && slots[r.index.value].entries != []
  {
    var strict := PopStrict(slots, c);
    if strict.index.Some? then strict else PopWeighted(slots, c)
  }

  // ------------------------------------------------- effects on one queue

  /** A place is reserved for a request about to be enqueued. */
  function Reserved<T>(s: Slot<T>): Slot<T>
    requires s.permits > 0
  {
    s.(permits := s.permits - 1)
  }

  /** A reserved place is given back. */
  function Released<T>(s: Slot<T>): Slot<T> { s.(permits := s.permits + 1) }

  /** A request with a reserved place joins the back; it is not counted yet. */
  function Appended<T>(s: Slot<T>, item: T): Slot<T> { s.(entries := s.entries + [item]) }

  /** An appended request is counted. */
  function CountedUp<T>(s: Slot<T>): Slot<T> { s.(queued := WrapUp(s.queued)) }

  /** Both halves of a push that nothing interrupts. */
  function Enqueued<T>(s: Slot<T>, item: T): Slot<T> { CountedUp(Appended(s, item)) }

  /** The head leaves the deque but keeps its place. */
  function Popped<T>(s: Slot<T>): Slot<T>
    requires s.entries != []
  {
    s.(entries := s.entries[1..])
  }

  /** A popped request returns to the front. */
  function PutBack<T>(s: Slot<T>, item: T): Slot<T> { s.(entries := [item] + s.entries) }

  /** A popped request gives its place up for good. */
  function Finished<T>(s: Slot<T>): Slot<T> { s.(queued := WrapDown(s.queued), permits := s.permits + 1) }

  datatype PushResult = Pushed | Full | Closed | Unknown

  // ------------------------------------------------------------ the objects

  class QueueCursor {
    var weightedIndex: nat
    var weightedUsed: nat
    var strictIndex: nat

    constructor ()
      ensures Value() == Cursor(0, 0, 0)
    {
      weightedIndex, weightedUsed, strictIndex := 0, 0, 0;
    }

    function Value(): Cursor
      reads this
    {
      Cursor(weightedIndex, weightedUsed, strictIndex)
    }
  }

  class QueueSet<T(==)> {
    var slots: seq<Slot<T>>
    const indices: map<nat, nat>
    var runnerClosed: bool
    var permitsClosed: bool

    /** The index map finds every slot by its identifier. */
    ghost predicate Valid()
      reads this
    {
      && ValidSlots(slots)
      && (forall id :: id in indices ==> indices[id] < |slots| && slots[indices[id]].id == id)
      && (forall i :: 0 <= i < |slots| ==> slots[i].id in indices && indices[slots[i].id] == i)
    }

    constructor (definitions: seq<Slot<T>>)
      requires ValidSlots(definitions)
      requires forall i, j :: 0 <= i < j < |definitions| ==> definitions[i].id != definitions[j].id
      ensures Valid() && !runnerClosed && !permitsClosed && |slots| == |definitions|
      ensures forall i :: 0 <= i < |slots| ==>
        slots[i] == definitions[i].(permits := definitions[i].capacity, queued := 0, entries := [])
    {
      var built: seq<Slot<T>> := [];
      var found: map<nat, nat> := map[];
      for i := 0 to |definitions|
        invariant |built| == i
        invariant forall k :: 0 <= k < i ==>
          built[k] == definitions[k].(permits := definitions[k].capacity, queued := 0, entries := [])
        invariant forall k :: 0 <= k < i ==> definitions[k].id in found && found[definitions[k].id] == k
        invariant forall id :: id in found ==> found[id] < i && definitions[found[id]].id == id
      {
        var d := definitions[i];
        built := built + [d.(permits := d.capacity, queued := 0, entries := [])];
        found := found[d.id := i];
      }
      slots, indices, runnerClosed, permitsClosed := built, found, false, false;
    }

    method TryPush(id: nat, item: T) returns (r: PushResult)
      requires Valid()
      modifies this`slots
      ensures Valid()
      ensures r.Unknown? <==> id !in indices
      ensures r.Closed? <==> id in indices && (runnerClosed || permitsClosed)
      ensures r.Full? <==> id in indices && !runnerClosed && !permitsClosed && old(slots)[indices[id]].permits == 0
      ensures slots ==
        if r.Pushed? then old(slots)[indices[id] := Enqueued(Reserved(old(slots)[indices[id]]), item)] else old(slots)
    {
      if id !in indices { return Unknown; }
      var i := indices[id];
      if runnerClosed { return Closed; }
      if permitsClosed { return Closed; }
      if slots[i].permits == 0 { return Full; }
      slots := slots[i := Reserved(slots[i])];
      r := FinishPush(i, item);
    }

    /**
      The second half of a push: the check, the append and the count, here one
      after the other.  The runner's protocol lets others in between them.
     */
    method FinishPush(i: nat, item: T) returns (r: PushResult)
      requires Valid() && i < |slots|
      modifies this`slots
      ensures Valid()
      ensures r == if runnerClosed then Closed else Pushed
      ensures slots == old(slots)[i := if runnerClosed then Released(old(slots)[i]) else Enqueued(old(slots)[i], item)]
    {
      if runnerClosed {
        slots := slots[i := Released(slots[i])];
        return Closed;
      }
      PushBack(i, item);
      CountPush(i);
      r := Pushed;
    }

    method PushBack(i: nat, item: T)
      requires Valid() && i < |slots|
      modifies this`slots
      ensures Valid() && slots == old(slots)[i := Appended(old(slots)[i], item)]
    {
      slots := slots[i := Appended(slots[i], item)];
    }

    method CountPush(i: nat)
      requires Valid() && i < |slots|
      modifies this`slots
      ensures Valid() && slots == old(slots)[i := CountedUp(old(slots)[i])]
    {
      slots := slots[i := CountedUp(slots[i])];
    }

    /** Highest strict rank with a counted entry, by one pass over the slots. */
    method HighestRank() returns (rank: Option<nat>)
      requires Valid()
      ensures rank == TopRank(slots)
    {
      rank := None;
      for i := 0 to |slots|
        invariant rank == TopRank(slots[..i])
      {
        assert slots[..i + 1][..i] == slots[..i];
        var s := slots[i];
        if s.priority.Strict? && s.queued > 0 && (rank.None? || rank.value < s.priority.rank) {
          rank := Some(s.priority.rank);
        }
      }
      assert slots[..|slots|] == slots;
    }

    /** The rotating searches of both selection rules. */
    method FindStrict(start: nat, rank: nat) returns (r: Option<nat>)
      requires start < |slots|
      ensures r == ScanStrict(slots, start, rank, 1)
    {
      for offset := 1 to |slots| + 1
        invariant ScanStrict(slots, start, rank, offset) == ScanStrict(slots, start, rank, 1)
      {
        var index := Ring(start, offset, |slots|);
        if StrictReady(slots[index], rank) { return Some(index); }
      }
      r := None;
    }

    method FindWeighted(start: nat) returns (r: Option<nat>)
      requires start < |slots|
      ensures r == ScanWeighted(slots, start, 1)
    {
      for offset := 1 to |slots|
        invariant ScanWeighted(slots, start, offset) == ScanWeighted(slots, start, 1)
      {
        var index := Ring(start, offset, |slots|);
        if WeightedReady(slots[index]) { return Some(index); }
      }
      r := None;
    }

    method PopStrictEntry(cursor: QueueCursor) returns (entry: Option<(nat, T)>)
      requires Valid() && ValidCursor(cursor.Value(), slots)
      modifies this`slots, cursor
      ensures Valid() && Served(old(slots), PopStrict(old(slots), old(cursor.Value())), entry)
      ensures cursor.Value() == PopStrict(old(slots), old(cursor.Value())).cursor
    {
      hide TopRank, ScanStrict;
      var rank := HighestRank();
      if rank.None? { return None; }
      var index := FindStrict(cursor.strictIndex, rank.value);
      if index.None? { return None; }
      cursor.strictIndex := index.value;
      entry := PopAt(index.value);
    }

    method PopWeightedEntry(cursor: QueueCursor) returns (entry: Option<(nat, T)>)
      requires Valid()
      modifies this`slots, cursor
      ensures Valid() && Served(old(slots), PopWeighted(old(slots), old(cursor.Value())), entry)
      ensures cursor.Value() == PopWeighted(old(slots), old(cursor.Value())).cursor
    {
      hide PopWeighted;
      var index := ChooseWeighted(cursor);
      if index.None? { return None; }
      entry := PopAt(index.value);
    }

    /** Which weighted queue is next, and the cursor's move to it. */
    method ChooseWeighted(cursor: QueueCursor) returns (index: Option<nat>)
      modifies cursor
      ensures Pick(index, cursor.Value()) == PopWeighted(slots, old(cursor.Value()))
    {
      hide ScanWeighted;
      if slots == [] { return None; }
      if cursor.weightedIndex >= |slots| {
        cursor.weightedIndex := 0;
        cursor.weightedUsed := 0;
      }
      var start := cursor.weightedIndex;
      var current := slots[start];
      if WeightedReady(current) && cursor.weightedUsed < current.priority.weight {
        cursor.weightedUsed := cursor.weightedUsed + 1;
        return Some(start);
      }
      index := FindWeighted(start);
      if index.Some? {
        cursor.weightedIndex := index.value;
        cursor.weightedUsed := 1;
      } else if WeightedReady(current) {
        cursor.weightedUsed := current.priority.weight;
        index := Some(start);
      }
    }

    method PopScheduledEntry(cursor: QueueCursor) returns (entry: Option<(nat, T)>)
      requires Valid() && ValidCursor(cursor.Value(), slots)
      modifies this`slots, cursor
      ensures Valid() && Served(old(slots), PopScheduled(old(slots), old(cursor.Value())), entry)
      ensures cursor.Value() == PopScheduled(old(slots), old(cursor.Value())).cursor
    {
      entry := PopStrictEntry(cursor);
      if entry.None? {
        entry := PopWeightedEntry(cursor);
      }
    }

    /** The entry is the head of the picked queue, and nothing else moved. */
    ghost predicate Served(before: seq<Slot<T>>, pick: Pick, entry: Option<(nat, T)>)
      reads this`slots
    {
      if pick.index.None? then entry.None? && slots == before
      else
        var i := pick.index.value;
        && i < |before| && before[i].entries != []
        && entry == Some((before[i].id, before[i].entries[0]))
        && slots == before[i := Popped(before[i])]
    }

    method PopAt(i: nat) returns (entry: Option<(nat, T)>)
      requires Valid() && i < |slots| && slots[i].entries != []
      modifies this`slots
      ensures Valid() && slots == old(slots)[i := Popped(old(slots)[i])]
      ensures entry == Some((old(slots)[i].id, old(slots)[i].entries[0]))
    {
      entry := Some((slots[i].id, slots[i].entries[0]));
      slots := slots[i := Popped(slots[i])];
    }

    method PopFrom(id: nat) returns (entry: Option<T>)
      requires Valid()
      modifies this`slots
      ensures Valid()
      ensures entry.None? <==> id !in indices || old(slots)[indices[id]].entries == []
      ensures entry.None? ==> slots == old(slots)
      ensures entry.Some? ==>
        && entry.value == old(slots)[indices[id]].entries[0]
        && slots == old(slots)[indices[id] := Popped(old(slots)[indices[id]])]
    {
      if id !in indices || slots[indices[id]].entries == [] { return None; }
      var popped := PopAt(indices[id]);
      entry := Some(popped.value.1);
    }

    method PushFront(id: nat, item: T)
      requires Valid()
      modifies this`slots
      ensures Valid()
      ensures slots ==
        if id in indices then old(slots)[indices[id] := PutBack(old(slots)[indices[id]], item)] else old(slots)
    {
      if id in indices {
        slots := slots[indices[id] := PutBack(slots[indices[id]], item)];
      }
    }

    /** `item` was popped from queue `id` before and keeps its place until now. */
    method FinishEntry(id: nat, item: T)
      requires Valid()
      modifies this`slots
      ensures Valid()
      ensures slots ==
        if id in indices then old(slots)[indices[id] := Finished(old(slots)[indices[id]])] else old(slots)
    {
      if id in indices {
        slots := slots[indices[id] := Finished(slots[indices[id]])];
      }
    }

    /** The first call also closes the semaphores; later ones change nothing. */
    method CloseRunner()
      modifies this`runnerClosed, this`permitsClosed
      ensures runnerClosed && permitsClosed == (old(permitsClosed) || !old(runnerClosed))
    {
      if !runnerClosed {
        runnerClosed := true;
        permitsClosed := true;
      }
    }

    method SetPriority(id: nat, priority: Priority) returns (known: bool)
      requires Valid() && ValidPriority(priority)
      modifies this`slots
      ensures Valid() && known == (id in indices)
      ensures slots ==
        if known then old(slots)[indices[id] := old(slots)[indices[id]].(priority := priority)] else old(slots)
    {
      known := id in indices;
      if known {
        slots := slots[indices[id] := slots[indices[id]].(priority := priority)];
      }
    }
  }
}
