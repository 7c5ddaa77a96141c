/** Evicting queues with a count limit and a byte limit, against one specification. */
module Eviction {

  function Bytes<T>(items: seq<T>, size: T -> nat): nat {
    if items == [] then 0 else size(items[0]) + Bytes(items[1..], size)
  }

  predicate Fits<T>(items: seq<T>, size: T -> nat, count: nat, bytes: nat) {
    |items| <= count && Bytes(items, size) <= bytes
  }

  /** The longest suffix within both limits, found by dropping items from the front. */
  function Fitting<T>(items: seq<T>, size: T -> nat, count: nat, bytes: nat): (r: seq<T>)
    ensures |r| <= |items| && r == items[|items| - |r|..]
    ensures Fits(r, size, count, bytes)
  {
    if Fits(items, size, count, bytes) then items
    else
      var rest := Fitting(items[1..], size, count, bytes);
      assert items[1..][|items| - 1 - |rest|..] == items[|items| - |rest|..];
      rest
  }

  /** It is the longest: no longer suffix fits. */
  lemma {:induction false} FittingIsLongest<T>(items: seq<T>, size: T -> nat, count: nat, bytes: nat, k: nat)
    requires k <= |items| && Fits(items[k..], size, count, bytes)
    ensures |items| - k <= |Fitting(items, size, count, bytes)|
  {
    if !Fits(items, size, count, bytes) {
      assert items[0..] == items;
      assert items[1..][k - 1..] == items[k..];
      FittingIsLongest(items[1..], size, count, bytes, k - 1);
    }
  }

  lemma {:induction false} BytesAppend<T>(a: seq<T>, b: seq<T>, size: T -> nat)
    ensures Bytes(a + b, size) == Bytes(a, size) + Bytes(b, size)
  {
    if a == [] {
      assert a + b == b;
    } else {
      BytesAppend(a[1..], b, size);
      assert (a + b)[1..] == a[1..] + b;
    }
  }

  lemma BytesOne<T>(x: T, size: T -> nat)
    ensures Bytes([x], size) == size(x)
  {
    assert [x][1..] == [];
  }

  /** Evicting early changes nothing: only what fits so far can matter later. */
  lemma {:induction false} FittingAppend<T>(items: seq<T>, x: T, size: T -> nat, count: nat, bytes: nat)
    ensures Fitting(items + [x], size, count, bytes)
      == Fitting(Fitting(items, size, count, bytes) + [x], size, count, bytes)
  {
    if !Fits(items, size, count, bytes) {
      BytesAppend(items, [x], size);
      assert (items + [x])[1..] == items[1..] + [x];
      FittingAppend(items[1..], x, size, count, bytes);
    }
  }

  /** One push into a bounded queue; an item too large for the queue is refused. */
  function Pushed<T>(queue: seq<T>, x: T, size: T -> nat, count: nat, bytes: nat): seq<T> {
    if size(x) > bytes then queue else Fitting(queue + [x], size, count, bytes)
  }

  function PushedAll<T>(queue: seq<T>, items: seq<T>, size: T -> nat, count: nat, bytes: nat): seq<T> {
    if items == [] then queue
    else
      var n := |items| - 1;
      Pushed(PushedAll(queue, items[..n], size, count, bytes), items[n], size, count, bytes)
  }

  /** The items that are not too large on their own. */
  function Small<T>(items: seq<T>, size: T -> nat, bytes: nat): seq<T> {
    if items == [] then []
    else
      var n := |items| - 1;
      Small(items[..n], size, bytes) + if size(items[n]) > bytes then [] else [items[n]]
  }

  /**
    After any pushes into a queue that fits, what is retained is the longest
    suffix of everything not oversized that fits both limits.
   */
  lemma {:induction false} RetainedIsLongestSuffix<T>(queue: seq<T>, items: seq<T>, size: T -> nat, count: nat, bytes: nat)
    requires Fits(queue, size, count, bytes)
    ensures PushedAll(queue, items, size, count, bytes)
      == Fitting(queue + Small(items, size, bytes), size, count, bytes)
  {
    hide Fitting, Bytes;
    if items == [] {
      assert queue + [] == queue;
      FittingAlready(queue, size, count, bytes);
    } else {
      var n := |items| - 1;
      var small := Small(items[..n], size, bytes);
      RetainedIsLongestSuffix(queue, items[..n], size, count, bytes);
      if size(items[n]) > bytes {
        assert small + [] == small;
      } else {
        FittingAppend(queue + small, items[n], size, count, bytes);
        assert queue + (small + [items[n]]) == queue + small + [items[n]];
      }
    }
  }

  lemma FittingAlready<T>(items: seq<T>, size: T -> nat, count: nat, bytes: nat)
    requires Fits(items, size, count, bytes)
    ensures Fitting(items, size, count, bytes) == items
  {}

  /** Dropping from the front until the newcomer fits is the specification of a push. */
  lemma {:induction false} EvictedFront<T>(queue: seq<T>, k: nat, x: T, size: T -> nat, count: nat, bytes: nat)
    requires k <= |queue|
    requires forall j :: 0 <= j < k ==> !Fits(queue[j..] + [x], size, count, bytes)
    requires Fits(queue[k..] + [x], size, count, bytes)
    ensures Fitting(queue + [x], size, count, bytes) == queue[k..] + [x]
    ensures Bytes(queue, size) == Bytes(queue[..k], size) + Bytes(queue[k..], size)
    decreases k
  {
    assert queue[0..] == queue;
    if k > 0 {
      assert !Fits(queue[0..] + [x], size, count, bytes);
      var rest := queue[1..];
      assert rest[k - 1..] == queue[k..];
      forall j | 0 <= j < k - 1 ensures !Fits(rest[j..] + [x], size, count, bytes) {
        assert rest[j..] == queue[j + 1..];
      }
      EvictedFront(rest, k - 1, x, size, count, bytes);
      assert (queue + [x])[1..] == rest + [x];
    }
    BytesAppend(queue[..k], queue[k..], size);
    assert queue[..k] + queue[k..] == queue;
  }
}

/** The bounded channel recorder (src/trace.rs). */
module Tracing {
  import opened Basics
  import opened Eviction

  const MAXIMUM_TRACE_BYTES: nat := 256 * 1024 * 1024
  const MAXIMUM_TRACE_RECORDS: nat := 1_048_576

  datatype TraceDirection = Outbound | Inbound

  datatype TraceRecord = TraceRecord(direction: TraceDirection, timestamp: nat, bytes: seq<bv8>)

  datatype TraceLimits = TraceLimits(maximumRecords: nat, maximumBytes: nat)

  function Size(r: TraceRecord): nat { |r.bytes| }

  function Clamp(n: nat, high: nat): nat { if n < 1 then 1 else if n > high then high else n }

  class Trace {
    const limits: TraceLimits
    var records: seq<TraceRecord>
    var retainedBytes: nat
    var droppedRecords: u64
    var droppedBytes: u64

    ghost predicate Valid()
      reads this
    {
      && limits.maximumRecords >= 1 && limits.maximumBytes >= 1
      && Fits(records, Size, limits.maximumRecords, limits.maximumBytes)
      && retainedBytes == Bytes(records, Size)
    }

    constructor (requested: TraceLimits)
      ensures Valid() && records == [] && droppedRecords == 0 && droppedBytes == 0
      ensures limits == TraceLimits(Clamp(requested.maximumRecords, MAXIMUM_TRACE_RECORDS),
                                    Clamp(requested.maximumBytes, MAXIMUM_TRACE_BYTES))
    {
      limits := TraceLimits(Clamp(requested.maximumRecords, MAXIMUM_TRACE_RECORDS),
                            Clamp(requested.maximumBytes, MAXIMUM_TRACE_BYTES));
      records, retainedBytes, droppedRecords, droppedBytes := [], 0, 0, 0;
    }

    /** What is retained and what is dropped add up to what was there and what came. */
    method Push(record: TraceRecord)
      requires Valid()
      modifies this
      ensures Valid()
      ensures records == Pushed(old(records), record, Size, limits.maximumRecords, limits.maximumBytes)
      ensures |records| <= |old(records)| + 1 && Bytes(records, Size) <= Bytes(old(records), Size) + Size(record)
      ensures droppedRecords == SaturatingAdd(old(droppedRecords), |old(records)| + 1 - |records|)
      ensures droppedBytes == SaturatingAdd(old(droppedBytes), Bytes(old(records), Size) + Size(record) - Bytes(records, Size))
    {
      hide Bytes, Fitting;
      var size := Size(record);
      if size > limits.maximumBytes {
        NoteDropped(size);
        return;
      }
      ghost var queue := records;
      ghost var k := 0;
      BytesOne(record, Size);
      assert queue[..0] == [] && queue[0..] == queue;
      NoBytes();
      while |records| >= limits.maximumRecords || retainedBytes + size > limits.maximumBytes
        invariant 0 <= k <= |queue| && records == queue[k..]
        invariant retainedBytes == Bytes(records, Size)
        invariant droppedRecords == SaturatingAdd(old(droppedRecords), k)
        invariant droppedBytes == SaturatingAdd(old(droppedBytes), Bytes(queue[..k], Size))
        invariant forall j :: 0 <= j < k ==> !Fits(queue[j..] + [record], Size, limits.maximumRecords, limits.maximumBytes)
        decreases |records|
      {
        BytesAppend(records, [record], Size);
        if records == [] {
          break;
        }
        var evicted := records[0];
        FrontBytes(queue, k);
        records := records[1..];
        retainedBytes := retainedBytes - Size(evicted);
        NoteDropped(Size(evicted));
        k := k + 1;
      }
      NoBytes();
      BytesAppend(records, [record], Size);
      EvictedFront(queue, k, record, Size, limits.maximumRecords, limits.maximumBytes);
      retainedBytes := retainedBytes + size;
      records := records + [record];
    }

    method NoteDropped(bytes: nat)
      modifies this`droppedRecords, this`droppedBytes
      ensures droppedRecords == SaturatingAdd(old(droppedRecords), 1)
      ensures droppedBytes == SaturatingAdd(old(droppedBytes), bytes)
    {
      droppedRecords := SaturatingAdd(droppedRecords, 1);
      droppedBytes := SaturatingAdd(droppedBytes, bytes);
    }
  }

  lemma NoBytes()
    ensures Bytes<TraceRecord>([], Size) == 0
  {}

  lemma FrontBytes(queue: seq<TraceRecord>, k: nat)
    requires k < |queue|
    ensures Bytes(queue[k..], Size) == Size(queue[k]) + Bytes(queue[k + 1..], Size)
    ensures Bytes(queue[..k + 1], Size) == Bytes(queue[..k], Size) + Size(queue[k])
    ensures queue[k..][1..] == queue[k + 1..]
  {
    assert queue[k..][1..] == queue[k + 1..];
    assert queue[..k + 1] == queue[..k] + [queue[k]];
    BytesAppend(queue[..k], [queue[k]], Size);
    BytesOne(queue[k], Size);
  }

  /**
    After any sequence of records the trace holds the longest suffix of the
    ones not oversized that fits the record limit and the byte limit.
   */
  lemma TraceKeepsLongestSuffix(records: seq<TraceRecord>, limits: TraceLimits)
    ensures PushedAll([], records, Size, limits.maximumRecords, limits.maximumBytes)
      == Fitting(Small(records, Size, limits.maximumBytes), Size, limits.maximumRecords, limits.maximumBytes)
  {
    NoBytes();
    RetainedIsLongestSuffix([], records, Size, limits.maximumRecords, limits.maximumBytes);
    assert [] + Small(records, Size, limits.maximumBytes) == Small(records, Size, limits.maximumBytes);
  }

  /** The drop counters over a run of pushes, as `Push` advances them. */
  function DroppedCount(start: u64, queue: seq<TraceRecord>, records: seq<TraceRecord>, l: TraceLimits): u64 {
    if records == [] then start
    else
      var n := |records| - 1;
      var before := PushedAll(queue, records[..n], Size, l.maximumRecords, l.maximumBytes);
      var after := Pushed(before, records[n], Size, l.maximumRecords, l.maximumBytes);
      SaturatingAdd(DroppedCount(start, queue, records[..n], l), |before| + 1 - |after|)
  }

  function DroppedSize(start: u64, queue: seq<TraceRecord>, records: seq<TraceRecord>, l: TraceLimits): u64 {
    if records == [] then start
    else
      var n := |records| - 1;
      var before := PushedAll(queue, records[..n], Size, l.maximumRecords, l.maximumBytes);
      var after := Pushed(before, records[n], Size, l.maximumRecords, l.maximumBytes);
      PushShrinks(before, records[n], l);
      SaturatingAdd(DroppedSize(start, queue, records[..n], l), Bytes(before, Size) + Size(records[n]) - Bytes(after, Size))
  }

  lemma PushShrinks(queue: seq<TraceRecord>, r: TraceRecord, l: TraceLimits)
    ensures var after := Pushed(queue, r, Size, l.maximumRecords, l.maximumBytes);
      |after| <= |queue| + 1 && Bytes(after, Size) <= Bytes(queue, Size) + Size(r)
  {
    hide Bytes, Fitting;
    var whole := queue + [r];
    var after := Fitting(whole, Size, l.maximumRecords, l.maximumBytes);
    BytesAppend(whole[..|whole| - |after|], after, Size);
    assert whole[..|whole| - |after|] + after == whole;
    BytesAppend(queue, [r], Size);
    BytesOne(r, Size);
  }

  /** Retained and dropped add up to pushed, in records and in bytes, over any run. */
  lemma {:induction false} NothingUnaccounted(c: u64, b: u64, queue: seq<TraceRecord>, records: seq<TraceRecord>, l: TraceLimits)
    ensures var kept := PushedAll(queue, records, Size, l.maximumRecords, l.maximumBytes);
      && |kept| <= |queue| + |records| && Bytes(kept, Size) <= Bytes(queue, Size) + Bytes(records, Size)
      && DroppedCount(c, queue, records, l) == SaturatingAdd(c, |queue| + |records| - |kept|)
      && DroppedSize(b, queue, records, l)
         == SaturatingAdd(b, Bytes(queue, Size) + Bytes(records, Size) - Bytes(kept, Size))
  {
    hide Bytes, Pushed;
    if records == [] {
      NoBytes();
    } else {
      var n := |records| - 1;
      NothingUnaccounted(c, b, queue, records[..n], l);
      PushShrinks(PushedAll(queue, records[..n], Size, l.maximumRecords, l.maximumBytes), records[n], l);
      BytesAppend(records[..n], [records[n]], Size);
      BytesOne(records[n], Size);
      assert records[..n] + [records[n]] == records;
    }
  }
}
