/**
  The unsolicited-message hub (src/service/burst.rs): deduplication memory kept
  as a map with a recency queue, and subscriptions with aggregate backlog
  accounting.
 */
module Bursts {
  import opened Basics
  import opened Wire
  import opened Operation

  datatype BurstKey = BurstKey(address: Address, command: CommandCode)

  datatype Fingerprint = Fingerprint(bytes: seq<byte>, deliveredAt: nat)

  // --------------------------------------------------------- deduplication

  datatype Memory = Memory(fingerprints: map<BurstKey, Fingerprint>, order: seq<BurstKey>)

  function Except(order: seq<BurstKey>, key: BurstKey): (r: seq<BurstKey>)
    ensures forall k :: k in r <==> k in order && k != key
    ensures |r| <= |order|
  {
    if order == [] then []
    else
      var n := |order| - 1;
      assert order == order[..n] + [order[n]];
      Except(order[..n], key) + if order[n] == key then [] else [order[n]]
  }

  ghost predicate Distinct(order: seq<BurstKey>) {
    forall i, j :: 0 <= i < j < |order| ==> order[i] != order[j]
  }

  /** Keys stand in the order of their last delivery. */
  ghost predicate Chronological(m: Memory) {
    forall i, j :: 0 <= i < j < |m.order| && m.order[i] in m.fingerprints && m.order[j] in m.fingerprints ==>
      m.fingerprints[m.order[i]].deliveredAt <= m.fingerprints[m.order[j]].deliveredAt
  }

  /** The queue lists exactly the remembered keys, once each, oldest delivery first, within the limit. */
  ghost predicate Agrees(m: Memory, limit: nat) {
    && Distinct(m.order)
    && (forall k :: k in m.order <==> k in m.fingerprints)
    && Chronological(m)
    && |m.order| <= limit
  }

  /** No delivery lies in the future. */
  ghost predicate Past(m: Memory, now: nat) {
    forall k :: k in m.fingerprints ==> m.fingerprints[k].deliveredAt <= now
  }

  lemma {:induction false} ListingSize(order: seq<BurstKey>, keys: set<BurstKey>)
    requires Distinct(order) && forall k :: k in order <==> k in keys
    ensures |keys| == |order|
  {
    if order == [] {
      assert keys == {};
    } else {
      var n := |order| - 1;
      assert order == order[..n] + [order[n]];
      ListingSize(order[..n], keys - {order[n]});
    }
  }

  /** A new key finds the memory full. */
  predicate Evicts(m: Memory, key: BurstKey, limit: nat) {
    key !in m.fingerprints && |m.fingerprints| == limit && m.order != []
  }

  /** Remembering a delivery: the key moves to the back; a new key may push out the front. */
  function Remember(m: Memory, key: BurstKey, bytes: seq<byte>, now: nat, limit: nat): Memory {
    var full := Evicts(m, key, limit);
    var kept := if key in m.fingerprints then Except(m.order, key) else if full then m.order[1..] else m.order;
    var left := if full then m.fingerprints - {m.order[0]} else m.fingerprints;
    Memory(left[key := Fingerprint(bytes, now)], kept + [key])
  }

  lemma {:induction false} ExceptKeeps(m: Memory, key: BurstKey)
    requires Distinct(m.order) && Chronological(m)
    ensures Distinct(Except(m.order, key)) && Chronological(m.(order := Except(m.order, key)))
    ensures key in m.order ==> |Except(m.order, key)| < |m.order|
    decreases |m.order|
  {
    if m.order != [] {
      var n := |m.order| - 1;
      var before := m.(order := m.order[..n]);
      ExceptKeeps(before, key);
      var rest, last := Except(m.order[..n], key), m.order[n];
      assert m.order == m.order[..n] + [last];
      forall i | 0 <= i < |rest| && rest[i] in m.fingerprints && last in m.fingerprints
        ensures m.fingerprints[rest[i]].deliveredAt <= m.fingerprints[last].deliveredAt
      {
        assert rest[i] in m.order[..n];
      }
      forall i | 0 <= i < |rest| ensures rest[i] != last { assert rest[i] in m.order[..n]; }
      assert Except(m.order, key) == if last == key then rest else rest + [last];
    }
  }

  /** The map and the queue agree after every delivery. */
  lemma RememberAgrees(m: Memory, key: BurstKey, bytes: seq<byte>, now: nat, limit: nat)
    requires Agrees(m, limit) && Past(m, now) && limit > 0
    ensures Agrees(Remember(m, key, bytes, now, limit), limit) && Past(Remember(m, key, bytes, now, limit), now)
  {
    hide Chronological, Distinct, Past, Except;
    ListingSize(m.order, m.fingerprints.Keys);
    if key in m.fingerprints {
      ExceptKeeps(m, key);
      Newest(m, Except(m.order, key), m.fingerprints, key, bytes, now, limit);
    } else if |m.fingerprints| == limit {
      var kept, left := m.order[1..], m.fingerprints - {m.order[0]};
      DropOldest(m);
      Newest(m, kept, left, key, bytes, now, limit);
    } else {
      assert m.(order := m.order) == m;
      Newest(m, m.order, m.fingerprints, key, bytes, now, limit);
    }
  }

  lemma DropOldest(m: Memory)
    requires Distinct(m.order) && Chronological(m) && m.order != [] && forall k :: k in m.order <==> k in m.fingerprints
    ensures Distinct(m.order[1..]) && Chronological(m.(order := m.order[1..]))
    ensures forall k :: k in m.order[1..] <==> k in m.fingerprints - {m.order[0]}
  {
    assert m.order == [m.order[0]] + m.order[1..];
  }

  lemma Newest(m: Memory, kept: seq<BurstKey>, left: map<BurstKey, Fingerprint>, key: BurstKey, bytes: seq<byte>, now: nat, limit: nat)
    requires Distinct(kept) && Chronological(m.(order := kept)) && |kept| < limit && Past(m, now)
    requires forall k :: k in kept <==> k in left && k != key
    requires forall k :: k in left ==> k in m.fingerprints && left[k] == m.fingerprints[k]
    ensures var r := Memory(left[key := Fingerprint(bytes, now)], kept + [key]);
      Agrees(r, limit) && Past(r, now)
  {
    hide Chronological, Distinct;
    AppendNewest(m, kept, Memory(left[key := Fingerprint(bytes, now)], kept + [key]), key);
  }

  lemma AppendNewest(m: Memory, kept: seq<BurstKey>, r: Memory, key: BurstKey)
    requires Distinct(kept) && key !in kept && Chronological(m.(order := kept)) && r.order == kept + [key]
    requires key in r.fingerprints && Past(m, r.fingerprints[key].deliveredAt)
    requires forall k :: k in r.fingerprints && k != key ==> k in m.fingerprints && r.fingerprints[k] == m.fingerprints[k]
    ensures Distinct(r.order) && Chronological(r)
  {}

  /** When a new key finds the memory full, a least recently delivered key goes, and only that one. */
  lemma EvictsLeastRecent(m: Memory, key: BurstKey, bytes: seq<byte>, now: nat, limit: nat)
    requires Agrees(m, limit) && key !in m.fingerprints && |m.fingerprints| == limit > 0
    ensures m.order != []
    ensures var oldest := m.order[0];
      && oldest in m.fingerprints
      && (forall k :: k in m.fingerprints ==> m.fingerprints[oldest].deliveredAt <= m.fingerprints[k].deliveredAt)
      && Remember(m, key, bytes, now, limit).fingerprints
         == (m.fingerprints - {oldest})[key := Fingerprint(bytes, now)]
  {
    ListingSize(m.order, m.fingerprints.Keys);
    forall k | k in m.fingerprints ensures m.fingerprints[m.order[0]].deliveredAt <= m.fingerprints[k].deliveredAt {
      var i :| 0 <= i < |m.order| && m.order[i] == k;
    }
  }

  /** Below the limit, or for a known key, nothing is forgotten. */
  lemma NothingForgotten(m: Memory, key: BurstKey, bytes: seq<byte>, now: nat, limit: nat)
    requires Agrees(m, limit) && (key in m.fingerprints || |m.fingerprints| != limit)
    ensures Remember(m, key, bytes, now, limit).fingerprints == m.fingerprints[key := Fingerprint(bytes, now)]
  {}

  predicate IsDuplicate(m: Memory, key: BurstKey, bytes: seq<byte>, now: nat, window: nat) {
    && key in m.fingerprints && window != 0
    && m.fingerprints[key].bytes == bytes
    && now < m.fingerprints[key].deliveredAt + window
  }

  function Forget(m: Memory, key: BurstKey): Memory {
    Memory(m.fingerprints - {key}, Except(m.order, key))
  }

  lemma ForgetAgrees(m: Memory, key: BurstKey, limit: nat)
    requires Agrees(m, limit)
    ensures Agrees(Forget(m, key), limit)
  {
    ExceptKeeps(m, key);
    var r := Forget(m, key);
    assert Chronological(m.(order := r.order));
    assert forall k :: k in r.fingerprints ==> r.fingerprints[k] == m.fingerprints[k];
  }

  /** One published message as the memory sees it: suppressed, or remembered. */
  function Observe(m: Memory, key: BurstKey, bytes: seq<byte>, now: nat, window: nat, limit: nat): (bool, Memory) {
    if IsDuplicate(m, key, bytes, now, window) then (false, m) else (true, Remember(m, key, bytes, now, limit))
  }

  /** What can happen to the memory, with the time it happens. */
  datatype Happening =
    | Seen(key: BurstKey, bytes: seq<byte>, at: nat)
    | KeyReset(key: BurstKey, at: nat)
    | AllReset(at: nat)

  ghost predicate Ordered(happenings: seq<Happening>) {
    forall i, j :: 0 <= i < j < |happenings| ==> happenings[i].at <= happenings[j].at
  }

  function After(m: Memory, h: Happening, window: nat, limit: nat): Memory {
    match h
    case Seen(key, bytes, at) => Observe(m, key, bytes, at, window, limit).1
    case KeyReset(key, _) => Forget(m, key)
    case AllReset(_) => Memory(map[], [])
  }

  function AfterAll(m: Memory, happenings: seq<Happening>, window: nat, limit: nat): Memory {
    if happenings == [] then m
    else
      var n := |happenings| - 1;
      After(AfterAll(m, happenings[..n], window, limit), happenings[n], window, limit)
  }

  /** Over every run with a clock that does not go back, map and queue agree. */
  lemma {:induction false} RunAgrees(happenings: seq<Happening>, window: nat, limit: nat)
    requires Ordered(happenings) && limit > 0
    ensures var m := AfterAll(Memory(map[], []), happenings, window, limit);
      Agrees(m, limit) && forall now :: (happenings == [] || happenings[|happenings| - 1].at <= now) ==> Past(m, now)
  {
    hide Remember, Forget, Agrees, IsDuplicate;
    NothingAgrees(limit);
    if happenings != [] {
      var n := |happenings| - 1;
      RunAgrees(happenings[..n], window, limit);
      var m := AfterAll(Memory(map[], []), happenings[..n], window, limit);
      var h := happenings[n];
      assert Past(m, h.at);
      match h
      case Seen(key, bytes, at) => RememberAgrees(m, key, bytes, at, limit);
      case KeyReset(key, at) => ForgetAgrees(m, key, limit); ForgetPast(m, key, at);
      case AllReset(_) =>
    }
  }

  lemma NothingAgrees(limit: nat)
    ensures Agrees(Memory(map[], []), limit)
  {}

  lemma ForgetPast(m: Memory, key: BurstKey, now: nat)
    requires Past(m, now)
    ensures Past(Forget(m, key), now)
  {}

  /**
    A suppressed duplicate does not prolong suppression: after any number of
    them the same payload is delivered again once a full window has passed
    since the last delivery.
   */
  lemma {:induction false} SuppressionEnds(m: Memory, key: BurstKey, bytes: seq<byte>, times: seq<nat>, now: nat, window: nat, limit: nat)
    requires key in m.fingerprints && now >= m.fingerprints[key].deliveredAt + window
    requires forall t :: t in times ==> IsDuplicate(m, key, bytes, t, window)
    ensures var after := AfterAll(m, seq(|times|, i requires 0 <= i < |times| => Seen(key, bytes, times[i])), window, limit);
      after == m && Observe(after, key, bytes, now, window, limit).0
  {
    hide Remember;
    var seen := seq(|times|, i requires 0 <= i < |times| => Seen(key, bytes, times[i]));
    if times != [] {
      var n := |times| - 1;
      SuppressionEnds(m, key, bytes, times[..n], now, window, limit);
      assert seen[..n] == seq(n, i requires 0 <= i < n => Seen(key, bytes, times[..n][i]));
      assert times[n] in times;
    }
  }

  /** What the memory holds before the i-th happening of a run. */
  function MemoryAt(hs: seq<Happening>, i: nat, window: nat, limit: nat): Memory
    requires i <= |hs|
  {
    AfterAll(Memory(map[], []), hs[..i], window, limit)
  }

  /** The i-th happening is a message of `key` that is delivered. */
  predicate Delivers(hs: seq<Happening>, i: nat, key: BurstKey, window: nat, limit: nat)
    requires i < |hs|
  {
    && hs[i].Seen? && hs[i].key == key
    && !IsDuplicate(MemoryAt(hs, i, window, limit), key, hs[i].bytes, hs[i].at, window)
  }

  /** The i-th happening makes the memory forget `key`: a reset, or a delivery of another key that evicts it. */
  predicate Voids(hs: seq<Happening>, i: nat, key: BurstKey, window: nat, limit: nat)
    requires i < |hs|
  {
    var m := MemoryAt(hs, i, window, limit);
    match hs[i]
    case AllReset(_) => true
    case KeyReset(k, _) => k == key
    case Seen(k, bytes, at) =>
      k != key && !IsDuplicate(m, k, bytes, at, window) && Evicts(m, k, limit) && m.order[0] == key
  }

  predicate Touches(hs: seq<Happening>, i: nat, key: BurstKey, window: nat, limit: nat)
    requires i < |hs|
  {
    Delivers(hs, i, key, window, limit) || Voids(hs, i, key, window, limit)
  }

  /** The i-th happening is the last delivery of `key`, and nothing made the memory forget it since. */
  ghost predicate LastDelivery(hs: seq<Happening>, i: nat, key: BurstKey, window: nat, limit: nat) {
    && i < |hs| && Delivers(hs, i, key, window, limit)
    && forall j :: i < j < |hs| ==> !Touches(hs, j, key, window, limit)
  }

  /** The same, found by looking back from the end. */
  function LookBack(hs: seq<Happening>, key: BurstKey, window: nat, limit: nat): (r: Option<nat>)
    ensures r.Some? ==> r.value < |hs| && hs[r.value].Seen?
  {
    if hs == [] then None
    else
      var n := |hs| - 1;
      if Delivers(hs, n, key, window, limit) then Some(n)
      else if Voids(hs, n, key, window, limit) then None
      else LookBack(hs[..n], key, window, limit)
  }

  lemma {:induction false} LookBackFinds(hs: seq<Happening>, i: nat, key: BurstKey, window: nat, limit: nat)
    ensures LookBack(hs, key, window, limit) == Some(i) <==> LastDelivery(hs, i, key, window, limit)
    decreases |hs|
  {
    if hs != [] {
      hide Delivers, Voids;
      var n := |hs| - 1;
      forall j | 0 <= j < n { SameBefore(hs, n, j, key, window, limit); }
      if !Touches(hs, n, key, window, limit) {
        LookBackFinds(hs[..n], i, key, window, limit);
        Shortened(hs, hs[..n], i, key, window, limit);
      }
    }
  }

  lemma DeliveryTouches(hs: seq<Happening>, i: nat, key: BurstKey, window: nat, limit: nat)
    requires i < |hs| && Delivers(hs, i, key, window, limit)
    ensures Touches(hs, i, key, window, limit)
  {}

  /** A last happening that does not touch the key changes nothing about its last delivery. */
  lemma Shortened(hs: seq<Happening>, p: seq<Happening>, i: nat, key: BurstKey, window: nat, limit: nat)
    requires |hs| == |p| + 1 && !Touches(hs, |p|, key, window, limit)
    requires forall j :: 0 <= j < |p| ==>
      Delivers(p, j, key, window, limit) == Delivers(hs, j, key, window, limit)
      && Touches(p, j, key, window, limit) == Touches(hs, j, key, window, limit)
    ensures LastDelivery(hs, i, key, window, limit) <==> LastDelivery(p, i, key, window, limit)
  {
    hide Delivers, Touches;
    if Delivers(hs, |p|, key, window, limit) { DeliveryTouches(hs, |p|, key, window, limit); }
    if LastDelivery(p, i, key, window, limit) {
      forall j | i < j < |hs| ensures !Touches(hs, j, key, window, limit) {
        if j < |p| { assert !Touches(p, j, key, window, limit); }
      }
    }
    if LastDelivery(hs, i, key, window, limit) {
      forall j | i < j < |p| ensures !Touches(p, j, key, window, limit) {
        assert !Touches(hs, j, key, window, limit);
      }
    }
  }

  /** What the last happening does to one key. */
  lemma KeyAfter(hs: seq<Happening>, key: BurstKey, window: nat, limit: nat)
    requires hs != []
    ensures var n := |hs| - 1;
      var before, after := MemoryAt(hs, n, window, limit).fingerprints, MemoryAt(hs, n + 1, window, limit).fingerprints;
      if Delivers(hs, n, key, window, limit) then key in after && after[key] == Fingerprint(hs[n].bytes, hs[n].at)
      else if Voids(hs, n, key, window, limit) then key !in after
      else (key in after <==> key in before) && (key in after ==> after[key] == before[key])
  {
    hide IsDuplicate, Except;
    assert hs[..|hs|] == hs;
  }

  lemma {:induction false} MemoryLooksBack(hs: seq<Happening>, key: BurstKey, window: nat, limit: nat)
    ensures var m := MemoryAt(hs, |hs|, window, limit);
      match LookBack(hs, key, window, limit)
      case None => key !in m.fingerprints
      case Some(i) => key in m.fingerprints && m.fingerprints[key] == Fingerprint(hs[i].bytes, hs[i].at)
    decreases |hs|
  {
    if hs == [] {
      assert hs[..0] == [];
    } else {
      hide Delivers, Voids, MemoryAt;
      var n := |hs| - 1;
      MemoryLooksBack(hs[..n], key, window, limit);
      KeyAfter(hs, key, window, limit);
      PrefixMemory(hs, n, window, limit);
    }
  }

  /**
    Over every run, the memory of a key is its last delivery since it was last
    reset or evicted: there is one exactly when the key is remembered, and it
    gave the remembered payload and time.
   */
  lemma MemoryIsLastDelivery(hs: seq<Happening>, key: BurstKey, window: nat, limit: nat)
    ensures var m := MemoryAt(hs, |hs|, window, limit);
      && (key in m.fingerprints <==> exists i: nat :: LastDelivery(hs, i, key, window, limit))
      && forall i: nat :: LastDelivery(hs, i, key, window, limit) ==>
           key in m.fingerprints && m.fingerprints[key] == Fingerprint(hs[i].bytes, hs[i].at)
  {
    hide MemoryAt, LastDelivery, LookBack;
    MemoryLooksBack(hs, key, window, limit);
    forall i: nat { LookBackFinds(hs, i, key, window, limit); }
    var found := LookBack(hs, key, window, limit);
    if found.Some? { assert LastDelivery(hs, found.value, key, window, limit); }
  }

  lemma PrefixMemory(hs: seq<Happening>, n: nat, window: nat, limit: nat)
    requires n <= |hs|
    ensures MemoryAt(hs[..n], n, window, limit) == MemoryAt(hs, n, window, limit)
  {
    assert hs[..n][..n] == hs[..n];
  }

  lemma SameBefore(hs: seq<Happening>, n: nat, j: nat, key: BurstKey, window: nat, limit: nat)
    requires j < n <= |hs|
    ensures Delivers(hs[..n], j, key, window, limit) == Delivers(hs, j, key, window, limit)
    ensures Touches(hs[..n], j, key, window, limit) == Touches(hs, j, key, window, limit)
  {
    hide IsDuplicate, Evicts, AfterAll;
    assert hs[..n][..j] == hs[..j];
  }

  /** A message is suppressed exactly when that last delivery had its payload and the window has not passed. */
  lemma SuppressedExactly(hs: seq<Happening>, key: BurstKey, bytes: seq<byte>, now: nat, window: nat, limit: nat)
    ensures !Observe(MemoryAt(hs, |hs|, window, limit), key, bytes, now, window, limit).0 <==>
      window != 0
      && exists i: nat :: LastDelivery(hs, i, key, window, limit) && hs[i].bytes == bytes && now < hs[i].at + window
  {
    hide MemoryAt, LastDelivery, Remember;
    MemoryIsLastDelivery(hs, key, window, limit);
  }

  // ---------------------------------------------------------- subscriptions

  datatype Subscription = Subscription(key: BurstKey, capacity: nat)

  datatype Delivery = Delivered | BackedUp | Disconnected

  datatype SubscriptionError = ZeroCapacity | CapacityLimit(capacity: nat) | SubscriptionLimit | IdentifierSpace | AggregateCapacity

  /** Active subscriptions by identifier, the last identifier used and the slots reserved. */
  datatype Desk = Desk(nextId: u64, subscriptions: map<nat, Subscription>, reserved: nat)

  datatype BurstConfig = BurstConfig(
    maximumSubscriptions: nat, maximumBufferedDeliveries: nat, maximumTrackedKeys: nat, duplicateWindow: nat
  )

  const MAXIMUM_BURST_SUBSCRIPTION_CAPACITY: nat := 65536

  /** Sum of the capacities of the active subscriptions numbered up to `n`. */
  function Capacities(subscriptions: map<nat, Subscription>, n: nat): nat {
    if n == 0 then 0
    else Capacities(subscriptions, n - 1) + if n in subscriptions then subscriptions[n].capacity else 0
  }

  /** The reservation is the sum of the active capacities and within its limit. */
  ghost predicate Booked(d: Desk, c: BurstConfig) {
    && (forall id :: id in d.subscriptions ==> 1 <= id <= d.nextId)
    && d.reserved == Capacities(d.subscriptions, d.nextId)
    && d.reserved <= c.maximumBufferedDeliveries
    && |d.subscriptions| <= c.maximumSubscriptions
  }

  function Subscribe(d: Desk, key: BurstKey, capacity: nat, c: BurstConfig): (Result<nat, SubscriptionError>, Desk) {
    if capacity == 0 then (Err(ZeroCapacity), d)
    else if capacity > MAXIMUM_BURST_SUBSCRIPTION_CAPACITY then (Err(CapacityLimit(capacity)), d)
    else if |d.subscriptions| >= c.maximumSubscriptions then (Err(SubscriptionLimit), d)
    else if d.reserved + capacity > c.maximumBufferedDeliveries then (Err(AggregateCapacity), d)
    else if d.nextId == U64_MAX then (Err(IdentifierSpace), d)
    else
      var id := d.nextId + 1;
      (Ok(id), Desk(id, d.subscriptions[id := Subscription(key, capacity)], d.reserved + capacity))
  }

  /** Ending one subscription gives its slots back; ending it again does nothing. */
  function Unsubscribe(d: Desk, id: nat): Desk {
    if id in d.subscriptions then
      var capacity := d.subscriptions[id].capacity;
      d.(subscriptions := d.subscriptions - {id},
         reserved := SaturatingSub(d.reserved, capacity))
    else d
  }

  lemma {:induction false} CapacitiesUpdate(subscriptions: map<nat, Subscription>, id: nat, x: Subscription, n: nat)
    requires id !in subscriptions
    ensures Capacities(subscriptions[id := x], n) == Capacities(subscriptions, n) + if 1 <= id <= n then x.capacity else 0
  {
    if n > 0 {
      CapacitiesUpdate(subscriptions, id, x, n - 1);
    }
  }

  lemma {:induction false} CapacitiesRemove(subscriptions: map<nat, Subscription>, id: nat, n: nat)
    requires id in subscriptions
    ensures Capacities(subscriptions - {id}, n) + (if 1 <= id <= n then subscriptions[id].capacity else 0) == Capacities(subscriptions, n)
  {
    if n > 0 {
      CapacitiesRemove(subscriptions, id, n - 1);
    }
  }

  lemma SubscribeBooked(d: Desk, key: BurstKey, capacity: nat, c: BurstConfig)
    requires Booked(d, c)
    ensures Booked(Subscribe(d, key, capacity, c).1, c)
  {
    hide Capacities, Booked;
    if Subscribe(d, key, capacity, c).0.Ok? {
      EnrolBooked(d, Subscription(key, capacity), c);
    }
  }

  lemma EnrolBooked(d: Desk, x: Subscription, c: BurstConfig)
    requires Booked(d, c) && d.nextId < U64_MAX && |d.subscriptions| < c.maximumSubscriptions
    requires d.reserved + x.capacity <= c.maximumBufferedDeliveries
    ensures Booked(Desk(d.nextId + 1, d.subscriptions[d.nextId + 1 := x], d.reserved + x.capacity), c)
  {
    hide Capacities;
    CapacitiesUpdate(d.subscriptions, d.nextId + 1, x, d.nextId + 1);
    CapacitiesNext(d.subscriptions, d.nextId);
  }

  lemma CapacitiesNext(subscriptions: map<nat, Subscription>, n: nat)
    requires n + 1 !in subscriptions
    ensures Capacities(subscriptions, n + 1) == Capacities(subscriptions, n)
  {}

  lemma UnsubscribeBooked(d: Desk, id: nat, c: BurstConfig)
    requires Booked(d, c)
    ensures Booked(Unsubscribe(d, id), c)
    ensures id in d.subscriptions ==> d.subscriptions[id].capacity <= d.reserved
  {
    if id in d.subscriptions {
      CapacitiesRemove(d.subscriptions, id, d.nextId);
      assert |d.subscriptions - {id}| < |d.subscriptions| by {
        assert (d.subscriptions - {id}).Keys == d.subscriptions.Keys - {id};
      }
    }
  }

  /** Ending several subscriptions, in any order. */
  function UnsubscribeAll(d: Desk, ids: seq<nat>): Desk {
    if ids == [] then d else Unsubscribe(UnsubscribeAll(d, ids[..|ids| - 1]), ids[|ids| - 1])
  }

  lemma {:induction false} UnsubscribeAllBooked(d: Desk, ids: seq<nat>, c: BurstConfig)
    requires Booked(d, c)
    ensures Booked(UnsubscribeAll(d, ids), c)
  {
    hide Booked;
    if ids != [] {
      UnsubscribeAllBooked(d, ids[..|ids| - 1], c);
      UnsubscribeBooked(UnsubscribeAll(d, ids[..|ids| - 1]), ids[|ids| - 1], c);
    }
  }

  /** What can happen to the subscriptions: one begins, or some end. */
  datatype Booking = Began(key: BurstKey, capacity: nat) | Ended(ids: seq<nat>)

  function BookAll(d: Desk, bookings: seq<Booking>, c: BurstConfig): Desk {
    if bookings == [] then d
    else
      var n := |bookings| - 1;
      var before := BookAll(d, bookings[..n], c);
      match bookings[n]
      case Began(key, capacity) => Subscribe(before, key, capacity, c).1
      case Ended(ids) => UnsubscribeAll(before, ids)
  }

  /** Over every run the reservation is the sum of the active capacities, within its limit. */
  lemma {:induction false} RunBooked(bookings: seq<Booking>, c: BurstConfig)
    ensures Booked(BookAll(Desk(0, map[], 0), bookings, c), c)
  {
    if bookings != [] {
      hide Booked, Subscribe, UnsubscribeAll;
      var n := |bookings| - 1;
      RunBooked(bookings[..n], c);
      var before := BookAll(Desk(0, map[], 0), bookings[..n], c);
      match bookings[n]
      case Began(key, capacity) => SubscribeBooked(before, key, capacity, c);
      case Ended(ids) => UnsubscribeAllBooked(before, ids, c);
    }
  }

  /**
    Subscribing succeeds exactly within every limit, under an identifier never
    used before, and ending the subscription restores everything but the
    identifier counter.
   */
  lemma SubscribeThenUnsubscribe(d: Desk, key: BurstKey, capacity: nat, c: BurstConfig)
    requires Booked(d, c)
    ensures Subscribe(d, key, capacity, c).0.Ok? <==>
      && 1 <= capacity <= MAXIMUM_BURST_SUBSCRIPTION_CAPACITY
      && |d.subscriptions| < c.maximumSubscriptions
      && Capacities(d.subscriptions, d.nextId) + capacity <= c.maximumBufferedDeliveries
      && d.nextId < U64_MAX
    ensures var (r, after) := Subscribe(d, key, capacity, c);
      r.Ok? ==>
        && r.value !in d.subscriptions
        && Unsubscribe(after, r.value) == d.(nextId := after.nextId)
  {
    hide Capacities;
    var (r, after) := Subscribe(d, key, capacity, c);
    if r.Ok? {
      InsertThenRemove(d.subscriptions, r.value, Subscription(key, capacity));
    }
  }

  lemma InsertThenRemove(subscriptions: map<nat, Subscription>, id: nat, x: Subscription)
    requires id !in subscriptions
    ensures subscriptions[id := x] - {id} == subscriptions
  {}

  /** Identifiers up to `n` of the subscribers to `key` whose delivery turns out so, in ascending order. */
  function Listed(subscriptions: map<nat, Subscription>, key: BurstKey, world: nat -> Delivery, d: Delivery, n: nat): seq<nat> {
    if n == 0 then []
    else
      Listed(subscriptions, key, world, d, n - 1)
      + if n in subscriptions && subscriptions[n].key == key && world(n) == d then [n] else []
  }

  /** Exactly those, once each and in order. */
  lemma {:induction false} ListedExactly(subscriptions: map<nat, Subscription>, key: BurstKey, world: nat -> Delivery, d: Delivery, n: nat)
    ensures var ids := Listed(subscriptions, key, world, d, n);
      && (forall id :: id in ids <==> 1 <= id <= n && id in subscriptions && subscriptions[id].key == key && world(id) == d)
      && (forall i, j :: 0 <= i < j < |ids| ==> ids[i] < ids[j])
  {
    if n > 0 {
      ListedExactly(subscriptions, key, world, d, n - 1);
      var ids := Listed(subscriptions, key, world, d, n - 1);
      forall i | 0 <= i < |ids| ensures ids[i] < n { assert ids[i] in ids; }
    }
  }

  /** Ending subscriptions removes exactly the named ones. */
  lemma {:induction false} EndedExactly(d: Desk, ids: seq<nat>)
    ensures var after := UnsubscribeAll(d, ids);
      && after.nextId == d.nextId
      && (forall id :: id in after.subscriptions <==> id in d.subscriptions && id !in ids)
      && (forall id :: id in after.subscriptions ==> after.subscriptions[id] == d.subscriptions[id])
  {
    if ids != [] {
      var n := |ids| - 1;
      EndedExactly(d, ids[..n]);
      assert ids == ids[..n] + [ids[n]];
    }
  }

  /**
    Delivery of a message touches the right subscribers: exactly those to its key
    that turn out to be gone are removed.  Slow ones, those that took it and all
    subscribers to other keys stay as they are.
   */
  lemma OnlyTheGoneAreRemoved(d: Desk, key: BurstKey, world: nat -> Delivery, c: BurstConfig)
    requires Booked(d, c)
    ensures var after := UnsubscribeAll(d, Listed(d.subscriptions, key, world, Disconnected, d.nextId));
      && Booked(after, c)
      && forall id :: id in d.subscriptions ==>
           && (id in after.subscriptions <==> !(d.subscriptions[id].key == key && world(id).Disconnected?))
           && (id in after.subscriptions ==> after.subscriptions[id] == d.subscriptions[id])
  {
    hide Capacities, Listed, UnsubscribeAll;
    var gone := Listed(d.subscriptions, key, world, Disconnected, d.nextId);
    ListedExactly(d.subscriptions, key, world, Disconnected, d.nextId);
    EndedExactly(d, gone);
    UnsubscribeAllBooked(d, gone, c);
  }

  /** Why a subscription is refused, in the order the limits are tried; an accepted one is stored as asked for. */
  lemma SubscribeRefused(d: Desk, key: BurstKey, capacity: nat, c: BurstConfig)
    requires Booked(d, c)
    ensures var (r, after) := Subscribe(d, key, capacity, c);
      && (r == Err(ZeroCapacity) <==> capacity == 0)
      && (r == Err(CapacityLimit(capacity)) <==> capacity > MAXIMUM_BURST_SUBSCRIPTION_CAPACITY)
      && (r == Err(SubscriptionLimit) <==>
           1 <= capacity <= MAXIMUM_BURST_SUBSCRIPTION_CAPACITY && |d.subscriptions| == c.maximumSubscriptions)
      && (r.Err? ==> after == d)
      && (r.Ok? ==> r.value == after.nextId && r.value in after.subscriptions
                    && after.subscriptions[r.value] == Subscription(key, capacity)
                    && forall id :: id in d.subscriptions ==> id in after.subscriptions && after.subscriptions[id] == d.subscriptions[id])
  {
    hide Capacities;
  }

  /** A message handed to each of these subscribers. */
  function Parcels(ids: seq<nat>, reply: DeviceReply): seq<(nat, DeviceReply)> {
    seq(|ids|, i requires 0 <= i < |ids| => (ids[i], reply))
  }

  // ------------------------------------------------------------------ the hub

  datatype PublishError = DataLength(length: nat) | ExpansionLengthError(length: nat)

  class BurstHub {
    const config: BurstConfig
    var nextId: u64
    var subscriptions: map<nat, Subscription>
    var fingerprints: map<BurstKey, Fingerprint>
    var order: seq<BurstKey>
    var reserved: nat
    var subscriptionCount: nat
    var trackedKeys: nat
    var received: u64
    var duplicates: u64
    var backpressureDrops: u64
    /** Messages that subscribers took, in order. */
    var handed: seq<(nat, DeviceReply)>
    var evictions: u64
    var invalid: u64

    function Recall(): Memory
      reads this
    {
      Memory(fingerprints, order)
    }

    function Bookings(): Desk
      reads this
    {
      Desk(nextId, subscriptions, reserved)
    }

    ghost predicate Valid()
      reads this
    {
      && config.maximumTrackedKeys > 0
      && Agrees(Recall(), config.maximumTrackedKeys) && Booked(Bookings(), config)
      && subscriptionCount == |subscriptions| && trackedKeys == |fingerprints|
    }

    constructor (c: BurstConfig)
      requires c.maximumSubscriptions > 0 && c.maximumBufferedDeliveries > 0 && c.maximumTrackedKeys > 0
      ensures Valid() && config == c && Recall() == Memory(map[], []) && Bookings() == Desk(0, map[], 0) && handed == []
    {
      config := c;
      nextId, subscriptions, fingerprints, order, reserved := 0, map[], map[], [], 0;
      subscriptionCount, trackedKeys := 0, 0;
      received, duplicates, backpressureDrops, evictions, invalid, handed := 0, 0, 0, 0, 0, [];
    }

    method TrySubscribe(key: BurstKey, capacity: nat) returns (r: Result<nat, SubscriptionError>)
      requires Valid()
      modifies this`nextId, this`subscriptions, this`reserved, this`subscriptionCount
      ensures Valid() && (r, Bookings()) == Subscribe(old(Bookings()), key, capacity, config)
    {
      hide Agrees, Booked;
      SubscribeBooked(Bookings(), key, capacity, config);
      if capacity == 0 { return Err(ZeroCapacity); }
      if capacity > MAXIMUM_BURST_SUBSCRIPTION_CAPACITY { return Err(CapacityLimit(capacity)); }
      if |subscriptions| >= config.maximumSubscriptions { return Err(SubscriptionLimit); }
      var aggregate := reserved + capacity;
      if aggregate > config.maximumBufferedDeliveries { return Err(AggregateCapacity); }
      if nextId == U64_MAX { return Err(IdentifierSpace); }
      nextId := nextId + 1;
      subscriptions := subscriptions[nextId := Subscription(key, capacity)];
      subscriptionCount := |subscriptions|;
      reserved := aggregate;
      r := Ok(nextId);
    }

    /** A subscriber goes away. */
    method DropSubscription(id: nat)
      requires Valid()
      modifies this`subscriptions, this`reserved, this`subscriptionCount
      ensures Valid() && Bookings() == Unsubscribe(old(Bookings()), id)
    {
      hide Agrees, Capacities;
      UnsubscribeBooked(Bookings(), id, config);
      if id in subscriptions {
        var capacity := subscriptions[id].capacity;
        subscriptions := subscriptions - {id};
        reserved := SaturatingSub(reserved, capacity);
      }
      subscriptionCount := |subscriptions|;
    }

    /** One published message: validated, deduplicated, then distributed. */
    method TryPublish(reply: DeviceReply, now: nat, world: nat -> Delivery) returns (error: Option<PublishError>)
      requires Valid() && Past(Recall(), now)
      modifies this
      ensures Valid() && Past(Recall(), now)
      ensures error == (if |reply.data| > 255 then Some(DataLength(|reply.data|))
                        else if |reply.frameExpansion| > 3 then Some(ExpansionLengthError(|reply.frameExpansion|))
                        else None)
      ensures error.Some? ==>
        && Recall() == old(Recall()) && Bookings() == old(Bookings()) && received == old(received)
        && duplicates == old(duplicates) && backpressureDrops == old(backpressureDrops) && evictions == old(evictions)
        && handed == old(handed)
      ensures invalid == SaturatingAdd(old(invalid), if error.Some? then 1 else 0)
      ensures error.None? ==>
        var key := BurstKey(reply.address, reply.command);
        var bytes := [reply.responseCode, reply.deviceStatus] + reply.data;
        var (deliver, after) := Observe(old(Recall()), key, bytes, now, config.duplicateWindow, config.maximumTrackedKeys);
        && Recall() == after
        && received == SaturatingAdd(old(received), 1)
        && duplicates == SaturatingAdd(old(duplicates), if deliver then 0 else 1)
        && evictions == SaturatingAdd(old(evictions),
                                      if deliver && Evicts(old(Recall()), key, config.maximumTrackedKeys) then 1 else 0)
        && Bookings() == (if deliver
                          then UnsubscribeAll(old(Bookings()), Listed(old(subscriptions), key, world, Disconnected, old(nextId)))
                          else old(Bookings()))
        && backpressureDrops == SaturatingAdd(old(backpressureDrops),
                                              if deliver then |Listed(old(subscriptions), key, world, BackedUp, old(nextId))| else 0)
        && handed == old(handed) + (if deliver then Parcels(Listed(old(subscriptions), key, world, Delivered, old(nextId)), reply) else [])
    {
      hide Agrees, Booked, Past, Listed, Parcels, UnsubscribeAll, Observe;
      if |reply.data| > 255 {
        invalid := SaturatingAdd(invalid, 1);
        return Some(DataLength(|reply.data|));
      }
      if |reply.frameExpansion| > 3 {
        invalid := SaturatingAdd(invalid, 1);
        return Some(ExpansionLengthError(|reply.frameExpansion|));
      }
      var key := BurstKey(reply.address, reply.command);
      var fingerprint := [reply.responseCode, reply.deviceStatus] + reply.data;
      var deliver := Admit(key, fingerprint, now);
      if deliver {
        Distribute(key, world, reply);
      }
      error := None;
    }

    /** Counts a message and decides whether it is delivered or suppressed. */
    method Admit(key: BurstKey, bytes: seq<byte>, now: nat) returns (deliver: bool)
      requires Valid() && Past(Recall(), now)
      modifies this`fingerprints, this`order, this`evictions, this`trackedKeys, this`received, this`duplicates
      ensures Valid() && Past(Recall(), now)
      ensures (deliver, Recall())
        == Observe(old(Recall()), key, bytes, now, config.duplicateWindow, config.maximumTrackedKeys)
      ensures received == SaturatingAdd(old(received), 1)
      ensures duplicates == SaturatingAdd(old(duplicates), if deliver then 0 else 1)
      ensures evictions == SaturatingAdd(old(evictions),
        if deliver && Evicts(old(Recall()), key, config.maximumTrackedKeys) then 1 else 0)
    {
      hide Agrees, Booked, Past, Remember;
      RememberAgrees(Recall(), key, bytes, now, config.maximumTrackedKeys);
      received := SaturatingAdd(received, 1);
      deliver := !IsDuplicate(Recall(), key, bytes, now, config.duplicateWindow);
      if deliver {
        Note(key, bytes, now);
      } else {
        duplicates := SaturatingAdd(duplicates, 1);
      }
    }

    /** Offers the message to every matching subscriber and forgets those that are gone. */
    method Distribute(key: BurstKey, world: nat -> Delivery, reply: DeviceReply)
      requires Valid()
      modifies this`subscriptions, this`reserved, this`subscriptionCount, this`backpressureDrops, this`handed
      ensures Valid()
      ensures Bookings() == UnsubscribeAll(old(Bookings()), Listed(old(subscriptions), key, world, Disconnected, nextId))
      ensures backpressureDrops
        == SaturatingAdd(old(backpressureDrops), |Listed(old(subscriptions), key, world, BackedUp, nextId)|)
      ensures handed == old(handed) + Parcels(Listed(old(subscriptions), key, world, Delivered, nextId), reply)
    {
      hide Agrees, Booked, Listed, Parcels;
      var closed, dropped := Deliver(key, world, reply);
      backpressureDrops := SaturatingAdd(backpressureDrops, dropped);
      ghost var taken := handed;
      for i := 0 to |closed|
        invariant Valid() && Bookings() == UnsubscribeAll(old(Bookings()), closed[..i])
        invariant backpressureDrops == SaturatingAdd(old(backpressureDrops), dropped) && handed == taken
      {
        UnfoldLast(old(Bookings()), closed, i);
        DropSubscription(closed[i]);
      }
      assert closed[..|closed|] == closed;
    }

    /** The memory update, step by step. */
    method Note(key: BurstKey, bytes: seq<byte>, now: nat)
      requires trackedKeys == |fingerprints|
      modifies this`fingerprints, this`order, this`evictions, this`trackedKeys
      ensures Recall() == Remember(old(Recall()), key, bytes, now, config.maximumTrackedKeys)
      ensures trackedKeys == |fingerprints|
      ensures evictions == SaturatingAdd(old(evictions),
        if Evicts(old(Recall()), key, config.maximumTrackedKeys) then 1 else 0)
    {
      hide Except;
      if key in fingerprints {
        order := RetainOthers(order, key);
      } else if |fingerprints| == config.maximumTrackedKeys && order != [] {
        var oldest := order[0];
        order := order[1..];
        fingerprints := fingerprints - {oldest};
        evictions := SaturatingAdd(evictions, 1);
      }
      fingerprints := fingerprints[key := Fingerprint(bytes, now)];
      order := order + [key];
      trackedKeys := |fingerprints|;
    }

    /** One attempt per matching subscriber, in identifier order. */
    method Deliver(key: BurstKey, world: nat -> Delivery, reply: DeviceReply) returns (closed: seq<nat>, dropped: nat)
      modifies this`handed
      ensures closed == Listed(subscriptions, key, world, Disconnected, nextId)
      ensures dropped == |Listed(subscriptions, key, world, BackedUp, nextId)|
      ensures handed == old(handed) + Parcels(Listed(subscriptions, key, world, Delivered, nextId), reply)
    {
      closed, dropped := [], 0;
      for id := 1 to nextId + 1
        invariant closed == Listed(subscriptions, key, world, Disconnected, id - 1)
        invariant dropped == |Listed(subscriptions, key, world, BackedUp, id - 1)|
        invariant handed == old(handed) + Parcels(Listed(subscriptions, key, world, Delivered, id - 1), reply)
      {
        if id in subscriptions && subscriptions[id].key == key {
          match world(id)
          case Delivered => handed := handed + [(id, reply)];
          case BackedUp => dropped := dropped + 1;
          case Disconnected => closed := closed + [id];
        }
      }
    }

    method ResetKey(key: BurstKey)
      requires Valid()
      modifies this`fingerprints, this`order, this`trackedKeys
      ensures Valid() && Recall() == Forget(old(Recall()), key)
    {
      hide Agrees, Booked, Except;
      ForgetAgrees(Recall(), key, config.maximumTrackedKeys);
      fingerprints := fingerprints - {key};
      order := RetainOthers(order, key);
      trackedKeys := |fingerprints|;
    }

    method ResetAll()
      requires Valid()
      modifies this`fingerprints, this`order, this`trackedKeys
      ensures Valid() && Recall() == Memory(map[], [])
    {
      fingerprints, order, trackedKeys := map[], [], 0;
    }
  }

  method RetainOthers(order: seq<BurstKey>, key: BurstKey) returns (kept: seq<BurstKey>)
    ensures kept == Except(order, key)
  {
    kept := [];
    for i := 0 to |order|
      invariant kept == Except(order[..i], key)
    {
      assert order[..i + 1][..i] == order[..i];
      if order[i] != key {
        kept := kept + [order[i]];
      }
    }
    assert order[..|order|] == order;
  }

  lemma UnfoldLast(d: Desk, ids: seq<nat>, i: nat)
    requires i < |ids|
    ensures UnsubscribeAll(d, ids[..i + 1]) == Unsubscribe(UnsubscribeAll(d, ids[..i]), ids[i])
  {
    assert ids[..i + 1][..i] == ids[..i];
  }
}
