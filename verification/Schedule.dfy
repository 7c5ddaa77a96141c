/**
  The time-frequency schedule (src/mesh/topology.rs): cells kept in superframe
  order by binary-search insertion, with no device and no channel used twice in
  one timeslot.
 */
module Scheduling {
  import opened Basics
  import opened Topology

  datatype CellDirection = Transmit | Receive | Shared

  datatype Cell = Cell(timeslot: nat, channelOffset: nat, source: DeviceId, destination: DeviceId, direction: CellDirection)

  datatype ScheduleError =
    | EmptySuperframe
    | TimeslotOutside(timeslot: nat)
    | ChannelOutside(channel: nat)
    | Loopback
    | Conflict(timeslot: nat)
    | RadioConflict(timeslot: nat, channel: nat)

  /** Position in superframe order; the channel offset is below sixteen. */
  function Key(c: Cell): nat { 16 * c.timeslot + c.channelOffset }

  predicate InRange(c: Cell, size: nat) { c.timeslot < size && c.channelOffset <= 15 }

  predicate SharesDevice(a: Cell, b: Cell) {
    a.source == b.source || a.source == b.destination || a.destination == b.source || a.destination == b.destination
  }

  predicate Involves(c: Cell, d: DeviceId) { c.source == d || c.destination == d }

  /** A cell that may stand alone: within the superframe and the channel table, between two devices. */
  predicate Sound(c: Cell, size: nat) { InRange(c, size) && c.source != c.destination }

  /** Two cells that may stand in this order. */
  predicate Before(a: Cell, b: Cell) {
    Key(a) < Key(b) && (a.timeslot == b.timeslot ==> !SharesDevice(a, b))
  }

  /** The schedule invariant: strictly sorted, in range, no device twice in a timeslot. */
  ghost predicate Orderly(cells: seq<Cell>, size: nat) {
    && (forall i :: 0 <= i < |cells| ==> Sound(cells[i], size))
    && (forall i, j :: 0 <= i < j < |cells| ==> Before(cells[i], cells[j]))
  }

  lemma OrderlyAppend(cells: seq<Cell>, c: Cell, size: nat)
    requires Orderly(cells, size) && Sound(c, size) && forall i :: 0 <= i < |cells| ==> Before(cells[i], c)
    ensures Orderly(cells + [c], size)
  {
    hide Before, Sound;
  }

  /** What stands in the way of a cell, in the order the source looks. */
  function Objection(cells: seq<Cell>, size: nat, c: Cell): Option<ScheduleError> {
    if c.timeslot >= size then Some(TimeslotOutside(c.timeslot))
    else if c.channelOffset > 15 then Some(ChannelOutside(c.channelOffset))
    else if c.source == c.destination then Some(Loopback)
    else if exists i :: 0 <= i < |cells| && cells[i].timeslot == c.timeslot && SharesDevice(cells[i], c)
    then Some(Conflict(c.timeslot))
    else if exists i :: 0 <= i < |cells| && cells[i].timeslot == c.timeslot && cells[i].channelOffset == c.channelOffset
    then Some(RadioConflict(c.timeslot, c.channelOffset))
    else None
  }

  function Inserted(cells: seq<Cell>, at: nat, c: Cell): seq<Cell>
    requires at <= |cells|
  {
    cells[..at] + [c] + cells[at..]
  }

  /** `at` is where a cell with key `k` belongs. */
  ghost predicate Belongs(cells: seq<Cell>, at: nat, k: nat) {
    && at <= |cells|
    && (forall i :: 0 <= i < at ==> Key(cells[i]) < k)
    && (forall i :: at <= i < |cells| ==> k <= Key(cells[i]))
  }

  lemma InsertionKeepsOrder(cells: seq<Cell>, size: nat, at: nat, c: Cell)
    requires Orderly(cells, size) && Objection(cells, size, c).None? && Belongs(cells, at, Key(c))
    ensures Orderly(Inserted(cells, at, c), size)
  {
    forall i | 0 <= i < |cells| ensures if i < at then Before(cells[i], c) else Before(c, cells[i]) {
      assert Sound(cells[i], size);
      if Key(cells[i]) == Key(c) { SameKey(cells[i], c, size); }
      Symmetric(cells[i], c);
    }
    assert Sound(c, size);
    InsertedOrderly(cells, size, at, c);
  }

  lemma InsertedOrderly(cells: seq<Cell>, size: nat, at: nat, c: Cell)
    requires Orderly(cells, size) && Sound(c, size) && at <= |cells|
    requires forall i :: 0 <= i < |cells| ==> if i < at then Before(cells[i], c) else Before(c, cells[i])
    ensures Orderly(Inserted(cells, at, c), size)
  {
    hide Before, Sound;
    var r := Inserted(cells, at, c);
    assert forall i :: 0 <= i < |r| ==> r[i] == if i < at then cells[i] else if i == at then c else cells[i - 1];
  }

  /** A place for every key. */
  lemma {:induction false} PlaceExists(cells: seq<Cell>, size: nat, k: nat) returns (at: nat)
    requires Orderly(cells, size)
    ensures Belongs(cells, at, k)
  {
    if cells == [] {
      at := 0;
    } else {
      var n := |cells| - 1;
      if Key(cells[n]) < k {
        assert forall i :: 0 <= i < n ==> Before(cells[i], cells[n]);
        at := |cells|;
      } else {
        at := PlaceExists(cells[..n], size, k);
      }
    }
  }

  /**
    A cell is accepted exactly when it can join the schedule at all: no objection
    is raised if and only if some position keeps the schedule orderly.
   */
  lemma AcceptedIffItFits(cells: seq<Cell>, size: nat, c: Cell)
    requires Orderly(cells, size)
    ensures Objection(cells, size, c).None? <==> exists at :: 0 <= at <= |cells| && Orderly(Inserted(cells, at, c), size)
  {
    hide Orderly;
    if Objection(cells, size, c).None? {
      var at := PlaceExists(cells, size, Key(c));
      InsertionKeepsOrder(cells, size, at, c);
    }
    forall at | 0 <= at <= |cells| && Orderly(Inserted(cells, at, c), size) ensures Objection(cells, size, c).None? {
      FittingRaisesNoObjection(cells, size, at, c);
    }
  }

  lemma FittingRaisesNoObjection(cells: seq<Cell>, size: nat, at: nat, c: Cell)
    requires at <= |cells| && Orderly(Inserted(cells, at, c), size)
    ensures Objection(cells, size, c).None?
  {
    var r := Inserted(cells, at, c);
    assert r[at] == c && Sound(c, size);
    forall i | 0 <= i < |cells|
      ensures cells[i].timeslot == c.timeslot ==> !SharesDevice(cells[i], c) && cells[i].channelOffset != c.channelOffset
    {
      if i < at {
        assert r[i] == cells[i] && Before(r[i], r[at]);
      } else {
        assert r[i + 1] == cells[i] && Before(r[at], r[i + 1]);
      }
      Symmetric(cells[i], c);
    }
  }

  lemma Symmetric(a: Cell, b: Cell)
    ensures SharesDevice(a, b) == SharesDevice(b, a)
  {}

  /** Within range the key determines timeslot and channel. */
  lemma SameKey(a: Cell, b: Cell, size: nat)
    requires InRange(a, size) && InRange(b, size) && Key(a) == Key(b)
    ensures a.timeslot == b.timeslot && a.channelOffset == b.channelOffset
  {}

  /** Cells that do not involve the device, in order. */
  function Without(cells: seq<Cell>, d: DeviceId): (r: seq<Cell>)
    ensures forall c :: c in r <==> c in cells && !Involves(c, d)
    ensures |r| <= |cells|
  {
    if cells == [] then []
    else
      var n := |cells| - 1;
      assert cells == cells[..n] + [cells[n]];
      Without(cells[..n], d) + if Involves(cells[n], d) then [] else [cells[n]]
  }

  lemma WithoutNothing(d: DeviceId)
    ensures Without([], d) == []
  {}

  lemma WithoutNext(cells: seq<Cell>, i: nat, d: DeviceId)
    requires i < |cells|
    ensures Without(cells[..i + 1], d) == Without(cells[..i], d) + if Involves(cells[i], d) then [] else [cells[i]]
  {
    assert cells[..i + 1][..i] == cells[..i];
  }

  lemma {:induction false} RemovalKeepsOrder(cells: seq<Cell>, size: nat, d: DeviceId)
    requires Orderly(cells, size)
    ensures Orderly(Without(cells, d), size)
  {
    hide Before, Sound, Involves;
    if cells != [] {
      var n := |cells| - 1;
      var before := Without(cells[..n], d);
      RemovalKeepsOrder(cells[..n], size, d);
      forall i | 0 <= i < |before| ensures Before(before[i], cells[n]) {
        assert before[i] in cells[..n];
      }
      OrderlyAppend(before, cells[n], size);
      assert before + [] == before;
    }
  }

  /** Which objection is raised, for every cell and every schedule. */
  lemma ObjectionExact(cells: seq<Cell>, size: nat, c: Cell)
    ensures var o := Objection(cells, size, c);
      var meets := exists x :: x in cells && x.timeslot == c.timeslot && SharesDevice(x, c);
      var taken := exists x :: x in cells && x.timeslot == c.timeslot && x.channelOffset == c.channelOffset;
      && (o == Some(TimeslotOutside(c.timeslot)) <==> c.timeslot >= size)
      && (o == Some(ChannelOutside(c.channelOffset)) <==> c.timeslot < size && c.channelOffset > 15)
      && (o == Some(Loopback) <==> InRange(c, size) && c.source == c.destination)
      && (o == Some(Conflict(c.timeslot)) <==> Sound(c, size) && meets)
      && (o == Some(RadioConflict(c.timeslot, c.channelOffset)) <==> Sound(c, size) && !meets && taken)
      && (o.None? <==> Sound(c, size) && !meets && !taken)
  {
    hide SharesDevice;
    assert forall x :: x in cells <==> exists i :: 0 <= i < |cells| && cells[i] == x;
  }

  // -------------------------------------------------------------- cardinality

  /** Strictly increasing keys below a bound are at most that many. */
  lemma {:induction false} FewKeys(cells: seq<Cell>, low: nat, high: nat)
    requires forall i :: 0 <= i < |cells| ==> low <= Key(cells[i]) < high
    requires forall i, j :: 0 <= i < j < |cells| ==> Key(cells[i]) < Key(cells[j])
    requires low <= high
    ensures |cells| <= high - low
  {
    if cells != [] {
      var n := |cells| - 1;
      FewKeys(cells[..n], low, Key(cells[n]));
    }
  }

  /** At most sixteen cells per timeslot of the superframe in all. */
  lemma ScheduleBounded(cells: seq<Cell>, size: nat)
    requires Orderly(cells, size)
    ensures |cells| <= 16 * size
  {
    forall i | 0 <= i < |cells| ensures Key(cells[i]) < 16 * size { assert Sound(cells[i], size); }
    forall i, j | 0 <= i < j < |cells| ensures Key(cells[i]) < Key(cells[j]) { assert Before(cells[i], cells[j]); }
    FewKeys(cells, 0, 16 * size);
  }

  function InSlot(cells: seq<Cell>, t: nat): (r: seq<Cell>)
    ensures forall c :: c in r <==> c in cells && c.timeslot == t
  {
    if cells == [] then []
    else
      var n := |cells| - 1;
      assert cells == cells[..n] + [cells[n]];
      InSlot(cells[..n], t) + if cells[n].timeslot == t then [cells[n]] else []
  }

  lemma {:induction false} SlotOrdered(cells: seq<Cell>, size: nat, t: nat)
    requires Orderly(cells, size)
    ensures Orderly(InSlot(cells, t), size)
  {
    hide Before, Sound;
    if cells != [] {
      var n := |cells| - 1;
      var before := InSlot(cells[..n], t);
      SlotOrdered(cells[..n], size, t);
      forall i | 0 <= i < |before| ensures Before(before[i], cells[n]) {
        assert before[i] in cells[..n];
      }
      OrderlyAppend(before, cells[n], size);
      assert before + [] == before;
    }
  }

  /** And at most sixteen in any one timeslot. */
  lemma SlotBounded(cells: seq<Cell>, size: nat, t: nat)
    requires Orderly(cells, size)
    ensures |InSlot(cells, t)| <= 16
  {
    SlotOrdered(cells, size, t);
    var r := InSlot(cells, t);
    forall i | 0 <= i < |r| ensures 16 * t <= Key(r[i]) < 16 * t + 16 {
      assert r[i] in r && Sound(r[i], size);
    }
    forall i, j | 0 <= i < j < |r| ensures Key(r[i]) < Key(r[j]) { assert Before(r[i], r[j]); }
    FewKeys(r, 16 * t, 16 * t + 16);
  }

  // ------------------------------------------------------------- the schedule

  class Schedule {
    const superframeSize: nat
    var cells: seq<Cell>

    /** `Schedule::new` refuses an empty superframe before building the value. */
    constructor (size: nat)
      requires size > 0
      ensures superframeSize == size && cells == [] && Orderly(cells, superframeSize)
    {
      superframeSize, cells := size, [];
    }

    method Insert(cell: Cell) returns (r: Option<ScheduleError>)
      requires Orderly(cells, superframeSize)
      modifies this
      ensures Orderly(cells, superframeSize)
      ensures r == Objection(old(cells), superframeSize, cell)
      ensures r.Some? ==> cells == old(cells)
      ensures r.None? ==> exists at :: Belongs(old(cells), at, Key(cell)) && cells == Inserted(old(cells), at, cell)
    {
      if cell.timeslot >= superframeSize { return Some(TimeslotOutside(cell.timeslot)); }
      if cell.channelOffset > 15 { return Some(ChannelOutside(cell.channelOffset)); }
      if cell.source == cell.destination { return Some(Loopback); }
      if exists i :: 0 <= i < |cells| && cells[i].timeslot == cell.timeslot && SharesDevice(cells[i], cell) {
        return Some(Conflict(cell.timeslot));
      }
      if exists i :: 0 <= i < |cells| && cells[i].timeslot == cell.timeslot && cells[i].channelOffset == cell.channelOffset {
        return Some(RadioConflict(cell.timeslot, cell.channelOffset));
      }
      var at := InsertionPoint(cells, Key(cell), superframeSize);
      InsertionKeepsOrder(cells, superframeSize, at, cell);
      cells := Inserted(cells, at, cell);
      r := None;
    }

    /** Removes every cell of a device and says how many there were. */
    method RemoveDevice(device: DeviceId) returns (removed: nat)
      requires Orderly(cells, superframeSize)
      modifies this
      ensures Orderly(cells, superframeSize) && cells == Without(old(cells), device)
      ensures removed == |old(cells)| - |cells|
    {
      hide Orderly, Without, Involves;
      RemovalKeepsOrder(cells, superframeSize, device);
      WithoutNothing(device);
      var previous := |cells|;
      var kept: seq<Cell> := [];
      for i := 0 to |cells|
        invariant cells == old(cells) && kept == Without(cells[..i], device)
      {
        WithoutNext(cells, i, device);
        if !Involves(cells[i], device) {
          kept := kept + [cells[i]];
        }
      }
      assert cells[..|cells|] == cells;
      cells := kept;
      removed := previous - |cells|;
    }
  }

  /** Binary search for the place of a key among strictly increasing ones. */
  method InsertionPoint(cells: seq<Cell>, key: nat, size: nat) returns (at: nat)
    requires Orderly(cells, size)
    ensures Belongs(cells, at, key)
  {
    var low, high := 0, |cells|;
    while low < high
      invariant 0 <= low <= high <= |cells|
      invariant forall i :: 0 <= i < low ==> Key(cells[i]) < key
      invariant forall i :: high <= i < |cells| ==> key <= Key(cells[i])
    {
      var mid := low + (high - low) / 2;
      assert forall i :: 0 <= i < mid ==> Before(cells[i], cells[mid]);
      assert forall i :: mid < i < |cells| ==> Before(cells[mid], cells[i]);
      if Key(cells[mid]) < key {
        low := mid + 1;
      } else {
        high := mid;
      }
    }
    at := low;
  }
}
