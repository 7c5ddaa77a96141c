/**
  What the scheduler promises over whole runs: exact selection, bounded waiting
  for strict and weighted queues, and exact shares under full backlog.
 */
module Fairness {
  import opened Basics
  import opened Queues

  // ------------------------------------------------------ exact selection

  /** Every entry still counted by its queue is still in it: nothing is popped and unfinished. */
  ghost predicate Tidy<T(!new)>(slots: seq<Slot<T>>) {
    forall i :: 0 <= i < |slots| ==> slots[i].queued == |slots[i].entries|
  }

  /** Going all the way round from `start` visits every slot. */
  lemma RingReaches(start: nat, j: nat, n: nat)
    requires start < n && j < n
    ensures 1 <= Distance(start, j, n) <= n && Ring(start, Distance(start, j, n), n) == j
  {}

  /** Selection in every state, popped entries or not. */
  lemma SelectionExact<T(!new)>(slots: seq<Slot<T>>, c: Cursor)
    requires ValidCursor(c, slots)
    ensures var r := PopScheduled(slots, c);
      var top := TopRank(slots);
      var strict := top.Some? && exists i :: 0 <= i < |slots| && StrictReady(slots[i], top.value);
      && (strict ==> r.index.Some? && StrictReady(slots[r.index.value], top.value))
      && (!strict ==> (r.index.Some? <==> exists i :: 0 <= i < |slots| && WeightedReady(slots[i])))
      && (!strict && r.index.Some? ==> WeightedReady(slots[r.index.value]))
  {
    hide TopRank, PopStrict, PopWeighted;
    var top := TopRank(slots);
    if top.Some? { StrictSelection(slots, c, top.value); }
    WeightedSelection(slots, c);
    assert top.None? ==> PopStrict(slots, c).index.None? by { NoRank(slots, c); }
  }

  lemma NoRank<T(!new)>(slots: seq<Slot<T>>, c: Cursor)
    requires ValidCursor(c, slots)
    ensures TopRank(slots).None? ==> PopStrict(slots, c).index.None?
  {
    hide TopRank, ScanStrict;
  }

  /** The strict rule finds a queue exactly when one is ready at the rank it looks for. */
  lemma StrictSelection<T(!new)>(slots: seq<Slot<T>>, c: Cursor, rank: nat)
    requires ValidCursor(c, slots) && TopRank(slots) == Some(rank)
    ensures var r := PopStrict(slots, c);
      && (r.index.Some? <==> exists i :: 0 <= i < |slots| && StrictReady(slots[i], rank))
      && (r.index.Some? ==> r.index.value < |slots| && StrictReady(slots[r.index.value], rank))
  {
    hide TopRank, ScanStrict, StrictReady;
    forall j | 0 <= j < |slots| && StrictReady(slots[j], rank) ensures PopStrict(slots, c).index.Some? {
      RingReaches(c.strictIndex, j, |slots|);
    }
  }

  /** The weighted rule finds a queue exactly when one is ready. */
  lemma WeightedSelection<T(!new)>(slots: seq<Slot<T>>, c: Cursor)
    ensures PopWeighted(slots, c).index.Some? <==> exists i :: 0 <= i < |slots| && WeightedReady(slots[i])
  {
    hide ScanWeighted, WeightedReady;
    forall j | 0 <= j < |slots| && WeightedReady(slots[j]) ensures PopWeighted(slots, c).index.Some? {
      RingReaches(Wrapped(c, |slots|).weightedIndex, j, |slots|);
    }
  }

  /**
    With nothing popped and unfinished, an entry comes out exactly when some
    queue holds one, and from the highest ready strict rank if there is one.
   */
  lemma SelectionWhenTidy<T(!new)>(slots: seq<Slot<T>>, c: Cursor)
    requires ValidCursor(c, slots) && Tidy(slots)
    ensures var r := PopScheduled(slots, c);
      && (r.index.Some? <==> exists i :: 0 <= i < |slots| && slots[i].entries != [])
      && (r.index.Some? ==>
           forall j :: 0 <= j < |slots| && slots[j].priority.Strict? && slots[j].entries != [] ==>
             slots[r.index.value].priority.Strict? && slots[j].priority.rank <= slots[r.index.value].priority.rank)
  {
    SelectionExact(slots, c);
    var r := PopScheduled(slots, c);
    forall j | 0 <= j < |slots| && slots[j].entries != [] ensures r.index.Some? {
      assert slots[j].priority.Strict? || WeightedReady(slots[j]);
    }
  }

  /**
    The condition matters: a popped, unfinished entry of a higher rank hides a
    ready queue of a lower strict rank completely.
   */
  lemma UnfinishedEntryHidesLowerRank()
    ensures var slots := [Slot(0, 1, Strict(2), 0, 1, []), Slot(1, 1, Strict(1), 0, 1, [7])];
      !Tidy(slots) && slots[1].entries != [] && PopScheduled(slots, Cursor(0, 0, 0)).index.None?
  {
    hide PopScheduled;
    var slots := [Slot(0, 1, Strict(2), 0, 1, []), Slot(1, 1, Strict(1), 0, 1, [7])];
    assert slots[0].queued != |slots[0].entries|;
    SelectionExact(slots, Cursor(0, 0, 0));
    assert slots[0].priority == Strict(2);
    assert TopRank(slots) == Some(2);
  }

  // ---------------------------------------------------- weighted potential

  function Weight(p: Priority): nat { if p.Weighted? then p.weight else 0 }

  /** Sum of the weights strictly between positions `i` and `j` going forward round the ring. */
  function Between(ps: seq<Priority>, i: nat, j: nat): nat
    requires i < |ps| && j < |ps|
    decreases Distance(i, j, |ps|)
  {
    var k := Ring(i, 1, |ps|);
    if k == j then 0 else Weight(ps[k]) + Between(ps, k, j)
  }

  function Priorities<T>(slots: seq<Slot<T>>): (ps: seq<Priority>)
    ensures |ps| == |slots|
    ensures forall i :: 0 <= i < |ps| ==> ps[i] == slots[i].priority
  {
    seq(|slots|, i requires 0 <= i < |slots| => slots[i].priority)
  }

  /** What other queues may still be served before `j` is. */
  function Potential(ps: seq<Priority>, c: Cursor, j: nat): nat
    requires j < |ps|
  {
    var w := Wrapped(c, |ps|);
    var i := w.weightedIndex;
    if i != j then
      (if Weight(ps[i]) > w.weightedUsed then Weight(ps[i]) - w.weightedUsed else 0) + Between(ps, i, j)
    else if w.weightedUsed < Weight(ps[j]) then 0
    else Between(ps, j, j)
  }

  /** A position met on the way accounts for its own weight and the rest of the way. */
  lemma {:induction false} OnTheWay(ps: seq<Priority>, i: nat, k: nat, j: nat)
    requires i < |ps| && k < |ps| && j < |ps|
    requires Distance(i, k, |ps|) < Distance(i, j, |ps|)
    ensures Between(ps, i, j) >= Weight(ps[k]) + Between(ps, k, j)
    decreases Distance(i, k, |ps|)
  {
    var m := Ring(i, 1, |ps|);
    if m != k {
      OnTheWay(ps, m, k, j);
    }
  }

  /** The sum of the weights of all the other queues. */
  function Others(ps: seq<Priority>, j: nat): nat
    requires j < |ps|
  {
    Between(ps, j, j)
  }

  lemma PotentialBound(ps: seq<Priority>, c: Cursor, j: nat)
    requires j < |ps|
    ensures Potential(ps, c, j) <= Others(ps, j)
  {
    var i := Wrapped(c, |ps|).weightedIndex;
    if i != j {
      OnTheWay(ps, j, i, j);
    }
  }

  /** Each weighted pop serves `j` or brings it strictly closer. */
  lemma PopApproaches<T(!new)>(slots: seq<Slot<T>>, c: Cursor, j: nat)
    requires ValidSlots(slots) && j < |slots| && WeightedReady(slots[j])
    ensures var r := PopWeighted(slots, c);
      var ps := Priorities(slots);
      && r.index.Some?
      && (r.index.value != j ==> Potential(ps, r.cursor, j) < Potential(ps, c, j))
  {
    hide Between, ScanWeighted;
    var n := |slots|;
    var ps := Priorities(slots);
    var w := Wrapped(c, n);
    var i := w.weightedIndex;
    var r := PopWeighted(slots, c);
    RingReaches(i, j, n);
    var found := ScanWeighted(slots, i, 1);
    if found.Some? && found.value != j && r.index == found && r.cursor.weightedIndex == found.value {
      var k := found.value;
      assert ps[k] == slots[k].priority;
      assert Distance(i, k, n) <= Distance(i, j, n);
      RingReaches(i, k, n);
      OnTheWay(ps, i, k, j);
    }
  }

  /** The bound is what it says: all weights but the queue's own. */
  function Total(ps: seq<Priority>): nat {
    if ps == [] then 0 else Total(ps[..|ps| - 1]) + Weight(ps[|ps| - 1])
  }

  lemma {:induction false} TotalSplit(ps: seq<Priority>, i: nat)
    requires i <= |ps|
    ensures Total(ps) == Total(ps[..i]) + Total(ps[i..])
  {
    if i == |ps| {
      assert ps[..i] == ps && ps[i..] == [];
    } else {
      var n := |ps| - 1;
      TotalSplit(ps[..n], i);
      assert ps[..n][..i] == ps[..i] && ps[..n][i..] == ps[i..][..|ps[i..]| - 1];
    }
  }

  lemma TotalHead(ps: seq<Priority>)
    requires ps != []
    ensures Total(ps) == Weight(ps[0]) + Total(ps[1..])
  {
    TotalSplit(ps, 1);
    assert ps[..1][..0] == [] && Total(ps[..1]) == Weight(ps[0]);
  }

  lemma {:induction false} BetweenIsSum(ps: seq<Priority>, i: nat, j: nat)
    requires i < |ps| && j < |ps|
    ensures Between(ps, i, j) ==
      if j > i then Total(ps[i + 1..j]) else Total(ps[i + 1..]) + Total(ps[..j])
    decreases Distance(i, j, |ps|)
  {
    var k := Ring(i, 1, |ps|);
    if k != j {
      BetweenIsSum(ps, k, j);
      if j > i {
        TotalHead(ps[i + 1..j]);
        assert ps[i + 1..j][1..] == ps[k + 1..j];
      } else if k > 0 {
        TotalHead(ps[i + 1..]);
        assert ps[i + 1..][1..] == ps[k + 1..];
      } else {
        TotalHead(ps[..j]);
        assert ps[..j][1..] == ps[1..j];
        assert ps[i + 1..] == [];
      }
    } else if j > i {
      assert ps[i + 1..j] == [];
    } else {
      assert ps[i + 1..] == [] && ps[..j] == [];
    }
  }

  lemma OthersIsTheRest(ps: seq<Priority>, j: nat)
    requires j < |ps|
    ensures Others(ps, j) + Weight(ps[j]) == Total(ps)
  {
    BetweenIsSum(ps, j, j);
    TotalSplit(ps, j);
    TotalHead(ps[j..]);
    assert ps[j..][1..] == ps[j + 1..];
  }

  // ------------------------------------------------------------------ runs

  /**
    A run is the sequence of queue states at which the runner asks for the next
    job.  Between two turns anything may arrive, be taken or be put back; only
    the priorities stay as they are.
   */
  ghost predicate Run<T(!new)>(turns: seq<seq<Slot<T>>>, ps: seq<Priority>) {
    forall t :: t in turns ==> ValidSlots(t) && |t| == |ps| && Priorities(t) == ps
  }

  /** Indices served by weighted selection, in order. */
  function WeightedServes<T>(turns: seq<seq<Slot<T>>>, c: Cursor): seq<nat>
    requires forall t :: t in turns ==> ValidCursor(c, t)
    requires forall t, u :: t in turns && u in turns ==> |t| == |u|
    decreases |turns|
  {
    if turns == [] then []
    else
      var r := PopScheduled(turns[0], c);
      (if PopStrict(turns[0], c).index.None? && r.index.Some? then [r.index.value] else [])
      + WeightedServes(turns[1..], r.cursor)
  }

  /** What the first turn contributes. */
  lemma FirstTurn<T(!new)>(turns: seq<seq<Slot<T>>>, c: Cursor, ps: seq<Priority>)
    requires Run(turns, ps) && c.strictIndex < |ps| && turns != []
    ensures turns[0] in turns && |turns[0]| == |ps| && Priorities(turns[0]) == ps && ValidSlots(turns[0]) && Run(turns[1..], ps)
    ensures PopScheduled(turns[0], c).cursor.strictIndex < |ps|
    ensures var r := PopScheduled(turns[0], c);
      var others := WeightedServes(turns[1..], r.cursor);
      WeightedServes(turns, c) ==
        if PopStrict(turns[0], c).index.None? && r.index.Some? then [r.index.value] + others else others
  {
    hide PopStrict, PopWeighted;
    assert turns[0] in turns;
  }

  lemma {:induction false} ServedWithinPotential<T(!new)>(turns: seq<seq<Slot<T>>>, c: Cursor, ps: seq<Priority>, j: nat)
    requires Run(turns, ps) && j < |ps| && c.strictIndex < |ps|
    requires forall t :: t in turns ==> WeightedReady(t[j])
    ensures var s := WeightedServes(turns, c);
      |s| > Potential(ps, c, j) ==> exists i :: 0 <= i <= Potential(ps, c, j) && s[i] == j
    decreases |turns|
  {
    hide PopScheduled, PopWeighted, PopStrict, Potential, WeightedServes, CursorAfter, Run;
    RunBasics(turns, c, ps);
    if turns != [] {
      assert turns[0] in turns;
      var t := turns[0];
      var r := PopScheduled(t, c);
      TurnApproaches(t, c, ps, j);
      ServedWithinPotential(turns[1..], r.cursor, ps, j);
      var s, others := WeightedServes(turns, c), WeightedServes(turns[1..], r.cursor);
      if !ServesWeighted(t, c) {
        assert s == others;
      } else if r.index.value == j {
        assert s[0] == j;
      } else if |s| > Potential(ps, c, j) {
        var at :| 0 <= at <= Potential(ps, r.cursor, j) && others[at] == j;
        assert s[at + 1] == j;
      }
    }
  }

  /** A turn leaves the potential of a ready queue alone, serves it, or lowers it. */
  lemma TurnApproaches<T(!new)>(t: seq<Slot<T>>, c: Cursor, ps: seq<Priority>, j: nat)
    requires ValidSlots(t) && Priorities(t) == ps && j < |ps| && c.strictIndex < |ps| && WeightedReady(t[j])
    ensures var r := PopScheduled(t, c);
      if ServesWeighted(t, c) then r.index == Some(j) || Potential(ps, r.cursor, j) < Potential(ps, c, j)
      else Potential(ps, r.cursor, j) == Potential(ps, c, j)
  {
    hide PopWeighted, PopStrict, Potential;
    if PopStrict(t, c).index.Some? {
      StrictKeepsWeights(t, c);
      SamePotential(ps, c, PopScheduled(t, c).cursor, j);
    } else {
      PopApproaches(t, c, j);
    }
  }

  lemma StrictKeepsWeights<T(!new)>(slots: seq<Slot<T>>, c: Cursor)
    requires ValidCursor(c, slots)
    ensures var r := PopStrict(slots, c);
      r.cursor.weightedIndex == c.weightedIndex && r.cursor.weightedUsed == c.weightedUsed
  {}

  lemma SamePotential(ps: seq<Priority>, c: Cursor, d: Cursor, j: nat)
    requires j < |ps| && c.weightedIndex == d.weightedIndex && c.weightedUsed == d.weightedUsed
    ensures Potential(ps, c, j) == Potential(ps, d, j)
  {}

  /**
    Bounded waiting.  In every run, a weighted queue that is never empty at a
    turn is among any `Others + 1` consecutive weighted selections, whatever
    arrives and however many strict selections come in between.
   */
  lemma {:induction false} WeightedQueueWaitsBounded<T(!new)>(turns: seq<seq<Slot<T>>>, c: Cursor, ps: seq<Priority>, j: nat, a: nat)
    requires Run(turns, ps) && j < |ps| && c.strictIndex < |ps|
    requires forall t :: t in turns ==> WeightedReady(t[j])
    requires a + Others(ps, j) < |WeightedServes(turns, c)|
    ensures exists i :: a <= i <= a + Others(ps, j) && WeightedServes(turns, c)[i] == j
    decreases |turns|
  {
    hide PopScheduled, PopStrict, Potential, Others, WeightedServes, WeightedReady, ValidSlots;
    var s := WeightedServes(turns, c);
    if a == 0 {
      PotentialBound(ps, c, j);
      ServedWithinPotential(turns, c, ps, j);
    } else {
      assert turns != [] by { NoTurns(turns, c); }
      FirstTurn(turns, c, ps);
      var next := PopScheduled(turns[0], c).cursor;
      var others := WeightedServes(turns[1..], next);
      var k := |s| - |others|;
      WeightedQueueWaitsBounded(turns[1..], next, ps, j, a - k);
      var i :| a - k <= i <= a - k + Others(ps, j) && others[i] == j;
      assert s[i + k] == j;
    }
  }

  lemma NoTurns<T(!new)>(turns: seq<seq<Slot<T>>>, c: Cursor)
    requires forall t :: t in turns ==> ValidCursor(c, t)
    requires forall t, u :: t in turns && u in turns ==> |t| == |u|
    ensures turns == [] ==> WeightedServes(turns, c) == []
  {}

  // --------------------------------------------------------- strict waiting

  /** Queue `j` is ready and no counted strict queue has a higher rank. */
  ghost predicate TopAndReady<T(!new)>(slots: seq<Slot<T>>, j: nat) {
    && j < |slots| && slots[j].priority.Strict? && slots[j].entries != [] && slots[j].queued > 0
    && forall i :: 0 <= i < |slots| && slots[i].priority.Strict? && slots[i].queued > 0 ==>
         slots[i].priority.rank <= slots[j].priority.rank
  }

  /** Each selection serves `j` or moves the strict cursor strictly closer to it. */
  lemma StrictApproaches<T(!new)>(slots: seq<Slot<T>>, c: Cursor, j: nat)
    requires TopAndReady(slots, j) && c.strictIndex < |slots|
    ensures var r := PopScheduled(slots, c);
      && r.index.Some?
      && (r.index.value != j ==>
           Distance(r.cursor.strictIndex, j, |slots|) < Distance(c.strictIndex, j, |slots|))
  {
    assert TopRank(slots) == Some(slots[j].priority.rank);
    RingReaches(c.strictIndex, j, |slots|);
  }

  /** Indices served at each turn. */
  function Serves<T>(turns: seq<seq<Slot<T>>>, c: Cursor): (s: seq<Option<nat>>)
    requires forall t :: t in turns ==> ValidCursor(c, t)
    requires forall t, u :: t in turns && u in turns ==> |t| == |u|
    ensures |s| == |turns|
    decreases |turns|
  {
    if turns == [] then []
    else
      var r := PopScheduled(turns[0], c);
      [r.index] + Serves(turns[1..], r.cursor)
  }

  /** A strict queue that stays ready at the top rank is passed over at most `n - 1` times. */
  lemma {:induction false} StrictQueueWaitsBounded<T(!new)>(turns: seq<seq<Slot<T>>>, c: Cursor, n: nat, j: nat)
    requires c.strictIndex < n && j < n
    requires forall t :: t in turns ==> |t| == n && TopAndReady(t, j)
    requires Distance(c.strictIndex, j, n) <= |turns|
    ensures Some(j) in Serves(turns, c)[..Distance(c.strictIndex, j, n)] && Distance(c.strictIndex, j, n) <= n
    decreases |turns|
  {
    hide PopScheduled, TopAndReady;
    var t := turns[0];
    assert t in turns;
    StrictApproaches(t, c, j);
    var r := PopScheduled(t, c);
    var s := Serves(turns, c);
    if r.index.value == j {
      assert s[0] == Some(j);
    } else {
      StrictQueueWaitsBounded(turns[1..], r.cursor, n, j);
      var others := Serves(turns[1..], r.cursor);
      var at :| 0 <= at < Distance(r.cursor.strictIndex, j, n) && others[at] == Some(j);
      assert s[at + 1] == Some(j);
    }
  }

  /** A strict selection at the rank of a ready queue `j` serves it or moves the strict cursor strictly closer. */
  lemma StrictCloser<T(!new)>(slots: seq<Slot<T>>, c: Cursor, j: nat)
    requires c.strictIndex < |slots| && j < |slots| && PopStrict(slots, c).index.Some?
    requires slots[j].entries != [] && slots[j].priority == slots[PopStrict(slots, c).index.value].priority
    ensures var r := PopStrict(slots, c);
      && r.cursor.strictIndex == r.index.value < |slots|
      && (r.index.value != j ==>
           Distance(r.cursor.strictIndex, j, |slots|) < Distance(c.strictIndex, j, |slots|))
  {
    RingReaches(c.strictIndex, j, |slots|);
  }

  // ------------------------------------------------------------------ quotas

  /** The cursor after a run of turns. */
  function CursorAfter<T>(turns: seq<seq<Slot<T>>>, c: Cursor): Cursor
    requires forall t :: t in turns ==> ValidCursor(c, t)
    requires forall t, u :: t in turns && u in turns ==> |t| == |u|
    decreases |turns|
  {
    if turns == [] then c else CursorAfter(turns[1..], PopScheduled(turns[0], c).cursor)
  }

  /** Queue `i` was served `k` times in a row, and the cursor knows it. */
  predicate Served(ps: seq<Priority>, c: Cursor, i: nat, k: nat)
    requires i < |ps|
  {
    k == 0 || (c.weightedIndex == i && c.weightedUsed >= Min(k, Weight(ps[i])))
  }

  lemma ServedAgain<T(!new)>(slots: seq<Slot<T>>, c: Cursor, i: nat, k: nat)
    requires ValidSlots(slots) && i < |slots| && PopWeighted(slots, c).index == Some(i) && Served(Priorities(slots), c, i, k)
    ensures Served(Priorities(slots), PopWeighted(slots, c).cursor, i, k + 1)
  {
    hide ScanWeighted;
    assert Priorities(slots)[i] == slots[i].priority && ValidPriority(slots[i].priority);
  }

  /** With its quota used up, a queue is served again only when no other weighted queue is ready. */
  lemma QuotaUsedUp<T(!new)>(slots: seq<Slot<T>>, c: Cursor, i: nat, k: nat)
    requires ValidSlots(slots) && i < |slots| && PopWeighted(slots, c).index == Some(i)
    requires Served(Priorities(slots), c, i, k) && k >= Weight(slots[i].priority)
    ensures forall j :: 0 <= j < |slots| && j != i ==> !WeightedReady(slots[j])
  {
    hide ScanWeighted;
    assert Priorities(slots)[i] == slots[i].priority && ValidPriority(slots[i].priority);
    assert ScanWeighted(slots, i, 1).None?;
    forall j | 0 <= j < |slots| && j != i ensures !WeightedReady(slots[j]) {
      RingReaches(i, j, |slots|);
    }
  }

  /** The turn is a weighted selection. */
  predicate ServesWeighted<T(!new)>(t: seq<Slot<T>>, c: Cursor)
    requires ValidCursor(c, t)
  {
    PopStrict(t, c).index.None? && PopScheduled(t, c).index.Some?
  }

  lemma ServedTurn<T(!new)>(t: seq<Slot<T>>, c: Cursor, ps: seq<Priority>, i: nat, k: nat)
    requires ValidSlots(t) && Priorities(t) == ps && i < |ps| && c.strictIndex < |ps| && Served(ps, c, i, k)
    requires ServesWeighted(t, c) ==> PopScheduled(t, c).index == Some(i)
    ensures Served(ps, PopScheduled(t, c).cursor, i, k + if ServesWeighted(t, c) then 1 else 0)
  {
    hide PopStrict, PopWeighted;
    if PopStrict(t, c).index.Some? {
      StrictKeepsWeights(t, c);
    } else if PopScheduled(t, c).index.Some? {
      ServedAgain(t, c, i, k);
    } else {
      NothingServed(t, c, ps, i, k);
    }
  }

  lemma {:induction false} ServedInARow<T(!new)>(turns: seq<seq<Slot<T>>>, c: Cursor, ps: seq<Priority>, i: nat, k: nat)
    requires Run(turns, ps) && i < |ps| && c.strictIndex < |ps| && Served(ps, c, i, k)
    requires forall x :: x in WeightedServes(turns, c) ==> x == i
    ensures CursorAfter(turns, c).strictIndex < |ps|
    ensures Served(ps, CursorAfter(turns, c), i, k + |WeightedServes(turns, c)|)
    decreases |turns|
  {
    hide PopScheduled, Served, WeightedServes, PopStrict, CursorAfter, Run;
    RunBasics(turns, c, ps);
    if turns != [] {
      var t := turns[0];
      var r := PopScheduled(t, c);
      var s, others := WeightedServes(turns, c), WeightedServes(turns[1..], r.cursor);
      AllAfterFirst(s, others, i, if ServesWeighted(t, c) then r.index else None);
      ServedTurn(t, c, ps, i, k);
      ServedInARow(turns[1..], r.cursor, ps, i, k + |s| - |others|);
    }
  }

  lemma AllAfterFirst(s: seq<nat>, others: seq<nat>, i: nat, first: Option<nat>)
    requires s == (if first.Some? then [first.value] + others else others) && forall x :: x in s ==> x == i
    ensures first.Some? ==> first.value == i
    ensures forall x :: x in others ==> x == i
  {
    if first.Some? { assert s[0] in s; }
    forall x | x in others ensures x == i { assert x in s; }
  }

  /** What the first turn of a run does, or that there is none. */
  lemma RunBasics<T(!new)>(turns: seq<seq<Slot<T>>>, c: Cursor, ps: seq<Priority>)
    requires Run(turns, ps) && c.strictIndex < |ps|
    ensures forall t :: t in turns ==> ValidCursor(c, t)
    ensures forall t, u :: t in turns && u in turns ==> |t| == |u|
    ensures turns == [] ==> WeightedServes(turns, c) == [] && CursorAfter(turns, c) == c
    ensures turns != [] ==>
      && ValidSlots(turns[0]) && Priorities(turns[0]) == ps && |turns[0]| == |ps| && Run(turns[1..], ps)
      && PopScheduled(turns[0], c).cursor.strictIndex < |ps|
      && CursorAfter(turns, c) == CursorAfter(turns[1..], PopScheduled(turns[0], c).cursor)
      && var others := WeightedServes(turns[1..], PopScheduled(turns[0], c).cursor);
         WeightedServes(turns, c) ==
           if ServesWeighted(turns[0], c) then [PopScheduled(turns[0], c).index.value] + others else others
  {
    if turns != [] { FirstTurn(turns, c, ps); }
    hide PopScheduled, PopStrict;
  }

  lemma NothingServed<T(!new)>(slots: seq<Slot<T>>, c: Cursor, ps: seq<Priority>, i: nat, k: nat)
    requires i < |ps| == |slots| && PopWeighted(slots, c).index.None? && Served(ps, c, i, k)
    ensures Served(ps, PopWeighted(slots, c).cursor, i, k)
  {
    hide ScanWeighted;
  }

  /**
    No queue exceeds its weight while another waits.  In every run, whatever the
    cursor at its beginning: when the weighted selections so far all served queue
    `i` and were at least as many as its weight, and the next one serves it too,
    then no other weighted queue is ready at that turn.
   */
  lemma QuotaRespected<T(!new)>(turns: seq<seq<Slot<T>>>, last: seq<Slot<T>>, c: Cursor, ps: seq<Priority>, i: nat)
    requires Run(turns, ps) && Run([last], ps) && i < |ps| && c.strictIndex < |ps|
    requires forall x :: x in WeightedServes(turns, c) ==> x == i
    requires |WeightedServes(turns, c)| >= Weight(ps[i])
    requires PopWeighted(last, CursorAfter(turns, c)).index == Some(i)
    ensures forall j :: 0 <= j < |last| && j != i ==> !WeightedReady(last[j])
  {
    hide WeightedServes, CursorAfter, PopWeighted;
    ServedInARow(turns, c, ps, i, 0);
    assert last in [last];
    assert Priorities(last)[i] == last[i].priority;
    QuotaUsedUp(last, CursorAfter(turns, c), i, |WeightedServes(turns, c)|);
  }

  // -------------------------------------------- starvation of an equal rank

  /** Three strict queues: two of rank 1 that hold a request, and one of rank 2 that does or does not. */
  function Trio(busy: bool): seq<Slot<int>> {
    [Slot(0, 2, Strict(1), 1, 1, [7]), Slot(1, 2, Strict(1), 1, 1, [8]),
     if busy then Slot(2, 2, Strict(2), 1, 1, [9]) else Slot(2, 2, Strict(2), 2, 0, [])]
  }

  function Rounds(n: nat): seq<seq<Slot<int>>> {
    if n == 0 then [] else [Trio(true)] + ([Trio(false)] + Rounds(n - 1))
  }

  /** The rounds are what selections and arrivals make of each other: 2 is served, then 0 is, then both get a new request. */
  lemma RoundsHappen()
    ensures var busy, calm := Trio(true), Trio(false);
      && Tidy(busy) && Tidy(calm)
      && calm == busy[2 := Finished(Popped(busy[2]))]
      && busy == calm[0 := Enqueued(Reserved(Finished(Popped(calm[0]))), 7)][2 := Enqueued(Reserved(calm[2]), 9)]
  {
    assert [7][1..] == [] && [9][1..] == [] && [] + [7] == [7] && [] + [9] == [9];
    var busy, calm := Trio(true), Trio(false);
    assert Finished(Popped(busy[2])) == calm[2];
    assert Enqueued(Reserved(Finished(Popped(calm[0]))), 7) == busy[0] && Enqueued(Reserved(calm[2]), 9) == busy[2];
  }

  lemma {:induction false} RoundsAreTrios(n: nat)
    ensures forall t :: t in Rounds(n) ==> t == Trio(true) || t == Trio(false)
    ensures |Rounds(n)| == 2 * n
  {
    if n > 0 { RoundsAreTrios(n - 1); }
  }

  lemma OneRound()
    ensures PopScheduled(Trio(true), Cursor(0, 0, 0)) == Pick(Some(2), Cursor(0, 0, 2))
    ensures PopScheduled(Trio(false), Cursor(0, 0, 2)) == Pick(Some(0), Cursor(0, 0, 0))
  {
    BusyRank();
    CalmRank();
    hide TopRank;
    assert ScanStrict(Trio(true), 0, 2, 2) == Some(2);
    assert ScanStrict(Trio(true), 0, 2, 1) == Some(2);
    assert ScanStrict(Trio(false), 2, 1, 1) == Some(0);
  }

  lemma BusyRank()
    ensures TopRank(Trio(true)) == Some(2)
  {
    assert Trio(true)[2].priority == Strict(2) && Trio(true)[2].queued > 0;
  }

  lemma CalmRank()
    ensures TopRank(Trio(false)) == Some(1)
  {
    assert Trio(false)[0].priority == Strict(1) && Trio(false)[0].queued > 0;
  }

  /** Queue 2 and queue 0 in turn. */
  function Alternating(n: nat): seq<Option<nat>> {
    if n == 0 then [] else [Some(2)] + ([Some(0)] + Alternating(n - 1))
  }

  lemma {:induction false} AlternatingAt(n: nat, k: nat)
    requires k < 2 * n
    ensures |Alternating(n)| == 2 * n && Alternating(n)[k] == Some(if k % 2 == 0 then 2 else 0)
  {
    if k >= 2 { AlternatingAt(n - 1, k - 2); } else if n > 1 { AlternatingAt(n - 1, 0); }
  }

  lemma {:induction false} RoundsServed(n: nat)
    ensures forall t :: t in Rounds(n) ==> |t| == 3
    ensures Serves(Rounds(n), Cursor(0, 0, 0)) == Alternating(n)
  {
    hide PopScheduled, Trio, Serves;
    TrioSize();
    RoundsAreTrios(n);
    ServedNone(Cursor(0, 0, 0));
    if n > 0 {
      var busy, calm, rest := Trio(true), Trio(false), Rounds(n - 1);
      RoundsServed(n - 1);
      OneRound();
      ServedNext(busy, [calm] + rest, Cursor(0, 0, 0));
      ServedNext(calm, rest, Cursor(0, 0, 2));
    }
  }

  lemma TrioSize()
    ensures |Trio(true)| == 3 == |Trio(false)|
  {}

  lemma ServedNone(c: Cursor)
    ensures Serves<int>([], c) == []
  {}

  lemma ServedNext(t: seq<Slot<int>>, others: seq<seq<Slot<int>>>, c: Cursor)
    requires |t| == 3 && c.strictIndex < 3 && forall u :: u in others ==> |u| == 3
    ensures PopScheduled(t, c).cursor.strictIndex < 3
    ensures Serves([t] + others, c) == [PopScheduled(t, c).index] + Serves(others, PopScheduled(t, c).cursor)
  {
    hide PopScheduled;
    assert ([t] + others)[0] == t && ([t] + others)[1..] == others;
  }

  /**
    The bound needs the queue to stay at the top rank.  All ranks share one
    cursor, so when a higher rank is served in between, a ready queue can be
    passed over by its equals for ever: here every other selection is at the
    rank of queue 1, which holds a request throughout, and none serves it.
   */
  lemma EqualRankStarved(n: nat, k: nat)
    requires k < 2 * n
    ensures forall t :: t in Rounds(n) ==> |t| == 3 && StrictReady(t[1], 1)
    ensures |Rounds(n)| == 2 * n
    ensures Serves(Rounds(n), Cursor(0, 0, 0))[k] == Some(if k % 2 == 0 then 2 else 0)
  {
    hide Serves, Rounds, Alternating;
    RoundsAreTrios(n);
    RoundsServed(n);
    AlternatingAt(n, k);
  }

  // ----------------------------------------------------------- exact shares

  /** Queue indices in rotation order, each repeated as often as its weight. */
  function Pattern(ps: seq<Priority>): (s: seq<nat>)
    ensures |s| == Total(ps)
  {
    if ps == [] then []
    else
      var n := |ps| - 1;
      Pattern(ps[..n]) + seq(Weight(ps[n]), _ => n)
  }

  /** The stretch of the pattern that belongs to queue `i`. */
  lemma {:induction false} PatternAt(ps: seq<Priority>, i: nat, r: nat)
    requires i < |ps| && Total(ps[..i]) <= r < Total(ps[..i]) + Weight(ps[i])
    ensures r < Total(ps) && Pattern(ps)[r] == i
  {
    var n := |ps| - 1;
    if i < n {
      assert ps[..n][..i] == ps[..i];
      PatternAt(ps[..n], i, r);
    }
  }

  /** Each queue occurs in the pattern exactly as often as its weight says. */
  lemma {:induction false} PatternShares(ps: seq<Priority>, j: nat)
    requires j < |ps|
    ensures multiset(Pattern(ps))[j] == Weight(ps[j])
  {
    var n := |ps| - 1;
    var w := Weight(ps[n]);
    RepeatCount(n, w, j);
    if j < n {
      PatternShares(ps[..n], j);
    } else {
      PatternRange(ps[..n]);
    }
  }

  lemma {:induction false} RepeatCount(x: nat, k: nat, j: nat)
    ensures multiset(seq(k, _ => x))[j] == if j == x then k else 0
  {
    if k > 0 {
      RepeatCount(x, k - 1, j);
      assert seq(k, _ => x) == seq(k - 1, _ => x) + [x];
    }
  }

  lemma {:induction false} PatternRange(ps: seq<Priority>)
    ensures forall r :: 0 <= r < |Pattern(ps)| ==> Pattern(ps)[r] < |ps|
  {
    if ps != [] {
      PatternRange(ps[..|ps| - 1]);
    }
  }

  /** Where in the rotation the cursor stands, `Total` meaning the end of a round. */
  function Place(ps: seq<Priority>, c: Cursor): nat
    requires c.weightedIndex < |ps|
  {
    Total(ps[..c.weightedIndex]) + c.weightedUsed
  }

  /** The cursor stands at phase `m` of the rotation. */
  ghost predicate AtPhase(ps: seq<Priority>, c: Cursor, m: nat) {
    && c.weightedIndex < |ps| && c.strictIndex < |ps|
    && c.weightedUsed <= Weight(ps[c.weightedIndex])
    && m < Total(ps)
    && (Place(ps, c) == m || (m == 0 && Place(ps, c) == Total(ps)))
  }

  /** Prefix totals of a stretch without weighted queues. */
  lemma {:induction false} FlatStretch(ps: seq<Priority>, i: nat, k: nat)
    requires i <= k <= |ps| && forall q :: i <= q < k ==> Weight(ps[q]) == 0
    ensures Total(ps[..k]) == Total(ps[..i])
    decreases k - i
  {
    if i < k {
      FlatStretch(ps, i, k - 1);
      assert ps[..k][..k - 1] == ps[..k - 1];
    }
  }

  lemma NextTotal(ps: seq<Priority>, i: nat)
    requires i < |ps|
    ensures Total(ps[..i + 1]) == Total(ps[..i]) + Weight(ps[i])
  {
    assert ps[..i + 1][..i] == ps[..i];
  }

  /** At least two queues are weighted. */
  ghost predicate Several(ps: seq<Priority>) {
    exists a, b :: 0 <= a < b < |ps| && ps[a].Weighted? && ps[b].Weighted?
  }

  ghost predicate Backlogged<T(!new)>(slots: seq<Slot<T>>) {
    forall i :: 0 <= i < |slots| && slots[i].priority.Weighted? ==> slots[i].entries != []
  }

  /** The quota of the current queue is not used up: the place is one of its own. */
  lemma PlaceInside(ps: seq<Priority>, c: Cursor, m: nat)
    requires AtPhase(ps, c, m) && c.weightedUsed < Weight(ps[c.weightedIndex])
    ensures Pattern(ps)[m] == c.weightedIndex
    ensures AtPhase(ps, c.(weightedUsed := c.weightedUsed + 1), if m + 1 == Total(ps) then 0 else m + 1)
  {
    hide Pattern, Total;
    var i := c.weightedIndex;
    TotalSplit(ps, i + 1);
    NextTotal(ps, i);
    PatternAt(ps, i, Place(ps, c));
  }

  /** The quota is used up: the place is the first one of the next weighted queue. */
  lemma PlaceAfter(ps: seq<Priority>, c: Cursor, m: nat, k: nat)
    requires AtPhase(ps, c, m) && c.weightedUsed == Weight(ps[c.weightedIndex])
    requires k < |ps| && Weight(ps[k]) > 0
    requires var i := c.weightedIndex;
      if k > i then forall q :: i < q < k ==> Weight(ps[q]) == 0
      else (forall q :: i < q < |ps| ==> Weight(ps[q]) == 0) && (forall q :: 0 <= q < k ==> Weight(ps[q]) == 0)
    ensures Pattern(ps)[m] == k
    ensures AtPhase(ps, c.(weightedIndex := k, weightedUsed := 1), if m + 1 == Total(ps) then 0 else m + 1)
  {
    hide Pattern, Total, Weight;
    var n, i := |ps|, c.weightedIndex;
    assert ps[..n] == ps && ps[..0] == [];
    NextTotal(ps, i);
    NextTotal(ps, k);
    TotalSplit(ps, k + 1);
    TotalEmpty();
    if k > i {
      FlatStretch(ps, i + 1, k);
      assert m == Total(ps[..k]);
    } else {
      FlatStretch(ps, i + 1, n);
      FlatStretch(ps, 0, k);
      assert m == 0 == Total(ps[..k]);
    }
    PatternAt(ps, k, m);
  }

  /** Under full backlog a weighted selection takes exactly the place the pattern names. */
  lemma PatternFollowed<T(!new)>(slots: seq<Slot<T>>, c: Cursor, m: nat)
    requires ValidSlots(slots) && Backlogged(slots)
    requires AtPhase(Priorities(slots), c, m)
    requires Several(Priorities(slots))
    ensures var ps := Priorities(slots);
      var r := PopWeighted(slots, c);
      && r.index == Some(Pattern(ps)[m])
      && AtPhase(ps, r.cursor, if m + 1 == Total(ps) then 0 else m + 1)
  {
    hide Pattern, Total, ScanWeighted, Place;
    var ps := Priorities(slots);
    var i := c.weightedIndex;
    assert ps[i] == slots[i].priority;
    if c.weightedUsed < Weight(ps[i]) {
      PlaceInside(ps, c, m);
    } else {
      AnotherFound(slots, i);
      var k := ScanWeighted(slots, i, 1).value;
      assert ps[k] == slots[k].priority;
      SkippedAreStrict(slots, i, k);
      PlaceAfter(ps, c, m, k);
    }
  }

  lemma TotalEmpty()
    ensures Total([]) == 0
  {}

  lemma AnotherFound<T(!new)>(slots: seq<Slot<T>>, i: nat)
    requires Backlogged(slots) && i < |slots|
    requires Several(Priorities(slots))
    ensures ScanWeighted(slots, i, 1).Some?
  {
    var ps := Priorities(slots);
    var a, b :| 0 <= a < b < |ps| && ps[a].Weighted? && ps[b].Weighted?;
    var k := if a == i then b else a;
    RingReaches(i, k, |slots|);
    assert WeightedReady(slots[k]);
  }

  /** The search passed over strict queues only. */
  lemma SkippedAreStrict<T(!new)>(slots: seq<Slot<T>>, i: nat, k: nat)
    requires Backlogged(slots) && i < |slots| && ScanWeighted(slots, i, 1) == Some(k)
    ensures var ps := Priorities(slots);
      if k > i then forall q :: i < q < k ==> Weight(ps[q]) == 0
      else (forall q :: i < q < |ps| ==> Weight(ps[q]) == 0) && (forall q :: 0 <= q < k ==> Weight(ps[q]) == 0)
  {
    hide ScanWeighted;
    var n := |slots|;
    var ps := Priorities(slots);
    forall q | 0 <= q < n && q != i && Distance(i, q, n) < Distance(i, k, n) ensures Weight(ps[q]) == 0 {
      RingReaches(i, q, n);
      assert !WeightedReady(slots[Ring(i, Distance(i, q, n), n)]);
    }
  }

  /** A lone weighted queue is all the pattern contains. */
  lemma LonePattern<T(!new)>(slots: seq<Slot<T>>, c: Cursor, m: nat)
    requires ValidSlots(slots) && Backlogged(slots) && slots != []
    requires m < Total(Priorities(slots))
    requires !Several(Priorities(slots))
    ensures PopWeighted(slots, c).index == Some(Pattern(Priorities(slots))[m])
  {
    hide Pattern, Total;
    var ps := Priorities(slots);
    var j := LoneQueue(ps);
    FlatStretch(ps, 0, j);
    FlatStretch(ps, j + 1, |ps|);
    NextTotal(ps, j);
    TotalEmpty();
    assert ps[..0] == [] && ps[..|ps|] == ps;
    PatternAt(ps, j, m);
    var i := Wrapped(c, |ps|).weightedIndex;
    RingReaches(i, j, |slots|);
    assert WeightedReady(slots[j]);
  }

  lemma LoneQueue(ps: seq<Priority>) returns (j: nat)
    requires Total(ps) > 0
    requires !Several(ps)
    ensures j < |ps| && ps[j].Weighted? && forall q :: 0 <= q < |ps| && q != j ==> Weight(ps[q]) == 0
  {
    assert ps[..0] == [] && ps[..|ps|] == ps;
    if forall q :: 0 <= q < |ps| ==> Weight(ps[q]) == 0 {
      FlatStretch(ps, 0, |ps|);
      assert false;
    }
    j :| 0 <= j < |ps| && Weight(ps[j]) != 0;
  }

  /** Phase of the rotation after `m` selections. */
  function Phase(m: nat, total: nat): (p: nat)
    requires total > 0
    ensures p < total
  {
    if m == 0 then 0
    else if Phase(m - 1, total) + 1 == total then 0
    else Phase(m - 1, total) + 1
  }

  lemma PhaseUnfold(m: nat, total: nat)
    requires total > 0
    ensures Phase(m + 1, total) == if Phase(m, total) + 1 == total then 0 else Phase(m, total) + 1
  {}

  lemma {:induction false} FirstRound(m: nat, total: nat)
    requires m < total
    ensures Phase(m, total) == m
  {
    if m > 0 { FirstRound(m - 1, total); }
  }

  lemma {:induction false} Periodic(m: nat, total: nat)
    requires total > 0
    ensures Phase(m + total, total) == Phase(m, total)
  {
    if m == 0 {
      FirstRound(total - 1, total);
    } else {
      Periodic(m - 1, total);
    }
  }

  /** Every weighted selection of a backlogged run, from any phase on. */
  lemma {:induction false} PatternThroughout<T(!new)>(turns: seq<seq<Slot<T>>>, c: Cursor, ps: seq<Priority>, m: nat, at: nat)
    requires Run(turns, ps) && Total(ps) > 0 && c.strictIndex < |ps|
    requires forall t :: t in turns ==> Backlogged(t)
    requires Several(ps) ==> AtPhase(ps, c, Phase(m, Total(ps)))
    requires at < |WeightedServes(turns, c)|
    ensures WeightedServes(turns, c)[at] == Pattern(ps)[Phase(m + at, Total(ps))]
    decreases |turns|
  {
    hide PopStrict, PopWeighted, Pattern, Total, AtPhase, Backlogged, Phase, WeightedServes, Several, ValidSlots;
    assert turns != [] by { NoTurns(turns, c); }
    FirstTurn(turns, c, ps);
    var t := turns[0];
    var r := PopScheduled(t, c);
    if PopStrict(t, c).index.Some? {
      StrictKeepsWeights(t, c);
      if Several(ps) { SamePhase(ps, c, r.cursor, Phase(m, Total(ps))); }
      PatternThroughout(turns[1..], r.cursor, ps, m, at);
    } else {
      SelectionFollows(t, c, m);
      if at > 0 {
        PatternThroughout(turns[1..], r.cursor, ps, m + 1, at - 1);
      }
    }
  }

  lemma SelectionFollows<T(!new)>(t: seq<Slot<T>>, c: Cursor, m: nat)
    requires ValidSlots(t) && Backlogged(t) && Total(Priorities(t)) > 0
    requires var ps := Priorities(t); Several(ps) ==> AtPhase(ps, c, Phase(m, Total(ps)))
    ensures var ps := Priorities(t);
      var r := PopWeighted(t, c);
      && r.index == Some(Pattern(ps)[Phase(m, Total(ps))])
      && (Several(ps) ==> AtPhase(ps, r.cursor, Phase(m + 1, Total(ps))))
  {
    hide PopWeighted, Pattern, AtPhase, Backlogged, Phase, ValidSlots;
    var ps := Priorities(t);
    PhaseUnfold(m, Total(ps));
    if Several(ps) {
      PatternFollowed(t, c, Phase(m, Total(ps)));
    } else {
      LonePattern(t, c, Phase(m, Total(ps)));
    }
  }

  lemma SamePhase(ps: seq<Priority>, c: Cursor, d: Cursor, m: nat)
    requires AtPhase(ps, c, m) && d.strictIndex < |ps|
    requires c.weightedIndex == d.weightedIndex && c.weightedUsed == d.weightedUsed
    ensures AtPhase(ps, d, m)
  {}

  /** A sequence that follows a pattern periodically shows the whole pattern in every window. */
  lemma {:induction false} WindowIsPattern(s: seq<nat>, pattern: seq<nat>, a: nat)
    requires pattern != [] && a + |pattern| <= |s|
    requires forall i :: 0 <= i < |s| ==> s[i] == pattern[Phase(i, |pattern|)]
    ensures multiset(s[a..a + |pattern|]) == multiset(pattern)
  {
    hide Phase;
    var w := |pattern|;
    if a == 0 {
      FirstWindow(s, pattern);
    } else {
      WindowIsPattern(s, pattern, a - 1);
      Periodic(a - 1, w);
      Slide(s, a - 1, w);
    }
  }

  lemma FirstWindow(s: seq<nat>, pattern: seq<nat>)
    requires pattern != [] && |pattern| <= |s|
    requires forall i :: 0 <= i < |s| ==> s[i] == pattern[Phase(i, |pattern|)]
    ensures s[0..|pattern|] == pattern
  {
    hide Phase;
    forall i | 0 <= i < |pattern| ensures s[i] == pattern[i] { FirstRound(i, |pattern|); }
  }

  lemma Slide(s: seq<nat>, a: nat, w: nat)
    requires 0 < w && a + 1 + w <= |s| && s[a] == s[a + w]
    ensures multiset(s[a + 1..a + 1 + w]) == multiset(s[a..a + w])
  {
    var inner := s[a + 1..a + w];
    assert s[a..a + w] == [s[a]] + inner;
    assert s[a + 1..a + 1 + w] == inner + [s[a + w]];
  }

  /**
    Exact shares.  From a fresh cursor, while every weighted queue is backlogged,
    any `Total` consecutive weighted selections serve each queue exactly as often
    as its weight.
   */
  lemma SharesAreExact<T(!new)>(turns: seq<seq<Slot<T>>>, ps: seq<Priority>, a: nat, j: nat)
    requires Run(turns, ps) && Total(ps) > 0 && j < |ps|
    requires forall t :: t in turns ==> Backlogged(t)
    requires a + Total(ps) <= |WeightedServes(turns, Cursor(0, 0, 0))|
    ensures multiset(WeightedServes(turns, Cursor(0, 0, 0))[a..a + Total(ps)])[j] == Weight(ps[j])
  {
    hide WeightedServes, Pattern, Backlogged, Phase;
    var c := Cursor(0, 0, 0);
    var s := WeightedServes(turns, c);
    FreshPhase(ps);
    forall i | 0 <= i < |s| ensures s[i] == Pattern(ps)[Phase(i, Total(ps))] {
      PatternThroughout(turns, c, ps, 0, i);
    }
    WindowIsPattern(s, Pattern(ps), a);
    PatternShares(ps, j);
  }

  lemma FreshPhase(ps: seq<Priority>)
    requires Total(ps) > 0
    ensures AtPhase(ps, Cursor(0, 0, 0), Phase(0, Total(ps)))
  {
    assert ps[..0] == [];
  }
}
