/**
  How long a request waits in a weighted queue (src/service/link.rs and
  src/service/queue_set.rs together): in every interleaving of the runner and
  its clients, coalescing and requeueing included.
 */
module Waiting {
  import opened Basics
  import opened Queues
  import opened Runner
  import E = Exchange
  import Fairness

  /** Where a request of some queue is: in the queue, in the runner's hands, or taken for good. */
  datatype Spot = InLine(position: nat) | Candidate | Following(position: nat) | Taken

  function Followers(stage: Stage, j: nat): seq<E.Job> {
    match stage
    case Gathering(q, _, followers, _) => if q == j then followers else []
    case Exchanging(q, _, followers) => if q == j then followers else []
    case Completing(q, _, followers) => if q == j then followers else []
    case Requeueing(q, _, followers) => if q == j then followers else []
    case _ => []
  }

  function InHand(stage: Stage, j: nat): Option<E.Job> {
    match stage
    case Gathering(q, _, _, candidate) => if q == j then candidate else None
    case _ => None
  }

  /** The request at a spot. */
  function At(s: State, j: nat, spot: Spot): Option<E.Job> {
    match spot
    case InLine(p) => if j < |s.slots| && p < |s.slots[j].entries| then Some(s.slots[j].entries[p]) else None
    case Candidate => InHand(s.stage, j)
    case Following(p) => if p < |Followers(s.stage, j)| then Some(Followers(s.stage, j)[p]) else None
    case Taken => None
  }

  /** Where a request of queue `j` is after a step. */
  function Moved(c: Config, s: State, step: Step, j: nat, spot: Spot): Spot
    requires Enabled(s, step)
  {
    match step
    case Pop => if PopScheduled(s.slots, s.cursor).index.value == j then Forward(spot, Taken) else spot
    case TakeCandidate =>
      if s.stage.queue == j && |s.stage.followers| < c.maximumCoalesced && s.slots[j].entries != []
      then Forward(spot, Candidate)
      else spot
    case JudgeCandidate =>
      if s.stage.queue != j then spot
      else if !CanCoalesce(s.stage.leader, s.stage.candidate.value) then
        if spot.Candidate? then InLine(0) else Back(spot)
      else if !spot.Candidate? then spot
      else if s.stage.candidate.value.id in s.gone then Taken
      else Following(|s.stage.followers|)
    case AnswerFollower(_) =>
      if s.stage.queue != j || s.stage.followers == [] || !spot.Following? then spot
      else if spot.position == 0 then Taken
      else Following(spot.position - 1)
    case ReturnFollower =>
      if s.stage.queue != j || s.stage.followers == [] then spot
      else if spot == Following(|s.stage.followers| - 1) then InLine(0)
      else Back(spot)
    case Drain =>
      if s.stage.next == j && s.stage.hand.None? && j < |s.slots| && s.slots[j].entries != []
      then Forward(spot, Taken)
      else spot
    case _ => spot
  }

  /** The head of the line leaves it. */
  function Forward(spot: Spot, head: Spot): Spot {
    match spot
    case InLine(p) => if p == 0 then head else InLine(p - 1)
    case _ => spot
  }

  /** Another request is put in front. */
  function Back(spot: Spot): Spot {
    match spot
    case InLine(p) => InLine(p + 1)
    case _ => spot
  }

  /** The request has left the queue for good: it leads an exchange, or it just had its outcome. */
  ghost predicate Gone(s: State, t: State, j: nat, job: E.Job) {
    || t.stage == Holding(j, job)
    || t.stage == Draining(j, Some(job))
    || (|t.settled| == |s.settled| + 1 && t.settled[|s.settled|].job == job)
  }

  /** The request is at its new spot, or it was taken. */
  ghost predicate Traced(c: Config, s: State, step: Step, j: nat, spot: Spot)
    requires Enabled(s, step) && At(s, j, spot).Some?
  {
    var t, to := Apply(c, s, step), Moved(c, s, step, j, spot);
    if to.Taken? then Gone(s, t, j, At(s, j, spot).value) else At(t, j, to) == At(s, j, spot)
  }

  lemma TracedByClient(c: Config, s: State, step: Step, j: nat, spot: Spot)
    requires Enabled(s, step) && At(s, j, spot).Some? && IsClientStep(step)
    ensures Traced(c, s, step, j, spot)
  {
    hide PopScheduled, CanCoalesce, CanLead, ValidPriority;
  }

  lemma TracedByTaking(c: Config, s: State, step: Step, j: nat, spot: Spot)
    requires Enabled(s, step) && At(s, j, spot).Some? && IsTakingStep(step)
    ensures Traced(c, s, step, j, spot)
  {
    hide PopScheduled, CanCoalesce, CanLead, ValidPriority;
  }

  lemma TracedByCandidate(c: Config, s: State, step: Step, j: nat, spot: Spot)
    requires Enabled(s, step) && At(s, j, spot).Some? && step.TakeCandidate?
    ensures Traced(c, s, step, j, spot)
  {
    hide PopScheduled, CanCoalesce, CanLead, ValidPriority;
  }

  lemma TracedByJudging(c: Config, s: State, step: Step, j: nat, spot: Spot)
    requires Enabled(s, step) && At(s, j, spot).Some? && step.JudgeCandidate?
    ensures Traced(c, s, step, j, spot)
  {
    hide PopScheduled, CanCoalesce, CanLead, ValidPriority;
  }

  lemma TracedByAnswering(c: Config, s: State, step: Step, j: nat, spot: Spot)
    requires Enabled(s, step) && At(s, j, spot).Some? && (step.EndExchange? || step.AnswerFollower?)
    ensures Traced(c, s, step, j, spot)
  {
    hide PopScheduled, CanCoalesce, CanLead, ValidPriority;
  }

  lemma TracedByReturning(c: Config, s: State, step: Step, j: nat, spot: Spot)
    requires Enabled(s, step) && At(s, j, spot).Some? && step.ReturnFollower?
    ensures Traced(c, s, step, j, spot)
  {
    hide PopScheduled, CanCoalesce, CanLead, ValidPriority;
  }

  lemma TracedByShutdown(c: Config, s: State, step: Step, j: nat, spot: Spot)
    requires Enabled(s, step) && At(s, j, spot).Some? && IsShutdownStep(step)
    ensures Traced(c, s, step, j, spot)
  {
    hide PopScheduled, CanCoalesce, CanLead, ValidPriority;
  }

  /** `Moved` follows the request. */
  lemma Followed(c: Config, s: State, step: Step, j: nat, spot: Spot)
    requires Enabled(s, step) && At(s, j, spot).Some?
    ensures var t := Apply(c, s, step);
      var to := Moved(c, s, step, j, spot);
      if to.Taken? then Gone(s, t, j, At(s, j, spot).value) else At(t, j, to) == At(s, j, spot)
  {
    hide Enabled, Apply, At, Moved, Gone;
    if IsClientStep(step) { TracedByClient(c, s, step, j, spot); }
    else if IsTakingStep(step) { TracedByTaking(c, s, step, j, spot); }
    else if step.TakeCandidate? { TracedByCandidate(c, s, step, j, spot); }
    else if step.JudgeCandidate? { TracedByJudging(c, s, step, j, spot); }
    else if step.ReturnFollower? { TracedByReturning(c, s, step, j, spot); }
    else if IsEndingStep(step) { TracedByAnswering(c, s, step, j, spot); }
    else { TracedByShutdown(c, s, step, j, spot); }
  }

  /** Requests of queue `j` that will be served before the one at the spot. */
  function Ahead(s: State, j: nat, spot: Spot): nat {
    match spot
    case InLine(p) => p + |Followers(s.stage, j)| + if InHand(s.stage, j).Some? then 1 else 0
    case Candidate => |Followers(s.stage, j)|
    case Following(p) => p
    case Taken => 0
  }

  ghost predicate NotOvertaken(c: Config, s: State, step: Step, j: nat, spot: Spot)
    requires Enabled(s, step)
  {
    var rest := Ahead(Apply(c, s, step), j, Moved(c, s, step, j, spot));
    && rest <= Ahead(s, j, spot)
    && (step.Pop? && PopScheduled(s.slots, s.cursor).index.value == j ==> rest < Ahead(s, j, spot))
  }

  lemma NoneOvertakesTaking(c: Config, s: State, step: Step, j: nat, spot: Spot)
    requires Enabled(s, step) && At(s, j, spot).Some? && !Moved(c, s, step, j, spot).Taken?
    requires IsTakingStep(step) || IsShutdownStep(step)
    ensures NotOvertaken(c, s, step, j, spot)
  {
    hide PopScheduled, CanCoalesce, CanLead, ValidPriority;
  }

  lemma NoneOvertakesClient(c: Config, s: State, step: Step, j: nat, spot: Spot)
    requires Enabled(s, step) && At(s, j, spot).Some? && IsClientStep(step)
    ensures NotOvertaken(c, s, step, j, spot)
  {
    hide PopScheduled, CanCoalesce, CanLead, ValidPriority, At;
  }

  lemma NoneOvertakesGathering(c: Config, s: State, step: Step, j: nat, spot: Spot)
    requires Enabled(s, step) && At(s, j, spot).Some? && !Moved(c, s, step, j, spot).Taken? && IsGatheringStep(step)
    ensures NotOvertaken(c, s, step, j, spot)
  {
    hide PopScheduled, CanCoalesce, CanLead, ValidPriority;
  }

  lemma NoneOvertakesEnding(c: Config, s: State, step: Step, j: nat, spot: Spot)
    requires Enabled(s, step) && At(s, j, spot).Some? && !Moved(c, s, step, j, spot).Taken? && IsEndingStep(step)
    ensures NotOvertaken(c, s, step, j, spot)
  {
    hide PopScheduled, CanCoalesce, CanLead, ValidPriority;
  }

  /** Nobody overtakes, and each selection of the queue brings the request one place on. */
  lemma NobodyOvertakes(c: Config, s: State, step: Step, j: nat, spot: Spot)
    requires Enabled(s, step) && At(s, j, spot).Some? && !Moved(c, s, step, j, spot).Taken?
    ensures var rest := Ahead(Apply(c, s, step), j, Moved(c, s, step, j, spot));
      && rest <= Ahead(s, j, spot)
      && (step.Pop? && PopScheduled(s.slots, s.cursor).index.value == j ==> rest < Ahead(s, j, spot))
  {
    hide Apply, At, Moved, Ahead, PopScheduled;
    if IsGatheringStep(step) {
      NoneOvertakesGathering(c, s, step, j, spot);
    } else if IsEndingStep(step) {
      NoneOvertakesEnding(c, s, step, j, spot);
    } else if IsClientStep(step) {
      NoneOvertakesClient(c, s, step, j, spot);
    } else {
      NoneOvertakesTaking(c, s, step, j, spot);
    }
  }

  // ------------------------------------------------------------ whole runs

  function SpotAfter(c: Config, s: State, steps: seq<Step>, j: nat, spot: Spot): Spot
    decreases |steps|
  {
    if steps == [] || !Enabled(s, steps[0]) then spot
    else SpotAfter(c, Apply(c, s, steps[0]), steps[1..], j, Moved(c, s, steps[0], j, spot))
  }

  /** The step is a weighted selection. */
  predicate IsWeightedPop(s: State, step: Step) {
    step.Pop? && Enabled(s, step) && PopStrict(s.slots, s.cursor).index.None?
  }

  function WeightedPops(c: Config, s: State, steps: seq<Step>): nat
    decreases |steps|
  {
    if steps == [] || !Enabled(s, steps[0]) then 0
    else
      (if IsWeightedPop(s, steps[0]) then 1 else 0) + WeightedPops(c, Apply(c, s, steps[0]), steps[1..])
  }

  /** Selections that can still come before the request is taken. */
  function Delay(s: State, j: nat, spot: Spot): nat
    requires j < |s.slots|
  {
    var ps := Fairness.Priorities(s.slots);
    Ahead(s, j, spot) * (Fairness.Others(ps, j) + 1) + Fairness.Potential(ps, s.cursor, j)
  }

  lemma SamePriorities(c: Config, s: State, step: Step)
    requires Enabled(s, step) && !step.SetPriority?
    ensures |Apply(c, s, step).slots| == |s.slots|
    ensures Fairness.Priorities(Apply(c, s, step).slots) == Fairness.Priorities(s.slots)
  {
    hide Enabled, Apply, ValidPriority;
    SlotsKeep(c, s, step);
    assert forall i :: 0 <= i < |s.slots| ==> Apply(c, s, step).slots[i].priority == s.slots[i].priority;
  }

  /** What a selection does to the rotation, as a waiting request of queue `j` sees it. */
  lemma PopCloser(s: State, j: nat, spot: Spot)
    requires Configured(s) && Enabled(s, Pop)
    requires j < |s.slots| && s.slots[j].priority.Weighted? && At(s, j, spot).Some?
    ensures var r := PopScheduled(s.slots, s.cursor);
      var ps := Fairness.Priorities(s.slots);
      var before, after := Fairness.Potential(ps, s.cursor, j), Fairness.Potential(ps, r.cursor, j);
      && after <= Fairness.Others(ps, j)
      && (if IsWeightedPop(s, Pop) then r.index.value == j || after < before else after == before)
  {
    hide Fairness.Potential, Fairness.Others, PopWeighted, PopStrict;
    var ps := Fairness.Priorities(s.slots);
    Fairness.PotentialBound(ps, PopScheduled(s.slots, s.cursor).cursor, j);
    assert spot.InLine? && WeightedReady(s.slots[j]);
    if IsWeightedPop(s, Pop) {
      Fairness.PopApproaches(s.slots, s.cursor, j);
    } else {
      Fairness.StrictKeepsWeights(s.slots, s.cursor);
      Fairness.SamePotential(ps, s.cursor, PopStrict(s.slots, s.cursor).cursor, j);
    }
  }

  lemma {:induction false} AtLeastOneMore(rest: nat, ahead: nat, m: nat)
    requires rest < ahead
    ensures rest * m + m <= ahead * m
  {
    OneMore(ahead - 1, m);
    if rest + 1 < ahead { AtLeastOneMore(rest, ahead - 1, m); }
  }

  lemma Scaled(rest: nat, ahead: nat, others: nat, after: nat, before: nat, one: nat)
    requires one <= 1
    requires (rest <= ahead && after + one <= before) || (rest < ahead && after <= others)
    ensures rest * (others + 1) + after + one <= ahead * (others + 1) + before
  {
    if rest < ahead {
      AtLeastOneMore(rest, ahead, others + 1);
    }
  }

  /** A weighted selection shortens the delay of a waiting request; no other step lengthens it. */
  lemma DelayShrinks(c: Config, s: State, step: Step, j: nat, spot: Spot)
    requires Configured(s) && Enabled(s, step) && !step.SetPriority?
    requires j < |s.slots| && s.slots[j].priority.Weighted? && At(s, j, spot).Some?
    requires !Moved(c, s, step, j, spot).Taken?
    ensures var t := Apply(c, s, step);
      && j < |t.slots|
      && Delay(t, j, Moved(c, s, step, j, spot)) + (if IsWeightedPop(s, step) then 1 else 0) <= Delay(s, j, spot)
  {
    hide Ahead, Moved, At, PopScheduled, PopStrict, CanCoalesce, CanLead, ValidPriority, Configured;
    hide Fairness.Potential, Fairness.Others, Fairness.Priorities;
    var t := Apply(c, s, step);
    SamePriorities(c, s, step);
    NobodyOvertakes(c, s, step, j, spot);
    CursorAfter(c, s, step);
    if step.Pop? { PopCloser(s, j, spot); }
    var ps := Fairness.Priorities(s.slots);
    Scaled(Ahead(t, j, Moved(c, s, step, j, spot)), Ahead(s, j, spot), Fairness.Others(ps, j),
           Fairness.Potential(ps, t.cursor, j), Fairness.Potential(ps, s.cursor, j), if IsWeightedPop(s, step) then 1 else 0);
  }

  lemma CursorAfter(c: Config, s: State, step: Step)
    requires Enabled(s, step)
    ensures Apply(c, s, step).cursor == if step.Pop? then PopScheduled(s.slots, s.cursor).cursor else s.cursor
  {
    hide PopScheduled, CanCoalesce, CanLead, ValidPriority;
  }

  lemma PriorityStays(c: Config, s: State, step: Step, j: nat)
    requires Enabled(s, step) && !step.SetPriority? && j < |s.slots|
    ensures |Apply(c, s, step).slots| == |s.slots| && Apply(c, s, step).slots[j].priority == s.slots[j].priority
  {
    hide Apply, Enabled;
    SamePriorities(c, s, step);
    assert Fairness.Priorities(s.slots)[j] == s.slots[j].priority;
    assert Fairness.Priorities(Apply(c, s, step).slots)[j] == Apply(c, s, step).slots[j].priority;
  }

  lemma {:induction false} TakenStays(c: Config, s: State, steps: seq<Step>, j: nat)
    ensures SpotAfter(c, s, steps, j, Taken).Taken?
    decreases |steps|
  {
    if steps != [] && Enabled(s, steps[0]) {
      hide Apply, Enabled, PopScheduled, CanCoalesce;
      TakenStays(c, Apply(c, s, steps[0]), steps[1..], j);
    }
  }

  /** As long as a request is not taken, every weighted selection is paid for out of its delay. */
  lemma {:induction false} DelayPays(c: Config, s: State, steps: seq<Step>, t: State, j: nat, spot: Spot)
    requires Configured(s) && Reaches(c, s, steps, t) && (forall x :: x in steps ==> !x.SetPriority?)
    requires j < |s.slots| && s.slots[j].priority.Weighted? && At(s, j, spot).Some?
    requires !SpotAfter(c, s, steps, j, spot).Taken?
    ensures WeightedPops(c, s, steps) <= Delay(s, j, spot)
    decreases |steps|
  {
    if steps != [] {
      hide Apply, Enabled, Moved, Delay, IsWeightedPop, Configured, At, Gone;
      var step := steps[0];
      var to := Moved(c, s, step, j, spot);
      if to.Taken? { TakenStays(c, Apply(c, s, step), steps[1..], j); }
      ConfiguredStep(c, s, step);
      Followed(c, s, step, j, spot);
      PriorityStays(c, s, step, j);
      DelayShrinks(c, s, step, j, spot);
      DelayPays(c, Apply(c, s, step), steps[1..], t, j, to);
    }
  }

  /**
    A bound for every request.  In any run with fixed priorities, a request of a
    weighted queue with `k` requests ahead of it has been taken after `k + 1`
    times (the other weights and one) weighted selections, whatever arrives,
    fails, is coalesced or requeued, and however many strict selections come in
    between.
   */
  lemma RequestTakenInTime(c: Config, start: State, before: seq<Step>, s: State, steps: seq<Step>, t: State, j: nat, spot: Spot)
    requires Initial(start) && Reaches(c, start, before, s)
    requires Reaches(c, s, steps, t) && (forall x :: x in steps ==> !x.SetPriority?)
    requires j < |s.slots| && s.slots[j].priority.Weighted? && At(s, j, spot).Some?
    requires WeightedPops(c, s, steps)
      >= (Ahead(s, j, spot) + 1) * (Fairness.Others(Fairness.Priorities(s.slots), j) + 1)
    ensures SpotAfter(c, s, steps, j, spot).Taken?
  {
    hide Initial, Reaches, Apply, Enabled, WeightedPops, SpotAfter, At, Ahead, Fairness.Others, Fairness.Potential;
    hide Staged, Placed, Configured, Justified, Conserved, InOrder;
    ReachableInvariant(c, start, before, s);
    if !SpotAfter(c, s, steps, j, spot).Taken? {
      DelayPays(c, s, steps, t, j, spot);
      var ps := Fairness.Priorities(s.slots);
      Fairness.PotentialBound(ps, s.cursor, j);
      OneMore(Ahead(s, j, spot), Fairness.Others(ps, j) + 1);
    }
  }

  // ---------------------------------------------------------- strict queues

  /** The step is a strict selection. */
  predicate IsStrictPop(s: State, step: Step) {
    step.Pop? && Enabled(s, step) && PopStrict(s.slots, s.cursor).index.Some?
  }

  /** If the step is a strict selection, it is one at this priority. */
  predicate AtPriority(s: State, step: Step, p: Priority) {
    IsStrictPop(s, step) ==>
      var i := PopStrict(s.slots, s.cursor).index.value;
      i < |s.slots| && s.slots[i].priority == p
  }

  /** Every strict selection of the run is at this priority. */
  predicate OnlyAt(c: Config, s: State, steps: seq<Step>, p: Priority)
    decreases |steps|
  {
    if steps == [] || !Enabled(s, steps[0]) then true
    else AtPriority(s, steps[0], p) && OnlyAt(c, Apply(c, s, steps[0]), steps[1..], p)
  }

  function StrictPops(c: Config, s: State, steps: seq<Step>): nat
    decreases |steps|
  {
    if steps == [] || !Enabled(s, steps[0]) then 0
    else
      (if IsStrictPop(s, steps[0]) then 1 else 0) + StrictPops(c, Apply(c, s, steps[0]), steps[1..])
  }

  /** Selections of its rank that can still come before the request is taken. */
  function StrictDelay(s: State, j: nat, spot: Spot): nat
    requires j < |s.slots| && s.cursor.strictIndex < |s.slots|
  {
    Ahead(s, j, spot) * |s.slots| + Distance(s.cursor.strictIndex, j, |s.slots|) - 1
  }

  /** What a selection does to the strict cursor, as a waiting request of queue `j` sees it. */
  lemma StrictPopCloser(s: State, j: nat, spot: Spot)
    requires Enabled(s, Pop) && j < |s.slots| && AtPriority(s, Pop, s.slots[j].priority) && At(s, j, spot).Some?
    ensures var r := PopScheduled(s.slots, s.cursor);
      var n := |s.slots|;
      && r.cursor.strictIndex < n && s.cursor.strictIndex < n
      && (if !IsStrictPop(s, Pop) then r.cursor.strictIndex == s.cursor.strictIndex
          else r.index.value == j
               || Distance(r.cursor.strictIndex, j, n) < Distance(s.cursor.strictIndex, j, n))
  {
    hide PopWeighted, PopStrict;
    assert spot.InLine? && s.slots[j].entries != [];
    if IsStrictPop(s, Pop) {
      Fairness.StrictCloser(s.slots, s.cursor, j);
    }
  }

  /** A selection at its rank shortens the delay of a waiting request; no other permitted step lengthens it. */
  lemma StrictDelayShrinks(c: Config, s: State, step: Step, j: nat, spot: Spot)
    requires Enabled(s, step) && !step.SetPriority? && s.cursor.strictIndex < |s.slots|
    requires j < |s.slots| && AtPriority(s, step, s.slots[j].priority) && At(s, j, spot).Some?
    requires !Moved(c, s, step, j, spot).Taken?
    ensures var t := Apply(c, s, step);
      && |t.slots| == |s.slots| && t.cursor.strictIndex < |t.slots|
      && StrictDelay(t, j, Moved(c, s, step, j, spot)) + (if IsStrictPop(s, step) then 1 else 0) <= StrictDelay(s, j, spot)
  {
    hide Ahead, Moved, At, PopScheduled, PopStrict, CanCoalesce, CanLead, ValidPriority;
    hide Fairness.Priorities;
    var t := Apply(c, s, step);
    SamePriorities(c, s, step);
    NobodyOvertakes(c, s, step, j, spot);
    CursorAfter(c, s, step);
    if step.Pop? { StrictPopCloser(s, j, spot); }
    var n := |s.slots|;
    Scaled(Ahead(t, j, Moved(c, s, step, j, spot)), Ahead(s, j, spot), n - 1,
           Distance(t.cursor.strictIndex, j, n) - 1, Distance(s.cursor.strictIndex, j, n) - 1,
           if IsStrictPop(s, step) then 1 else 0);
  }

  lemma {:induction false} StrictDelayPays(c: Config, s: State, steps: seq<Step>, t: State, j: nat, spot: Spot)
    requires Reaches(c, s, steps, t) && (forall x :: x in steps ==> !x.SetPriority?) && s.cursor.strictIndex < |s.slots|
    requires j < |s.slots| && OnlyAt(c, s, steps, s.slots[j].priority) && At(s, j, spot).Some?
    requires !SpotAfter(c, s, steps, j, spot).Taken?
    ensures StrictPops(c, s, steps) <= StrictDelay(s, j, spot)
    decreases |steps|
  {
    if steps != [] {
      hide Apply, Enabled, Moved, StrictDelay, IsStrictPop, AtPriority, At, Gone;
      var step := steps[0];
      var to := Moved(c, s, step, j, spot);
      if to.Taken? { TakenStays(c, Apply(c, s, step), steps[1..], j); }
      Followed(c, s, step, j, spot);
      PriorityStays(c, s, step, j);
      StrictDelayShrinks(c, s, step, j, spot);
      StrictDelayPays(c, Apply(c, s, step), steps[1..], t, j, to);
    }
  }

  /**
    The bound for strict queues.  In any run with fixed priorities whose strict
    selections are all at the rank of queue `j`, a request of that queue with
    `k` requests ahead of it has been taken after `k + 1` times the number of
    queues such selections.  Selections at other ranks must not intervene: they
    share the cursor (`Fairness.EqualRankStarved`).
   */
  lemma StrictRequestTakenInTime(c: Config, start: State, before: seq<Step>, s: State, steps: seq<Step>, t: State, j: nat, spot: Spot)
    requires Initial(start) && Reaches(c, start, before, s)
    requires Reaches(c, s, steps, t) && (forall x :: x in steps ==> !x.SetPriority?)
    requires j < |s.slots| && OnlyAt(c, s, steps, s.slots[j].priority) && At(s, j, spot).Some?
    requires StrictPops(c, s, steps) >= (Ahead(s, j, spot) + 1) * |s.slots|
    ensures SpotAfter(c, s, steps, j, spot).Taken?
  {
    hide Initial, Reaches, Apply, Enabled, StrictPops, OnlyAt, SpotAfter, At, Ahead;
    hide Placed, Configured, Justified, Conserved, InOrder, Staged;
    ReachableInvariant(c, start, before, s);
    CursorValid(c, s);
    if !SpotAfter(c, s, steps, j, spot).Taken? {
      StrictDelayPays(c, s, steps, t, j, spot);
      OneMore(Ahead(s, j, spot), |s.slots|);
    }
  }

  lemma OneMore(a: nat, b: nat)
    ensures (a + 1) * b == a * b + b
  {}
}
