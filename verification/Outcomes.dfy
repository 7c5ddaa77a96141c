/**
  Which outcome a request gets (src/service/link.rs, `run`, the follower steps
  and `fail_stopped_job`), told by the steps of the run that settled it.
 */
module Outcomes {
  import opened Basics
  import opened Runner
  import E = Exchange
  import Queues

  /** The state before the k-th step of a run. */
  function StateAt(c: Config, s: State, steps: seq<Step>, k: nat): State
    requires k <= |steps|
    decreases k
  {
    if k == 0 || !Enabled(s, steps[0]) then s else StateAt(c, Apply(c, s, steps[0]), steps[1..], k - 1)
  }

  lemma {:induction false} StepsOn(c: Config, s: State, steps: seq<Step>, t: State, k: nat)
    requires Reaches(c, s, steps, t) && k < |steps|
    ensures Enabled(StateAt(c, s, steps, k), steps[k])
    ensures StateAt(c, s, steps, k + 1) == Apply(c, StateAt(c, s, steps, k), steps[k])
    decreases k
  {
    hide Enabled, Apply;
    if k > 0 { StepsOn(c, Apply(c, s, steps[0]), steps[1..], t, k - 1); }
  }

  lemma {:induction false} EndsAt(c: Config, s: State, steps: seq<Step>, t: State)
    requires Reaches(c, s, steps, t)
    ensures StateAt(c, s, steps, |steps|) == t
    decreases |steps|
  {
    hide Enabled, Apply;
    if steps != [] { EndsAt(c, Apply(c, s, steps[0]), steps[1..], t); }
  }

  /**
    The exchange led by `leader` ended before step k with this result, and the
    runner has been occupied with its consequences since.
   */
  ghost predicate Ended(c: Config, s: State, steps: seq<Step>, k: nat, leader: E.Job, ok: bool)
    requires k <= |steps|
  {
    exists j :: 0 <= j < k && EndedAt(c, s, steps, j, k, leader, ok)
  }

  ghost predicate EndedAt(c: Config, s: State, steps: seq<Step>, j: nat, k: nat, leader: E.Job, ok: bool)
    requires j < k <= |steps|
  {
    && steps[j] == EndExchange(ok)
    && StateAt(c, s, steps, j).stage.Exchanging? && StateAt(c, s, steps, j).stage.leader == leader
    && forall i :: j < i <= k ==> Occupied(StateAt(c, s, steps, i).stage, leader, ok)
  }

  /** The runner completes or requeues what belongs to this leader. */
  predicate Occupied(stage: Stage, leader: E.Job, ok: bool) {
    if ok then stage.Completing? && stage.leader == leader else stage.Requeueing? && stage.leader == leader
  }

  /** Nobody completes or requeues without an exchange that ended so. */
  lemma {:induction false} OccupiedSince(c: Config, s: State, steps: seq<Step>, t: State, k: nat, leader: E.Job, ok: bool)
    requires Reaches(c, s, steps, t) && s.stage.Idle? && k <= |steps|
    requires Occupied(StateAt(c, s, steps, k).stage, leader, ok)
    ensures Ended(c, s, steps, k, leader, ok)
    decreases k
  {
    hide Reaches, StateAt, Enabled, Apply;
    if k == 0 {
      StartsAt(c, s, steps);
    } else {
      StepsOn(c, s, steps, t, k - 1);
      var u := StateAt(c, s, steps, k - 1);
      OccupiedBy(c, u, steps[k - 1], leader, ok);
      if Occupied(u.stage, leader, ok) {
        OccupiedSince(c, s, steps, t, k - 1, leader, ok);
        var j :| 0 <= j < k - 1 && EndedAt(c, s, steps, j, k - 1, leader, ok);
        assert EndedAt(c, s, steps, j, k, leader, ok);
      } else {
        assert EndedAt(c, s, steps, k - 1, k, leader, ok);
      }
    }
  }

  lemma StartsAt(c: Config, s: State, steps: seq<Step>)
    ensures StateAt(c, s, steps, 0) == s
  {}

  /** How the runner comes to be occupied so. */
  lemma OccupiedBy(c: Config, u: State, step: Step, leader: E.Job, ok: bool)
    requires Enabled(u, step) && Occupied(Apply(c, u, step).stage, leader, ok)
    ensures Occupied(u.stage, leader, ok)
      || (step == EndExchange(ok) && u.stage.Exchanging? && u.stage.leader == leader)
  {
    hide Queues.PopScheduled, CanLead, CanCoalesce;
  }

  /** The request a step settles, if it does. */
  function Concerned(u: State, step: Step): Option<E.Job> {
    match step
    case Decide(late) => if u.stage.Deciding? && (late || u.stage.job.id in u.gone) then Some(u.stage.job) else None
    case JudgeCandidate =>
      if u.stage.Gathering? && u.stage.candidate.Some? && CanCoalesce(u.stage.leader, u.stage.candidate.value)
         && u.stage.candidate.value.id in u.gone
      then u.stage.candidate
      else None
    case EndExchange(ok) => if ok && u.stage.Exchanging? then Some(u.stage.leader) else None
    case AnswerFollower(_) => if u.stage.Completing? && u.stage.followers != [] then Some(u.stage.followers[0]) else None
    case ReturnFollower => if u.stage.Requeueing? && u.stage.followers == [] then Some(u.stage.leader) else None
    case Drain => if u.stage.Draining? then u.stage.hand else None
    case _ => None
  }

  /** The waiter was there, and the request shared in the success of the exchange led by `leader`. */
  ghost predicate Succeeded(c: Config, s: State, steps: seq<Step>, k: nat, job: E.Job, leader: E.Job)
    requires k < |steps|
  {
    var u := StateAt(c, s, steps, k);
    && job.id !in u.gone
    && ((steps[k] == EndExchange(true) && u.stage.Exchanging? && u.stage.leader == leader == job)
        || (steps[k] == AnswerFollower(false) && u.stage.Completing? && u.stage.followers != [] && u.stage.followers[0] == job
            && Ended(c, s, steps, k, leader, true)))
  }

  /** The waiter was there, and the request was late, its exchange failed, or the runner stopped. */
  ghost predicate Disappointed(c: Config, s: State, steps: seq<Step>, k: nat, job: E.Job)
    requires k < |steps|
  {
    var u := StateAt(c, s, steps, k);
    && job.id !in u.gone
    && (|| steps[k] == Step.Decide(true)
        || steps[k] == AnswerFollower(true)
        || (steps[k] == ReturnFollower && Ended(c, s, steps, k, job, false))
        || (steps[k] == Drain && u.closed))
  }

  /** The outcome is the one this step of the run calls for. */
  ghost predicate Explained(c: Config, s: State, steps: seq<Step>, k: nat, x: Settlement)
    requires k < |steps|
  {
    var u := StateAt(c, s, steps, k);
    && Concerned(u, steps[k]) == Some(x.job)
    && (x.outcome.Cancelled? <==> x.job.id in u.gone)
    && (forall leader :: x.outcome == Completed(leader) <==> Succeeded(c, s, steps, k, x.job, leader))
    && (x.outcome.Failed? <==> Disappointed(c, s, steps, k, x.job))
  }

  /** What a step adds to the settlements. */
  lemma SettledByClient(c: Config, u: State, step: Step)
    requires Enabled(u, step) && IsClientStep(step)
    ensures Apply(c, u, step).settled == u.settled && Concerned(u, step).None?
  {
    hide Queues.PopScheduled;
  }

  lemma SettledByRunner(c: Config, u: State, step: Step)
    requires Enabled(u, step) && !IsClientStep(step)
    ensures var t := Apply(c, u, step);
      match Concerned(u, step)
      case None => t.settled == u.settled
      case Some(job) =>
        && |t.settled| == |u.settled| + 1 && t.settled[..|u.settled|] == u.settled
        && t.settled[|u.settled|].job == job
        && var o := t.settled[|u.settled|].outcome;
           && (o.Cancelled? <==> job.id in u.gone)
           && (job.id !in u.gone ==>
                if step.EndExchange? then o == Completed(u.stage.leader)
                else if step == AnswerFollower(false) then o == Completed(u.stage.leader)
                else o == Failed)
  {
    hide Queues.PopScheduled, CanLead, CanCoalesce;
  }

  /**
    Every settlement of every run, exactly.  A request is cancelled if and only
    if its waiter was gone when it was settled.  It is completed by a leader if
    and only if its waiter was there and the exchange of that leader had
    succeeded, with the request as the leader or as a follower answered in time.
    It is failed in exactly the other cases: it was late, the exchange it led
    failed, or the runner stopped.
   */
  lemma {:induction false} SettledExactly(c: Config, s: State, steps: seq<Step>, t: State, m: nat)
    requires Initial(s) && Reaches(c, s, steps, t) && m < |t.settled|
    ensures exists k :: 0 <= k < |steps| && |StateAt(c, s, steps, k).settled| == m && Explained(c, s, steps, k, t.settled[m])
  {
    hide Initial, Reaches, StateAt, Explained;
    EndsAt(c, s, steps, t);
    SettledBefore(c, s, steps, t, |steps|, m);
  }

  lemma NothingSettledYet(s: State)
    requires Initial(s)
    ensures s.settled == [] && s.stage.Idle?
  {}

  lemma {:induction false} SettledBefore(c: Config, s: State, steps: seq<Step>, t: State, n: nat, m: nat)
    requires Initial(s) && Reaches(c, s, steps, t) && n <= |steps|
    requires m < |StateAt(c, s, steps, n).settled|
    ensures exists k ::
      0 <= k < n && |StateAt(c, s, steps, k).settled| == m && Explained(c, s, steps, k, StateAt(c, s, steps, n).settled[m])
    decreases n
  {
    hide Initial, Reaches, StateAt, Explained, Enabled, Apply, Concerned;
    if n == 0 {
      NothingSettledYet(s);
      StartsAt(c, s, steps);
    } else {
      StepsOn(c, s, steps, t, n - 1);
      var u, step := StateAt(c, s, steps, n - 1), steps[n - 1];
      if IsClientStep(step) { SettledByClient(c, u, step); } else { SettledByRunner(c, u, step); }
      if m < |u.settled| {
        SettledBefore(c, s, steps, t, n - 1, m);
        var k :| 0 <= k < n - 1 && |StateAt(c, s, steps, k).settled| == m && Explained(c, s, steps, k, u.settled[m]);
        assert StateAt(c, s, steps, n).settled[m] == u.settled[m];
      } else {
        NewlyExplained(c, s, steps, t, n - 1);
      }
    }
  }

  lemma NewlyExplained(c: Config, s: State, steps: seq<Step>, t: State, k: nat)
    requires Initial(s) && Reaches(c, s, steps, t) && k < |steps|
    requires Concerned(StateAt(c, s, steps, k), steps[k]).Some?
    ensures |StateAt(c, s, steps, k + 1).settled| == |StateAt(c, s, steps, k).settled| + 1
    ensures Explained(c, s, steps, k, StateAt(c, s, steps, k + 1).settled[|StateAt(c, s, steps, k).settled|])
  {
    hide Initial, Reaches, StateAt, Enabled, Apply, Ended, CanCoalesce;
    StepsOn(c, s, steps, t, k);
    NothingSettledYet(s);
    var u, step := StateAt(c, s, steps, k), steps[k];
    if IsClientStep(step) { SettledByClient(c, u, step); } else { SettledByRunner(c, u, step); }
    if step.AnswerFollower? {
      OccupiedSince(c, s, steps, t, k, u.stage.leader, true);
      forall leader | Ended(c, s, steps, k, leader, true) ensures leader == u.stage.leader {
        EndedOccupied(c, s, steps, k, leader, true);
      }
    } else if step.ReturnFollower? {
      OccupiedSince(c, s, steps, t, k, u.stage.leader, false);
    } else if step.Drain? {
      ClosedWhenDraining(c, s, steps, t, k);
    }
  }

  lemma EndedOccupied(c: Config, s: State, steps: seq<Step>, k: nat, leader: E.Job, ok: bool)
    requires k <= |steps| && Ended(c, s, steps, k, leader, ok)
    ensures Occupied(StateAt(c, s, steps, k).stage, leader, ok)
  {
    hide StateAt, Occupied;
    var j :| 0 <= j < k && EndedAt(c, s, steps, j, k, leader, ok);
  }

  lemma {:induction false} InvariantAt(c: Config, s: State, steps: seq<Step>, t: State, k: nat)
    requires Initial(s) && Reaches(c, s, steps, t) && k <= |steps|
    ensures Invariant(c, StateAt(c, s, steps, k))
    decreases k
  {
    hide Initial, Reaches, StateAt, Enabled, Apply, Invariant;
    if k == 0 {
      StartsAt(c, s, steps);
      InitialInvariant(c, s);
    } else {
      InvariantAt(c, s, steps, t, k - 1);
      StepsOn(c, s, steps, t, k - 1);
      InvariantStep(c, StateAt(c, s, steps, k - 1), steps[k - 1]);
    }
  }

  lemma ClosedWhenDraining(c: Config, s: State, steps: seq<Step>, t: State, k: nat)
    requires Initial(s) && Reaches(c, s, steps, t) && k <= |steps|
    ensures StateAt(c, s, steps, k).stage.Draining? ==> StateAt(c, s, steps, k).closed
  {
    hide Initial, Reaches, StateAt, Placed, Configured, Justified, Conserved, InOrder, Grouped, CanLead;
    InvariantAt(c, s, steps, t, k);
  }

  // ------------------------------------------------------ what is coalesced

  /** A request that is neither late nor abandoned leads an exchange, gathering first if it may share its reply. */
  lemma LeadsAnExchange(c: Config, u: State)
    requires Enabled(u, Step.Decide(false)) && u.stage.job.id !in u.gone
    ensures var job := u.stage.job;
      Apply(c, u, Step.Decide(false)).stage ==
        if E.ResolvedSafety(job.request, c.catalog).ReadOnly? && job.transmitPrefix == [] && c.maximumCoalesced > 0
        then Gathering(u.stage.queue, job, [], None)
        else Exchanging(u.stage.queue, job, [])
  {}

  /** An equal request whose waiter is there becomes a follower. */
  lemma EqualsFollow(c: Config, u: State)
    requires Enabled(u, JudgeCandidate)
    requires var x, y := u.stage.leader, u.stage.candidate.value;
      x.request == y.request && y.transmitPrefix == [] && x.policy == y.policy && y.id !in u.gone
    ensures Apply(c, u, JudgeCandidate).stage
      == Gathering(u.stage.queue, u.stage.leader, u.stage.followers + [u.stage.candidate.value], None)
  {}

  /** Gathering ends only at the limit, at the end of the queue, or before a request that differs. */
  lemma GatheringEnds(c: Config, u: State, step: Step)
    requires Enabled(u, step) && u.stage.Gathering? && Apply(c, u, step).stage.Exchanging?
    ensures var t := Apply(c, u, step);
      var q, leader := u.stage.queue, u.stage.leader;
      && t.stage == Exchanging(q, leader, u.stage.followers) && q < |t.slots|
      && (|| |u.stage.followers| >= c.maximumCoalesced
          || t.slots[q].entries == []
          || var next := t.slots[q].entries[0];
             next.request != leader.request || next.transmitPrefix != [] || next.policy != leader.policy)
  {
    hide Queues.PopScheduled;
  }
}
