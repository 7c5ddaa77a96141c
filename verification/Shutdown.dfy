/**
  Stopping the runner (src/service/link.rs, `fail_pending_jobs`; the push in
  src/service/queue_set.rs).  The drain ends and settles what it finds.  A push
  that has passed its check and not yet appended its entry when the runner
  closes can be too late for the drain; nothing else can.
 */
module Shutdown {
  import E = Exchange
  import opened Queues
  import opened Runner

  // ------------------------------------------------------------- progress

  function PastCheck(pushes: seq<Pushes>): nat {
    if pushes == [] then 0 else PastCheck(pushes[..|pushes| - 1]) + pushes[|pushes| - 1].checked
  }

  /** Work left for the shutdown: entries queued or about to be, the one in hand, queues not yet visited. */
  function Remaining(s: State): nat {
    match s.stage
    case Draining(next, hand) =>
      2 * |AllEntries(s.slots)| + 2 * PastCheck(s.pushes) + (if hand.Some? then 1 else 0)
      + (if next <= |s.slots| then |s.slots| - next else 0) + 1
    case _ => 0
  }

  lemma {:induction false} AllEntriesUpdate(slots: seq<Slot<E.Job>>, i: nat, x: Slot<E.Job>)
    requires i < |slots|
    ensures |AllEntries(slots[i := x])| + |slots[i].entries| == |AllEntries(slots)| + |x.entries|
  {
    var n := |slots| - 1;
    if i < n {
      AllEntriesUpdate(slots[..n], i, x);
      assert slots[i := x][..n] == slots[..n][i := x];
    } else {
      assert slots[i := x][..n] == slots[..n];
    }
  }

  lemma {:induction false} PastCheckUpdate(pushes: seq<Pushes>, i: nat, p: Pushes)
    requires i < |pushes|
    ensures PastCheck(pushes[i := p]) + pushes[i].checked == PastCheck(pushes) + p.checked
  {
    var n := |pushes| - 1;
    if i < n {
      PastCheckUpdate(pushes[..n], i, p);
      assert pushes[i := p][..n] == pushes[..n][i := p];
    } else {
      assert pushes[i := p][..n] == pushes[..n];
    }
  }

  /** Shutdown ends: each of its steps does some of that work and no client step adds to it. */
  lemma ShutdownProgress(c: Config, s: State, step: Step)
    requires Staged(c, s) && s.stage.Draining? && Enabled(s, step)
    ensures Remaining(Apply(c, s, step)) <= Remaining(s)
    ensures step.Drain? ==> Remaining(Apply(c, s, step)) < Remaining(s)
  {
    hide PopScheduled, AllEntries, PastCheck, Grouped, ValidPriority;
    var t := Apply(c, s, step);
    match step
    case Reserve(i) =>
      AllEntriesUpdate(s.slots, i, t.slots[i]);
      PastCheckUpdate(s.pushes, i, t.pushes[i]);
    case CheckOpen(i) =>
      AllEntriesUpdate(s.slots, i, t.slots[i]);
      PastCheckUpdate(s.pushes, i, t.pushes[i]);
    case PushBack(i, job) =>
      AllEntriesUpdate(s.slots, i, t.slots[i]);
      PastCheckUpdate(s.pushes, i, t.pushes[i]);
    case CountPush(i) =>
      AllEntriesUpdate(s.slots, i, t.slots[i]);
      PastCheckUpdate(s.pushes, i, t.pushes[i]);
    case SetPriority(i, priority) => AllEntriesUpdate(s.slots, i, t.slots[i]);
    case DropWaiter(_) =>
    case Drain =>
      var i := s.stage.next;
      if i < |s.slots| { AllEntriesUpdate(s.slots, i, t.slots[i]); }
  }

  // ---------------------------------------------------- when all is settled

  /** No push stands between its check and its append. */
  ghost predicate NoneInBetween(s: State) {
    forall i :: 0 <= i < |s.pushes| ==> s.pushes[i].checked == 0
  }

  /** What the drain has visited stays empty. */
  ghost predicate Drained(s: State) {
    && s.closed && NoneInBetween(s)
    && (s.stage.Draining? ==> forall i :: 0 <= i < s.stage.next && i < |s.slots| ==> s.slots[i].entries == [])
    && (s.stage.Stopped? ==> forall i :: 0 <= i < |s.slots| ==> s.slots[i].entries == [])
  }

  lemma DrainedStep(c: Config, s: State, step: Step)
    requires Staged(c, s) && Drained(s) && Enabled(s, step)
    ensures Drained(Apply(c, s, step))
  {
    hide PopScheduled, Grouped, ValidPriority, CanLead, CanCoalesce;
  }

  lemma {:induction false} DrainedThroughout(c: Config, s: State, steps: seq<Step>, t: State)
    requires Invariant(c, s) && Drained(s) && Reaches(c, s, steps, t)
    ensures Invariant(c, t) && Drained(t)
    decreases |steps|
  {
    if steps != [] {
      hide Invariant, Drained, Enabled, Apply;
      InvariantStep(c, s, steps[0]);
      assert Staged(c, s) by { StagedOf(c, s); }
      DrainedStep(c, s, steps[0]);
      DrainedThroughout(c, Apply(c, s, steps[0]), steps[1..], t);
    }
  }

  lemma StagedOf(c: Config, s: State)
    requires Invariant(c, s)
    ensures Staged(c, s)
  {}

  lemma {:induction false} NothingLeft(slots: seq<Slot<E.Job>>)
    requires forall i :: 0 <= i < |slots| ==> slots[i].entries == []
    ensures AllEntries(slots) == []
  {
    if slots != [] { NothingLeft(slots[..|slots| - 1]); }
  }

  /** Every accepted request has had exactly one outcome. */
  ghost predicate AllSettled(t: State) { t.accepted == multiset(JobsOf(t.settled)) }

  /** Once stopped, all is settled exactly when no queue holds an entry. */
  lemma StoppedSettledIff(c: Config, t: State)
    requires Invariant(c, t) && t.stage.Stopped?
    ensures AllSettled(t) <==> forall i :: 0 <= i < |t.slots| ==> t.slots[i].entries == []
  {
    hide Staged, Placed, Justified, InOrder, Configured, Conserved, JobsOf, AllEntries;
    Settled(t);
    if forall i :: 0 <= i < |t.slots| ==> t.slots[i].entries == [] {
      NothingLeft(t.slots);
    } else {
      var i :| 0 <= i < |t.slots| && t.slots[i].entries != [];
      AllEntriesUpdate(t.slots, i, t.slots[i].(entries := []));
      assert |t.accepted| == |JobsOf(t.settled)| + |AllEntries(t.slots)|;
    }
  }

  /** With no push in between when it closes, the runner settles everything, whatever happens afterwards. */
  lemma QuietShutdown(c: Config, s: State, steps: seq<Step>, t: State)
    requires Invariant(c, s) && s.stage.Idle? && NoneInBetween(s)
    requires Reaches(c, Apply(c, s, Step.Stop), steps, t) && t.stage.Stopped?
    ensures AllSettled(t) && forall i :: 0 <= i < |t.slots| ==> t.slots[i].entries == []
  {
    InvariantStep(c, s, Step.Stop);
    hide Invariant, Reaches, AllSettled;
    DrainedThroughout(c, Apply(c, s, Step.Stop), steps, t);
    StoppedSettledIff(c, t);
  }

  /** The drain alone comes to its end. */
  lemma {:induction false} DrainOut(c: Config, s: State) returns (steps: seq<Step>, t: State)
    requires Invariant(c, s) && s.stage.Draining?
    ensures Reaches(c, s, steps, t) && Invariant(c, t) && t.stage.Stopped? && t.pushes == s.pushes
    decreases Remaining(s)
  {
    assert Staged(c, s) && Enabled(s, Drain);
    InvariantStep(c, s, Drain);
    ShutdownProgress(c, s, Drain);
    var u := Apply(c, s, Drain);
    assert u.pushes == s.pushes && (u.stage.Draining? || u.stage.Stopped?);
    hide Invariant, Remaining, Enabled, Apply, Staged;
    if u.stage.Stopped? {
      steps, t := [Drain], u;
      assert Reaches(c, u, [], u) && [Drain][1..] == [];
    } else {
      var rest;
      rest, t := DrainOut(c, u);
      steps := [Drain] + rest;
      assert steps[1..] == rest;
    }
  }

  /** A push in between can append its entry after the drain: that request is accepted and never settled. */
  lemma StrandedRequest(c: Config, s: State, i: nat, job: E.Job) returns (steps: seq<Step>, t: State)
    requires Invariant(c, s) && s.stage.Idle? && i < |s.pushes| && s.pushes[i].checked > 0
    ensures Reaches(c, Apply(c, s, Step.Stop), steps, t) && t.stage.Stopped?
    ensures i < |t.slots| && job in t.slots[i].entries && !AllSettled(t)
  {
    InvariantStep(c, s, Step.Stop);
    var u := Apply(c, s, Step.Stop);
    var drain, v := DrainOut(c, u);
    assert Staged(c, v) && Placed(v);
    assert Enabled(v, PushBack(i, job));
    t := Apply(c, v, PushBack(i, job));
    InvariantStep(c, v, PushBack(i, job));
    assert job in t.slots[i].entries && t.stage.Stopped?;
    hide Invariant, Enabled, Apply, AllSettled;
    StoppedSettledIff(c, t);
    steps := drain + [PushBack(i, job)];
    assert Reaches(c, v, [PushBack(i, job)], t) by {
      assert [PushBack(i, job)][1..] == [];
      assert Reaches(c, t, [], t);
    }
    ReachesOn(c, u, drain, v, [PushBack(i, job)], t);
  }

  /**
    Exactly when stopping settles everything: from a loop head of any run, every
    way of stopping leaves each accepted request with exactly one outcome if and
    only if no push stands between its check and its append at that moment.
   */
  lemma ShutdownSettlesEverything(c: Config, start: State, before: seq<Step>, s: State)
    requires Initial(start) && Reaches(c, start, before, s) && s.stage.Idle?
    ensures (forall steps, t :: Reaches(c, Apply(c, s, Step.Stop), steps, t) && t.stage.Stopped? ==> AllSettled(t))
      <==> NoneInBetween(s)
  {
    ReachableInvariant(c, start, before, s);
    hide Invariant, Initial, AllSettled;
    if NoneInBetween(s) {
      forall steps, t | Reaches(c, Apply(c, s, Step.Stop), steps, t) && t.stage.Stopped? ensures AllSettled(t) {
        QuietShutdown(c, s, steps, t);
      }
    } else {
      var i :| 0 <= i < |s.pushes| && s.pushes[i].checked != 0;
      var job: E.Job :| true;
      var steps, t := StrandedRequest(c, s, i, job);
    }
  }
}
