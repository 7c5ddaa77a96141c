/**
  The link runner as a protocol (src/service/link.rs, `LinkRunner::run` and the
  follower and shutdown steps; src/service/queue_set.rs for the queues).
  Clients, dropped waiters, priority changes, the clock and the result of an
  exchange may interleave with the runner between any two steps.  A push is
  four steps of its client: taking a place, checking that the runner is open,
  appending the entry and counting it.  One step of the runner is one call on
  a queue together with the bookkeeping of its own that follows.
 */
module Runner {
  import opened Basics
  import opened Operation
  import opened Exchange
  import opened Queues
  import Fairness
  import W = Wire

  datatype Config = Config(maximumCoalesced: nat, catalog: CommandCode -> Option<Safety>)

  datatype Outcome = Completed(leader: Job) | Failed | Cancelled

  datatype Settlement = Settlement(job: Job, outcome: Outcome)

  /** Where the runner is. */
  datatype Stage =
    | Idle
    | Holding(queue: nat, job: Job)
    | Deciding(queue: nat, job: Job)
    | Gathering(queue: nat, leader: Job, followers: seq<Job>, candidate: Option<Job>)
    | Exchanging(queue: nat, leader: Job, followers: seq<Job>)
    | Completing(queue: nat, leader: Job, followers: seq<Job>)
    | Requeueing(queue: nat, leader: Job, followers: seq<Job>)
    | Draining(next: nat, hand: Option<Job>)
    | Stopped

  /**
    What became of the leader's queue: its content when the leader was popped,
    what arrived since, how many entries were scanned and which of them dropped.
   */
  datatype Watch = Watch(before: seq<Job>, arrivals: seq<Job>, scanned: nat, dropped: set<nat>)

  /** Pushes under way on one queue: holding a place, past the check, appended and not yet counted. */
  datatype Pushes = Pushes(reserved: nat, checked: nat, uncounted: nat)

  datatype State = State(
    slots: seq<Slot<Job>>,
    cursor: Cursor,
    pushes: seq<Pushes>,
    closed: bool,
    gone: set<nat>,
    accepted: multiset<Job>,
    settled: seq<Settlement>,
    stage: Stage,
    watch: Watch
  )

  datatype Step =
    // clients
    | Reserve(i: nat)
    | CheckOpen(i: nat)
    | PushBack(i: nat, item: Job)
    | CountPush(i: nat)
    | DropWaiter(id: nat)
    | SetPriority(i: nat, priority: Priority)
    // the runner
    | Pop
    | FinishPopped
    | Decide(late: bool)
    | TakeCandidate
    | JudgeCandidate
    | EndExchange(ok: bool)
    | AnswerFollower(late: bool)
    | ReturnFollower
    | Stop
    | Drain

  predicate CanLead(c: Config, j: Job) {
    && ResolvedSafety(j.request, c.catalog).ReadOnly?
    && j.transmitPrefix == []
    && c.maximumCoalesced > 0
  }

  predicate CanCoalesce(leader: Job, j: Job) {
    && j.request == leader.request
    && j.transmitPrefix == []
    && j.policy == leader.policy
  }

  // ------------------------------------------------------------------- steps

  /** Places are given out until the semaphores close, which may be a little after the runner has closed. */
  predicate Enabled(s: State, step: Step) {
    match step
    case Reserve(i) => i < |s.slots| && i < |s.pushes| && s.slots[i].permits > 0
    case CheckOpen(i) => i < |s.slots| && i < |s.pushes| && s.pushes[i].reserved > 0
    case PushBack(i, _) => i < |s.slots| && i < |s.pushes| && s.pushes[i].checked > 0
    case CountPush(i) => i < |s.slots| && i < |s.pushes| && s.pushes[i].uncounted > 0
    case DropWaiter(_) => true
    case SetPriority(i, priority) => i < |s.slots| && ValidPriority(priority)
    case Pop => s.stage.Idle? && ValidCursor(s.cursor, s.slots) && PopScheduled(s.slots, s.cursor).index.Some?
    case FinishPopped => s.stage.Holding? && s.stage.queue < |s.slots|
    case Decide(_) => s.stage.Deciding?
    case TakeCandidate => s.stage.Gathering? && s.stage.candidate.None? && s.stage.queue < |s.slots|
    case JudgeCandidate => s.stage.Gathering? && s.stage.candidate.Some? && s.stage.queue < |s.slots|
    case EndExchange(_) => s.stage.Exchanging?
    case AnswerFollower(_) => s.stage.Completing? && s.stage.queue < |s.slots|
    case ReturnFollower => s.stage.Requeueing? && s.stage.queue < |s.slots|
    case Stop => s.stage.Idle?
    case Drain => s.stage.Draining? && (s.stage.hand.Some? ==> s.stage.next < |s.slots|)
  }

  function Settle(s: State, j: Job, o: Outcome): State {
    s.(settled := s.settled + [Settlement(j, o)])
  }

  /** Outcome of a request whose waiter may be gone. */
  function Unless(s: State, j: Job, o: Outcome): Outcome {
    if j.id in s.gone then Cancelled else o
  }

  function WithSlot(s: State, i: nat, slot: Slot<Job>): State
    requires i < |s.slots|
  {
    s.(slots := s.slots[i := slot])
  }

  function WithPushes(s: State, i: nat, p: Pushes): State
    requires i < |s.pushes|
  {
    s.(pushes := s.pushes[i := p])
  }

  function Apply(c: Config, s: State, step: Step): State
    requires Enabled(s, step)
  {
    match step
    case Reserve(i) =>
      var p := s.pushes[i];
      WithPushes(WithSlot(s, i, Reserved(s.slots[i])), i, p.(reserved := p.reserved + 1))
    case CheckOpen(i) =>
      var p := s.pushes[i];
      if s.closed then WithPushes(WithSlot(s, i, Released(s.slots[i])), i, p.(reserved := p.reserved - 1))
      else WithPushes(s, i, p.(reserved := p.reserved - 1, checked := p.checked + 1))
    case PushBack(i, job) =>
      var p := s.pushes[i];
      WithPushes(WithSlot(s, i, Appended(s.slots[i], job)), i, p.(checked := p.checked - 1, uncounted := p.uncounted + 1)).(
        accepted := s.accepted + multiset{job},
        watch := if Watched(s.stage, i) then s.watch.(arrivals := s.watch.arrivals + [job]) else s.watch)
    case CountPush(i) =>
      var p := s.pushes[i];
      WithPushes(WithSlot(s, i, CountedUp(s.slots[i])), i, p.(uncounted := p.uncounted - 1))
    case DropWaiter(id) => s.(gone := s.gone + {id})
    case SetPriority(i, priority) => WithSlot(s, i, s.slots[i].(priority := priority))
    case Pop =>
      var pick := PopScheduled(s.slots, s.cursor);
      var q := pick.index.value;
      var rest := Popped(s.slots[q]);
      WithSlot(s, q, rest).(
        cursor := pick.cursor,
        stage := Holding(q, s.slots[q].entries[0]),
        watch := Watch(rest.entries, [], 0, {}))
    case FinishPopped =>
      var Holding(q, job) := s.stage;
      WithSlot(s, q, Finished(s.slots[q])).(stage := Deciding(q, job))
    case Decide(late) =>
      var Deciding(q, job) := s.stage;
      if job.id in s.gone then Settle(s, job, Cancelled).(stage := Idle)
      else if late then Settle(s, job, Failed).(stage := Idle)
      else if CanLead(c, job) then s.(stage := Gathering(q, job, [], None))
      else s.(stage := Exchanging(q, job, []))
    case TakeCandidate =>
      var Gathering(q, leader, followers, _) := s.stage;
      if |followers| >= c.maximumCoalesced || s.slots[q].entries == []
      then s.(stage := Exchanging(q, leader, followers))
      else
        WithSlot(s, q, Popped(s.slots[q])).(
          stage := Gathering(q, leader, followers, Some(s.slots[q].entries[0])))
    case JudgeCandidate =>
      var Gathering(q, leader, followers, Some(job)) := s.stage;
      if !CanCoalesce(leader, job)
      then WithSlot(s, q, PutBack(s.slots[q], job)).(stage := Exchanging(q, leader, followers))
      else if job.id in s.gone
      then
        Settle(WithSlot(s, q, Finished(s.slots[q])), job, Cancelled).(
          stage := Gathering(q, leader, followers, None),
          watch := s.watch.(scanned := s.watch.scanned + 1, dropped := s.watch.dropped + {s.watch.scanned}))
      else
        s.(stage := Gathering(q, leader, followers + [job], None),
           watch := s.watch.(scanned := s.watch.scanned + 1))
    case EndExchange(ok) =>
      var Exchanging(q, leader, followers) := s.stage;
      if ok then Settle(s, leader, Unless(s, leader, Completed(leader))).(stage := Completing(q, leader, followers))
      else s.(stage := Requeueing(q, leader, followers))
    case AnswerFollower(late) =>
      var Completing(q, leader, followers) := s.stage;
      if followers == [] then s.(stage := Idle)
      else
        var job := followers[0];
        Settle(WithSlot(s, q, Finished(s.slots[q])), job, Unless(s, job, if late then Failed else Completed(leader))).(
          stage := Completing(q, leader, followers[1..]))
    case ReturnFollower =>
      var Requeueing(q, leader, followers) := s.stage;
      if followers == [] then Settle(s, leader, Unless(s, leader, Failed)).(stage := Idle)
      else
        var n := |followers| - 1;
        WithSlot(s, q, PutBack(s.slots[q], followers[n])).(stage := Requeueing(q, leader, followers[..n]))
    case Stop => s.(closed := true, stage := Draining(0, None))
    case Drain =>
      var i := s.stage.next;
      match s.stage.hand
      case Some(job) =>
        Settle(WithSlot(s, i, Finished(s.slots[i])), job, Unless(s, job, Failed)).(stage := Draining(i, None))
      case None =>
        if i >= |s.slots| then s.(stage := Stopped)
        else if s.slots[i].entries == [] then s.(stage := Draining(i + 1, None))
        else WithSlot(s, i, Popped(s.slots[i])).(stage := Draining(i, Some(s.slots[i].entries[0])))
  }

  /** The runner is working for a request it took from queue `i`. */
  predicate Watched(stage: Stage, i: nat) {
    match stage
    case Holding(q, _) => q == i
    case Deciding(q, _) => q == i
    case Gathering(q, _, _, _) => q == i
    case Exchanging(q, _, _) => q == i
    case Requeueing(q, _, _) => q == i
    case _ => false
  }

  // -------------------------------------------------------------- invariants

  /** How often a request occurs in a list. */
  ghost function Times(jobs: seq<Job>, j: Job): nat { multiset(jobs)[j] }

  function One(x: Job, j: Job): nat { if x == j then 1 else 0 }

  ghost function Queued(slots: seq<Slot<Job>>, j: Job): nat {
    if slots == [] then 0
    else Queued(slots[..|slots| - 1], j) + Times(slots[|slots| - 1].entries, j)
  }

  ghost function InFlight(stage: Stage, j: Job): nat {
    match stage
    case Holding(_, job) => One(job, j)
    case Deciding(_, job) => One(job, j)
    case Gathering(_, leader, followers, candidate) =>
      One(leader, j) + Times(followers, j) + (if candidate.Some? then One(candidate.value, j) else 0)
    case Exchanging(_, leader, followers) => One(leader, j) + Times(followers, j)
    case Completing(_, _, followers) => Times(followers, j)
    case Requeueing(_, leader, followers) => One(leader, j) + Times(followers, j)
    case Draining(_, Some(job)) => One(job, j)
    case _ => 0
  }

  ghost function Outcomes(settled: seq<Settlement>, j: Job): nat {
    if settled == [] then 0
    else Outcomes(settled[..|settled| - 1], j) + One(settled[|settled| - 1].job, j)
  }

  /** The balance for one request. */
  ghost predicate Balanced(s: State, j: Job) {
    s.accepted[j] == Outcomes(s.settled, j) + Queued(s.slots, j) + InFlight(s.stage, j)
  }

  /** Every accepted request is settled once, queued once or in the runner's hands once. */
  ghost predicate Conserved(s: State) {
    forall j: Job :: Balanced(s, j)
  }

  /** Popped entries of queue `i` that still occupy a place in it. */
  function HeldIn(stage: Stage, i: nat): nat {
    match stage
    case Holding(q, _) => if q == i then 1 else 0
    case Gathering(q, _, followers, candidate) =>
      if q == i then |followers| + (if candidate.Some? then 1 else 0) else 0
    case Exchanging(q, _, followers) => if q == i then |followers| else 0
    case Completing(q, _, followers) => if q == i then |followers| else 0
    case Requeueing(q, _, followers) => if q == i then |followers| else 0
    case Draining(q, Some(_)) => if q == i then 1 else 0
    case _ => 0
  }

  /** What an atomic counter shows for a balance that may be negative for a while. */
  function Shown(balance: int): u64 { balance % (U64_MAX + 1) }

  /**
    Places and counter of queue `i` agree with what it holds and the runner
    keeps.  Pushes not yet counted are missing from the counter, even when the
    entry has been taken and finished already.
   */
  ghost predicate PlacedAt(s: State, i: nat)
    requires i < |s.slots| && i < |s.pushes|
  {
    var slot, p := s.slots[i], s.pushes[i];
    && slot.permits + p.reserved + p.checked + |slot.entries| + HeldIn(s.stage, i) == slot.capacity
    && slot.queued == Shown(|slot.entries| + HeldIn(s.stage, i) - p.uncounted)
  }

  ghost predicate Placed(s: State) {
    |s.pushes| == |s.slots| && forall i :: 0 <= i < |s.slots| ==> PlacedAt(s, i)
  }

  lemma ShownSteps(x: int)
    ensures Shown(x + 1) == WrapUp(Shown(x)) && Shown(x - 1) == WrapDown(Shown(x))
  {}

  /** The queue the runner is working for. */
  function Working(stage: Stage): Option<nat> {
    match stage
    case Holding(q, _) => Some(q)
    case Deciding(q, _) => Some(q)
    case Gathering(q, _, _, _) => Some(q)
    case Exchanging(q, _, _) => Some(q)
    case Completing(q, _, _) => Some(q)
    case Requeueing(q, _, _) => Some(q)
    case Draining(q, Some(_)) => Some(q)
    case _ => None
  }

  ghost predicate Grouped(c: Config, leader: Job, followers: seq<Job>) {
    && |followers| <= c.maximumCoalesced
    && (followers != [] ==> CanLead(c, leader))
    && forall f :: f in followers ==> CanCoalesce(leader, f)
  }

  /** The stage fits the queues and the shutdown state. */
  ghost predicate Staged(c: Config, s: State) {
    && ValidCursor(s.cursor, s.slots)
    && (Working(s.stage).Some? ==> Working(s.stage).value < |s.slots|)
    && (s.closed <==> s.stage.Draining? || s.stage.Stopped?)
    && match s.stage
       case Gathering(_, leader, followers, candidate) =>
         CanLead(c, leader) && Grouped(c, leader, followers) && (candidate.Some? ==> |followers| < c.maximumCoalesced)
       case Exchanging(_, leader, followers) => Grouped(c, leader, followers)
       case Completing(_, leader, followers) => Grouped(c, leader, followers)
       case Requeueing(_, leader, followers) => Grouped(c, leader, followers)
       case _ => true
  }

  /** A request is only ever completed by itself or by a read-only leader with an equal request. */
  ghost predicate Justified(c: Config, s: State) {
    forall x :: x in s.settled && x.outcome.Completed? ==>
      x.outcome.leader == x.job || (CanLead(c, x.outcome.leader) && CanCoalesce(x.outcome.leader, x.job))
  }

  lemma {:induction false} QueuedUpdate(slots: seq<Slot<Job>>, i: nat, x: Slot<Job>, j: Job)
    requires i < |slots|
    ensures Queued(slots[i := x], j) + Times(slots[i].entries, j) == Queued(slots, j) + Times(x.entries, j)
  {
    hide Times;
    var n := |slots| - 1;
    if i < n {
      QueuedUpdate(slots[..n], i, x, j);
      assert slots[i := x][..n] == slots[..n][i := x];
    } else {
      assert slots[i := x][..n] == slots[..n];
    }
  }

  lemma SettleOne(settled: seq<Settlement>, x: Settlement, j: Job)
    ensures Outcomes(settled + [x], j) == Outcomes(settled, j) + One(x.job, j)
  {
    assert (settled + [x])[..|settled|] == settled;
  }

  predicate IsClientStep(step: Step) {
    step.Reserve? || step.CheckOpen? || step.PushBack? || step.CountPush? || step.DropWaiter? || step.SetPriority?
  }

  predicate IsTakingStep(step: Step) { step.Pop? || step.FinishPopped? || step.Decide? }

  predicate IsGatheringStep(step: Step) { step.TakeCandidate? || step.JudgeCandidate? }

  predicate IsEndingStep(step: Step) { step.EndExchange? || step.AnswerFollower? || step.ReturnFollower? }

  predicate IsShutdownStep(step: Step) { step.Stop? || step.Drain? }

  lemma StagedByClient(c: Config, s: State, step: Step)
    requires Staged(c, s) && Placed(s) && Enabled(s, step) && IsClientStep(step)
    ensures Staged(c, Apply(c, s, step))
  {
    hide CanLead, Grouped, PopScheduled;
  }

  lemma StagedByTaking(c: Config, s: State, step: Step)
    requires Staged(c, s) && Placed(s) && Enabled(s, step) && IsTakingStep(step)
    ensures Staged(c, Apply(c, s, step))
  {
    hide CanLead;
  }

  lemma StagedByGathering(c: Config, s: State, step: Step)
    requires Staged(c, s) && Placed(s) && Enabled(s, step) && IsGatheringStep(step)
    ensures Staged(c, Apply(c, s, step))
  {
    hide CanLead, CanCoalesce, PopScheduled;
  }

  lemma StagedByEnding(c: Config, s: State, step: Step)
    requires Staged(c, s) && Placed(s) && Enabled(s, step) && IsEndingStep(step)
    ensures Staged(c, Apply(c, s, step))
  {
    hide CanLead, CanCoalesce, PopScheduled;
  }

  lemma StagedByShutdown(c: Config, s: State, step: Step)
    requires Staged(c, s) && Placed(s) && Enabled(s, step) && IsShutdownStep(step)
    ensures Staged(c, Apply(c, s, step))
  {
    hide CanLead, Grouped, PopScheduled;
  }

  /** What queue `i` would count if every push were counted at once. */
  function Balance(s: State, i: nat): int
    requires i < |s.slots| && i < |s.pushes|
  {
    |s.slots[i].entries| + HeldIn(s.stage, i) - s.pushes[i].uncounted
  }

  lemma PlacedByClient(c: Config, s: State, step: Step)
    requires Staged(c, s) && Placed(s) && Enabled(s, step) && IsClientStep(step)
    ensures Placed(Apply(c, s, step))
  {
    hide Staged, PopScheduled, Shown, HeldIn;
    if step.CountPush? { ShownSteps(Balance(s, step.i)); }
    forall k | 0 <= k < |s.slots| ensures PlacedAt(Apply(c, s, step), k) { assert PlacedAt(s, k); }
  }

  lemma PlacedByTaking(c: Config, s: State, step: Step)
    requires Staged(c, s) && Placed(s) && Enabled(s, step) && IsTakingStep(step)
    ensures Placed(Apply(c, s, step))
  {
    hide CanLead, Grouped, PopScheduled, Shown;
    if step.FinishPopped? { ShownSteps(Balance(s, s.stage.queue)); }
    forall k | 0 <= k < |s.slots| ensures PlacedAt(Apply(c, s, step), k) { assert PlacedAt(s, k); }
  }

  lemma PlacedByGathering(c: Config, s: State, step: Step)
    requires Staged(c, s) && Placed(s) && Enabled(s, step) && IsGatheringStep(step)
    ensures Placed(Apply(c, s, step))
  {
    hide CanLead, CanCoalesce, Grouped, PopScheduled, Shown;
    ShownSteps(Balance(s, s.stage.queue));
    forall k | 0 <= k < |s.slots| ensures PlacedAt(Apply(c, s, step), k) { assert PlacedAt(s, k); }
  }

  lemma PlacedByEnding(c: Config, s: State, step: Step)
    requires Staged(c, s) && Placed(s) && Enabled(s, step) && IsEndingStep(step)
    ensures Placed(Apply(c, s, step))
  {
    hide CanLead, CanCoalesce, Grouped, PopScheduled, Shown;
    ShownSteps(Balance(s, s.stage.queue));
    forall k | 0 <= k < |s.slots| ensures PlacedAt(Apply(c, s, step), k) { assert PlacedAt(s, k); }
  }

  lemma PlacedByShutdown(c: Config, s: State, step: Step)
    requires Staged(c, s) && Placed(s) && Enabled(s, step) && IsShutdownStep(step)
    ensures Placed(Apply(c, s, step))
  {
    hide CanLead, Grouped, PopScheduled, Shown;
    if step.Drain? && s.stage.next < |s.slots| { ShownSteps(Balance(s, s.stage.next)); }
    forall k | 0 <= k < |s.slots| ensures PlacedAt(Apply(c, s, step), k) { assert PlacedAt(s, k); }
  }

  lemma JustifiedStep(c: Config, s: State, step: Step)
    requires Staged(c, s) && Justified(c, s) && Enabled(s, step)
    ensures Justified(c, Apply(c, s, step))
  {
    hide CanLead, CanCoalesce, PopScheduled;
  }

  // ------------------------------------------------------------ conservation

  lemma TimesEmpty(j: Job)
    ensures Times([], j) == 0
  {}

  lemma TimesHead(x: Job, s: seq<Job>, j: Job)
    ensures Times([x] + s, j) == One(x, j) + Times(s, j)
  {}

  lemma TimesLast(s: seq<Job>, x: Job, j: Job)
    ensures Times(s + [x], j) == Times(s, j) + One(x, j)
  {}

  lemma TimesSplitHead(s: seq<Job>, j: Job)
    requires s != []
    ensures Times(s, j) == One(s[0], j) + Times(s[1..], j)
  {
    TimesHead(s[0], s[1..], j);
    assert s == [s[0]] + s[1..];
  }

  lemma TimesSplitLast(s: seq<Job>, j: Job)
    requires s != []
    ensures Times(s, j) == Times(s[..|s| - 1], j) + One(s[|s| - 1], j)
  {
    TimesLast(s[..|s| - 1], s[|s| - 1], j);
    assert s == s[..|s| - 1] + [s[|s| - 1]];
  }

  lemma BalancedByClient(c: Config, s: State, step: Step, j: Job)
    requires Balanced(s, j) && Enabled(s, step) && IsClientStep(step)
    ensures Balanced(Apply(c, s, step), j)
  {
    hide Queued, Outcomes, Times, PopScheduled, InFlight;
    match step
    case Reserve(i) => QueuedUpdate(s.slots, i, Reserved(s.slots[i]), j);
    case CheckOpen(i) => QueuedUpdate(s.slots, i, Released(s.slots[i]), j);
    case PushBack(i, job) =>
      QueuedUpdate(s.slots, i, Appended(s.slots[i], job), j);
      TimesLast(s.slots[i].entries, job, j);
    case CountPush(i) => QueuedUpdate(s.slots, i, CountedUp(s.slots[i]), j);
    case DropWaiter(_) =>
    case SetPriority(i, priority) => QueuedUpdate(s.slots, i, s.slots[i].(priority := priority), j);
  }

  lemma BalancedByTaking(c: Config, s: State, step: Step, j: Job)
    requires Balanced(s, j) && Enabled(s, step) && IsTakingStep(step)
    ensures Balanced(Apply(c, s, step), j)
  {
    hide Queued, Outcomes, Times, PopScheduled, CanLead;
    TimesEmpty(j);
    match step
    case Pop =>
      var q := PopScheduled(s.slots, s.cursor).index.value;
      QueuedUpdate(s.slots, q, Popped(s.slots[q]), j);
      TimesSplitHead(s.slots[q].entries, j);
    case FinishPopped => QueuedUpdate(s.slots, s.stage.queue, Finished(s.slots[s.stage.queue]), j);
    case Decide(late) =>
      SettleOne(s.settled, Settlement(s.stage.job, Cancelled), j);
      SettleOne(s.settled, Settlement(s.stage.job, Failed), j);
  }

  lemma BalancedByTakingCandidate(c: Config, s: State, j: Job)
    requires Balanced(s, j) && Enabled(s, TakeCandidate)
    ensures Balanced(Apply(c, s, TakeCandidate), j)
  {
    hide Queued, Outcomes, Times, PopScheduled, CanLead, CanCoalesce;
    var q := s.stage.queue;
    if s.slots[q].entries != [] {
      QueuedUpdate(s.slots, q, Popped(s.slots[q]), j);
      TimesSplitHead(s.slots[q].entries, j);
    }
  }

  lemma BalancedByJudging(c: Config, s: State, j: Job)
    requires Balanced(s, j) && Enabled(s, JudgeCandidate)
    ensures Balanced(Apply(c, s, JudgeCandidate), j)
  {
    hide Queued, Outcomes, Times, PopScheduled, CanLead, CanCoalesce;
    var q, job := s.stage.queue, s.stage.candidate.value;
    QueuedUpdate(s.slots, q, PutBack(s.slots[q], job), j);
    TimesHead(job, s.slots[q].entries, j);
    QueuedUpdate(s.slots, q, Finished(s.slots[q]), j);
    SettleOne(s.settled, Settlement(job, Cancelled), j);
    TimesLast(s.stage.followers, job, j);
  }

  lemma BalancedByEnding(c: Config, s: State, step: Step, j: Job)
    requires Balanced(s, j) && Enabled(s, step) && IsEndingStep(step)
    ensures Balanced(Apply(c, s, step), j)
  {
    hide Queued, Outcomes, Times, PopScheduled, CanLead, CanCoalesce;
    var q, leader, followers := s.stage.queue, s.stage.leader, s.stage.followers;
    TimesEmpty(j);
    match step
    case EndExchange(ok) =>
      SettleOne(s.settled, Settlement(leader, Unless(s, leader, Completed(leader))), j);
    case AnswerFollower(late) =>
      if followers != [] {
        QueuedUpdate(s.slots, q, Finished(s.slots[q]), j);
        TimesSplitHead(followers, j);
        SettleOne(s.settled, Settlement(followers[0], Unless(s, followers[0], if late then Failed else Completed(leader))), j);
      }
    case ReturnFollower =>
      if followers == [] {
        SettleOne(s.settled, Settlement(leader, Unless(s, leader, Failed)), j);
      } else {
        var job := followers[|followers| - 1];
        QueuedUpdate(s.slots, q, PutBack(s.slots[q], job), j);
        TimesHead(job, s.slots[q].entries, j);
        TimesSplitLast(followers, j);
      }
  }

  lemma BalancedByShutdown(c: Config, s: State, step: Step, j: Job)
    requires Balanced(s, j) && Enabled(s, step) && IsShutdownStep(step)
    ensures Balanced(Apply(c, s, step), j)
  {
    hide Queued, Outcomes, Times, PopScheduled;
    if step.Drain? && s.stage.next < |s.slots| {
      var i := s.stage.next;
      if s.stage.hand.Some? {
        QueuedUpdate(s.slots, i, Finished(s.slots[i]), j);
        SettleOne(s.settled, Settlement(s.stage.hand.value, Unless(s, s.stage.hand.value, Failed)), j);
      } else if s.slots[i].entries != [] {
        QueuedUpdate(s.slots, i, Popped(s.slots[i]), j);
        TimesSplitHead(s.slots[i].entries, j);
      }
    }
  }

  // ------------------------------------------------------------------- order

  /** All that ever stood in the leader's queue since the leader was popped, in order. */
  function Line(w: Watch): seq<Job> { w.before + w.arrivals }

  /** `jobs` without the dropped positions. */
  function Kept(jobs: seq<Job>, dropped: set<nat>): seq<Job> {
    if jobs == [] then []
    else
      var n := |jobs| - 1;
      Kept(jobs[..n], dropped) + (if n in dropped then [] else [jobs[n]])
  }

  ghost predicate Watching(w: Watch, gone: set<nat>, leader: Option<Job>) {
    && w.scanned <= |Line(w)|
    && (forall p :: p in w.dropped ==> p < w.scanned && Line(w)[p].id in gone)
    && (w.scanned > 0 ==> leader.Some?)
    && (leader.Some? ==> forall p :: 0 <= p < w.scanned ==> CanCoalesce(leader.value, Line(w)[p]))
  }

  function Held(candidate: Option<Job>): seq<Job> { if candidate.Some? then [candidate.value] else [] }

  /** Entries the runner holds, followed by those in the queue, are the line minus the dropped. */
  ghost predicate InOrder(s: State) {
    var w := s.watch;
    match s.stage
    case Holding(q, _) => q < |s.slots| && Watching(w, s.gone, None) && s.slots[q].entries == Line(w)
    case Deciding(q, _) => q < |s.slots| && Watching(w, s.gone, None) && s.slots[q].entries == Line(w)
    case Gathering(q, leader, followers, candidate) =>
      && q < |s.slots| && Watching(w, s.gone, Some(leader))
      && followers == Kept(Line(w)[..w.scanned], w.dropped)
      && Held(candidate) + s.slots[q].entries == Line(w)[w.scanned..]
    case Exchanging(q, leader, followers) =>
      && q < |s.slots| && Watching(w, s.gone, Some(leader))
      && followers == Kept(Line(w)[..w.scanned], w.dropped)
      && s.slots[q].entries == Line(w)[w.scanned..]
    case Requeueing(q, leader, followers) =>
      && q < |s.slots| && Watching(w, s.gone, Some(leader))
      && followers + s.slots[q].entries == Kept(Line(w)[..w.scanned], w.dropped) + Line(w)[w.scanned..]
    case _ => true
  }

  lemma InOrderByClient(c: Config, s: State, step: Step)
    requires InOrder(s) && Enabled(s, step) && IsClientStep(step)
    ensures InOrder(Apply(c, s, step))
  {
    hide PopScheduled, CanCoalesce, Kept, ValidPriority, Line;
    if step.PushBack? {
      hide *;
      InOrderByPush(c, s, step.i, step.item);
    }
  }

  /** A later arrival joins the line and the queue at the same end. */
  lemma InOrderByPush(c: Config, s: State, i: nat, job: Job)
    requires InOrder(s) && Enabled(s, PushBack(i, job))
    ensures InOrder(Apply(c, s, PushBack(i, job)))
  {
    hide PopScheduled, Kept, Watching, Line;
    if Watched(s.stage, i) {
      var w := s.watch;
      var n := w.scanned;
      WatchingGrows(w, job, s.gone, Leader(s.stage));
      var entries := s.slots[i].entries;
      match s.stage
      case Holding(_, _) =>
      case Deciding(_, _) =>
      case Gathering(_, _, _, candidate) =>
        GrowsBehind(Held(candidate), entries, job);
      case Exchanging(_, _, _) =>
      case Requeueing(_, _, followers) =>
        GrowsBehind(followers, entries, job);
        GrowsBehind(Kept(Line(w)[..n], w.dropped), Line(w)[n..], job);
    }
  }

  function Leader(stage: Stage): Option<Job> {
    match stage
    case Gathering(_, leader, _, _) => Some(leader)
    case Exchanging(_, leader, _) => Some(leader)
    case Requeueing(_, leader, _) => Some(leader)
    case _ => None
  }

  lemma GrowsBehind(front: seq<Job>, rest: seq<Job>, job: Job)
    ensures front + (rest + [job]) == front + rest + [job]
  {}

  lemma WatchingGrows(w: Watch, job: Job, gone: set<nat>, leader: Option<Job>)
    requires Watching(w, gone, leader)
    ensures var v := w.(arrivals := w.arrivals + [job]);
      && Watching(v, gone, leader) && Line(v) == Line(w) + [job]
      && w.scanned <= |Line(w)|
      && Line(v)[..w.scanned] == Line(w)[..w.scanned] && Line(v)[w.scanned..] == Line(w)[w.scanned..] + [job]
  {
    hide CanCoalesce;
    assert w.before + (w.arrivals + [job]) == (w.before + w.arrivals) + [job];
  }

  lemma InOrderByTaking(c: Config, s: State, step: Step)
    requires InOrder(s) && Enabled(s, step) && IsTakingStep(step)
    ensures InOrder(Apply(c, s, step))
  {
    hide PopScheduled, CanCoalesce, CanLead;
    if step.Pop? {
      var q := PopScheduled(s.slots, s.cursor).index.value;
      assert s.slots[q].entries[1..] + [] == s.slots[q].entries[1..];
    }
    if step.Decide? {
      var line := Line(s.watch);
      assert line[..0] == [] && line[0..] == line && [] + line == line;
    }
  }

  lemma InOrderByTakingCandidate(c: Config, s: State)
    requires InOrder(s) && Enabled(s, TakeCandidate)
    ensures InOrder(Apply(c, s, TakeCandidate))
  {
    hide PopScheduled, CanCoalesce, CanLead, Kept, Watching, Line, Held;
    TakeHead(s.slots[s.stage.queue].entries);
  }

  lemma TakeHead(entries: seq<Job>)
    ensures Held(None) + entries == entries
    ensures entries != [] ==> Held(Some(entries[0])) + entries[1..] == entries
  {}

  lemma InOrderByJudging(c: Config, s: State)
    requires InOrder(s) && Enabled(s, JudgeCandidate)
    ensures InOrder(Apply(c, s, JudgeCandidate))
  {
    hide InOrder, Apply;
    if CanCoalesce(s.stage.leader, s.stage.candidate.value) {
      InOrderByFollowing(c, s);
    } else {
      InOrderByRefusing(c, s);
    }
  }

  lemma InOrderByRefusing(c: Config, s: State)
    requires InOrder(s) && Enabled(s, JudgeCandidate) && !CanCoalesce(s.stage.leader, s.stage.candidate.value)
    ensures InOrder(Apply(c, s, JudgeCandidate))
  {
    hide PopScheduled, CanCoalesce, CanLead, Kept, Watching, Line;
  }

  lemma InOrderByFollowing(c: Config, s: State)
    requires InOrder(s) && Enabled(s, JudgeCandidate) && CanCoalesce(s.stage.leader, s.stage.candidate.value)
    ensures InOrder(Apply(c, s, JudgeCandidate))
  {
    hide PopScheduled, CanCoalesce, CanLead, Kept, Watching, Line, Held;
    var w, job, leader := s.watch, s.stage.candidate.value, s.stage.leader;
    WatchingBasics(w, s.gone, leader);
    Scanned(Line(w), w.scanned, w.dropped, job, s.slots[s.stage.queue].entries, s.stage.followers);
    WatchingMore(w, s.gone, leader, if job.id in s.gone then w.dropped + {w.scanned} else w.dropped);
  }

  /** One more entry scanned, as the line shows it: held as a follower, or dropped. */
  lemma Scanned(line: seq<Job>, n: nat, dropped: set<nat>, job: Job, entries: seq<Job>, followers: seq<Job>)
    requires n <= |line| && n !in dropped && Held(Some(job)) + entries == line[n..]
    requires followers == Kept(line[..n], dropped)
    ensures n < |line| && line[n] == job && Held(None) + entries == line[n + 1..]
    ensures followers + [job] == Kept(line[..n + 1], dropped) && followers == Kept(line[..n + 1], dropped + {n})
  {
    hide Kept;
    ScanOne(line, n, job, entries);
    KeptOneMore(line, n, dropped);
    assert [] + entries == entries;
  }

  lemma WatchingBasics(w: Watch, gone: set<nat>, leader: Job)
    requires Watching(w, gone, Some(leader))
    ensures w.scanned <= |Line(w)| && w.scanned !in w.dropped
  {}

  /** One more scanned position, dropped or not. */
  lemma WatchingMore(w: Watch, gone: set<nat>, leader: Job, dropped: set<nat>)
    requires Watching(w, gone, Some(leader)) && w.scanned < |Line(w)| && CanCoalesce(leader, Line(w)[w.scanned])
    requires dropped == w.dropped || (dropped == w.dropped + {w.scanned} && Line(w)[w.scanned].id in gone)
    ensures var v := w.(scanned := w.scanned + 1, dropped := dropped);
      Watching(v, gone, Some(leader)) && Line(v) == Line(w)
  {
    hide CanCoalesce;
  }

  lemma ScanOne(line: seq<Job>, n: nat, job: Job, entries: seq<Job>)
    requires n <= |line| && line[n..] == [job] + entries
    ensures n < |line| && line[n] == job && line[n + 1..] == entries
  {
    assert line[n..][0] == job;
    assert line[n..][1..] == line[n + 1..];
  }

  lemma KeptOneMore(line: seq<Job>, n: nat, dropped: set<nat>)
    requires n < |line| && n !in dropped
    ensures Kept(line[..n + 1], dropped) == Kept(line[..n], dropped) + [line[n]]
    ensures Kept(line[..n + 1], dropped + {n}) == Kept(line[..n], dropped)
  {
    assert line[..n + 1][..n] == line[..n];
    KeptIgnores(line[..n], dropped, n);
  }

  lemma {:induction false} KeptIgnores(jobs: seq<Job>, dropped: set<nat>, p: nat)
    requires p >= |jobs|
    ensures Kept(jobs, dropped + {p}) == Kept(jobs, dropped)
  {
    if jobs != [] {
      KeptIgnores(jobs[..|jobs| - 1], dropped, p);
    }
  }

  lemma InOrderByEnding(c: Config, s: State, step: Step)
    requires InOrder(s) && Enabled(s, step) && IsEndingStep(step)
    ensures InOrder(Apply(c, s, step))
  {
    hide PopScheduled, CanCoalesce, Kept;
    if step.ReturnFollower? && s.stage.followers != [] {
      var f := s.stage.followers;
      var entries := s.slots[s.stage.queue].entries;
      assert f[..|f| - 1] + ([f[|f| - 1]] + entries) == f + entries;
    }
  }

  // -------------------------------------------------------------- whole runs

  /** Capacities and priorities are as the configuration admits. */
  ghost predicate Configured(s: State) {
    ValidSlots(s.slots) && forall i :: 0 <= i < |s.slots| ==> s.slots[i].capacity <= MAXIMUM_QUEUE_CAPACITY
  }

  /** No step changes a capacity, and only one changes a priority. */
  ghost predicate Kin(s: State, t: State, step: Step) {
    && |t.slots| == |s.slots|
    && forall i :: 0 <= i < |s.slots| ==>
         && t.slots[i].capacity == s.slots[i].capacity
         && (t.slots[i].priority == s.slots[i].priority
             || (step.SetPriority? && t.slots[i].priority == step.priority && ValidPriority(step.priority)))
  }

  lemma KinByClient(c: Config, s: State, step: Step)
    requires Enabled(s, step) && IsClientStep(step)
    ensures Kin(s, Apply(c, s, step), step)
  {
    hide PopScheduled, CanLead, CanCoalesce, ValidPriority;
  }

  lemma KinByRunner(c: Config, s: State, step: Step)
    requires Enabled(s, step) && !IsClientStep(step)
    ensures Kin(s, Apply(c, s, step), step)
  {
    hide PopScheduled, CanLead, CanCoalesce, ValidPriority;
  }

  lemma SlotsKeep(c: Config, s: State, step: Step)
    requires Enabled(s, step)
    ensures Kin(s, Apply(c, s, step), step)
  {
    hide Enabled, Apply, Kin;
    if IsClientStep(step) { KinByClient(c, s, step); } else { KinByRunner(c, s, step); }
  }

  lemma ConfiguredStep(c: Config, s: State, step: Step)
    requires Configured(s) && Enabled(s, step)
    ensures Configured(Apply(c, s, step))
  {
    hide Enabled, Apply, ValidPriority;
    SlotsKeep(c, s, step);
  }

  ghost predicate Invariant(c: Config, s: State) {
    Staged(c, s) && Placed(s) && Configured(s) && Justified(c, s) && Conserved(s) && InOrder(s)
  }

  /** A fresh runner: empty queues, all places free, nothing accepted yet. */
  ghost predicate Initial(s: State) {
    && ValidCursor(s.cursor, s.slots)
    && s.stage.Idle? && !s.closed && s.settled == [] && s.accepted == multiset{}
    && Configured(s)
    && |s.pushes| == |s.slots|
    && forall i :: 0 <= i < |s.slots| ==>
         s.pushes[i] == Pushes(0, 0, 0) && s.slots[i].entries == [] && s.slots[i].queued == 0 && s.slots[i].permits == s.slots[i].capacity
  }

  lemma InitialInvariant(c: Config, s: State)
    requires Initial(s)
    ensures Invariant(c, s)
  {
    forall j: Job ensures Balanced(s, j) { NothingQueued(s.slots, j); }
  }

  lemma {:induction false} NothingQueued(slots: seq<Slot<Job>>, j: Job)
    requires forall i :: 0 <= i < |slots| ==> slots[i].entries == []
    ensures Queued(slots, j) == 0
  {
    if slots != [] {
      NothingQueued(slots[..|slots| - 1], j);
      TimesEmpty(j);
    }
  }

  lemma InvariantStep(c: Config, s: State, step: Step)
    requires Invariant(c, s) && Enabled(s, step)
    ensures Invariant(c, Apply(c, s, step))
  {
    hide Staged, Placed, Configured, Justified, Balanced, InOrder, Apply, Enabled;
    ConfiguredStep(c, s, step);
    JustifiedStep(c, s, step);
    if IsClientStep(step) {
      StagedByClient(c, s, step);
      PlacedByClient(c, s, step);
      InOrderByClient(c, s, step);
      forall j: Job ensures Balanced(Apply(c, s, step), j) { BalancedByClient(c, s, step, j); }
    } else if IsTakingStep(step) {
      StagedByTaking(c, s, step);
      PlacedByTaking(c, s, step);
      InOrderByTaking(c, s, step);
      forall j: Job ensures Balanced(Apply(c, s, step), j) { BalancedByTaking(c, s, step, j); }
    } else if IsGatheringStep(step) {
      StagedByGathering(c, s, step);
      PlacedByGathering(c, s, step);
      if step.TakeCandidate? {
        InOrderByTakingCandidate(c, s);
        forall j: Job ensures Balanced(Apply(c, s, step), j) { BalancedByTakingCandidate(c, s, j); }
      } else {
        InOrderByJudging(c, s);
        forall j: Job ensures Balanced(Apply(c, s, step), j) { BalancedByJudging(c, s, j); }
      }
    } else if IsEndingStep(step) {
      StagedByEnding(c, s, step);
      PlacedByEnding(c, s, step);
      InOrderByEnding(c, s, step);
      forall j: Job ensures Balanced(Apply(c, s, step), j) { BalancedByEnding(c, s, step, j); }
    } else {
      StagedByShutdown(c, s, step);
      PlacedByShutdown(c, s, step);
      InOrderByShutdown(c, s, step);
      forall j: Job ensures Balanced(Apply(c, s, step), j) { BalancedByShutdown(c, s, step, j); }
    }
  }

  lemma InOrderByShutdown(c: Config, s: State, step: Step)
    requires Enabled(s, step) && IsShutdownStep(step)
    ensures InOrder(Apply(c, s, step))
  {
    hide PopScheduled;
  }

  /** States reachable by some interleaving. */
  ghost predicate Reaches(c: Config, s: State, steps: seq<Step>, t: State)
    decreases |steps|
  {
    if steps == [] then s == t
    else Enabled(s, steps[0]) && Reaches(c, Apply(c, s, steps[0]), steps[1..], t)
  }

  lemma {:induction false} InvariantThroughout(c: Config, s: State, steps: seq<Step>, t: State)
    requires Invariant(c, s) && Reaches(c, s, steps, t)
    ensures Invariant(c, t)
    decreases |steps|
  {
    hide Invariant, Enabled, Apply;
    if steps != [] {
      InvariantStep(c, s, steps[0]);
      InvariantThroughout(c, Apply(c, s, steps[0]), steps[1..], t);
    }
  }

  /** Whatever the interleaving, every state of every run satisfies the invariant. */
  lemma ReachableInvariant(c: Config, s: State, steps: seq<Step>, t: State)
    requires Initial(s) && Reaches(c, s, steps, t)
    ensures Invariant(c, t)
  {
    hide Initial, Invariant, Reaches;
    InitialInvariant(c, s);
    InvariantThroughout(c, s, steps, t);
  }

  function JobsOf(settled: seq<Settlement>): seq<Job> {
    if settled == [] then [] else JobsOf(settled[..|settled| - 1]) + [settled[|settled| - 1].job]
  }

  function AllEntries(slots: seq<Slot<Job>>): seq<Job> {
    if slots == [] then [] else AllEntries(slots[..|slots| - 1]) + slots[|slots| - 1].entries
  }

  lemma {:induction false} CountSettled(settled: seq<Settlement>, j: Job)
    ensures multiset(JobsOf(settled))[j] == Outcomes(settled, j) && |JobsOf(settled)| == |settled|
  {
    if settled != [] {
      CountSettled(settled[..|settled| - 1], j);
    }
  }

  lemma {:induction false} CountQueued(slots: seq<Slot<Job>>, j: Job)
    ensures multiset(AllEntries(slots))[j] == Queued(slots, j)
  {
    if slots != [] {
      CountQueued(slots[..|slots| - 1], j);
    }
  }

  function Kind(settled: seq<Settlement>, p: Outcome -> bool): nat {
    if settled == [] then 0
    else Kind(settled[..|settled| - 1], p) + if p(settled[|settled| - 1].outcome) then 1 else 0
  }

  lemma {:induction false} ThreeKinds(settled: seq<Settlement>)
    ensures Kind(settled, (o: Outcome) => o.Completed?) + Kind(settled, (o: Outcome) => o.Failed?)
      + Kind(settled, (o: Outcome) => o.Cancelled?) == |settled|
  {
    if settled != [] {
      ThreeKinds(settled[..|settled| - 1]);
    }
  }

  /** The runner holds nothing. */
  predicate AtRest(stage: Stage) { stage.Idle? || stage.Stopped? }

  /**
    At every loop head of every run, and after shutdown: what was accepted is
    exactly what has an outcome together with what is still queued, so the
    counters add up; and every queue counts its entries that were counted.
   */
  lemma LoopHeadConservation(c: Config, s: State, steps: seq<Step>, t: State)
    requires Initial(s) && Reaches(c, s, steps, t) && AtRest(t.stage)
    ensures t.accepted == multiset(JobsOf(t.settled)) + multiset(AllEntries(t.slots))
    ensures |t.accepted| ==
      Kind(t.settled, (o: Outcome) => o.Completed?) + Kind(t.settled, (o: Outcome) => o.Failed?)
      + Kind(t.settled, (o: Outcome) => o.Cancelled?) + |AllEntries(t.slots)|
    ensures |t.pushes| == |t.slots|
    ensures forall i :: 0 <= i < |t.slots| ==> t.slots[i].queued == Shown(|t.slots[i].entries| - t.pushes[i].uncounted)
  {
    hide Initial, Reaches, Staged, Configured, Justified, InOrder, Conserved, Placed, Kind, JobsOf, AllEntries;
    ReachableInvariant(c, s, steps, t);
    Settled(t);
    ThreeKinds(t.settled);
    JobsCounted(t.settled);
    CountersShow(t);
  }

  lemma JobsCounted(settled: seq<Settlement>)
    ensures |JobsOf(settled)| == |settled|
  {
    var j: Job :| true;
    CountSettled(settled, j);
  }

  lemma CountersShow(t: State)
    requires Placed(t) && AtRest(t.stage)
    ensures |t.pushes| == |t.slots|
    ensures forall i :: 0 <= i < |t.slots| ==> t.slots[i].queued == Shown(|t.slots[i].entries| - t.pushes[i].uncounted)
  {
    hide Shown;
    forall i | 0 <= i < |t.slots| ensures t.slots[i].queued == Shown(|t.slots[i].entries| - t.pushes[i].uncounted) {
      assert PlacedAt(t, i);
    }
  }

  lemma Settled(t: State)
    requires Conserved(t) && AtRest(t.stage)
    ensures t.accepted == multiset(JobsOf(t.settled)) + multiset(AllEntries(t.slots))
  {
    forall j: Job
      ensures t.accepted[j] == (multiset(JobsOf(t.settled)) + multiset(AllEntries(t.slots)))[j]
    {
      assert Balanced(t, j);
      CountSettled(t.settled, j);
      CountQueued(t.slots, j);
    }
  }

  /** No push stands between its append and its count. */
  ghost predicate AllCounted(t: State) {
    forall i :: 0 <= i < |t.pushes| ==> t.pushes[i].uncounted == 0
  }

  /** The counter of strict queue `i` shows something. */
  ghost predicate Visible(t: State, i: nat)
    requires i < |t.slots| && i < |t.pushes|
  {
    t.slots[i].priority.Strict? && Shown(|t.slots[i].entries| - t.pushes[i].uncounted) > 0
  }

  /** Strict queue `i` holds a request and has the highest visible rank. */
  ghost predicate Leads(t: State, i: nat)
    requires i < |t.slots| && |t.pushes| == |t.slots|
  {
    && t.slots[i].priority.Strict? && t.slots[i].entries != []
    && (exists j :: 0 <= j < |t.slots| && Visible(t, j) && t.slots[j].priority == t.slots[i].priority)
    && forall j :: 0 <= j < |t.slots| && Visible(t, j) ==> t.slots[j].priority.rank <= t.slots[i].priority.rank
  }

  /**
    Selection at every loop head of every run, exactly.  A request is taken if
    and only if some weighted queue holds one or some strict queue that does has
    the highest rank among those whose counter shows something.  It is the head
    of its queue, and a strict one if a strict queue leads.  Once every appended
    entry is counted, that is: when some queue holds one, and no ready strict
    queue outranks the chosen one.
   */
  lemma LoopHeadSelection(c: Config, s: State, steps: seq<Step>, t: State)
    requires Initial(s) && Reaches(c, s, steps, t) && t.stage.Idle?
    ensures |t.pushes| == |t.slots|
    ensures Enabled(t, Pop) <==> exists i :: 0 <= i < |t.slots| && (WeightedReady(t.slots[i]) || Leads(t, i))
    ensures AllCounted(t) ==>
      (Enabled(t, Pop) <==> exists i :: 0 <= i < |t.slots| && t.slots[i].entries != [])
    ensures Enabled(t, Pop) ==>
      var u := Apply(c, t, Pop);
      && u.stage.Holding? && u.stage.queue < |t.slots|
      && var chosen := t.slots[u.stage.queue];
      && chosen.entries == [u.stage.job] + u.slots[u.stage.queue].entries
      && (if exists i :: 0 <= i < |t.slots| && Leads(t, i) then Leads(t, u.stage.queue) else WeightedReady(chosen))
      && (AllCounted(t) ==>
           forall j :: 0 <= j < |t.slots| && t.slots[j].priority.Strict? && t.slots[j].entries != [] ==>
             chosen.priority.Strict? && t.slots[j].priority.rank <= chosen.priority.rank)
  {
    hide Initial, Reaches, Staged, Justified, InOrder, Conserved, Placed, Configured, PopScheduled, Leads, Shown;
    ReachableInvariant(c, s, steps, t);
    CountersShow(t);
    CursorValid(c, t);
    Fairness.SelectionExact(t.slots, t.cursor);
    forall i | 0 <= i < |t.slots| { LeadsIsReady(t, i); }
    if AllCounted(t) {
      CountedIsTidy(t);
      Fairness.SelectionWhenTidy(t.slots, t.cursor);
    }
  }

  lemma CursorValid(c: Config, t: State)
    requires Staged(c, t)
    ensures ValidCursor(t.cursor, t.slots)
  {}

  /** Leading is being ready at the rank the strict search looks for. */
  lemma LeadsIsReady(t: State, i: nat)
    requires i < |t.slots| && |t.pushes| == |t.slots|
    requires forall k :: 0 <= k < |t.slots| ==> t.slots[k].queued == Shown(|t.slots[k].entries| - t.pushes[k].uncounted)
    ensures Leads(t, i) <==> TopRank(t.slots).Some? && StrictReady(t.slots[i], TopRank(t.slots).value)
  {
    hide Shown;
    assert forall k :: 0 <= k < |t.slots| ==> (Visible(t, k) <==> t.slots[k].priority.Strict? && t.slots[k].queued > 0);
  }

  lemma CountedIsTidy(t: State)
    requires Placed(t) && Configured(t) && AllCounted(t) && t.stage.Idle?
    ensures Fairness.Tidy(t.slots)
  {
    forall i | 0 <= i < |t.slots| ensures t.slots[i].queued == |t.slots[i].entries| {
      assert PlacedAt(t, i) && t.pushes[i].uncounted == 0;
      ShownSmall(|t.slots[i].entries|);
    }
  }

  lemma ShownSmall(n: nat)
    requires n <= MAXIMUM_QUEUE_CAPACITY
    ensures Shown(n) == n
  {}

  /** The condition matters: an entry appended to a strict queue and not yet counted is invisible to the runner. */
  lemma UncountedEntryIsHidden(c: Config, job: Job) returns (s: State, steps: seq<Step>, t: State)
    ensures Initial(s) && Reaches(c, s, steps, t) && t.stage.Idle?
    ensures |t.slots| == 1 && t.slots[0].entries == [job] && !AllCounted(t) && !Enabled(t, Pop)
  {
    hide Reaches, PopScheduled;
    var slot := Slot(0, 1, Strict(0), 1, 0, []);
    s := State([slot], Cursor(0, 0, 0), [Pushes(0, 0, 0)], false, {}, multiset{}, [], Idle, Watch([], [], 0, {}));
    var s1 := s.(slots := [slot.(permits := 0)], pushes := [Pushes(1, 0, 0)]);
    var s2 := s1.(pushes := [Pushes(0, 1, 0)]);
    t := s2.(slots := [slot.(permits := 0, entries := [job])], pushes := [Pushes(0, 0, 1)], accepted := multiset{job});
    assert [] + [job] == [job];
    OneStep(c, s, Reserve(0), s1);
    OneStep(c, s1, CheckOpen(0), s2);
    OneStep(c, s2, PushBack(0, job), t);
    ReachesOn(c, s, [Reserve(0)], s1, [CheckOpen(0)], s2);
    ReachesOn(c, s, [Reserve(0)] + [CheckOpen(0)], s2, [PushBack(0, job)], t);
    steps := [Reserve(0)] + [CheckOpen(0)] + [PushBack(0, job)];
    Fairness.SelectionExact(t.slots, t.cursor);
    assert t.pushes[0].uncounted == 1;
  }

  /** A push up to its append. */
  function AfterPush(s: State, i: nat, job: Job): State
    requires i < |s.slots| && i < |s.pushes| && s.slots[i].permits > 0
  {
    s.(slots := s.slots[i := Appended(Reserved(s.slots[i]), job)],
       pushes := s.pushes[i := s.pushes[i].(uncounted := s.pushes[i].uncounted + 1)],
       accepted := s.accepted + multiset{job})
  }

  lemma PushRun(c: Config, s: State, i: nat, job: Job) returns (steps: seq<Step>)
    requires i < |s.slots| && i < |s.pushes| && s.slots[i].permits > 0 && !s.closed && s.stage.Idle?
    ensures Reaches(c, s, steps, AfterPush(s, i, job))
  {
    hide Reaches, PopScheduled;
    var p := s.pushes[i];
    var s1 := s.(slots := s.slots[i := Reserved(s.slots[i])], pushes := s.pushes[i := p.(reserved := p.reserved + 1)]);
    var s2 := s1.(pushes := s.pushes[i := p.(checked := p.checked + 1)]);
    OneStep(c, s, Reserve(i), s1);
    OneStep(c, s1, CheckOpen(i), s2);
    OneStep(c, s2, PushBack(i, job), AfterPush(s, i, job));
    ReachesOn(c, s, [Reserve(i)], s1, [CheckOpen(i)], s2);
    ReachesOn(c, s, [Reserve(i)] + [CheckOpen(i)], s2, [PushBack(i, job)], AfterPush(s, i, job));
    steps := [Reserve(i)] + [CheckOpen(i)] + [PushBack(i, job)];
  }

  /**
    A counted request can be hidden too, with no push under way on its queue.
    A leader of a higher rank takes an entry whose push has not counted it yet
    as its follower.  Finishing that follower wraps the counter, which then shows
    a request of the higher rank where there is none.
   */
  lemma CountedEntryIsHidden(lower: Job) returns (c: Config, s: State, steps: seq<Step>, t: State)
    ensures Initial(s) && Reaches(c, s, steps, t) && t.stage.Idle? && |t.slots| == 2 == |t.pushes|
    ensures t.slots[0].priority == Strict(2) && t.slots[0].entries == [] && t.slots[0].queued == U64_MAX
    ensures t.slots[1].priority == Strict(1) && t.slots[1].entries == [lower] && t.slots[1].queued == 1
    ensures t.pushes[1] == Pushes(0, 0, 0) && !Enabled(t, Pop)
  {
    hide Reaches, PopScheduled, TopRank, Initial, CanLead, CanCoalesce;
    var leader, follower;
    c, leader, follower := Pair();
    s := State([Slot(0, 2, Strict(2), 2, 0, []), Slot(1, 1, Strict(1), 1, 0, [])], Cursor(0, 0, 0),
               [Pushes(0, 0, 0), Pushes(0, 0, 0)], false, {}, multiset{}, [], Idle, Watch([], [], 0, {}));
    FreshStart(s);
    var before, full := Filled(c, s, leader, follower, lower);
    var serving;
    serving, t := ServedTogether(c, full, leader, follower);
    ReachesOn(c, s, before, full, serving, t);
    steps := before + serving;
    HiddenByCounter(t);
  }

  lemma FreshStart(s: State)
    requires s.slots == [Slot(0, 2, Strict(2), 2, 0, []), Slot(1, 1, Strict(1), 1, 0, [])]
    requires s.cursor == Cursor(0, 0, 0) && s.pushes == [Pushes(0, 0, 0), Pushes(0, 0, 0)]
    requires !s.closed && s.settled == [] && s.accepted == multiset{} && s.stage.Idle?
    ensures Initial(s)
  {}

  /** Two equal read-only requests, and a runner that coalesces. */
  lemma Pair() returns (c: Config, leader: Job, follower: Job)
    ensures CanLead(c, leader) && CanCoalesce(leader, follower) && c.maximumCoalesced > 0
  {
    var request := Request.Request(W.Polling(1, W.Primary), 0, [], 5, [], W.Fsk, Some(ReadOnly));
    var policy := RetryPolicy(0, 0, 0, 0, 0, 0);
    c := Config(1, _ => None);
    leader, follower := Job(1, request, [], policy), Job(2, request, [], policy);
  }

  /** The leader is counted, its follower is not, and the lower rank has one counted request. */
  lemma Filled(c: Config, s: State, leader: Job, follower: Job, lower: Job) returns (steps: seq<Step>, t: State)
    requires s.slots == [Slot(0, 2, Strict(2), 2, 0, []), Slot(1, 1, Strict(1), 1, 0, [])]
    requires s.pushes == [Pushes(0, 0, 0), Pushes(0, 0, 0)] && !s.closed && s.stage.Idle?
    ensures Reaches(c, s, steps, t)
    ensures t == s.(slots := [Slot(0, 2, Strict(2), 0, 1, [leader, follower]), Slot(1, 1, Strict(1), 0, 1, [lower])],
                    pushes := [Pushes(0, 0, 1), Pushes(0, 0, 0)], accepted := t.accepted)
  {
    hide Reaches, PopScheduled;
    var a := PushRun(c, s, 0, leader);
    var s1 := AfterPush(s, 0, leader);
    var s2 := Apply(c, s1, CountPush(0));
    OneStep(c, s1, CountPush(0), s2);
    ReachesOn(c, s, a, s1, [CountPush(0)], s2);
    var b := PushRun(c, s2, 0, follower);
    var s3 := AfterPush(s2, 0, follower);
    ReachesOn(c, s, a + [CountPush(0)], s2, b, s3);
    var d := PushRun(c, s3, 1, lower);
    var s4 := AfterPush(s3, 1, lower);
    ReachesOn(c, s, a + [CountPush(0)] + b, s3, d, s4);
    t := Apply(c, s4, CountPush(1));
    OneStep(c, s4, CountPush(1), t);
    ReachesOn(c, s, a + [CountPush(0)] + b + d, s4, [CountPush(1)], t);
    steps := a + [CountPush(0)] + b + d + [CountPush(1)];
    assert [] + [leader] == [leader] && [leader] + [follower] == [leader, follower] && [] + [lower] == [lower];
    assert t.slots[0] == Slot(0, 2, Strict(2), 0, 1, [leader, follower]);
    assert t.slots[1] == Slot(1, 1, Strict(1), 0, 1, [lower]);
    assert t.slots == [Slot(0, 2, Strict(2), 0, 1, [leader, follower]), Slot(1, 1, Strict(1), 0, 1, [lower])];
    assert t.pushes == [Pushes(0, 0, 1), Pushes(0, 0, 0)];
  }

  /** Leader and follower are served by one exchange. */
  lemma ServedTogether(c: Config, s: State, leader: Job, follower: Job) returns (steps: seq<Step>, t: State)
    requires s.stage.Idle? && |s.slots| == 2 && ValidCursor(s.cursor, s.slots) && s.gone == {}
    requires s.slots[0] == Slot(0, 2, Strict(2), 0, 1, [leader, follower]) && s.slots[1].priority == Strict(1)
    requires CanLead(c, leader) && CanCoalesce(leader, follower) && c.maximumCoalesced > 0
    ensures Reaches(c, s, steps, t) && t.stage.Idle? && t.pushes == s.pushes && ValidCursor(t.cursor, t.slots)
    ensures t.slots == [Slot(0, 2, Strict(2), 2, U64_MAX, []), s.slots[1]]
  {
    hide Reaches, PopScheduled, CanLead, CanCoalesce;
    FirstIsPicked(s);
    var s1 := Apply(c, s, Pop);
    OneStep(c, s, Pop, s1);
    assert s1.slots == [Slot(0, 2, Strict(2), 0, 1, [follower]), s.slots[1]] && s1.stage == Holding(0, leader);
    var s2 := Apply(c, s1, FinishPopped);
    OneStep(c, s1, FinishPopped, s2);
    ReachesOn(c, s, [Pop], s1, [FinishPopped], s2);
    var s3 := Apply(c, s2, Step.Decide(false));
    OneStep(c, s2, Step.Decide(false), s3);
    ReachesOn(c, s, [Pop] + [FinishPopped], s2, [Step.Decide(false)], s3);
    assert s3.slots == [Slot(0, 2, Strict(2), 1, 0, [follower]), s.slots[1]] && s3.stage == Gathering(0, leader, [], None);
    var rest;
    rest, t := FollowerServed(c, s3, leader, follower);
    ReachesOn(c, s, [Pop] + [FinishPopped] + [Step.Decide(false)], s3, rest, t);
    steps := [Pop] + [FinishPopped] + [Step.Decide(false)] + rest;
  }

  lemma FirstIsPicked(s: State)
    requires s.stage.Idle? && |s.slots| == 2 && ValidCursor(s.cursor, s.slots)
    requires s.slots[0].priority == Strict(2) && s.slots[0].queued > 0 && s.slots[0].entries != [] && s.slots[1].priority == Strict(1)
    ensures PopScheduled(s.slots, s.cursor).index == Some(0)
  {
    hide PopScheduled;
    Fairness.SelectionExact(s.slots, s.cursor);
    assert TopRank(s.slots) == Some(2);
    assert StrictReady(s.slots[0], 2);
  }

  lemma FollowerServed(c: Config, s: State, leader: Job, follower: Job) returns (steps: seq<Step>, t: State)
    requires s.stage == Gathering(0, leader, [], None) && |s.slots| == 2 && s.gone == {}
    requires s.slots[0] == Slot(0, 2, Strict(2), 1, 0, [follower])
    requires CanCoalesce(leader, follower) && c.maximumCoalesced > 0
    ensures Reaches(c, s, steps, t) && t.stage.Idle? && t.pushes == s.pushes && t.cursor == s.cursor
    ensures t.slots == [Slot(0, 2, Strict(2), 2, U64_MAX, []), s.slots[1]]
  {
    hide Reaches, CanCoalesce, Apply;
    var gathering, u := FollowerGathered(c, s, leader, follower);
    var answering;
    answering, t := FollowerAnswered(c, u, leader, follower);
    ReachesOn(c, s, gathering, u, answering, t);
    steps := gathering + answering;
  }

  lemma FollowerGathered(c: Config, s: State, leader: Job, follower: Job) returns (steps: seq<Step>, t: State)
    requires s.stage == Gathering(0, leader, [], None) && |s.slots| == 2 && s.gone == {}
    requires s.slots[0] == Slot(0, 2, Strict(2), 1, 0, [follower])
    requires CanCoalesce(leader, follower) && c.maximumCoalesced > 0
    ensures Reaches(c, s, steps, t) && t.stage == Exchanging(0, leader, [follower])
    ensures t.pushes == s.pushes && t.cursor == s.cursor && t.gone == s.gone
    ensures t.slots == [Slot(0, 2, Strict(2), 1, 0, []), s.slots[1]]
  {
    hide Reaches, PopScheduled, CanCoalesce;
    var s1 := s.(slots := [Slot(0, 2, Strict(2), 1, 0, []), s.slots[1]], stage := Gathering(0, leader, [], Some(follower)));
    assert [follower][1..] == [] && [] + [follower] == [follower];
    assert s.slots[0 := s1.slots[0]] == s1.slots;
    OneStep(c, s, TakeCandidate, s1);
    var s2 := s1.(stage := Gathering(0, leader, [follower], None), watch := s1.watch.(scanned := s1.watch.scanned + 1));
    OneStep(c, s1, JudgeCandidate, s2);
    ReachesOn(c, s, [TakeCandidate], s1, [JudgeCandidate], s2);
    t := s2.(stage := Exchanging(0, leader, [follower]));
    OneStep(c, s2, TakeCandidate, t);
    ReachesOn(c, s, [TakeCandidate] + [JudgeCandidate], s2, [TakeCandidate], t);
    steps := [TakeCandidate] + [JudgeCandidate] + [TakeCandidate];
  }

  lemma FollowerAnswered(c: Config, s: State, leader: Job, follower: Job) returns (steps: seq<Step>, t: State)
    requires s.stage == Exchanging(0, leader, [follower]) && |s.slots| == 2 && s.gone == {}
    requires s.slots[0] == Slot(0, 2, Strict(2), 1, 0, [])
    ensures Reaches(c, s, steps, t) && t.stage.Idle? && t.pushes == s.pushes && t.cursor == s.cursor
    ensures t.slots == [Slot(0, 2, Strict(2), 2, U64_MAX, []), s.slots[1]]
  {
    hide Reaches, PopScheduled;
    var s1 := Settle(s, leader, Completed(leader)).(stage := Completing(0, leader, [follower]));
    OneStep(c, s, EndExchange(true), s1);
    var s2 := Settle(s1, follower, Completed(leader)).(
      slots := [Slot(0, 2, Strict(2), 2, U64_MAX, []), s.slots[1]], stage := Completing(0, leader, []));
    assert [follower][1..] == [] && s.slots[0 := s2.slots[0]] == s2.slots;
    OneStep(c, s1, AnswerFollower(false), s2);
    ReachesOn(c, s, [EndExchange(true)], s1, [AnswerFollower(false)], s2);
    t := s2.(stage := Idle);
    OneStep(c, s2, AnswerFollower(false), t);
    ReachesOn(c, s, [EndExchange(true)] + [AnswerFollower(false)], s2, [AnswerFollower(false)], t);
    steps := [EndExchange(true)] + [AnswerFollower(false)] + [AnswerFollower(false)];
  }

  lemma HiddenByCounter(t: State)
    requires t.stage.Idle? && |t.slots| == 2 && ValidCursor(t.cursor, t.slots)
    requires t.slots[0].priority == Strict(2) && t.slots[0].queued > 0 && t.slots[0].entries == []
    requires t.slots[1].priority == Strict(1)
    ensures !Enabled(t, Pop)
  {
    hide PopScheduled;
    Fairness.SelectionExact(t.slots, t.cursor);
    assert TopRank(t.slots) == Some(2);
  }

  lemma OneStep(c: Config, s: State, step: Step, t: State)
    requires Enabled(s, step) && Apply(c, s, step) == t
    ensures Reaches(c, s, [step], t)
  {
    hide Enabled, Apply;
    assert [step][1..] == [];
    assert Reaches(c, t, [], t);
  }

  /** Entries in a queue and popped entries that still belong to it never exceed its capacity. */
  lemma CapacityRespected(c: Config, s: State, steps: seq<Step>, t: State, i: nat)
    requires Initial(s) && Reaches(c, s, steps, t) && i < |t.slots|
    ensures |t.slots[i].entries| + HeldIn(t.stage, i) <= t.slots[i].capacity
  {
    hide Initial, Reaches, Staged, Configured, Justified, Conserved, InOrder, Shown, HeldIn;
    ReachableInvariant(c, s, steps, t);
    assert PlacedAt(t, i);
  }

  /** A reply is shared only with identical requests, by a read-only leader without prefix. */
  lemma SharedOnlyWithEquals(c: Config, s: State, steps: seq<Step>, t: State, x: Settlement)
    requires Initial(s) && Reaches(c, s, steps, t) && x in t.settled && x.outcome.Completed?
    ensures var leader := x.outcome.leader;
      leader != x.job ==>
        && ResolvedSafety(leader.request, c.catalog) == ReadOnly && leader.transmitPrefix == [] == x.job.transmitPrefix
        && x.job.request == leader.request && x.job.policy == leader.policy
  {
    ReachableInvariant(c, s, steps, t);
  }

  /**
    Coalescing is invisible to order.  When a failed leader's followers have all
    been returned, its queue is what it held when the leader was popped, in the
    same order, without identical requests whose waiter is gone, followed by the
    later arrivals.
   */
  lemma FailureRestoresTheQueue(c: Config, s: State, steps: seq<Step>, t: State)
    requires Initial(s) && Reaches(c, s, steps, t) && t.stage.Requeueing? && t.stage.followers == []
    ensures var w := t.watch;
      && t.stage.queue < |t.slots| && w.scanned <= |Line(w)|
      && t.slots[t.stage.queue].entries == Kept(Line(w)[..w.scanned], w.dropped) + Line(w)[w.scanned..]
      && forall p :: p in w.dropped ==>
           p < w.scanned && Line(w)[p].id in t.gone && CanCoalesce(t.stage.leader, Line(w)[p])
  {
    ReachableInvariant(c, s, steps, t);
    var q := t.stage.queue;
    assert [] + t.slots[q].entries == t.slots[q].entries;
  }

  /** The runner always has a step of its own until it has stopped. */
  lemma RunnerNeverStuck(c: Config, s: State, steps: seq<Step>, t: State)
    requires Initial(s) && Reaches(c, s, steps, t) && !t.stage.Stopped?
    ensures match t.stage
      case Idle => Enabled(t, Step.Stop)
      case Holding(_, _) => Enabled(t, FinishPopped)
      case Deciding(_, _) => Enabled(t, Step.Decide(false))
      case Gathering(_, _, _, candidate) => Enabled(t, if candidate.None? then TakeCandidate else JudgeCandidate)
      case Exchanging(_, _, _) => Enabled(t, EndExchange(false))
      case Completing(_, _, _) => Enabled(t, AnswerFollower(false))
      case Requeueing(_, _, _) => Enabled(t, ReturnFollower)
      case Draining(_, _) => Enabled(t, Drain)
  {
    hide Initial, Reaches, Placed, Configured, Justified, InOrder, Conserved, Grouped, CanLead, PopScheduled, ValidPriority;
    ReachableInvariant(c, s, steps, t);
  }

  lemma {:induction false} ReachesOn(c: Config, s: State, a: seq<Step>, t: State, b: seq<Step>, u: State)
    requires Reaches(c, s, a, t) && Reaches(c, t, b, u)
    ensures Reaches(c, s, a + b, u)
    decreases |a|
  {
    hide Enabled, Apply;
    if a == [] {
      assert a + b == b;
    } else {
      ReachesOn(c, Apply(c, s, a[0]), a[1..], t, b, u);
      assert (a + b)[1..] == a[1..] + b;
    }
  }
}
