/**
  The WirelessHART network manager (src/mesh/manager.rs): admission keys,
  replay windows, short addresses, graph and schedule, and what holds of them
  over every run of allow, revoke and join.
 */
module Management {
  import opened Basics
  import opened Topology
  import opened Scheduling
  import opened Security

  type NetworkId = n: nat | n <= 0xffff

  type Key = seq<bv8>

  datatype JoinRequest = JoinRequest(device: DeviceId, network: NetworkId, securityCounter: Counter)

  datatype JoinDecision = Accepted(nickname: nat) | NotAllowed | WrongNetwork | AuthenticationFailed

  datatype ManagerError = SecurityFault(error: SecurityError) | AddressSpace

  type JoinOutcome = Result<JoinDecision, ManagerError>

  datatype Manager = Manager(
    network: NetworkId,
    graph: Graph,
    cells: seq<Cell>,
    superframeSize: nat,
    allowlist: set<DeviceId>,
    joinKeys: map<DeviceId, Key>,
    replay: map<DeviceId, Window>,
    nextNickname: nat
  )

  /** Forgetting a device's session: replay window, node, links and cells. */
  function Forgotten(m: Manager, d: DeviceId): Manager {
    m.(replay := m.replay - {d}, graph := Removed(m.graph, d), cells := Without(m.cells, d))
  }

  function Allowed(m: Manager, d: DeviceId, key: Key): Manager {
    var n := m.(allowlist := m.allowlist + {d}, joinKeys := m.joinKeys[d := key]);
    if d in m.joinKeys then Forgotten(n, d) else n
  }

  function Revoked(m: Manager, d: DeviceId): Manager {
    Forgotten(m.(allowlist := m.allowlist - {d}, joinKeys := m.joinKeys - {d}), d)
  }

  function WindowOf(replay: map<DeviceId, Window>, d: DeviceId): Window {
    if d in replay then replay[d] else FRESH
  }

  /** The next short address; zero once the 16-bit space is used up. */
  function NextNickname(n: nat): nat { if n >= 0xffff then 0 else n + 1 }

  function Joined(m: Manager, r: JoinRequest): (JoinOutcome, Manager) {
    if r.network != m.network then (Ok(WrongNetwork), m)
    else if r.device !in m.allowlist || r.device !in m.joinKeys then (Ok(NotAllowed), m)
    else
      var (error, window) := Accept(WindowOf(m.replay, r.device), r.securityCounter);
      var n := m.(replay := m.replay[r.device := window]);
      if r.device in m.graph.nodes && m.graph.nodes[r.device].active then
        if error.Some? then (Err(SecurityFault(error.value)), n)
        else (Ok(Accepted(m.graph.nodes[r.device].nickname)), n)
      else if m.nextNickname == 0 then (Err(AddressSpace), m)
      else if error.Some? then (Err(SecurityFault(error.value)), n)
      else
        (Ok(Accepted(m.nextNickname)),
         n.(nextNickname := NextNickname(m.nextNickname),
            graph := Upserted(m.graph, NodeState(r.device, m.nextNickname, true))))
  }

  function JoinAuthenticated(m: Manager, r: JoinRequest, authentic: bool): (JoinOutcome, Manager) {
    if r.network != m.network then (Ok(WrongNetwork), m)
    else if r.device !in m.joinKeys || r.device !in m.allowlist then (Ok(NotAllowed), m)
    else if !authentic then (Ok(AuthenticationFailed), m)
    else Joined(m, r)
  }

  // --------------------------------------------------------------------- runs

  datatype Operation =
    | Allow(device: DeviceId, key: Key)
    | Revoke(device: DeviceId)
    | Join(request: JoinRequest, authentic: bool)
    // edits through the borrowed graph and schedule
    | ReportLink(left: DeviceId, right: DeviceId, health: LinkHealth)
    | PlaceCell(cell: Cell, at: nat)
    | ClearCells(device: DeviceId)

  datatype Grant = Grant(device: DeviceId, nickname: nat)

  /** What an observer remembers: every address granted, and per device the counters accepted under its current key. */
  datatype Log = Log(grants: seq<Grant>, accepted: map<DeviceId, set<Counter>>)

  function AcceptedBy(log: Log, d: DeviceId): set<Counter> {
    if d in log.accepted then log.accepted[d] else {}
  }

  /** A cell is placed where the binary search puts it, unless something stands in the way. */
  ghost function Placed(m: Manager, cell: Cell, at: nat): Manager {
    if Objection(m.cells, m.superframeSize, cell).None? && Belongs(m.cells, at, Scheduling.Key(cell))
    then m.(cells := Inserted(m.cells, at, cell))
    else m
  }

  ghost function Performed(m: Manager, op: Operation): Manager {
    match op
    case Allow(device, key) => Allowed(m, device, key)
    case Revoke(device) => Revoked(m, device)
    case Join(request, authentic) => JoinAuthenticated(m, request, authentic).1
    case ReportLink(left, right, health) => m.(graph := Reported(m.graph, left, right, health))
    case PlaceCell(cell, at) => Placed(m, cell, at)
    case ClearCells(device) => m.(cells := Without(m.cells, device))
  }

  function Logged(m: Manager, log: Log, op: Operation): Log {
    match op
    case Allow(device, _) => if device in m.joinKeys then log.(accepted := log.accepted - {device}) else log
    case Revoke(device) => log.(accepted := log.accepted - {device})
    case Join(request, authentic) =>
      var outcome := JoinAuthenticated(m, request, authentic).0;
      if outcome.Ok? && outcome.value.Accepted? then
        Log(log.grants + [Grant(request.device, outcome.value.nickname)],
            log.accepted[request.device := AcceptedBy(log, request.device) + {request.securityCounter}])
      else log
    case _ => log
  }

  ghost predicate Initial(m: Manager) {
    && m.graph == Graph(map[], map[], map[]) && m.cells == [] && m.superframeSize > 0
    && m.allowlist == {} && m.joinKeys == map[] && m.replay == map[] && m.nextNickname == 1
  }

  ghost predicate ReachedBy(start: Manager, ops: seq<Operation>, m: Manager, log: Log)
    decreases |ops|
  {
    if ops == [] then m == start && log == Log([], map[])
    else
      var n := |ops| - 1;
      exists before, earlier ::
        ReachedBy(start, ops[..n], before, earlier)
        && m == Performed(before, ops[n]) && log == Logged(before, earlier, ops[n])
  }

  // --------------------------------------------------------------- invariants

  ghost predicate Structured(m: Manager) {
    && Coherent(m.graph) && Orderly(m.cells, m.superframeSize)
    && m.allowlist == m.joinKeys.Keys
    && m.graph.nodes.Keys <= m.joinKeys.Keys && m.replay.Keys <= m.joinKeys.Keys
  }

  /** Every granted address belongs to one device, and fresh ones are still ahead. */
  ghost predicate Addressed(m: Manager, log: Log) {
    && m.nextNickname <= 0xffff
    && (forall g :: g in log.grants ==> 1 <= g.nickname <= 0xffff && (m.nextNickname != 0 ==> g.nickname < m.nextNickname))
    && (forall g, h :: g in log.grants && h in log.grants && g.nickname == h.nickname ==> g.device == h.device)
    && (forall d :: d in m.graph.nodes ==> m.graph.nodes[d].active && Grant(d, m.graph.nodes[d].nickname) in log.grants)
  }

  /** Each replay window stands for the counters accepted under the current key. */
  ghost predicate Guarded(m: Manager, log: Log) {
    forall d: DeviceId :: Represents(WindowOf(m.replay, d), AcceptedBy(log, d))
  }

  lemma StructuredByJoin(m: Manager, op: Operation)
    requires Structured(m) && op.Join?
    ensures Structured(Performed(m, op))
  {
    hide Coherent, Orderly, Accept, Represents;
    UpsertedCoherent(m.graph, NodeState(op.request.device, m.nextNickname, true));
  }

  lemma StructuredStep(m: Manager, op: Operation)
    requires Structured(m)
    ensures Structured(Performed(m, op))
  {
    hide Coherent, Orderly, JoinAuthenticated, Without, Objection, Belongs, Inserted;
    match op
    case Allow(d, _) =>
      RemovedCoherent(m.graph, d);
      RemovalKeepsOrder(m.cells, m.superframeSize, d);
    case Revoke(d) =>
      RemovedCoherent(m.graph, d);
      RemovalKeepsOrder(m.cells, m.superframeSize, d);
    case Join(_, _) => StructuredByJoin(m, op);
    case ReportLink(left, right, health) =>
      if Reported(m.graph, left, right, health) != m.graph { LinkedCoherent(m.graph, left, right, health); }
    case PlaceCell(cell, at) =>
      if Placed(m, cell, at) != m { InsertionKeepsOrder(m.cells, m.superframeSize, at, cell); }
    case ClearCells(d) =>
      RemovalKeepsOrder(m.cells, m.superframeSize, d);
  }

  lemma AddressedByJoin(m: Manager, log: Log, op: Operation)
    requires Addressed(m, log) && op.Join?
    ensures Addressed(Performed(m, op), Logged(m, log, op))
  {
    hide Accept;
  }

  lemma AddressedByOther(m: Manager, log: Log, op: Operation)
    requires Addressed(m, log) && !op.Join?
    ensures Addressed(Performed(m, op), Logged(m, log, op))
  {
    hide Without, Objection, Belongs, Inserted;
  }

  lemma AddressedStep(m: Manager, log: Log, op: Operation)
    requires Addressed(m, log)
    ensures Addressed(Performed(m, op), Logged(m, log, op))
  {
    hide Addressed, Performed, Logged;
    if op.Join? { AddressedByJoin(m, log, op); } else { AddressedByOther(m, log, op); }
  }

  lemma GuardedStep(m: Manager, log: Log, op: Operation)
    requires Guarded(m, log)
    requires forall d :: d in m.replay ==> d in m.joinKeys
    ensures Guarded(Performed(m, op), Logged(m, log, op))
  {
    hide Represents, Accept, Removed, Without, Upserted;
    var after, next := Performed(m, op), Logged(m, log, op);
    forall d: DeviceId ensures Represents(WindowOf(after.replay, d), AcceptedBy(next, d)) {
      assert Represents(WindowOf(m.replay, d), AcceptedBy(log, d));
      FreshRepresents();
      if op.Join? {
        var r := op.request;
        AcceptRefines(WindowOf(m.replay, r.device), AcceptedBy(log, r.device), r.securityCounter);
      }
    }
  }

  /** All three hold in every state of every run. */
  lemma {:induction false} RunInvariant(start: Manager, ops: seq<Operation>, m: Manager, log: Log)
    requires Initial(start) && ReachedBy(start, ops, m, log)
    ensures Structured(m) && Addressed(m, log) && Guarded(m, log)
    decreases |ops|
  {
    hide Structured, Addressed, Guarded, Performed, Logged, Initial;
    if ops == [] {
      StartInvariant(start);
    } else {
      var n := |ops| - 1;
      var before, earlier :| ReachedBy(start, ops[..n], before, earlier)
        && m == Performed(before, ops[n]) && log == Logged(before, earlier, ops[n]);
      RunInvariant(start, ops[..n], before, earlier);
      StructuredStep(before, ops[n]);
      AddressedStep(before, earlier, ops[n]);
      KeyedWindows(before);
      GuardedStep(before, earlier, ops[n]);
    }
  }

  lemma KeyedWindows(m: Manager)
    requires Structured(m)
    ensures forall d :: d in m.replay ==> d in m.joinKeys
  {}

  lemma StartInvariant(m: Manager)
    requires Initial(m)
    ensures Structured(m) && Addressed(m, Log([], map[])) && Guarded(m, Log([], map[]))
  {
    EmptyCoherent();
    FreshRepresents();
  }

  /** Over any run, no short address is ever given to two devices. */
  lemma NicknamesNeverShared(start: Manager, ops: seq<Operation>, m: Manager, log: Log, g: Grant, h: Grant)
    requires Initial(start) && ReachedBy(start, ops, m, log) && g in log.grants && h in log.grants
    ensures g.nickname == h.nickname ==> g.device == h.device
    ensures 1 <= g.nickname <= 0xffff
  {
    hide ReachedBy, Initial, Structured, Guarded;
    RunInvariant(start, ops, m, log);
  }

  /** Over any run, a join is only accepted with a counter never accepted before under the same key. */
  lemma CountersNeverReused(start: Manager, ops: seq<Operation>, m: Manager, log: Log, r: JoinRequest, authentic: bool)
    requires Initial(start) && ReachedBy(start, ops, m, log)
    requires var outcome := JoinAuthenticated(m, r, authentic).0; outcome.Ok? && outcome.value.Accepted?
    ensures authentic && r.device in m.joinKeys && r.network == m.network
    ensures Admissible(AcceptedBy(log, r.device), r.securityCounter)
  {
    hide ReachedBy, Initial, Structured, Addressed, Represents, Accept, Admissible;
    RunInvariant(start, ops, m, log);
    assert Represents(WindowOf(m.replay, r.device), AcceptedBy(log, r.device));
    AcceptRefines(WindowOf(m.replay, r.device), AcceptedBy(log, r.device), r.securityCounter);
  }

  /**
    Exactly when an authentic join of an admitted device is accepted, over any
    run: the counter is admissible, and the device holds an address already or
    one is left.
   */
  lemma JoinAcceptedIff(start: Manager, ops: seq<Operation>, m: Manager, log: Log, r: JoinRequest)
    requires Initial(start) && ReachedBy(start, ops, m, log)
    requires r.network == m.network && r.device in m.joinKeys
    ensures var outcome := JoinAuthenticated(m, r, true).0;
      (outcome.Ok? && outcome.value.Accepted?) <==>
        Admissible(AcceptedBy(log, r.device), r.securityCounter) && (r.device in m.graph.nodes || m.nextNickname != 0)
  {
    hide ReachedBy, Initial, Coherent, Orderly, Represents, Accept, Admissible;
    RunInvariant(start, ops, m, log);
    assert Represents(WindowOf(m.replay, r.device), AcceptedBy(log, r.device));
    AcceptRefines(WindowOf(m.replay, r.device), AcceptedBy(log, r.device), r.securityCounter);
  }

  /** A refused join, whatever the reason, leaves everything as it was. */
  lemma RefusalChangesNothing(start: Manager, ops: seq<Operation>, m: Manager, log: Log, r: JoinRequest, authentic: bool)
    requires Initial(start) && ReachedBy(start, ops, m, log)
    ensures var (outcome, after) := JoinAuthenticated(m, r, authentic);
      !(outcome.Ok? && outcome.value.Accepted?) ==> after == m
  {
    hide ReachedBy, Initial, Structured, Addressed, Represents, Accept, Admissible;
    RunInvariant(start, ops, m, log);
    assert Represents(WindowOf(m.replay, r.device), AcceptedBy(log, r.device));
    AcceptRefines(WindowOf(m.replay, r.device), AcceptedBy(log, r.device), r.securityCounter);
    FreshNeverRefuses(r.securityCounter);
    if r.device in m.replay {
      assert m.replay[r.device := m.replay[r.device]] == m.replay;
    }
  }

  lemma FreshNeverRefuses(c: Counter)
    ensures Accept(FRESH, c).0.None?
  {}

  /** Replacing a key or revoking a device leaves no trace of its session. */
  lemma ForgettingIsComplete(m: Manager, d: DeviceId, key: Key)
    requires Structured(m) && d in m.joinKeys
    ensures var a, r := Allowed(m, d, key), Revoked(m, d);
      && d !in a.graph.nodes && d !in r.graph.nodes && d !in a.replay && d !in r.replay
      && (forall p :: p in a.graph.links ==> p.0 != d && p.1 != d)
      && (forall p :: p in r.graph.links ==> p.0 != d && p.1 != d)
      && (forall c :: c in a.cells ==> !Involves(c, d)) && (forall c :: c in r.cells ==> !Involves(c, d))
      && d in a.joinKeys && d !in r.joinKeys && d !in r.allowlist
  {
    hide Coherent, Orderly;
  }

  /** What became of the other devices, their links among each other and their cells: nothing. */
  lemma OthersUntouched(m: Manager, d: DeviceId, key: Key, e: DeviceId)
    requires e != d
    ensures forall n :: n in {Allowed(m, d, key), Revoked(m, d)} ==>
      && NodeIn(n.graph, e) == NodeIn(m.graph, e)
      && (e in n.joinKeys <==> e in m.joinKeys) && (e in m.joinKeys ==> n.joinKeys[e] == m.joinKeys[e])
      && (e in n.allowlist <==> e in m.allowlist) && WindowOf(n.replay, e) == WindowOf(m.replay, e)
      && (forall x :: x != d && x != e ==> LinkIn(n.graph, e, x) == LinkIn(m.graph, e, x))
      && (forall c :: c in m.cells && !Involves(c, d) ==> c in n.cells)
      && n.nextNickname == m.nextNickname && n.network == m.network && n.superframeSize == m.superframeSize
  {}

  /** An admitted device is listed with the key it was given, and a first admission changes nothing else. */
  lemma AdmittedWithKey(m: Manager, d: DeviceId, key: Key)
    ensures var n := Allowed(m, d, key);
      && d in n.allowlist && d in n.joinKeys && n.joinKeys[d] == key
      && (d !in m.joinKeys ==> n == m.(allowlist := n.allowlist, joinKeys := n.joinKeys))
  {}

  /** Every decision on a join, exactly. */
  lemma DecisionExact(start: Manager, ops: seq<Operation>, m: Manager, log: Log, r: JoinRequest, authentic: bool)
    requires Initial(start) && ReachedBy(start, ops, m, log)
    ensures var outcome := JoinAuthenticated(m, r, authentic).0;
      var admitted := r.network == m.network && r.device in m.joinKeys;
      var refusal := Accept(WindowOf(m.replay, r.device), r.securityCounter).0;
      var room := r.device in m.graph.nodes || m.nextNickname != 0;
      && (outcome == Ok(WrongNetwork) <==> r.network != m.network)
      && (outcome == Ok(NotAllowed) <==> r.network == m.network && r.device !in m.joinKeys)
      && (outcome == Ok(AuthenticationFailed) <==> admitted && !authentic)
      && (outcome == Err(AddressSpace) <==> admitted && authentic && !room)
      && (outcome.Err? && outcome.error.SecurityFault? <==> admitted && authentic && room && refusal.Some?)
      && (outcome.Err? && outcome.error.SecurityFault? ==> Some(outcome.error.error) == refusal)
      && (outcome.Ok? && outcome.value.Accepted? <==> admitted && authentic && room && refusal.None?)
  {
    hide ReachedBy, Initial, Coherent, Orderly, Represents, Accept, Guarded;
    RunInvariant(start, ops, m, log);
  }

  /**
    Which address an accepted device gets: the one it holds, or the next one,
    which it then holds.  Nothing else in the graph changes.
   */
  lemma AddressGiven(start: Manager, ops: seq<Operation>, m: Manager, log: Log, r: JoinRequest, authentic: bool)
    requires Initial(start) && ReachedBy(start, ops, m, log)
    ensures var (outcome, after) := JoinAuthenticated(m, r, authentic);
      outcome.Ok? && outcome.value.Accepted? ==>
        var n := outcome.value.nickname;
        && NodeIn(after.graph, r.device) == Some(NodeState(r.device, n, true))
        && (if r.device in m.graph.nodes
            then after.graph == m.graph && after.nextNickname == m.nextNickname
            else n == m.nextNickname && after.graph == Upserted(m.graph, NodeState(r.device, n, true)))
        && after.cells == m.cells && after.joinKeys == m.joinKeys && after.allowlist == m.allowlist
  {
    hide ReachedBy, Initial, Orderly, Represents, Accept, Guarded;
    RunInvariant(start, ops, m, log);
  }

  /** Some device was given this address. */
  ghost predicate WasGiven(log: Log, n: nat) { exists g :: g in log.grants && g.nickname == n }

  /** Every address before the next one has been given; once there is no next one, all have. */
  ghost predicate NoGaps(m: Manager, log: Log) {
    forall n: nat :: 1 <= n <= 0xffff && (m.nextNickname == 0 || n < m.nextNickname) ==> WasGiven(log, n)
  }

  lemma NoGapsStep(m: Manager, log: Log, op: Operation)
    requires NoGaps(m, log) && m.nextNickname <= 0xffff
    ensures NoGaps(Performed(m, op), Logged(m, log, op))
  {
    hide Accept, Without, Objection, Belongs, Inserted, WasGiven, Removed;
    var after, next := Performed(m, op), Logged(m, log, op);
    forall n: nat | 1 <= n <= 0xffff && (after.nextNickname == 0 || n < after.nextNickname) ensures WasGiven(next, n) {
      StillGiven(log, next, n);
      if op.Join? && next != log { JustGiven(log, next, op.request.device, JoinAuthenticated(m, op.request, op.authentic).0.value.nickname); }
    }
  }

  lemma StillGiven(log: Log, next: Log, n: nat)
    requires next.grants == log.grants || (|next.grants| > 0 && next.grants[..|next.grants| - 1] == log.grants)
    ensures WasGiven(log, n) ==> WasGiven(next, n)
  {
    if WasGiven(log, n) {
      var g :| g in log.grants && g.nickname == n;
      assert g in next.grants;
    }
  }

  lemma JustGiven(log: Log, next: Log, d: DeviceId, n: nat)
    requires next.grants == log.grants + [Grant(d, n)]
    ensures WasGiven(next, n)
  {
    assert Grant(d, n) in next.grants;
  }

  lemma {:induction false} RunWithoutGaps(start: Manager, ops: seq<Operation>, m: Manager, log: Log)
    requires Initial(start) && ReachedBy(start, ops, m, log)
    ensures NoGaps(m, log)
    decreases |ops|
  {
    if ops != [] {
      hide NoGaps, Performed, Logged, Initial, Structured, Guarded;
      var n := |ops| - 1;
      var before, earlier :| ReachedBy(start, ops[..n], before, earlier)
        && m == Performed(before, ops[n]) && log == Logged(before, earlier, ops[n]);
      RunWithoutGaps(start, ops[..n], before, earlier);
      RunInvariant(start, ops[..n], before, earlier);
      NoGapsStep(before, earlier, ops[n]);
    }
  }

  /** The address space is exhausted exactly when every address has been given. */
  lemma ExhaustedIff(start: Manager, ops: seq<Operation>, m: Manager, log: Log)
    requires Initial(start) && ReachedBy(start, ops, m, log)
    ensures m.nextNickname == 0 <==> forall n: nat :: 1 <= n <= 0xffff ==> WasGiven(log, n)
  {
    hide ReachedBy, Initial, Structured, Guarded;
    RunInvariant(start, ops, m, log);
    RunWithoutGaps(start, ops, m, log);
    if m.nextNickname != 0 {
      NotGivenYet(m, log);
    }
  }

  lemma NotGivenYet(m: Manager, log: Log)
    requires Addressed(m, log) && m.nextNickname != 0
    ensures 1 <= m.nextNickname <= 0xffff && !WasGiven(log, m.nextNickname)
  {}

  // -------------------------------------------------------------- the manager

  class MeshManager {
    const network: NetworkId
    const graph: MeshGraph
    const schedule: Schedule
    var allowlist: set<DeviceId>
    var joinKeys: map<DeviceId, Key>
    var replay: map<DeviceId, Window>
    var nextNickname: nat

    ghost predicate Valid()
      reads this, graph, schedule
    {
      Coherent(graph.Value()) && Orderly(schedule.cells, schedule.superframeSize)
    }

    function Value(): Manager
      reads this, graph, schedule
    {
      Manager(network, graph.Value(), schedule.cells, schedule.superframeSize, allowlist, joinKeys, replay, nextNickname)
    }

    constructor (id: NetworkId, size: nat)
      requires size > 0
      ensures Valid() && fresh(graph) && fresh(schedule)
      ensures Initial(Value()) && Value().network == id && Value().superframeSize == size
    {
      network := id;
      graph := new MeshGraph();
      schedule := new Schedule(size);
      allowlist, joinKeys, replay, nextNickname := {}, map[], map[], 1;
    }

    method AllowDevice(device: DeviceId, key: Key)
      requires Valid()
      modifies this, graph, schedule
      ensures Valid() && Value() == Allowed(old(Value()), device, key)
    {
      hide Coherent, Orderly, Removed, Without;
      allowlist := allowlist + {device};
      var replaced := device in joinKeys;
      joinKeys := joinKeys[device := key];
      if replaced {
        replay := replay - {device};
        var node := graph.RemoveNode(device);
        var removed := schedule.RemoveDevice(device);
      }
    }

    method RevokeDevice(device: DeviceId)
      requires Valid()
      modifies this, graph, schedule
      ensures Valid() && Value() == Revoked(old(Value()), device)
    {
      hide Coherent, Orderly, Removed, Without;
      allowlist := allowlist - {device};
      joinKeys := joinKeys - {device};
      replay := replay - {device};
      var node := graph.RemoveNode(device);
      var removed := schedule.RemoveDevice(device);
    }

    method ApplyJoin(request: JoinRequest) returns (outcome: JoinOutcome)
      requires Valid()
      modifies this, graph
      ensures Valid() && (outcome, Value()) == Joined(old(Value()), request)
    {
      hide Coherent, Orderly, Accept, Upserted;
      if request.network != network { return Ok(WrongNetwork); }
      if request.device !in allowlist || request.device !in joinKeys { return Ok(NotAllowed); }
      if request.device in graph.nodes && graph.nodes[request.device].active {
        var error := Replayed(request);
        if error.Some? { return Err(SecurityFault(error.value)); }
        return Ok(Accepted(graph.nodes[request.device].nickname));
      }
      if nextNickname == 0 { return Err(AddressSpace); }
      var error := Replayed(request);
      if error.Some? { return Err(SecurityFault(error.value)); }
      var nickname := nextNickname;
      nextNickname := NextNickname(nextNickname);
      var previous := graph.UpsertNode(NodeState(request.device, nickname, true));
      outcome := Ok(Accepted(nickname));
    }

    /** Presents the counter to the device's window, creating the window if needed. */
    method Replayed(request: JoinRequest) returns (error: Option<SecurityError>)
      modifies this`replay
      ensures var (e, w) := Accept(WindowOf(old(replay), request.device), request.securityCounter);
        error == e && replay == old(replay)[request.device := w]
    {
      var (e, w) := Accept(WindowOf(replay, request.device), request.securityCounter);
      replay := replay[request.device := w];
      error := e;
    }

    method Authenticate(request: JoinRequest, authentic: bool) returns (outcome: JoinOutcome)
      requires Valid()
      modifies this, graph
      ensures Valid() && (outcome, Value()) == JoinAuthenticated(old(Value()), request, authentic)
    {
      hide Coherent, Orderly, Joined;
      if request.network != network { return Ok(WrongNetwork); }
      if request.device !in joinKeys { return Ok(NotAllowed); }
      if request.device !in allowlist { return Ok(NotAllowed); }
      if !authentic { return Ok(AuthenticationFailed); }
      outcome := ApplyJoin(request);
    }
  }
}
