/**
  The WirelessHART neighbor graph (src/mesh/topology.rs): nodes, measured links
  and a redundant adjacency index, and minimum-hop routing over them.
 */
module Topology {
  import opened Basics

  /** Eight identifier bytes, ordered lexicographically, as the number they spell. */
  type DeviceId = n: nat | n < 0x1_0000_0000_0000_0000

  /** A float as far as the code looks at it: not finite, or a value. */
  datatype Ratio = NonFinite | Finite(value: real)

  datatype LinkHealth = LinkHealth(rssi: int, reliability: Ratio, ageSeconds: nat)

  datatype NodeState = NodeState(id: DeviceId, nickname: nat, active: bool)

  type Pair = (DeviceId, DeviceId)

  datatype Graph = Graph(
    nodes: map<DeviceId, NodeState>,
    links: map<Pair, LinkHealth>,
    adjacency: map<DeviceId, set<DeviceId>>
  )

  function OrderedPair(a: DeviceId, b: DeviceId): Pair { if a <= b then (a, b) else (b, a) }

  predicate ValidRatio(r: Ratio) { r.Finite? && 0.0 <= r.value <= 1.0 }

  /** The two indexes agree, and every link joins two existing nodes. */
  ghost predicate Coherent(g: Graph) {
    && g.adjacency.Keys == g.nodes.Keys
    && (forall i :: i in g.nodes ==> g.nodes[i].id == i)
    && (forall p :: p in g.links ==>
          p.0 < p.1 && p.0 in g.nodes && p.1 in g.nodes && ValidRatio(g.links[p].reliability))
    && (forall a, b :: a in g.adjacency ==> (b in g.adjacency[a] <==> a != b && OrderedPair(a, b) in g.links))
  }

  /** A transmission from `a` to `b` is possible: a good enough link to an active node. */
  predicate Hop(g: Graph, a: DeviceId, b: DeviceId, threshold: real) {
    && a != b && OrderedPair(a, b) in g.links
    && g.links[OrderedPair(a, b)].reliability.Finite?
    && g.links[OrderedPair(a, b)].reliability.value >= threshold
    && b in g.nodes && g.nodes[b].active
  }

  predicate Active(g: Graph, a: DeviceId) { a in g.nodes && g.nodes[a].active }

  /** `p` is a way from `s` to `d` over active nodes. */
  ghost predicate IsPath(g: Graph, p: seq<DeviceId>, s: DeviceId, d: DeviceId, threshold: real) {
    && p != [] && p[0] == s && p[|p| - 1] == d && Active(g, s)
    && forall i :: 0 <= i < |p| - 1 ==> Hop(g, p[i], p[i + 1], threshold)
  }

  // ----------------------------------------------------------------- updates

  function Upserted(g: Graph, n: NodeState): Graph {
    g.(nodes := g.nodes[n.id := n],
       adjacency := if n.id in g.adjacency then g.adjacency else g.adjacency[n.id := {}])
  }

  function Removed(g: Graph, id: DeviceId): Graph {
    Graph(
      g.nodes - {id},
      map p | p in g.links && p.0 != id && p.1 != id :: g.links[p],
      map a | a in g.adjacency && a != id :: g.adjacency[a] - {id})
  }

  predicate Linkable(g: Graph, a: DeviceId, b: DeviceId, h: LinkHealth) {
    a != b && ValidRatio(h.reliability) && a in g.nodes && b in g.nodes
  }

  function Linked(g: Graph, a: DeviceId, b: DeviceId, h: LinkHealth): Graph
    requires a in g.adjacency && b in g.adjacency && a != b
  {
    Graph(
      g.nodes,
      g.links[OrderedPair(a, b) := h],
      g.adjacency[a := g.adjacency[a] + {b}][b := g.adjacency[b] + {a}])
  }

  /** A link report: refused, or recorded in both indexes. */
  function Reported(g: Graph, left: DeviceId, right: DeviceId, health: LinkHealth): Graph {
    if Linkable(g, left, right, health) && left in g.adjacency && right in g.adjacency
    then Linked(g, left, right, health)
    else g
  }

  lemma UpsertedCoherent(g: Graph, n: NodeState)
    requires Coherent(g)
    ensures Coherent(Upserted(g, n))
  {}

  lemma RemovedCoherent(g: Graph, id: DeviceId)
    requires Coherent(g)
    ensures Coherent(Removed(g, id))
  {
    var r := Removed(g, id);
    assert r.adjacency.Keys == r.nodes.Keys;
  }

  lemma LinkedCoherent(g: Graph, a: DeviceId, b: DeviceId, h: LinkHealth)
    requires Coherent(g) && Linkable(g, a, b, h)
    ensures Coherent(Linked(g, a, b, h))
  {
    var r := Linked(g, a, b, h);
    assert r.adjacency.Keys == r.nodes.Keys;
    assert a in g.adjacency && b in g.adjacency;
    forall x, y | x in r.adjacency ensures y in r.adjacency[x] <==> x != y && OrderedPair(x, y) in r.links {
      assert x in g.adjacency;
      assert y in g.adjacency[x] <==> x != y && OrderedPair(x, y) in g.links;
    }
  }

  // ------------------------------------------------------------ breadth first

  /** Distances and predecessors found so far; `done` nodes have all their hops recorded. */
  ghost predicate Explored(g: Graph, s: DeviceId, threshold: real, previous: map<DeviceId, DeviceId>,
                           dist: map<DeviceId, nat>, done: set<DeviceId>)
  {
    && s in dist && dist[s] == 0 && Active(g, s)
    && (forall v :: v in dist ==> v in g.nodes)
    && (forall v :: v in dist && v != s ==>
          && v in previous && previous[v] in dist
          && dist[v] == dist[previous[v]] + 1 && Hop(g, previous[v], v, threshold))
    && done <= dist.Keys
    && (forall u, v :: u in done && Hop(g, u, v, threshold) ==> v in dist && dist[v] <= dist[u] + 1)
  }

  /** A path that leaves the explored region does so from a node that is not done. */
  lemma {:induction false} LeavesAtFrontier(g: Graph, s: DeviceId, d: DeviceId, threshold: real,
                                            previous: map<DeviceId, DeviceId>, dist: map<DeviceId, nat>,
                                            done: set<DeviceId>, p: seq<DeviceId>, i: nat) returns (k: nat)
    requires Explored(g, s, threshold, previous, dist, done) && IsPath(g, p, s, d, threshold)
    requires d !in dist && i < |p| && p[i] in dist && dist[p[i]] <= i
    ensures i <= k < |p| - 1 && p[k] in dist && p[k] !in done && dist[p[k]] <= k
    decreases |p| - i
  {
    if p[i] in done {
      assert Hop(g, p[i], p[i + 1], threshold);
      k := LeavesAtFrontier(g, s, d, threshold, previous, dist, done, p, i + 1);
    } else {
      k := i;
    }
  }

  /** Every path to an undiscovered node is longer than the distance of the whole frontier. */
  lemma FrontierBound(g: Graph, s: DeviceId, d: DeviceId, threshold: real, previous: map<DeviceId, DeviceId>,
                      dist: map<DeviceId, nat>, done: set<DeviceId>, bound: nat, p: seq<DeviceId>)
    requires Explored(g, s, threshold, previous, dist, done) && IsPath(g, p, s, d, threshold) && d !in dist
    requires forall v :: v in dist && v !in done ==> dist[v] >= bound
    ensures |p| >= bound + 2 && exists v :: v in dist && v !in done
  {
    var k := LeavesAtFrontier(g, s, d, threshold, previous, dist, done, p, 0);
  }

  /** `p` reads the predecessors backwards: its i-th node is at distance i. */
  ghost predicate Chain(g: Graph, p: seq<DeviceId>, threshold: real, dist: map<DeviceId, nat>, base: nat) {
    && (forall i :: 0 <= i < |p| ==> p[i] in dist && dist[p[i]] == base + i)
    && (forall i :: 0 <= i < |p| - 1 ==> Hop(g, p[i], p[i + 1], threshold))
  }

  ghost predicate Distinct(p: seq<DeviceId>) {
    forall i, j :: 0 <= i < j < |p| ==> p[i] != p[j]
  }

  function Reversed(p: seq<DeviceId>): (r: seq<DeviceId>)
    ensures |r| == |p|
    ensures forall i :: 0 <= i < |p| ==> r[i] == p[|p| - 1 - i]
  {
    seq(|p|, i requires 0 <= i < |p| => p[|p| - 1 - i])
  }

  /** Follows the predecessors from the destination back to the source. */
  method ReconstructRoute(g: Graph, source: DeviceId, destination: DeviceId, previous: map<DeviceId, DeviceId>,
                          ghost threshold: real, ghost dist: map<DeviceId, nat>, ghost done: set<DeviceId>)
    returns (route: Option<seq<DeviceId>>)
    requires Explored(g, source, threshold, previous, dist, done) && destination in dist && source in dist && dist[source] == 0
    ensures route.Some? && IsPath(g, route.value, source, destination, threshold)
    ensures |route.value| == dist[destination] + 1 && Distinct(route.value)
  {
    hide Explored, Chain, Hop, IsPath, Distinct, Active;
    var hops := [destination];
    var current := destination;
    ChainStarts(g, destination, threshold, dist);
    assert Reversed(hops) == [destination];
    while current != source
      invariant hops != [] && hops[0] == destination && hops[|hops| - 1] == current
      invariant current in dist && dist[current] + |hops| == dist[destination] + 1
      invariant Chain(g, Reversed(hops), threshold, dist, dist[current])
      decreases dist[current]
    {
      StepBack(g, source, threshold, previous, dist, done, current);
      if current !in previous { return None; }
      ghost var before := Reversed(hops);
      ChainGrows(g, before, threshold, dist, previous[current]);
      current := previous[current];
      hops := hops + [current];
      assert Reversed(hops) == [current] + before;
    }
    ChainIsPath(g, source, threshold, previous, dist, done, Reversed(hops));
    route := Some(Reversed(hops));
  }

  lemma ChainStarts(g: Graph, d: DeviceId, threshold: real, dist: map<DeviceId, nat>)
    requires d in dist
    ensures Chain(g, [d], threshold, dist, dist[d])
  {}

  lemma StepBack(g: Graph, s: DeviceId, threshold: real, previous: map<DeviceId, DeviceId>, dist: map<DeviceId, nat>,
                 done: set<DeviceId>, v: DeviceId)
    requires Explored(g, s, threshold, previous, dist, done) && v in dist && v != s
    ensures v in previous && previous[v] in dist && dist[v] == dist[previous[v]] + 1 && Hop(g, previous[v], v, threshold)
  {}

  lemma ChainGrows(g: Graph, p: seq<DeviceId>, threshold: real, dist: map<DeviceId, nat>, u: DeviceId)
    requires p != [] && u in dist && Chain(g, p, threshold, dist, dist[u] + 1) && Hop(g, u, p[0], threshold)
    ensures Chain(g, [u] + p, threshold, dist, dist[u])
  {
    hide Hop;
  }

  /** A chain from distance zero is a path of distinct nodes from the source. */
  lemma ChainIsPath(g: Graph, s: DeviceId, threshold: real, previous: map<DeviceId, DeviceId>, dist: map<DeviceId, nat>,
                    done: set<DeviceId>, p: seq<DeviceId>)
    requires Explored(g, s, threshold, previous, dist, done)
    requires p != [] && p[0] == s && Chain(g, p, threshold, dist, 0)
    ensures IsPath(g, p, s, p[|p| - 1], threshold) && Distinct(p)
  {
    hide Hop;
  }

  function Neighbors(g: Graph, a: DeviceId, threshold: real): set<DeviceId>
  {
    if a !in g.adjacency then {}
    else
      set b | b in g.adjacency[a] && OrderedPair(a, b) in g.links
        && g.links[OrderedPair(a, b)].reliability.Finite?
        && g.links[OrderedPair(a, b)].reliability.value >= threshold
        && Active(g, b)
  }

  lemma NeighborsAreHops(g: Graph, a: DeviceId, threshold: real)
    requires Coherent(g) && a in g.nodes
    ensures forall b :: b in Neighbors(g, a, threshold) <==> Hop(g, a, b, threshold)
  {}

  /** The search front: waiting nodes in order of distance, at most one step apart, none nearer than a done one. */
  ghost predicate Front(queue: seq<DeviceId>, dist: map<DeviceId, nat>, done: set<DeviceId>, low: nat) {
    && (forall v :: v in done && v in dist ==> dist[v] <= low)
    && (forall i :: 0 <= i < |queue| ==> queue[i] in dist && queue[i] !in done && low <= dist[queue[i]] <= low + 1)
    && (forall i, j :: 0 <= i < j < |queue| ==> dist[queue[i]] <= dist[queue[j]] && queue[i] != queue[j])
  }

  /** Recording a newly discovered neighbor of `current`. */
  lemma Discover(g: Graph, s: DeviceId, threshold: real, previous: map<DeviceId, DeviceId>, dist: map<DeviceId, nat>,
                 done: set<DeviceId>, current: DeviceId, n: DeviceId)
    requires Explored(g, s, threshold, previous, dist, done)
    requires current in dist && n !in dist && Hop(g, current, n, threshold)
    ensures Explored(g, s, threshold, previous[n := current], dist[n := dist[current] + 1], done)
  {}

  /** A node is done once all its hops are recorded. */
  lemma Complete(g: Graph, s: DeviceId, threshold: real, previous: map<DeviceId, DeviceId>, dist: map<DeviceId, nat>,
                 done: set<DeviceId>, current: DeviceId)
    requires Explored(g, s, threshold, previous, dist, done) && current in dist
    requires forall v :: Hop(g, current, v, threshold) ==> v in dist && dist[v] <= dist[current] + 1
    ensures Explored(g, s, threshold, previous, dist, done + {current})
  {}

  /** The adjacency without `id`, and without `id` in the rows of `some`. */
  function Detached(adjacency: map<DeviceId, set<DeviceId>>, id: DeviceId, some: set<DeviceId>): map<DeviceId, set<DeviceId>> {
    map a | a in adjacency && a != id :: if a in some then adjacency[a] - {id} else adjacency[a]
  }

  lemma DetachNone(adjacency: map<DeviceId, set<DeviceId>>, id: DeviceId)
    ensures Detached(adjacency, id, {}) == adjacency - {id}
  {}

  lemma DetachOne(adjacency: map<DeviceId, set<DeviceId>>, id: DeviceId, some: set<DeviceId>, n: DeviceId)
    ensures var before := Detached(adjacency, id, some);
      Detached(adjacency, id, some + {n}) == if n in before then before[n := before[n] - {id}] else before
  {
    var before, after := Detached(adjacency, id, some), Detached(adjacency, id, some + {n});
    if n in before {
      assert after.Keys == before[n := before[n] - {id}].Keys;
      assert adjacency[n] - {id} - {id} == adjacency[n] - {id};
      assert forall a :: a in after && a != n ==> after[a] == before[a];
    } else {
      assert after.Keys == before.Keys;
    }
  }

  lemma DetachedIsRemoved(g: Graph, id: DeviceId)
    requires Coherent(g)
    ensures id in g.adjacency ==> Detached(g.adjacency, id, g.adjacency[id]) == Removed(g, id).adjacency
    ensures id !in g.adjacency ==> g.adjacency == Removed(g, id).adjacency
  {
    var r := Removed(g, id).adjacency;
    assert r.Keys == g.adjacency.Keys - {id};
    forall a | a in r && (id !in g.adjacency || a !in g.adjacency[id]) ensures r[a] == g.adjacency[a] {
      assert OrderedPair(a, id) == OrderedPair(id, a);
      assert id !in g.adjacency[a];
    }
  }

  lemma FrontPop(queue: seq<DeviceId>, dist: map<DeviceId, nat>, done: set<DeviceId>, low: nat)
    requires queue != [] && Front(queue, dist, done, low)
    ensures queue[0] in dist && queue[0] !in done && queue[0] !in queue[1..]
    ensures Front(queue[1..], dist, done, dist[queue[0]])
  {}

  lemma FrontPush(queue: seq<DeviceId>, dist: map<DeviceId, nat>, done: set<DeviceId>, low: nat, n: DeviceId)
    requires Front(queue, dist, done, low) && n !in dist && n !in done
    ensures Front(queue + [n], dist[n := low + 1], done, low)
  {}

  lemma FrontDone(queue: seq<DeviceId>, dist: map<DeviceId, nat>, done: set<DeviceId>, low: nat, current: DeviceId)
    requires Front(queue, dist, done, low) && current !in queue && current in dist && dist[current] == low
    ensures Front(queue, dist, done + {current}, low)
  {}

  lemma FrontAbove(queue: seq<DeviceId>, dist: map<DeviceId, nat>, done: set<DeviceId>, low: nat, current: DeviceId)
    requires Front(queue, dist, done, low) && current in dist && dist[current] == low
    requires forall v :: v in dist ==> v in done || v == current || v in queue
    ensures forall v :: v in dist && v !in done ==> dist[v] >= low
  {}

  lemma SourceKept(g: Graph, s: DeviceId, threshold: real, previous: map<DeviceId, DeviceId>,
                   dist: map<DeviceId, nat>, done: set<DeviceId>)
    requires Explored(g, s, threshold, previous, dist, done)
    ensures s in dist && dist[s] == 0
  {}

  lemma ExploredBasics(g: Graph, s: DeviceId, threshold: real, previous: map<DeviceId, DeviceId>,
                       dist: map<DeviceId, nat>, done: set<DeviceId>)
    requires Explored(g, s, threshold, previous, dist, done)
    ensures dist.Keys <= g.nodes.Keys && done <= dist.Keys
  {}

  class MeshGraph {
    var nodes: map<DeviceId, NodeState>
    var links: map<Pair, LinkHealth>
    var adjacency: map<DeviceId, set<DeviceId>>

    constructor ()
      ensures Value() == Graph(map[], map[], map[]) && Coherent(Value())
    {
      nodes, links, adjacency := map[], map[], map[];
    }

    function Value(): Graph
      reads this
    {
      Graph(nodes, links, adjacency)
    }

    method UpsertNode(node: NodeState) returns (old_: Option<NodeState>)
      requires Coherent(Value())
      modifies this
      ensures Value() == Upserted(old(Value()), node) && Coherent(Value())
      ensures old_ == if node.id in old(nodes) then Some(old(nodes)[node.id]) else None
    {
      UpsertedCoherent(Value(), node);
      if node.id !in adjacency {
        adjacency := adjacency[node.id := {}];
      }
      old_ := if node.id in nodes then Some(nodes[node.id]) else None;
      nodes := nodes[node.id := node];
    }

    method RemoveNode(id: DeviceId) returns (old_: Option<NodeState>)
      requires Coherent(Value())
      modifies this
      ensures Value() == Removed(old(Value()), id) && Coherent(Value())
      ensures old_ == if id in old(nodes) then Some(old(nodes)[id]) else None
    {
      hide Coherent, Detached;
      ghost var g := Value();
      RemovedCoherent(g, id);
      DetachedIsRemoved(g, id);
      DetachNone(g.adjacency, id);
      if id in adjacency {
        var neighbors := adjacency[id];
        adjacency := adjacency - {id};
        var rest := neighbors;
        ghost var visited: set<DeviceId> := {};
        while rest != {}
          invariant visited + rest == neighbors && nodes == g.nodes && links == g.links
          invariant adjacency == Detached(g.adjacency, id, visited)
        {
          var n :| n in rest;
          DetachOne(g.adjacency, id, visited, n);
          rest := rest - {n};
          visited := visited + {n};
          if n in adjacency {
            adjacency := adjacency[n := adjacency[n] - {id}];
          }
        }
        assert visited == neighbors;
      }
      links := map p | p in links && p.0 != id && p.1 != id :: links[p];
      old_ := if id in nodes then Some(nodes[id]) else None;
      nodes := nodes - {id};
    }

    method UpdateLink(left: DeviceId, right: DeviceId, health: LinkHealth) returns (updated: bool)
      requires Coherent(Value())
      modifies this
      ensures updated <==> Linkable(old(Value()), left, right, health)
      ensures Coherent(Value())
      ensures Value() == Reported(old(Value()), left, right, health)
    {
      if left == right || !ValidRatio(health.reliability) || left !in nodes || right !in nodes {
        return false;
      }
      LinkedCoherent(Value(), left, right, health);
      assert left in adjacency && right in adjacency;
      links := links[OrderedPair(left, right) := health];
      adjacency := adjacency[left := adjacency[left] + {right}];
      adjacency := adjacency[right := adjacency[right] + {left}];
      updated := true;
    }

    /**
      A route comes back exactly when the threshold is a ratio and some path
      exists; it is such a path, repeats no node and is as short as any.
     */
    method Route(source: DeviceId, destination: DeviceId, minimum: Ratio) returns (route: Option<seq<DeviceId>>)
      requires Coherent(Value())
      ensures route.Some? ==>
        && ValidRatio(minimum)
        && IsPath(Value(), route.value, source, destination, minimum.value)
        && Distinct(route.value)
        && forall p :: IsPath(Value(), p, source, destination, minimum.value) ==> |route.value| <= |p|
      ensures route.None? && ValidRatio(minimum) ==>
        forall p :: !IsPath(Value(), p, source, destination, minimum.value)
    {
      hide Coherent, Explored, Front, IsPath, Hop, Neighbors, Distinct;
      if !ValidRatio(minimum) { return None; }
      var g := Value();
      var threshold := minimum.value;
      if !Active(g, source) || !Active(g, destination) {
        LastIsActive(g, source, destination, threshold);
        return None;
      }
      TrivialPath(g, source, threshold);
      if source == destination { return Some([source]); }
      var queue := [source];
      var previous: map<DeviceId, DeviceId> := map[];
      var visited := {source};
      ghost var dist: map<DeviceId, nat> := map[source := 0];
      ghost var done: set<DeviceId> := {};
      ghost var low: nat := 0;
      Start(g, source, threshold);
      while queue != []
        invariant Explored(g, source, threshold, previous, dist, done)
        invariant visited == dist.Keys && destination !in dist
        invariant Front(queue, dist, done, low)
        invariant forall v :: v in dist ==> v in done || v in queue
        decreases g.nodes.Keys - done
      {
        var current := queue[0];
        FrontPop(queue, dist, done, low);
        ExploredBasics(g, source, threshold, previous, dist, done);
        queue := queue[1..];
        NeighborsAreHops(g, current, threshold);
        ghost var d := dist[current];
        var rest := Neighbors(g, current, threshold);
        while rest != {}
          invariant rest <= Neighbors(g, current, threshold)
          invariant Explored(g, source, threshold, previous, dist, done)
          invariant visited == dist.Keys && destination !in dist
          invariant current in dist && dist[current] == d && current !in done && current !in queue
          invariant Front(queue, dist, done, d)
          invariant forall v :: v in dist ==> v in done || v == current || v in queue
          invariant forall n :: n in Neighbors(g, current, threshold) - rest ==> n in dist && dist[n] <= d + 1
        {
          var neighbor :| neighbor in rest;
          rest := rest - {neighbor};
          if neighbor in visited {
            NoFurther(dist, done, queue, current, neighbor);
            continue;
          }
          Discover(g, source, threshold, previous, dist, done, current, neighbor);
          ExploredBasics(g, source, threshold, previous, dist, done);
          if neighbor == destination {
            FrontAbove(queue, dist, done, d, current);
            forall p | IsPath(g, p, source, destination, threshold) ensures d + 2 <= |p| {
              FrontierBound(g, source, destination, threshold, previous, dist, done, d, p);
            }
          }
          FrontPush(queue, dist, done, d, neighbor);
          visited := visited + {neighbor};
          previous := previous[neighbor := current];
          dist := dist[neighbor := d + 1];
          if neighbor == destination {
            SourceKept(g, source, threshold, previous, dist, done);
            route := ReconstructRoute(g, source, destination, previous, threshold, dist, done);
            return;
          }
          queue := queue + [neighbor];
        }
        Complete(g, source, threshold, previous, dist, done, current);
        FrontDone(queue, dist, done, d, current);
        done := done + {current};
        low := d;
      }
      forall p ensures !IsPath(g, p, source, destination, threshold) {
        if IsPath(g, p, source, destination, threshold) {
          FrontierBound(g, source, destination, threshold, previous, dist, done, 0, p);
        }
      }
      route := None;
    }
  }

  lemma TrivialPath(g: Graph, s: DeviceId, threshold: real)
    requires Active(g, s)
    ensures IsPath(g, [s], s, s, threshold) && Distinct([s])
    ensures forall p :: IsPath(g, p, s, s, threshold) ==> 1 <= |p|
  {}

  lemma Start(g: Graph, s: DeviceId, threshold: real)
    requires Active(g, s)
    ensures Explored(g, s, threshold, map[], map[s := 0], {}) && Front([s], map[s := 0], {}, 0)
  {}

  /** An already discovered neighbor of the current node is at most one step beyond it. */
  lemma NoFurther(dist: map<DeviceId, nat>, done: set<DeviceId>, queue: seq<DeviceId>, current: DeviceId, n: DeviceId)
    requires current in dist && n in dist && Front(queue, dist, done, dist[current])
    requires n in done || n == current || n in queue
    ensures dist[n] <= dist[current] + 1
  {}

  /** Paths start and end at active nodes. */
  lemma LastIsActive(g: Graph, s: DeviceId, d: DeviceId, threshold: real)
    ensures forall p :: IsPath(g, p, s, d, threshold) ==> Active(g, s) && Active(g, d)
  {
    forall p | IsPath(g, p, s, d, threshold) ensures Active(g, d) {
      if |p| > 1 {
        assert Hop(g, p[|p| - 2], p[|p| - 2 + 1], threshold);
      }
    }
  }

  // -------------------------------------------------------------- whole runs

  datatype Update =
    | Upsert(node: NodeState)
    | Remove(id: DeviceId)
    | Link(left: DeviceId, right: DeviceId, health: LinkHealth)

  function Updated(g: Graph, u: Update): Graph {
    match u
    case Upsert(node) => Upserted(g, node)
    case Remove(id) => Removed(g, id)
    case Link(left, right, health) => Reported(g, left, right, health)
  }

  /** The graph after a run of updates of an empty one. */
  function GraphAfter(updates: seq<Update>): Graph {
    if updates == [] then Graph(map[], map[], map[])
    else
      var n := |updates| - 1;
      Updated(GraphAfter(updates[..n]), updates[n])
  }

  /** After any run of updates the indexes agree. */
  lemma {:induction false} RunsStayCoherent(updates: seq<Update>)
    ensures Coherent(GraphAfter(updates))
  {
    hide Coherent, Removed, Upserted, Linked, Linkable;
    if updates == [] {
      EmptyCoherent();
    } else {
      var n := |updates| - 1;
      var before := GraphAfter(updates[..n]);
      RunsStayCoherent(updates[..n]);
      match updates[n]
      case Upsert(node) => UpsertedCoherent(before, node);
      case Remove(id) => RemovedCoherent(before, id);
      case Link(left, right, health) =>
        if Reported(before, left, right, health) != before { LinkedCoherent(before, left, right, health); }
    }
  }

  /** The state of a node, told by the updates: its last upsert, unless it was removed since. */
  function LastNode(updates: seq<Update>, id: DeviceId): Option<NodeState> {
    if updates == [] then None
    else
      var n := |updates| - 1;
      match updates[n]
      case Upsert(node) => if node.id == id then Some(node) else LastNode(updates[..n], id)
      case Remove(other) => if other == id then None else LastNode(updates[..n], id)
      case Link(_, _, _) => LastNode(updates[..n], id)
  }

  /** The link between two devices: the last valid report while both were known, unless one was removed since. */
  function LastLink(updates: seq<Update>, a: DeviceId, b: DeviceId): Option<LinkHealth> {
    if updates == [] then None
    else
      var n := |updates| - 1;
      match updates[n]
      case Upsert(_) => LastLink(updates[..n], a, b)
      case Remove(id) => if id == a || id == b then None else LastLink(updates[..n], a, b)
      case Link(left, right, health) =>
        if ((left == a && right == b) || (left == b && right == a)) && ValidRatio(health.reliability)
           && LastNode(updates[..n], a).Some? && LastNode(updates[..n], b).Some?
        then Some(health)
        else LastLink(updates[..n], a, b)
  }

  function NodeIn(g: Graph, id: DeviceId): Option<NodeState> { if id in g.nodes then Some(g.nodes[id]) else None }

  function LinkIn(g: Graph, a: DeviceId, b: DeviceId): Option<LinkHealth> {
    if OrderedPair(a, b) in g.links then Some(g.links[OrderedPair(a, b)]) else None
  }

  lemma NodeAfter(g: Graph, u: Update, id: DeviceId)
    ensures NodeIn(Updated(g, u), id) ==
      match u
      case Upsert(node) => if node.id == id then Some(node) else NodeIn(g, id)
      case Remove(other) => if other == id then None else NodeIn(g, id)
      case Link(_, _, _) => NodeIn(g, id)
  {}

  lemma LinkAfter(g: Graph, u: Update, a: DeviceId, b: DeviceId)
    requires Coherent(g) && a != b
    ensures LinkIn(Updated(g, u), a, b) ==
      match u
      case Upsert(_) => LinkIn(g, a, b)
      case Remove(id) => if id == a || id == b then None else LinkIn(g, a, b)
      case Link(left, right, health) =>
        if ((left == a && right == b) || (left == b && right == a)) && ValidRatio(health.reliability)
           && a in g.nodes && b in g.nodes
        then Some(health)
        else LinkIn(g, a, b)
  {}

  /** After any run, the graph knows exactly what its history says. */
  lemma {:induction false} GraphIsItsHistory(updates: seq<Update>, a: DeviceId, b: DeviceId)
    requires a != b
    ensures NodeIn(GraphAfter(updates), a) == LastNode(updates, a) && NodeIn(GraphAfter(updates), b) == LastNode(updates, b)
    ensures LinkIn(GraphAfter(updates), a, b) == LastLink(updates, a, b)
  {
    if updates != [] {
      hide Updated, LinkIn, Coherent;
      var n := |updates| - 1;
      var g := GraphAfter(updates[..n]);
      GraphIsItsHistory(updates[..n], a, b);
      RunsStayCoherent(updates[..n]);
      NodeAfter(g, updates[n], a);
      NodeAfter(g, updates[n], b);
      LinkAfter(g, updates[n], a, b);
    }
  }

  /** A transmission is possible exactly over a link whose reliability reaches the threshold, to an active node. */
  lemma HopExact(updates: seq<Update>, a: DeviceId, b: DeviceId, threshold: real)
    requires a != b
    ensures Hop(GraphAfter(updates), a, b, threshold) <==>
      && LastLink(updates, a, b).Some? && LastLink(updates, a, b).value.reliability.Finite?
      && LastLink(updates, a, b).value.reliability.value >= threshold
      && LastNode(updates, b).Some? && LastNode(updates, b).value.active
  {
    hide GraphAfter, LastLink, LastNode;
    GraphIsItsHistory(updates, a, b);
  }

  lemma EmptyCoherent()
    ensures Coherent(Graph(map[], map[], map[]))
  {}
}
