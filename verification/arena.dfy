/**
 * The measurement tree of TinyProfiler as an arena: every `Profiler` object is a `Node` record
 * stored under a `NodeId`, and a node refers to its children and to its tree's stopwatch by id.
 */
module Arena {
  import opened Wrappers

  type NodeId = nat
  type LoggerId = nat

  /**
   * A `Stopwatch`, started at `start` on the global clock. `frozen` holds the elapsed time
   * at which it was stopped, if it was.
   */
  datatype Watch = Watch(start: nat, frozen: Option<nat>)

  /** `ElapsedMilliseconds` at clock reading `now`. */
  function Elapsed(w: Watch, now: nat): nat
    requires w.start <= now
  {
    match w.frozen
    case Some(e) => e
    case None => now - w.start
  }

  /** `Stopwatch.Stop` at clock reading `now`; stopping a stopped watch changes nothing. */
  function Stop(w: Watch, now: nat): (r: Watch)
    requires w.start <= now
    ensures r.start == w.start && r.frozen.Some?
    ensures r.frozen.value == Elapsed(w, now)
  {
    if w.frozen.Some? then w else w.(frozen := Some(now - w.start))
  }

  /**
   * A running stopwatch stopped `d` milliseconds after reading `e` reads `e + d`: the measure
   * overhead a root reports is the time spent between fixing its duration and the stop.
   */
  lemma StopOverhead(w: Watch, now: nat, d: nat)
    requires w.frozen.None? && w.start <= now
    ensures Stop(w, now + d) == Watch(w.start, Some(Elapsed(w, now) + d))
    ensures Elapsed(Stop(w, now + d), now + d) - Elapsed(w, now) == d
  {
  }

  lemma ElapsedMonotonic(w: Watch, t1: nat, t2: nat)
    requires w.start <= t1 <= t2
    ensures Elapsed(w, t1) <= Elapsed(w, t2)
  {
  }

  /**
   * One `Profiler`. `watch` is the id of the root whose stopwatch the node shares, `offset`
   * is `_watchCount`, `duration` is `_watchStop`, `disposed` is `_disposed`, `logger` is null
   * for a child, and `notify` says whether `_notifyDisposed` is set.
   */
  datatype Node = Node(
    name: string,
    watch: NodeId,
    offset: nat,
    duration: nat,
    children: seq<NodeId>,
    disposed: bool,
    logger: Option<LoggerId>,
    notify: bool)
  {
    /** Roots, and only roots, carry a logger. */
    predicate IsRoot() {
      logger.Some?
    }
  }

  type Nodes = map<NodeId, Node>

  /** Every id is below `next`, and a child is allocated after its parent. */
  predicate Ordered(nodes: Nodes, next: nat) {
    forall x | x in nodes ::
      x < next && forall k | k in nodes[x].children :: x < k && k in nodes
  }

  /** Replacing a node by one with the same children keeps the order. */
  lemma OrderedUpdate(nodes: Nodes, next: nat, id: NodeId, n: Node)
    requires Ordered(nodes, next) && id in nodes && n.children == nodes[id].children
    ensures Ordered(nodes[id := n], next)
  {
  }

  /** Replacing a node by one with fewer children keeps the order. */
  lemma OrderedShrink(nodes: Nodes, next: nat, id: NodeId, n: Node)
    requires Ordered(nodes, next) && id in nodes
    requires forall k | k in n.children :: k in nodes[id].children
    ensures Ordered(nodes[id := n], next)
  {
  }

  /** Adding a fresh childless node `next` and appending it to `parent`'s children keeps the order. */
  lemma OrderedAppend(nodes: Nodes, next: nat, parent: NodeId, child: Node)
    requires Ordered(nodes, next) && parent in nodes && child.children == []
    ensures var p := nodes[parent];
      Ordered(nodes[parent := p.(children := p.children + [next])][next := child], next + 1)
  {
    var p := nodes[parent];
    var m := nodes[parent := p.(children := p.children + [next])][next := child];
    forall x | x in m
      ensures x < next + 1 && forall k | k in m[x].children :: x < k && k in m
    {
      if x == parent {
        forall k | k in m[x].children
          ensures x < k && k in m
        {
          if k != next {
            assert k in p.children;
          }
        }
      }
    }
  }

  /** Adding a fresh childless node `next` keeps the order. */
  lemma OrderedAdd(nodes: Nodes, next: nat, n: Node)
    requires Ordered(nodes, next) && n.children == []
    ensures Ordered(nodes[next := n], next + 1)
  {
  }

  /** The ids strictly increase along the list, so none occurs twice. */
  predicate Increasing(ids: seq<NodeId>) {
    forall i, j | 0 <= i < j < |ids| :: ids[i] < ids[j]
  }

  /** Two distinct nodes share no child. */
  predicate Apart(nodes: Nodes, x: NodeId, y: NodeId)
    requires x in nodes && y in nodes
  {
    x != y ==> forall k | k in nodes[x].children :: k !in nodes[y].children
  }

  /**
   * Every node sits in at most one child list, and at most once there: the child lists of an
   * ordered arena describe a forest. A list holds its ids in increasing order, the order they
   * were allocated in.
   */
  predicate Forest(nodes: Nodes) {
    && (forall x {:trigger Increasing(nodes[x].children)} | x in nodes :: Increasing(nodes[x].children))
    && (forall x, y {:trigger Apart(nodes, x, y)} | x in nodes && y in nodes :: Apart(nodes, x, y))
  }

  /** Adding a fresh childless node keeps the forest. */
  lemma ForestAdd(nodes: Nodes, next: nat, n: Node)
    requires Ordered(nodes, next) && Forest(nodes) && n.children == []
    ensures Forest(nodes[next := n])
  {
    var m := nodes[next := n];
    assert next !in nodes;
    forall x | x in m
      ensures Increasing(m[x].children)
    {
      if x != next {
        assert Increasing(nodes[x].children);
      }
    }
    forall x, y | x in m && y in m
      ensures Apart(m, x, y)
    {
      if x != next && y != next {
        assert Apart(nodes, x, y);
      }
    }
  }

  /** Replacing a node by one with the same children keeps the forest. */
  lemma ForestUpdate(nodes: Nodes, id: NodeId, n: Node)
    requires Forest(nodes) && id in nodes && n.children == nodes[id].children
    ensures Forest(nodes[id := n])
  {
    var m := nodes[id := n];
    forall x | x in m
      ensures Increasing(m[x].children)
    {
      assert m[x].children == nodes[x].children;
      assert Increasing(nodes[x].children);
    }
    forall x, y | x in m && y in m
      ensures Apart(m, x, y)
    {
      assert m[x].children == nodes[x].children && m[y].children == nodes[y].children;
      assert Apart(nodes, x, y);
    }
  }

  /** Appending the fresh node `next` to one child list keeps the forest. */
  lemma ForestAppend(nodes: Nodes, next: nat, parent: NodeId, child: Node)
    requires Ordered(nodes, next) && Forest(nodes) && parent in nodes && child.children == []
    ensures var p := nodes[parent];
      Forest(nodes[parent := p.(children := p.children + [next])][next := child])
  {
    var p := nodes[parent];
    var c := p.children + [next];
    var m := nodes[parent := p.(children := c)][next := child];
    assert next !in nodes;
    assert Increasing(c) by {
      assert Increasing(p.children);
      forall i | 0 <= i < |p.children|
        ensures c[i] < next
      {
        assert p.children[i] in p.children;
      }
    }
    forall x | x in m
      ensures Increasing(m[x].children)
    {
      if x != next && x != parent {
        assert Increasing(nodes[x].children);
      }
    }
    forall x, y | x in m && y in m
      ensures Apart(m, x, y)
    {
      if x != y && x != next && y != next {
        assert Apart(nodes, x, y);
        forall k | k in m[x].children
          ensures k !in m[y].children
        {
          if k != next {
            assert k in nodes[x].children;
          } else {
            assert x == parent;
            assert next !in nodes[y].children;
          }
        }
      }
    }
  }


  /** What `Discard` leaves of a node it reaches: disposed, with its child list cleared. */
  function Marked(n: Node): (r: Node)
    ensures r.disposed && r.children == []
    ensures r.(disposed := n.disposed, children := n.children) == n
  {
    n.(disposed := true, children := [])
  }

  /** The nodes with `Marked` applied to those in `a`. */
  function MarkAll(nodes: Nodes, a: set<NodeId>): (r: Nodes)
    ensures r.Keys == nodes.Keys
    ensures forall x | x in nodes :: r[x] == if x in a then Marked(nodes[x]) else nodes[x]
  {
    map x | x in nodes :: if x in a then Marked(nodes[x]) else nodes[x]
  }

  lemma MarkAllOrdered(nodes: Nodes, next: nat, a: set<NodeId>)
    requires Ordered(nodes, next)
    ensures Ordered(MarkAll(nodes, a), next)
  {
  }

  /** Marking clears or keeps child lists, so it keeps the forest. */
  lemma MarkAllForest(nodes: Nodes, a: set<NodeId>)
    requires Forest(nodes)
    ensures Forest(MarkAll(nodes, a))
  {
    var m := MarkAll(nodes, a);
    forall x | x in m
      ensures Increasing(m[x].children)
    {
      if x !in a {
        assert Increasing(nodes[x].children);
      }
    }
    forall x, y | x in m && y in m
      ensures Apart(m, x, y)
    {
      if x !in a && y !in a {
        assert Apart(nodes, x, y);
      }
    }
  }

  lemma MarkAllTwice(nodes: Nodes, a: set<NodeId>, b: set<NodeId>)
    ensures MarkAll(MarkAll(nodes, a), b) == MarkAll(nodes, a + b)
  {
  }

  /**
   * Marking `id` disposed, then marking `u`, then clearing `id`'s children is marking `id`
   * together with `u`.
   */
  lemma MarkAllAround(nodes: Nodes, id: NodeId, u: set<NodeId>)
    requires id in nodes && id !in u
    ensures var m := MarkAll(nodes[id := nodes[id].(disposed := true)], u);
      m[id := m[id].(children := [])] == MarkAll(nodes, {id} + u)
  {
    var m := MarkAll(nodes[id := nodes[id].(disposed := true)], u);
    var r := m[id := m[id].(children := [])];
    var want := MarkAll(nodes, {id} + u);
    assert r.Keys == want.Keys;
    forall x | x in r
      ensures r[x] == want[x]
    {
    }
  }

  /**
   * The nodes `Discard` on `id` reaches: `id` itself if it is not disposed yet, and then,
   * recursively, what discarding each of its children reaches. A disposed node stops the descent.
   */
  function ReachLive(nodes: Nodes, next: nat, id: NodeId): (r: set<NodeId>)
    requires Ordered(nodes, next) && id in nodes
    ensures forall x | x in r :: x in nodes && !nodes[x].disposed && id <= x
    ensures id in r <==> !nodes[id].disposed
    decreases next - id + 1, 0
  {
    if nodes[id].disposed then {} else {id} + ReachLiveList(nodes, next, nodes[id].children, id)
  }

  function ReachLiveList(nodes: Nodes, next: nat, ids: seq<NodeId>, parent: NodeId): (r: set<NodeId>)
    requires Ordered(nodes, next) && parent < next
    requires forall k | k in ids :: parent < k && k in nodes
    ensures forall x | x in r :: x in nodes && !nodes[x].disposed && parent < x
    decreases next - parent, |ids|
  {
    if ids == [] then {}
    else
      assert ids[0] in ids && forall j | j in ids[1..] :: j in ids;
      ReachLive(nodes, next, ids[0]) + ReachLiveList(nodes, next, ids[1..], parent)
  }

  /** Reaching is transitive: what a reached node reaches is reached too. */
  lemma {:induction false} ReachLiveClosed(nodes: Nodes, next: nat, id: NodeId, x: NodeId)
    requires Ordered(nodes, next) && id in nodes
    requires x in ReachLive(nodes, next, id)
    ensures ReachLive(nodes, next, x) <= ReachLive(nodes, next, id)
    decreases next - id + 1, 0
  {
    if x != id {
      ReachLiveListClosed(nodes, next, nodes[id].children, id, x);
    }
  }

  lemma {:induction false} ReachLiveListClosed(nodes: Nodes, next: nat, ids: seq<NodeId>, parent: NodeId, x: NodeId)
    requires Ordered(nodes, next) && parent < next
    requires forall k | k in ids :: parent < k && k in nodes
    requires x in ReachLiveList(nodes, next, ids, parent)
    ensures ReachLive(nodes, next, x) <= ReachLiveList(nodes, next, ids, parent)
    decreases next - parent, |ids|
  {
    assert ids[0] in ids && forall j | j in ids[1..] :: j in ids;
    if x in ReachLive(nodes, next, ids[0]) {
      ReachLiveClosed(nodes, next, ids[0], x);
    } else {
      ReachLiveListClosed(nodes, next, ids[1..], parent, x);
    }
  }

  /** `Discard` goes on into every live child of a node it reaches. */
  lemma ReachLiveFollowsLiveChildren(nodes: Nodes, next: nat, id: NodeId, x: NodeId, k: NodeId)
    requires Ordered(nodes, next) && id in nodes
    requires x in ReachLive(nodes, next, id) && k in nodes[x].children && !nodes[k].disposed
    ensures k in ReachLive(nodes, next, id)
  {
    ReachLiveClosed(nodes, next, id, x);
    ReachLiveListHas(nodes, next, nodes[x].children, x, k);
  }

  lemma {:induction false} ReachLiveListHas(nodes: Nodes, next: nat, ids: seq<NodeId>, parent: NodeId, k: NodeId)
    requires Ordered(nodes, next) && parent < next
    requires forall j | j in ids :: parent < j && j in nodes
    requires k in ids && !nodes[k].disposed
    ensures k in ReachLiveList(nodes, next, ids, parent)
    decreases |ids|
  {
    assert forall j | j in ids[1..] :: j in ids;
    if ids[0] != k {
      ReachLiveListHas(nodes, next, ids[1..], parent, k);
    }
  }

  /** `Discard` reaches nothing but descendants: every node it reaches past `id` is a child of one it reaches. */
  lemma ReachLiveDescends(nodes: Nodes, next: nat, id: NodeId, x: NodeId)
    requires Ordered(nodes, next) && id in nodes
    requires x in ReachLive(nodes, next, id) && x != id
    ensures exists y :: y in ReachLive(nodes, next, id) && x in nodes[y].children
  {
    ReachLiveListDescends(nodes, next, nodes[id].children, id, x);
    if x in nodes[id].children {
      assert id in ReachLive(nodes, next, id) && x in nodes[id].children;
    }
  }

  lemma {:induction false} ReachLiveListDescends(nodes: Nodes, next: nat, ids: seq<NodeId>, parent: NodeId, x: NodeId)
    requires Ordered(nodes, next) && parent < next
    requires forall j | j in ids :: parent < j && j in nodes
    requires x in ReachLiveList(nodes, next, ids, parent)
    ensures x in ids || exists y :: y in ReachLiveList(nodes, next, ids, parent) && x in nodes[y].children
    decreases next - parent, |ids|
  {
    var k := ids[0];
    assert k in ids;
    assert forall j | j in ids[1..] :: j in ids;
    var here := ReachLiveList(nodes, next, ids, parent);
    if x in ReachLive(nodes, next, k) {
      if x != k {
        var below := ReachLiveList(nodes, next, nodes[k].children, k);
        assert x in below;
        ReachLiveListDescends(nodes, next, nodes[k].children, k, x);
        if x in nodes[k].children {
          assert k in here && x in nodes[k].children;
        } else {
          var y :| y in below && x in nodes[y].children;
          assert y in here;
        }
      }
    } else {
      ReachLiveListDescends(nodes, next, ids[1..], parent, x);
      if x !in ids[1..] {
        var y :| y in ReachLiveList(nodes, next, ids[1..], parent) && x in nodes[y].children;
        assert y in here;
      }
    }
  }

  /** A set of ids that contains everything its members reach. */
  predicate Closed(nodes: Nodes, next: nat, a: set<NodeId>)
    requires Ordered(nodes, next)
  {
    forall x | x in a :: x in nodes && ReachLive(nodes, next, x) <= a
  }

  /** After marking a closed set, a node reaches what it reached before, minus that set. */
  lemma {:induction false} ReachLiveAfterMark(nodes: Nodes, next: nat, a: set<NodeId>, id: NodeId)
    requires Ordered(nodes, next) && id in nodes && Closed(nodes, next, a)
    ensures Ordered(MarkAll(nodes, a), next)
    ensures ReachLive(MarkAll(nodes, a), next, id) == ReachLive(nodes, next, id) - a
    decreases next - id + 1, 0
  {
    MarkAllOrdered(nodes, next, a);
    var m := MarkAll(nodes, a);
    if id !in a && !nodes[id].disposed {
      ReachLiveListAfterMark(nodes, next, a, nodes[id].children, id);
    }
  }

  lemma {:induction false} ReachLiveListAfterMark(nodes: Nodes, next: nat, a: set<NodeId>, ids: seq<NodeId>, parent: NodeId)
    requires Ordered(nodes, next) && parent < next && Closed(nodes, next, a)
    requires forall k | k in ids :: parent < k && k in nodes
    ensures Ordered(MarkAll(nodes, a), next)
    ensures ReachLiveList(MarkAll(nodes, a), next, ids, parent) == ReachLiveList(nodes, next, ids, parent) - a
    decreases next - parent, |ids|
  {
    MarkAllOrdered(nodes, next, a);
    if ids != [] {
      assert ids[0] in ids;
      assert forall j | j in ids[1..] :: j in ids;
      ReachLiveAfterMark(nodes, next, a, ids[0]);
      ReachLiveListAfterMark(nodes, next, a, ids[1..], parent);
    }
  }

  /** `ReachLiveList` below `parent` looks only at nodes allocated after `parent`. */
  lemma {:induction false} ReachLiveListFrame(nodes: Nodes, nodes': Nodes, next: nat, ids: seq<NodeId>, parent: NodeId)
    requires Ordered(nodes, next) && Ordered(nodes', next) && parent < next
    requires forall k | k in ids :: parent < k && k in nodes
    requires forall x | x in nodes && parent < x :: x in nodes' && nodes'[x] == nodes[x]
    ensures ReachLiveList(nodes', next, ids, parent) == ReachLiveList(nodes, next, ids, parent)
    decreases next - parent, |ids|
  {
    if ids != [] {
      var k := ids[0];
      assert k in ids;
      assert forall j | j in ids[1..] :: j in ids;
      if !nodes[k].disposed {
        ReachLiveListFrame(nodes, nodes', next, nodes[k].children, k);
      }
      ReachLiveListFrame(nodes, nodes', next, ids[1..], parent);
    }
  }
}
