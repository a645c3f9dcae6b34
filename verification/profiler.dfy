/**
 * `Profiler` and `EmptyProfiler`: the node state machine. Every operation is a pure function
 * from the whole state (arena, stopwatches, thread slots, emitted messages) to the next one.
 */
module Profiler {
  import opened Wrappers
  import opened Arena
  import opened ThreadSlot
  import Report

  datatype Level = Info | Debug

  /** One call `ILogger.Info(format, args)` or `ILogger.Debug(format, args)` on logger `logger`. */
  datatype Message = Message(logger: LoggerId, level: Level, format: string, args: seq<string>)

  /** The warning a root logs when `StartStep` is called on it after it was disposed. */
  const DisposedWarning: string := "WARN: bad use of an instance of Profiler[{0}]: object disposed."

  /** An `IProfiler`: the `EmptyProfiler` singleton, or a `Profiler` in the arena. */
  datatype Handle = Empty | Ref(id: NodeId)

  /**
   * Everything the profilers of a process share: the clock reading of the last step, the
   * arena, the stopwatches by root id, the thread slots, the messages sent to the loggers,
   * and the newline `StringWriter.WriteLine` writes.
   */
  datatype State = State(
    clock: nat,
    nodes: Nodes,
    next: NodeId,
    watches: map<NodeId, Watch>,
    slots: Slots,
    log: seq<Message>,
    newline: string)

  /** `c` is a child `n` created: it shares `n`'s stopwatch, started later, and has no logger. */
  predicate ChildOk(nodes: Nodes, n: Node, c: NodeId) {
    c in nodes && nodes[c].watch == n.watch && n.offset <= nodes[c].offset && !nodes[c].IsRoot()
  }

  /** The stopwatch facts of node `x`. */
  predicate Timed(s: State, x: NodeId)
    requires x in s.nodes
  {
    var n := s.nodes[x];
    && n.watch in s.watches && s.watches[n.watch].start <= s.clock
    && n.offset <= Elapsed(s.watches[n.watch], s.clock)
    && (n.IsRoot() ==> n.watch == x && n.offset == 0 && (s.watches[x].frozen.Some? ==> n.disposed))
    && (!n.IsRoot() ==> !n.notify)
    && (!n.disposed ==> n.duration == 0)
  }

  /** The tree facts of node `x`: its stopwatch is its root's, and its children fit behind it. */
  predicate Linked(nodes: Nodes, x: NodeId)
    requires x in nodes
  {
    var n := nodes[x];
    && n.watch in nodes && nodes[n.watch].IsRoot()
    && (forall i | 0 <= i < |n.children| :: ChildOk(nodes, n, n.children[i]))
    && (forall i, j | 0 <= i < j < |n.children| ::
          nodes[n.children[i]].offset <= nodes[n.children[j]].offset)
  }

  /** A thread slot holds a root that `StaticThreadProfilerFactory` created, with a notifier. */
  predicate SlotOk(nodes: Nodes, x: NodeId) {
    x in nodes && nodes[x].IsRoot() && nodes[x].notify
  }

  /**
   * The invariant every reachable state keeps: the arena is a forest allocated in order, each
   * node in at most one child list and at most once there; each node runs on its root's
   * stopwatch, started no earlier than its parent and its earlier siblings; a root's stopwatch
   * stops only when the root is disposed; a node not yet disposed has duration 0; every thread
   * slot holds a root created with a notifier.
   */
  predicate Valid(s: State) {
    && Ordered(s.nodes, s.next)
    && Forest(s.nodes)
    && Report.NewLineOk(s.newline)
    && (forall w | w in s.watches :: w < s.next && s.watches[w].start <= s.clock)
    && (forall x | x in s.nodes :: Timed(s, x))
    && (forall x {:trigger Linked(s.nodes, x)} | x in s.nodes :: Linked(s.nodes, x))
    && (forall t | t in s.slots :: SlotOk(s.nodes, s.slots[t]))
  }

  /** The handle is the inert profiler or a node of the arena. */
  predicate Holds(s: State, p: Handle) {
    p.Ref? ==> p.id in s.nodes
  }

  /** A state with no profiler yet. */
  function Init(newline: string): (s: State)
    requires Report.NewLineOk(newline)
    ensures Valid(s) && s.nodes == map[] && s.slots == map[] && s.log == []
  {
    State(0, map[], 0, map[], map[], [], newline)
  }

  /** Nodes keep their stopwatch, offset, logger and notifier from `nodes` to `nodes'`. */
  predicate SameHeaders(nodes: Nodes, nodes': Nodes) {
    forall k | k in nodes ::
      k in nodes' && nodes'[k].watch == nodes[k].watch && nodes'[k].offset == nodes[k].offset
      && nodes'[k].logger == nodes[k].logger && nodes'[k].notify == nodes[k].notify
  }

  /** `SlotOk` reads only the headers. */
  lemma SlotsFrame(nodes: Nodes, nodes': Nodes, slots: Slots)
    requires forall t | t in slots :: SlotOk(nodes, slots[t])
    requires SameHeaders(nodes, nodes')
    ensures forall t | t in slots :: SlotOk(nodes', slots[t])
  {
  }

  /** `Linked` reads only the node itself and the headers of other nodes. */
  lemma LinkedFrame(nodes: Nodes, nodes': Nodes, x: NodeId)
    requires x in nodes && Linked(nodes, x) && SameHeaders(nodes, nodes')
    requires x in nodes' && nodes'[x].children == nodes[x].children
    ensures Linked(nodes', x)
  {
    var n := nodes[x];
    forall i | 0 <= i < |n.children|
      ensures ChildOk(nodes', nodes'[x], n.children[i])
    {
      assert ChildOk(nodes, n, n.children[i]);
    }
    forall i, j | 0 <= i < j < |n.children|
      ensures nodes'[n.children[i]].offset <= nodes'[n.children[j]].offset
    {
      assert ChildOk(nodes, n, n.children[i]);
      assert ChildOk(nodes, n, n.children[j]);
    }
  }

  /** A node with no children is linked when its stopwatch is a root's. */
  lemma LinkedLeaf(nodes: Nodes, x: NodeId)
    requires x in nodes && nodes[x].children == []
    requires nodes[x].watch in nodes && nodes[nodes[x].watch].IsRoot()
    ensures Linked(nodes, x)
  {
  }

  /** Time passes: the clock moves to `now`. */
  function Tick(s: State, now: nat): (r: State)
    requires Valid(s) && s.clock <= now
    ensures Valid(r) && r.clock == now
    ensures r.(clock := s.clock) == s
  {
    var r := s.(clock := now);
    forall x | x in s.nodes
      ensures Timed(r, x)
    {
      assert Timed(s, x);
      ElapsedMonotonic(s.watches[s.nodes[x].watch], s.clock, now);
    }
    r
  }

  /** What a step hands back: the next state and the profiler it returns. */
  datatype Started = Started(state: State, profiler: Handle)

  /**
   * The root constructor `Profiler(notifyDisposed, logger, name)`: a new root on a new
   * stopwatch started at `now`.
   */
  function NewRoot(s: State, logger: LoggerId, notify: bool, name: string, now: nat): (r: Started)
    requires Valid(s) && s.clock <= now
    ensures Valid(r.state) && r.state.clock == now
    ensures r.profiler == Ref(s.next) && s.next !in s.nodes && r.state.next == s.next + 1
    ensures r.state.nodes == s.nodes[s.next := Node(name, s.next, 0, 0, [], false, Some(logger), notify)]
    ensures r.state.watches == s.watches[s.next := Watch(now, None)]
    ensures r.state.slots == s.slots && r.state.log == s.log && r.state.newline == s.newline
  {
    var t := Tick(s, now);
    var id := s.next;
    var n := Node(name, id, 0, 0, [], false, Some(logger), notify);
    var st := t.(nodes := t.nodes[id := n], next := id + 1, watches := t.watches[id := Watch(now, None)]);
    NewRootValid(t, st, n);
    Started(st, Ref(id))
  }

  lemma NewRootValid(t: State, st: State, n: Node)
    requires Valid(t)
    requires n.watch == t.next && n.offset == 0 && n.duration == 0 && n.children == []
    requires !n.disposed && n.IsRoot()
    requires st == t.(nodes := t.nodes[t.next := n], next := t.next + 1,
                      watches := t.watches[t.next := Watch(t.clock, None)])
    ensures Valid(st)
  {
    var id := t.next;
    assert id !in t.nodes;
    OrderedAdd(t.nodes, t.next, n);
    ForestAdd(t.nodes, t.next, n);
    assert SameHeaders(t.nodes, st.nodes);
    SlotsFrame(t.nodes, st.nodes, t.slots);
    forall x | x in st.nodes
      ensures Timed(st, x) && Linked(st.nodes, x)
    {
      if x != id {
        assert Timed(t, x);
        assert Linked(t.nodes, x);
        LinkedFrame(t.nodes, st.nodes, x);
      } else {
        LinkedLeaf(st.nodes, x);
      }
    }
  }

  /**
   * `IProfiler.StartStep(name)`. On the inert profiler it returns itself; on a disposed node it
   * returns the inert profiler and, on a root, logs a debug warning; otherwise it appends a new
   * child whose offset is the shared stopwatch's reading now.
   */
  function StartStep(s: State, p: Handle, name: string, now: nat): (r: Started)
    requires Valid(s) && s.clock <= now && Holds(s, p)
    ensures Valid(r.state) && r.state.clock == now
    ensures r.state.watches == s.watches && r.state.slots == s.slots && r.state.newline == s.newline
    ensures p.Empty? ==> r == Started(Tick(s, now), Empty)
    ensures p.Ref? && s.nodes[p.id].disposed ==>
      && r.profiler == Empty
      && r.state.nodes == s.nodes && r.state.next == s.next
      && r.state.log == s.log + (if s.nodes[p.id].IsRoot() then
           [Message(s.nodes[p.id].logger.value, Debug, DisposedWarning, [s.nodes[p.id].name])] else [])
    ensures p.Ref? && !s.nodes[p.id].disposed ==>
      var n := s.nodes[p.id];
      && r.profiler == Ref(s.next) && s.next !in s.nodes && r.state.next == s.next + 1
      && r.state.log == s.log
      && r.state.nodes.Keys == s.nodes.Keys + {s.next}
      && r.state.nodes[p.id] == n.(children := n.children + [s.next])
      && (forall x | x in s.nodes && x != p.id :: r.state.nodes[x] == s.nodes[x])
      && r.state.nodes[s.next] == Node(name, n.watch, Elapsed(s.watches[n.watch], now), 0, [], false, None, false)
  {
    var t := Tick(s, now);
    match p
    case Empty => Started(t, Empty)
    case Ref(id) =>
      var n := s.nodes[id];
      if n.disposed then
        var log := if n.IsRoot() then t.log + [Message(n.logger.value, Debug, DisposedWarning, [n.name])] else t.log;
        Started(t.(log := log), Empty)
      else AddChild(t, id, name)
  }

  /**
   * The live branch of `StartStep`: a child named `name`, offset by the root stopwatch's
   * reading, appended behind the existing children of `id`.
   */
  function AddChild(t: State, id: NodeId, name: string): (r: Started)
    requires Valid(t) && id in t.nodes && !t.nodes[id].disposed
    ensures Valid(r.state) && r.state.clock == t.clock
    ensures r.state.watches == t.watches && r.state.slots == t.slots && r.state.newline == t.newline
    ensures r.state.log == t.log
    ensures r.profiler == Ref(t.next) && t.next !in t.nodes && r.state.next == t.next + 1
    ensures r.state.nodes.Keys == t.nodes.Keys + {t.next}
    ensures r.state.nodes[id] == t.nodes[id].(children := t.nodes[id].children + [t.next])
    ensures forall x | x in t.nodes && x != id :: r.state.nodes[x] == t.nodes[x]
    ensures r.state.nodes[t.next] == Node(name, t.nodes[id].watch,
      Elapsed(t.watches[t.nodes[id].watch], t.clock), 0, [], false, None, false)
  {
    var n := t.nodes[id];
    var c := t.next;
    assert Timed(t, id);
    var child := Node(name, n.watch, Elapsed(t.watches[n.watch], t.clock), 0, [], false, None, false);
    var st := t.(nodes := t.nodes[id := n.(children := n.children + [c])][c := child], next := c + 1);
    StartStepValid(t, st, id, c, name);
    Started(st, Ref(c))
  }

  /** `Valid`, conjunct by conjunct. */
  lemma ValidIntro(s: State)
    requires Ordered(s.nodes, s.next) && Forest(s.nodes)
    requires Report.NewLineOk(s.newline)
    requires forall w | w in s.watches :: w < s.next && s.watches[w].start <= s.clock
    requires forall x | x in s.nodes :: Timed(s, x)
    requires forall x | x in s.nodes :: Linked(s.nodes, x)
    requires forall t | t in s.slots :: SlotOk(s.nodes, s.slots[t])
    ensures Valid(s)
  {
  }

  /** The node map after `StartStep` on `id` appended child `c` named `name`. */
  predicate Appended(t: State, nodes': Nodes, id: NodeId, c: NodeId, name: string)
    requires id in t.nodes && t.nodes[id].watch in t.watches && t.watches[t.nodes[id].watch].start <= t.clock
  {
    var n := t.nodes[id];
    nodes' == t.nodes[id := n.(children := n.children + [c])]
                [c := Node(name, n.watch, Elapsed(t.watches[n.watch], t.clock), 0, [], false, None, false)]
  }

  /** The part of `StartStep` that keeps the invariant: the new child fits behind its siblings. */
  lemma StartStepValid(t: State, st: State, id: NodeId, c: NodeId, name: string)
    requires Valid(t) && id in t.nodes && !t.nodes[id].disposed && c == t.next
    requires Appended(t, st.nodes, id, c, name)
    requires st.next == c + 1 && st.clock == t.clock && st.watches == t.watches
    requires st.slots == t.slots && st.newline == t.newline
    ensures Valid(st)
  {
    assert Timed(t, id);
    OrderedAppend(t.nodes, t.next, id, st.nodes[c]);
    ForestAppend(t.nodes, t.next, id, st.nodes[c]);
    StartStepTimed(t, st, id, c, name);
    StartStepLinked(t, st.nodes, id, c, name);
    AppendedHeaders(t, st.nodes, id, c, name);
    SlotsFrame(t.nodes, st.nodes, t.slots);
    ValidIntro(st);
  }

  lemma AppendedHeaders(t: State, nodes': Nodes, id: NodeId, c: NodeId, name: string)
    requires Valid(t) && id in t.nodes && c == t.next
    requires Appended(t, nodes', id, c, name)
    ensures SameHeaders(t.nodes, nodes')
  {
    assert c !in t.nodes;
  }

  lemma StartStepTimed(t: State, st: State, id: NodeId, c: NodeId, name: string)
    requires Valid(t) && id in t.nodes && c == t.next
    requires Appended(t, st.nodes, id, c, name)
    requires st.clock == t.clock && st.watches == t.watches
    ensures forall x | x in st.nodes :: Timed(st, x)
  {
    assert Timed(t, id);
    forall x | x in st.nodes
      ensures Timed(st, x)
    {
      if x != c {
        assert Timed(t, x);
      }
    }
  }

  lemma StartStepLinked(t: State, nodes': Nodes, id: NodeId, c: NodeId, name: string)
    requires Valid(t) && id in t.nodes && c == t.next
    requires Appended(t, nodes', id, c, name)
    ensures forall x | x in nodes' :: Linked(nodes', x)
  {
    assert c !in t.nodes;
    assert Timed(t, id) && Linked(t.nodes, id);
    assert SameHeaders(t.nodes, nodes');
    forall x | x in nodes'
      ensures Linked(nodes', x)
    {
      if x == c {
        LinkedLeaf(nodes', x);
      } else if x == id {
        ParentLinked(t, nodes', id, c);
      } else {
        assert Linked(t.nodes, x);
        LinkedFrame(t.nodes, nodes', x);
      }
    }
  }

  /** After the append the parent's children, old and new, are in start order behind it. */
  lemma ParentLinked(t: State, nodes': Nodes, id: NodeId, c: NodeId)
    requires Valid(t) && id in t.nodes && c !in t.nodes
    requires var n := t.nodes[id];
      && nodes'.Keys == t.nodes.Keys + {c}
      && nodes'[id] == n.(children := n.children + [c])
      && (forall x | x in t.nodes && x != id :: nodes'[x] == t.nodes[x])
      && nodes'[c].watch == n.watch && !nodes'[c].IsRoot()
      && nodes'[c].offset == Elapsed(t.watches[n.watch], t.clock)
    ensures Linked(nodes', id)
  {
    var n := t.nodes[id];
    assert Timed(t, id) && Linked(t.nodes, id);
    var ch := n.children + [c];
    forall i | 0 <= i < |ch|
      ensures ChildOk(nodes', nodes'[id], ch[i])
    {
      if i < |n.children| {
        assert ChildOk(t.nodes, n, n.children[i]);
      }
    }
    forall i, j | 0 <= i < j < |ch|
      ensures nodes'[ch[i]].offset <= nodes'[ch[j]].offset
    {
      assert ChildOk(t.nodes, n, ch[i]);
      assert Timed(t, ch[i]);
      if j < |n.children| {
        assert ChildOk(t.nodes, n, ch[j]);
      }
    }
  }

  /**
   * `IProfiler.StartStep(nameFormat, args)`, its own copy of the code of `StartStep(name)`:
   * the same disposed check and warning, and a child named `string.Format(nameFormat, args)`,
   * given here as `format`. It agrees with `StartStep` on the formatted name.
   */
  function StartStepFormat<A>(s: State, p: Handle, nameFormat: string, args: seq<A>,
                              format: (string, seq<A>) -> string, now: nat): (r: Started)
    requires Valid(s) && s.clock <= now && Holds(s, p)
    ensures r == StartStep(s, p, format(nameFormat, args), now)
    ensures p.Ref? && !s.nodes[p.id].disposed ==> r.state.nodes[s.next].name == format(nameFormat, args)
  {
    var t := Tick(s, now);
    match p
    case Empty => Started(t, Empty)
    case Ref(id) =>
      var n := s.nodes[id];
      if n.disposed then
        var log := if n.IsRoot() then t.log + [Message(n.logger.value, Debug, DisposedWarning, [n.name])] else t.log;
        Started(t.(log := log), Empty)
      else AddChild(t, id, format(nameFormat, args))
  }

  /**
   * `Discard` on node `id`: if not yet disposed, mark it disposed, discard each child in turn,
   * then clear its child list.
   */
  function DiscardNode(nodes: Nodes, next: nat, id: NodeId): (r: Nodes)
    requires Ordered(nodes, next) && id in nodes
    ensures r.Keys == nodes.Keys && Ordered(r, next)
    ensures forall x | x in nodes :: r[x] == nodes[x] || r[x] == Marked(nodes[x])
    ensures forall x | x in nodes && x < id :: r[x] == nodes[x]
    decreases next - id + 1, 0
  {
    var n := nodes[id];
    if n.disposed then nodes
    else
      var n1 := n.(disposed := true);
      OrderedUpdate(nodes, next, id, n1);
      var m := DiscardList(nodes[id := n1], next, n.children, id);
      assert m[id] == n1;
      OrderedShrink(m, next, id, m[id].(children := []));
      m[id := m[id].(children := [])]
  }

  /** The `foreach (var c in _children) c.Discard()` loop. */
  function DiscardList(nodes: Nodes, next: nat, ids: seq<NodeId>, parent: NodeId): (r: Nodes)
    requires Ordered(nodes, next) && parent < next
    requires forall k | k in ids :: parent < k && k in nodes
    ensures r.Keys == nodes.Keys && Ordered(r, next)
    ensures forall x | x in nodes :: r[x] == nodes[x] || r[x] == Marked(nodes[x])
    ensures forall x | x in nodes && x <= parent :: r[x] == nodes[x]
    decreases next - parent, |ids|
  {
    if ids == [] then nodes
    else
      assert ids[0] in ids;
      DiscardList(DiscardNode(nodes, next, ids[0]), next, ids[1..], parent)
  }

  /**
   * Discarding `id` marks exactly the nodes it reaches through nodes not yet disposed, and
   * changes nothing else: the sequential walk equals the declarative description.
   */
  lemma {:induction false} DiscardNodeMarks(nodes: Nodes, next: nat, id: NodeId)
    requires Ordered(nodes, next) && id in nodes
    ensures DiscardNode(nodes, next, id) == MarkAll(nodes, ReachLive(nodes, next, id))
    decreases next - id + 1, 0
  {
    var n := nodes[id];
    if !n.disposed {
      var m1 := nodes[id := n.(disposed := true)];
      OrderedUpdate(nodes, next, id, n.(disposed := true));
      DiscardListMarks(m1, next, n.children, id);
      ReachLiveListFrame(nodes, m1, next, n.children, id);
      MarkAllAround(nodes, id, ReachLiveList(nodes, next, n.children, id));
    }
  }

  lemma {:induction false} DiscardListMarks(nodes: Nodes, next: nat, ids: seq<NodeId>, parent: NodeId)
    requires Ordered(nodes, next) && parent < next
    requires forall k | k in ids :: parent < k && k in nodes
    ensures DiscardList(nodes, next, ids, parent) == MarkAll(nodes, ReachLiveList(nodes, next, ids, parent))
    decreases next - parent, |ids|
  {
    if ids != [] {
      var k := ids[0];
      assert k in ids;
      var a := ReachLive(nodes, next, k);
      assert forall j | j in ids[1..] :: j in ids;
      var b := ReachLiveList(nodes, next, ids[1..], parent);
      DiscardNodeMarks(nodes, next, k);
      forall x | x in a
        ensures x in nodes && ReachLive(nodes, next, x) <= a
      {
        ReachLiveClosed(nodes, next, k, x);
      }
      var m1 := MarkAll(nodes, a);
      ReachLiveListAfterMark(nodes, next, a, ids[1..], parent);
      DiscardListMarks(m1, next, ids[1..], parent);
      MarkAllTwice(nodes, a, b - a);
      assert a + (b - a) == a + b;
    }
  }

  /** Marking keeps the invariant: a marked node has no children and is disposed. */
  lemma MarkAllValid(s: State, a: set<NodeId>)
    requires Valid(s)
    ensures Valid(s.(nodes := MarkAll(s.nodes, a)))
  {
    var r := s.(nodes := MarkAll(s.nodes, a));
    MarkAllOrdered(s.nodes, s.next, a);
    MarkAllForest(s.nodes, a);
    assert SameHeaders(s.nodes, r.nodes);
    SlotsFrame(s.nodes, r.nodes, s.slots);
    forall x | x in r.nodes
      ensures Timed(r, x) && Linked(r.nodes, x)
    {
      assert Timed(s, x);
      assert Linked(s.nodes, x);
      if x in a {
        LinkedLeaf(r.nodes, x);
      } else {
        LinkedFrame(s.nodes, r.nodes, x);
      }
    }
  }

  /**
   * `Profiler.Discard`, and `EmptyProfiler.Discard` which does nothing. It touches no
   * duration, no stopwatch, no slot and no logger.
   */
  function Discard(s: State, p: Handle): (r: State)
    requires Valid(s) && Holds(s, p)
    ensures Valid(r)
    ensures r == s.(nodes := r.nodes)
    ensures p.Empty? ==> r == s
    ensures p.Ref? ==> r.nodes == MarkAll(s.nodes, ReachLive(s.nodes, s.next, p.id))
  {
    match p
    case Empty => s
    case Ref(id) =>
      DiscardNodeMarks(s.nodes, s.next, id);
      MarkAllValid(s, ReachLive(s.nodes, s.next, id));
      s.(nodes := DiscardNode(s.nodes, s.next, id))
  }

  /** The state after a live node's duration is fixed: `_watchStop = _watch.ElapsedMilliseconds - _watchCount`. */
  function Finish(s: State, id: NodeId, now: nat): (r: State)
    requires Valid(s) && s.clock <= now && id in s.nodes && !s.nodes[id].disposed
    ensures Valid(r) && r.clock == now
    ensures r == Tick(s, now).(nodes := r.nodes)
    ensures r.nodes == s.nodes[id := s.nodes[id].(disposed := true,
      duration := Elapsed(s.watches[s.nodes[id].watch], now) - s.nodes[id].offset)]
  {
    var t := Tick(s, now);
    var n := s.nodes[id];
    assert Timed(t, id);
    var n1 := n.(disposed := true, duration := Elapsed(t.watches[n.watch], now) - n.offset);
    var r := t.(nodes := t.nodes[id := n1]);
    FinishValid(t, r, id, n1);
    r
  }

  /** Fixing a node's duration and marking it disposed keeps the invariant. */
  lemma FinishValid(t: State, r: State, id: NodeId, n1: Node)
    requires Valid(t) && id in t.nodes
    requires n1 == t.nodes[id].(disposed := true, duration := n1.duration)
    requires r == t.(nodes := t.nodes[id := n1])
    ensures Valid(r)
  {
    OrderedUpdate(t.nodes, t.next, id, n1);
    ForestUpdate(t.nodes, id, n1);
    assert SameHeaders(t.nodes, r.nodes);
    SlotsFrame(t.nodes, r.nodes, t.slots);
    forall x | x in r.nodes
      ensures Timed(r, x) && Linked(r.nodes, x)
    {
      assert Timed(t, x);
      assert Linked(t.nodes, x);
      LinkedFrame(t.nodes, r.nodes, x);
    }
    ValidIntro(r);
  }

  /**
   * `Dispose(disposing)` on a profiler, at clock reading `now`, run by thread `thread`. The
   * first call on a node fixes its duration; on a root it also reports (see `DisposeRoot`).
   * Every other call, and any call on the inert profiler, changes nothing.
   */
  function Dispose(s: State, p: Handle, disposing: bool, thread: ThreadId, now: nat, renderTime: nat): (r: State)
    requires Valid(s) && s.clock <= now && Holds(s, p)
    ensures Valid(r)
    ensures !disposing || p.Empty? || s.nodes[p.id].disposed ==> r == Tick(s, now)
    ensures disposing && p.Ref? && !s.nodes[p.id].disposed ==>
      var n := s.nodes[p.id];
      && r.nodes == s.nodes[p.id := n.(disposed := true,
           duration := Elapsed(s.watches[n.watch], now) - n.offset)]
      && (!n.IsRoot() ==> r == Tick(s, now).(nodes := r.nodes))
      && (n.IsRoot() ==>
           && r.nodes[p.id].duration == now - s.watches[p.id].start
           && r == DisposeRoot(Finish(s, p.id, now), p.id, thread, renderTime))
  {
    if !disposing || p.Empty? then Tick(s, now)
    else
      var id := p.id;
      var n := s.nodes[id];
      if n.disposed then Tick(s, now)
      else
        var f := Finish(s, id, now);
        if !n.IsRoot() then f
        else
          FinishRoot(s, id, now);
          DisposeRoot(f, id, thread, renderTime)
  }

  /** Fixing a root's duration leaves its own stopwatch running, and the duration is its reading. */
  lemma FinishRoot(s: State, id: NodeId, now: nat)
    requires Valid(s) && s.clock <= now && id in s.nodes && !s.nodes[id].disposed && s.nodes[id].IsRoot()
    ensures var f := Finish(s, id, now);
      && f.nodes[id].IsRoot() && f.nodes[id].disposed && f.watches[id].frozen.None?
      && f.nodes[id].duration == Elapsed(f.watches[id], f.clock) == now - s.watches[id].start
  {
    assert Timed(s, id);
  }

  /**
   * The root branch of `Dispose`, once the duration is fixed: notify the factory (clearing
   * the disposing thread's slot), render the tree, stop the stopwatch `renderTime`
   * milliseconds later, and send the report to the logger as one Info message. The measure
   * overhead, stopwatch reading at the stop minus the duration, is `renderTime`.
   */
  function DisposeRoot(f: State, id: NodeId, thread: ThreadId, renderTime: nat): (r: State)
    requires Valid(f) && id in f.nodes && f.nodes[id].IsRoot() && f.nodes[id].disposed
    requires f.watches[id].frozen.None? && f.nodes[id].duration == Elapsed(f.watches[id], f.clock)
    ensures Valid(r)
    ensures r.nodes == f.nodes && r.next == f.next && r.newline == f.newline
    ensures r.clock == f.clock + renderTime
    ensures r.slots == if f.nodes[id].notify then Disposed(f.slots, thread) else f.slots
    ensures r.watches == f.watches[id := Stop(f.watches[id], f.clock + renderTime)]
    ensures r.log == f.log + [Message(f.nodes[id].logger.value, Info,
      Report.Report(f.nodes, f.next, id, renderTime, f.newline), [])]
  {
    var n := f.nodes[id];
    var slots := if n.notify then Disposed(f.slots, thread) else f.slots;
    assert slots.Keys <= f.slots.Keys && forall t | t in slots :: slots[t] == f.slots[t];
    var stopAt := f.clock + renderTime;
    var w0 := f.watches[id];
    var w := Stop(w0, stopAt);
    StopOverhead(w0, f.clock, renderTime);
    assert w == Watch(w0.start, Some(n.duration + renderTime));
    // the measure overhead, the stopped watch's reading minus the duration
    var overhead := Elapsed(w, stopAt) - n.duration;
    assert overhead == renderTime;
    var text' := Report.Report(f.nodes, f.next, id, overhead, f.newline);
    var r := f.(clock := stopAt, watches := f.watches[id := w], slots := slots,
                log := f.log + [Message(n.logger.value, Info, text', [])]);
    DisposeRootValid(f, r, id, stopAt);
    r
  }

  lemma DisposeRootValid(f: State, r: State, id: NodeId, stopAt: nat)
    requires Valid(f) && f.clock <= stopAt && id in f.nodes && f.nodes[id].IsRoot() && f.nodes[id].disposed
    requires r.nodes == f.nodes && r.next == f.next && r.newline == f.newline && r.clock == stopAt
    requires id in f.watches && r.watches == f.watches[id := Stop(f.watches[id], stopAt)]
    requires r.slots.Keys <= f.slots.Keys && forall t | t in r.slots :: r.slots[t] == f.slots[t]
    ensures Valid(r)
  {
    forall x | x in r.nodes
      ensures Timed(r, x)
    {
      assert Timed(f, x);
      ElapsedMonotonic(f.watches[f.nodes[x].watch], f.clock, stopAt);
    }
    assert forall x | x in r.nodes :: Linked(r.nodes, x) by {
      forall x | x in r.nodes
        ensures Linked(r.nodes, x)
      {
        assert Linked(f.nodes, x);
      }
    }
    ValidIntro(r);
  }
}
