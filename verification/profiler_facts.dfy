/**
 * What a sequence of `Profiler` calls promises: `Dispose` and `Discard` are idempotent, a
 * disposed or discarded profiler hands out only the inert one, durations are measured on the
 * root's stopwatch, and a root reports once, in the shape `Report.ReportLines` describes.
 */
module ProfilerFacts {
  import opened Arena
  import opened ThreadSlot
  import opened Profiler
  import Report
  import Text

  /** The stopwatch node `id` runs on belongs to a root not yet disposed. */
  predicate RootLive(s: State, id: NodeId)
    requires id in s.nodes
  {
    var w := s.nodes[id].watch;
    w in s.nodes && !s.nodes[w].disposed
  }

  /**
   * A node is listed under one parent, once: every profiler's `_children` holds its own
   * children, so no node is rendered twice in a report.
   */
  lemma OneParent(s: State, x: NodeId, y: NodeId, k: NodeId)
    requires Valid(s) && x in s.nodes && y in s.nodes
    requires k in s.nodes[x].children && k in s.nodes[y].children
    ensures x == y
    ensures forall i, j | 0 <= i < j < |s.nodes[x].children| :: s.nodes[x].children[i] != s.nodes[x].children[j]
  {
    assert Apart(s.nodes, x, y);
    assert Increasing(s.nodes[x].children);
  }

  /** A second `Dispose` of the same profiler changes nothing but the clock. */
  lemma DisposeIdempotent(s: State, p: Handle, thread: ThreadId, now: nat, renderTime: nat,
                          r: State, disposing': bool, thread': ThreadId, now': nat, renderTime': nat)
    requires Valid(s) && s.clock <= now && Holds(s, p)
    requires r == Dispose(s, p, true, thread, now, renderTime) && r.clock <= now'
    ensures Holds(r, p)
    ensures Dispose(r, p, disposing', thread', now', renderTime') == Tick(r, now')
  {
    if p.Ref? && !s.nodes[p.id].disposed {
      assert r.nodes[p.id].disposed;
    }
  }

  /**
   * A node's duration is the time from its own start, `offset` milliseconds after its root's,
   * to its first `Dispose`, as long as its root's stopwatch still runs.
   */
  lemma DisposeMeasuresFromStart(s: State, id: NodeId, thread: ThreadId, now: nat, renderTime: nat)
    requires Valid(s) && s.clock <= now && id in s.nodes && !s.nodes[id].disposed
    requires RootLive(s, id)
    ensures var n := s.nodes[id];
      var r := Dispose(s, Ref(id), true, thread, now, renderTime);
      && s.watches[n.watch].start + n.offset + r.nodes[id].duration == now
      && r.nodes[id].disposed
  {
    var n := s.nodes[id];
    assert Timed(s, id);
    assert Linked(s.nodes, id);
    assert Timed(s, n.watch);
  }

  /**
   * A new step's offset is the time since its root started, as long as the root is live; it is
   * no earlier than its parent's offset and than any earlier sibling's.
   */
  lemma StartStepOffset(s: State, id: NodeId, name: string, now: nat)
    requires Valid(s) && s.clock <= now && id in s.nodes && !s.nodes[id].disposed
    ensures var r := StartStep(s, Ref(id), name, now);
      var n := s.nodes[id];
      var c := r.state.nodes[s.next];
      && r.profiler == Ref(s.next)
      && c.watch == n.watch && n.offset <= c.offset
      && (forall k | k in n.children :: r.state.nodes[k].offset <= c.offset)
      && (RootLive(s, id) ==> c.offset == now - s.watches[n.watch].start)
  {
    var n := s.nodes[id];
    var r := StartStep(s, Ref(id), name, now);
    assert Linked(r.state.nodes, id);
    var ch := r.state.nodes[id].children;
    assert ch[|ch| - 1] == s.next;
    forall k | k in n.children
      ensures r.state.nodes[k].offset <= r.state.nodes[s.next].offset
    {
      var i :| 0 <= i < |n.children| && n.children[i] == k;
      assert ch[i] == k;
    }
    assert Linked(s.nodes, id);
    assert Timed(s, n.watch);
  }

  /** After a `Dispose` the profiler hands out only the inert one; only a root warns. */
  lemma StartStepAfterDispose(s: State, id: NodeId, thread: ThreadId, now: nat, renderTime: nat,
                              r: State, name: string, now': nat)
    requires Valid(s) && s.clock <= now && id in s.nodes
    requires r == Dispose(s, Ref(id), true, thread, now, renderTime) && r.clock <= now'
    ensures id in r.nodes
    ensures var t := StartStep(r, Ref(id), name, now');
      && t.profiler == Empty && t.state.nodes == r.nodes
      && t.state.log == r.log + (if s.nodes[id].IsRoot() then
           [Message(s.nodes[id].logger.value, Debug, DisposedWarning, [s.nodes[id].name])] else [])
  {
    assert r.nodes[id].disposed;
    assert r.nodes[id].name == s.nodes[id].name && r.nodes[id].logger == s.nodes[id].logger;
  }

  /** Discarding a profiler that was just discarded changes nothing. */
  lemma DiscardIdempotent(s: State, p: Handle)
    requires Valid(s) && Holds(s, p)
    ensures Holds(Discard(s, p), p)
    ensures Discard(Discard(s, p), p) == Discard(s, p)
  {
    var r := Discard(s, p);
    if p.Ref? {
      assert r.nodes[p.id].disposed;
      assert ReachLive(r.nodes, r.next, p.id) == {};
      assert MarkAll(r.nodes, {}) == r.nodes;
    }
  }

  /**
   * `Discard` marks the node and everything it reaches through live nodes: each of them is
   * disposed with no children left and keeps the duration it had, 0 for a node that was live.
   * Every other node, its parent included, is left as it was.
   */
  lemma DiscardMarks(s: State, id: NodeId, x: NodeId)
    requires Valid(s) && id in s.nodes && x in s.nodes
    ensures var r := Discard(s, Ref(id));
      && (x in ReachLive(s.nodes, s.next, id) ==>
            r.nodes[x] == s.nodes[x].(disposed := true, children := []) && r.nodes[x].duration == 0)
      && (x !in ReachLive(s.nodes, s.next, id) ==> r.nodes[x] == s.nodes[x])
      && (x < id ==> r.nodes[x] == s.nodes[x])
  {
    assert Timed(s, x);
  }

  /**
   * A discarded step stays in its parent's list and shows in the parent's report as one line
   * of 0 ms with no lines below it.
   */
  lemma DiscardedChildReportsZero(s: State, q: NodeId, i: nat, depth: nat)
    requires Valid(s) && q in s.nodes && i < |s.nodes[q].children|
    requires !s.nodes[s.nodes[q].children[i]].disposed
    ensures var c := s.nodes[q].children[i];
      var r := Discard(s, Ref(c));
      && r.nodes[q] == s.nodes[q]
      && Report.Preorder(r.nodes, r.next, c, depth)
           == [Report.Entry(depth, s.nodes[c].name, 0, s.nodes[c].offset)]
  {
    var c := s.nodes[q].children[i];
    assert c in s.nodes[q].children;
    var r := Discard(s, Ref(c));
    DiscardMarks(s, c, q);
    DiscardMarks(s, c, c);
    assert r.nodes[c].children == [];
    assert Report.PreorderList(r.nodes, r.next, [], c, depth + 1) == [];
  }

  /** A discarded profiler never reports: its `Dispose` changes nothing but the clock. */
  lemma DisposeAfterDiscard(s: State, p: Handle, disposing: bool, thread: ThreadId, now: nat, renderTime: nat)
    requires Valid(s) && Holds(s, p) && s.clock <= now
    ensures var r := Discard(s, p);
      Holds(r, p) && Dispose(r, p, disposing, thread, now, renderTime) == Tick(r, now)
  {
    var r := Discard(s, p);
    if p.Ref? {
      assert r.nodes[p.id].disposed;
    }
  }

  /** After a `Discard` the profiler hands out only the inert one; only a root warns. */
  lemma StartStepAfterDiscard(s: State, id: NodeId, name: string, now: nat)
    requires Valid(s) && id in s.nodes && s.clock <= now
    ensures var r := Discard(s, Ref(id));
      var t := StartStep(r, Ref(id), name, now);
      && t.profiler == Empty && t.state.nodes == r.nodes
      && t.state.log == s.log + (if s.nodes[id].IsRoot() then
           [Message(s.nodes[id].logger.value, Debug, DisposedWarning, [s.nodes[id].name])] else [])
  {
    DiscardMarks(s, id, id);
  }

  /**
   * Every `Dispose` other than the first `Dispose(true)` of a root sends nothing and leaves
   * the slots and the stopwatches alone.
   */
  lemma DisposeQuiet(s: State, p: Handle, disposing: bool, thread: ThreadId, now: nat, renderTime: nat)
    requires Valid(s) && s.clock <= now && Holds(s, p)
    requires !(disposing && p.Ref? && !s.nodes[p.id].disposed && s.nodes[p.id].IsRoot())
    ensures var r := Dispose(s, p, disposing, thread, now, renderTime);
      r.log == s.log && r.slots == s.slots && r.watches == s.watches
  {
    var r := Dispose(s, p, disposing, thread, now, renderTime);
    assert r.(nodes := s.nodes, clock := s.clock) == s;
  }

  /**
   * The first `Dispose(true)` of a root sends exactly one message: an Info message to the
   * root's logger whose text is the report's lines joined by the newline.
   */
  lemma RootDisposeReports(s: State, id: NodeId, thread: ThreadId, now: nat, renderTime: nat)
    requires Valid(s) && s.clock <= now && id in s.nodes
    requires !s.nodes[id].disposed && s.nodes[id].IsRoot()
    ensures var r := Dispose(s, Ref(id), true, thread, now, renderTime);
      var lines := Report.ReportLines(r.nodes, r.next, id, renderTime);
      r.log == s.log + [Message(s.nodes[id].logger.value, Info, Text.Join(lines, r.newline), [])]
  {
    var r := Dispose(s, Ref(id), true, thread, now, renderTime);
    var f := Finish(s, id, now);
    assert r == DisposeRoot(f, id, thread, renderTime);
    assert f.log == s.log && f.nodes[id].logger == s.nodes[id].logger;
    assert r.nodes == f.nodes && r.next == f.next && r.newline == f.newline;
  }

  /**
   * The report's first line gives the root's duration, the time since its stopwatch started;
   * its last line is the overhead line exactly when rendering took time.
   */
  lemma RootDisposeReportShape(s: State, id: NodeId, thread: ThreadId, now: nat, renderTime: nat)
    requires Valid(s) && s.clock <= now && id in s.nodes
    requires !s.nodes[id].disposed && s.nodes[id].IsRoot()
    ensures var r := Dispose(s, Ref(id), true, thread, now, renderTime);
      var n := r.nodes[id];
      var lines := Report.ReportLines(r.nodes, r.next, id, renderTime);
      && n.name == s.nodes[id].name && n.duration == now - s.watches[id].start
      && lines[0] == Report.RootLine(n.name, n.duration)
      && (lines[|lines| - 1] == Report.OverheadLine(renderTime) <==> renderTime != 0)
  {
    var r := Dispose(s, Ref(id), true, thread, now, renderTime);
    Report.ReportLinesEnds(r.nodes, r.next, id, renderTime);
  }
}
