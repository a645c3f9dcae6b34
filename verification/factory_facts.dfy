/**
 * How the thread slots of `StaticThreadProfilerFactory` behave over several calls: requests on
 * one thread nest under its root, whichever instance serves them; a root disposed on its own
 * thread frees the slot; a root disposed elsewhere, or discarded, stays in the slot and turns
 * every later request on that thread into the inert profiler.
 */
module FactoryFacts {
  import opened Arena
  import opened ThreadSlot
  import opened Profiler
  import opened Factory

  /**
   * A request on a thread whose slot holds a live root is a step of that root, whichever
   * factory instance serves it: a new child behind the root's children, on the root's
   * stopwatch, offset by the time since the root started, reporting through the root.
   */
  lemma RequestNestsUnderSlotRoot(s: State, f: StaticThreadProfilerFactory, thread: ThreadId, name: string, now: nat)
    requires Valid(s) && s.clock <= now && thread in s.slots && !s.nodes[s.slots[thread]].disposed
    ensures var root := s.slots[thread];
      var r := ThreadStartProfiling(s, f, thread, name, now);
      && r.profiler == Ref(s.next)
      && r.state.slots == s.slots
      && r.state.nodes[root].children == s.nodes[root].children + [s.next]
      && r.state.nodes[s.next].watch == root
      && r.state.nodes[s.next].offset == now - s.watches[root].start
      && !r.state.nodes[s.next].IsRoot()
  {
    var root := s.slots[thread];
    assert SlotOk(s.nodes, root);
    assert Timed(s, root);
  }

  /** A request touches only its own thread's slot. */
  lemma RequestKeepsOtherSlots(s: State, f: StaticThreadProfilerFactory, thread: ThreadId, name: string, now: nat)
    requires Valid(s) && s.clock <= now
    ensures var r := ThreadStartProfiling(s, f, thread, name, now);
      && thread in r.state.slots
      && forall t | t != thread :: (t in r.state.slots <==> t in s.slots)
           && (t in s.slots ==> r.state.slots[t] == s.slots[t])
  {
  }

  /**
   * The root in a thread's slot, disposed on that thread, frees the slot and reports; the
   * other threads' slots stay, and the thread's next request starts a new tree.
   */
  lemma RootDisposeFreesSlot(s: State, f: StaticThreadProfilerFactory, thread: ThreadId, now: nat,
                             renderTime: nat, name: string, now': nat)
    requires Valid(s) && s.clock <= now && now + renderTime <= now'
    requires thread in s.slots && !s.nodes[s.slots[thread]].disposed
    ensures var d := Dispose(s, Ref(s.slots[thread]), true, thread, now, renderTime);
      var r := ThreadStartProfiling(d, f, thread, name, now');
      && d.slots == s.slots - {thread}
      && |d.log| == |s.log| + 1
      && r.profiler == Ref(d.next)
      && r.state.nodes[d.next].IsRoot()
      && r.state.slots == d.slots[thread := d.next]
  {
    assert SlotOk(s.nodes, s.slots[thread]);
  }

  /**
   * A root disposed on a thread other than the one that created it frees the disposing
   * thread's slot, not its own: the creating thread keeps the disposed root and gets the
   * inert profiler, with a warning, from then on.
   */
  lemma CrossThreadDisposeLeavesSlot(s: State, f: StaticThreadProfilerFactory, owner: ThreadId,
                                     other: ThreadId, now: nat, renderTime: nat, name: string, now': nat)
    requires Valid(s) && s.clock <= now && now + renderTime <= now'
    requires owner in s.slots && !s.nodes[s.slots[owner]].disposed && other != owner
    ensures var root := s.slots[owner];
      var d := Dispose(s, Ref(root), true, other, now, renderTime);
      var r := ThreadStartProfiling(d, f, owner, name, now');
      && d.slots == Disposed(s.slots, other)
      && owner in d.slots && d.slots[owner] == root && d.nodes[root].disposed
      && r.profiler == Empty
      && r.state.log == d.log + [Message(s.nodes[root].logger.value, Debug, DisposedWarning, [s.nodes[root].name])]
  {
    assert SlotOk(s.nodes, s.slots[owner]);
  }

  /** A series of requests on one thread and the profilers they returned. */
  datatype Run = Run(state: State, handles: seq<Handle>)

  /** `StartProfiling(names[0])`, `StartProfiling(names[1])`, … on thread `thread`. */
  function StartAll(s: State, f: StaticThreadProfilerFactory, thread: ThreadId, names: seq<string>, now: nat): (r: Run)
    requires Valid(s) && s.clock <= now
    ensures Valid(r.state) && r.state.clock <= now && |r.handles| == |names|
    decreases |names|
  {
    if names == [] then Run(s, [])
    else
      var st := ThreadStartProfiling(s, f, thread, names[0], now);
      var rest := StartAll(st.state, f, thread, names[1..], now);
      Run(rest.state, [st.profiler] + rest.handles)
  }

  /** `k` copies of the warning root `n` logs when used after its disposal. */
  function Warnings(n: Node, k: nat): (r: seq<Message>)
    requires n.IsRoot()
    ensures |r| == k && forall i | 0 <= i < k :: r[i] == Message(n.logger.value, Debug, DisposedWarning, [n.name])
  {
    seq(k, i => Message(n.logger.value, Debug, DisposedWarning, [n.name]))
  }

  lemma WarningsCons(n: Node, k: nat)
    requires n.IsRoot()
    ensures Warnings(n, k + 1) == [Message(n.logger.value, Debug, DisposedWarning, [n.name])] + Warnings(n, k)
  {
  }

  /** One request on a thread whose slot holds a disposed root. */
  lemma RequestOnDisposedSlot(s: State, f: StaticThreadProfilerFactory, thread: ThreadId, name: string, now: nat)
    requires Valid(s) && s.clock <= now && thread in s.slots && s.nodes[s.slots[thread]].disposed
    ensures var n := s.nodes[s.slots[thread]];
      var r := ThreadStartProfiling(s, f, thread, name, now);
      && n.IsRoot()
      && r.profiler == Empty && r.state.nodes == s.nodes && r.state.slots == s.slots
      && r.state.log == s.log + [Message(n.logger.value, Debug, DisposedWarning, [n.name])]
  {
    assert SlotOk(s.nodes, s.slots[thread]);
  }

  /**
   * While a thread's slot holds a disposed root, every request on that thread creates
   * nothing, leaves the slot, and logs one warning.
   */
  lemma {:induction false} DisposedSlotRootPoisons(s: State, f: StaticThreadProfilerFactory, thread: ThreadId,
                                                   names: seq<string>, now: nat)
    requires Valid(s) && s.clock <= now && thread in s.slots && s.nodes[s.slots[thread]].disposed
    ensures var root := s.nodes[s.slots[thread]];
      var r := StartAll(s, f, thread, names, now);
      && root.IsRoot()
      && r.state.nodes == s.nodes && r.state.slots == s.slots
      && r.state.log == s.log + Warnings(root, |names|)
    decreases |names|
  {
    var root := s.nodes[s.slots[thread]];
    assert SlotOk(s.nodes, s.slots[thread]);
    if names != [] {
      var st := ThreadStartProfiling(s, f, thread, names[0], now);
      RequestOnDisposedSlot(s, f, thread, names[0], now);
      DisposedSlotRootPoisons(st.state, f, thread, names[1..], now);
      WarningsCons(root, |names| - 1);
    }
  }

  /** … and returns the inert profiler. */
  lemma {:induction false} DisposedSlotRootGivesEmpty(s: State, f: StaticThreadProfilerFactory, thread: ThreadId,
                                                      names: seq<string>, now: nat)
    requires Valid(s) && s.clock <= now && thread in s.slots && s.nodes[s.slots[thread]].disposed
    ensures forall h | h in StartAll(s, f, thread, names, now).handles :: h == Empty
    decreases |names|
  {
    if names != [] {
      var st := ThreadStartProfiling(s, f, thread, names[0], now);
      RequestOnDisposedSlot(s, f, thread, names[0], now);
      DisposedSlotRootGivesEmpty(st.state, f, thread, names[1..], now);
      var rest := StartAll(st.state, f, thread, names[1..], now);
      assert StartAll(s, f, thread, names, now).handles == [Empty] + rest.handles;
    }
  }

  /** Discarding a thread's root poisons the thread: `Discard` never frees the slot. */
  lemma DiscardPoisonsThread(s: State, f: StaticThreadProfilerFactory, thread: ThreadId,
                             names: seq<string>, now: nat)
    requires Valid(s) && s.clock <= now && thread in s.slots
    ensures var d := Discard(s, Ref(s.slots[thread]));
      && d.slots == s.slots
      && forall h | h in StartAll(d, f, thread, names, now).handles :: h == Empty
  {
    DiscardLeavesSlotRoot(s, thread);
    var d := Discard(s, Ref(s.slots[thread]));
    DisposedSlotRootGivesEmpty(d, f, thread, names, now);
  }

  /** … and every later request on that thread creates nothing and logs one warning. */
  lemma DiscardedThreadWarns(s: State, f: StaticThreadProfilerFactory, thread: ThreadId,
                             names: seq<string>, now: nat)
    requires Valid(s) && s.clock <= now && thread in s.slots
    ensures var root := s.nodes[s.slots[thread]];
      var d := Discard(s, Ref(s.slots[thread]));
      var r := StartAll(d, f, thread, names, now);
      && root.IsRoot()
      && r.state.nodes == d.nodes && r.state.slots == s.slots
      && r.state.log == s.log + Warnings(root, |names|)
  {
    DiscardLeavesSlotRoot(s, thread);
    var d := Discard(s, Ref(s.slots[thread]));
    DisposedSlotRootPoisons(d, f, thread, names, now);
  }

  /** After a `Discard` of a thread's slot root, the slot still holds it, now disposed. */
  lemma DiscardLeavesSlotRoot(s: State, thread: ThreadId)
    requires Valid(s) && thread in s.slots
    ensures var id := s.slots[thread];
      var d := Discard(s, Ref(id));
      && d.slots == s.slots && d.nodes[id].disposed
      && d.nodes[id].name == s.nodes[id].name && d.nodes[id].logger == s.nodes[id].logger
  {
    var id := s.slots[thread];
    assert SlotOk(s.nodes, id);
    assert id in ReachLive(s.nodes, s.next, id) || s.nodes[id].disposed;
  }

  /**
   * Only the first `Dispose(true)` of a root with a notifier changes a slot, that of the
   * disposing thread; a child's `Dispose`, a plain factory's root and a `Discard` never do.
   */
  lemma SlotsChangeOnlyOnRootDispose(s: State, p: Handle, disposing: bool, thread: ThreadId, now: nat, renderTime: nat)
    requires Valid(s) && s.clock <= now && Holds(s, p)
    ensures Discard(s, p).slots == s.slots
    ensures var r := Dispose(s, p, disposing, thread, now, renderTime);
      r.slots == if disposing && p.Ref? && !s.nodes[p.id].disposed && s.nodes[p.id].notify
        then Disposed(s.slots, thread) else s.slots
  {
    if p.Ref? {
      assert Timed(s, p.id);
    }
  }
}
