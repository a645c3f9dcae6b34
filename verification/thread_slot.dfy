/**
 * The `[ThreadStatic]` fields of `StaticThreadProfilerFactory`: for each thread, the root
 * profiler the factory handed out last, while it is set.
 */
module ThreadSlot {
  import opened Arena

  type ThreadId = nat

  /** A thread with no entry has `_threadRootProfilerSet == false`. */
  type Slots = map<ThreadId, NodeId>

  /**
   * `INotifyDisposed.Disposed`: clears the slot of the thread that runs it, which is the
   * thread disposing the root, whichever thread created it.
   */
  function Disposed(slots: Slots, thread: ThreadId): (r: Slots)
    ensures thread !in r
    ensures forall t | t != thread :: (t in r <==> t in slots) && (t in r ==> r[t] == slots[t])
  {
    slots - {thread}
  }
}
