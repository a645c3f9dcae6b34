# TinyProfiler measurement tree, in Dafny

TinyProfiler lets code mark nested steps of work. A factory hands out a root `Profiler`. The
root's `StartStep` adds child profilers, and those children add children of their own. When the
root is disposed, it sends one timing report for the whole tree to its `ILogger`. `Discard`
abandons a running profiler and every running step it reaches through running steps, with no
report. Once a profiler is disposed or discarded, it only hands out `EmptyProfiler`, the inert
profiler.
`StaticThreadProfilerFactory` keeps one root per thread. Later requests on that thread become
steps of that root, until the root is disposed.

The model is a set of pure functions over one `State`:

- the profilers: an arena `map<NodeId, Node>`, where a child is always allocated after its parent;
- one stopwatch per root, read against a global millisecond clock;
- the per-thread slots of the thread factory;
- the list of messages sent to the loggers so far.

Every operation takes the clock reading at which it runs. `Valid` is the invariant every
operation keeps:

- the arena is an ordered forest: a child id is greater than its parent's, and each node is in
  at most one child list and at most once there, in increasing order;
- every node runs on its root's stopwatch;
- a child starts no earlier than its parent and its earlier siblings;
- a root's stopwatch stops only once the root is disposed;
- a live node has duration 0;
- every slot holds a root made by the thread factory.

Modules:

- `Arena`: nodes, stopwatches, the allocation order, and what a `Discard` reaches.
- `Profiler`: the `Profiler` / `EmptyProfiler` operations.
- `Report`: the report text, built the way `WriteTimes` and `Dispose` build it.
- `LineParse`: a parser for one report line, proved to invert it.
- `Decimal` and `Text`: number rendering, `TrimEnd`, and the lines a writer produces.
- `ThreadSlot`: the `[ThreadStatic]` slots.
- `Factory`: the two factories.
- `ProfilerFacts` and `FactoryFacts`: properties of sequences of calls.
- `Example`: one concrete report.

Things the caller supplies, because the model cannot compute them:

- the clock reading of each call;
- how long rendering takes (`renderTime`), which becomes the measure overhead;
- the identity of the calling thread;
- the text `StringWriter.WriteLine` ends lines with;
- `string.Format`, as a function parameter of the `…Format` overloads.

Where the code does something easy to misread, the model follows the code:

- **A discarded step stays in its parent's report.** `Discard` does not detach a node from its
  parent. The node keeps its place and shows as a 0 ms line when the root reports
  (`DiscardedChildReportsZero`).
- **`Discard` skips children already disposed.** The recursion stops at such a child, so steps
  still running below it stay live and can still be disposed normally (`DiscardMarks`,
  `ReachLive`).
- **Offsets are measured from the root.** A step's offset is the root stopwatch's reading when
  the step starts, not the time since its parent started (`StartStepOffset`).
- **The notifier clears the disposing thread's slot.** It does not clear the slot of the thread
  that created the root. A root disposed on another thread stays in its creator's slot, and that
  thread then gets only the inert profiler (`CrossThreadDisposeLeavesSlot`).
- **The notifier runs first.** It is called before the report is rendered, in the same step.
- **Report lines are indented and use tabs.** Each line separates the name from the duration
  with `" :\t"`. A line below the root starts with `2 * depth` spaces and `-`.

## Model

| member | source | states |
|---|---|---|
| `Decimal.Show` | TinyProfiler/TinyProfiler.cs:253 | A duration is written as a non-empty string of decimal digits with no leading zero |
| `Decimal.ParseShow` | TinyProfiler/TinyProfiler.cs:253 | Reading the decimal text of a duration back gives the same number |
| `Decimal.ShowInjective` | TinyProfiler/TinyProfiler.cs:175-177 | Two numbers get the same decimal text only when they are equal |
| `Text.TrimEnd` | TinyProfiler/TinyProfiler.cs:262 | `TrimEnd` gives a prefix of the text that does not end in a trimmed character, and only trimmed characters were removed |
| `Text.TrimEndUnique` | TinyProfiler/TinyProfiler.cs:262 | Only one prefix has the properties that characterise `TrimEnd` |
| `Text.TrimWritten` | TinyProfiler/TinyProfiler.cs:251-262 | Trimming lines written with `WriteLine` gives the lines joined by the newline, provided the newline is made only of trimmed characters and no line ends in one |
| `Text.WrittenIsJoined` | TinyProfiler/TinyProfiler.cs:251-262 | The text of lines each written with `WriteLine` is their join plus one final newline |
| `Arena.Stop` | TinyProfiler/TinyProfiler.cs:257-258 | `Stopwatch.Stop` freezes the elapsed time read at that moment, and stopping again changes nothing |
| `Arena.StopOverhead` | TinyProfiler/TinyProfiler.cs:257-258 | A running stopwatch stopped `d` ms after a reading is frozen at that reading plus `d`, so the measure overhead is `d` |
| `Arena.ElapsedMonotonic` | TinyProfiler/TinyProfiler.cs:166 | `ElapsedMilliseconds` never goes back as the clock advances |
| `Arena.ForestAppend` | TinyProfiler/TinyProfiler.cs:196-200 | Appending a freshly allocated node to one child list keeps every node in at most one list, once, in increasing order |
| `Arena.ReachLive` | TinyProfiler/TinyProfiler.cs:220-231 | The nodes a `Discard` reaches are live descendants reached only through live nodes; the start node is reached exactly when it is live |
| `Arena.ReachLiveFollowsLiveChildren` | TinyProfiler/TinyProfiler.cs:224-228 | A live child of a reached node is reached too: the recursion goes into every child not yet disposed |
| `Arena.ReachLiveDescends` | TinyProfiler/TinyProfiler.cs:224-228 | Every reached node other than the start is a child of a reached node |
| `Arena.MarkAllAround` | TinyProfiler/TinyProfiler.cs:224-229 | Marking the node, then its reachable descendants, then clearing its child list is one marking of all of them |
| `Report.Preorder` | TinyProfiler/TinyProfiler.cs:170-185 | Rendering a node starts with its own line and never goes shallower than its depth |
| `Report.WriteTimes` | TinyProfiler/TinyProfiler.cs:170-185 | `WriteTimes` writes one line per node of the subtree, in pre-order, each followed by the newline |
| `Report.WriteTimesList` | TinyProfiler/TinyProfiler.cs:254-255 | Rendering the root's children one after another writes their subtrees' lines in order |
| `Report.ChildLine` | TinyProfiler/TinyProfiler.cs:172-177 | A line below the root is non-empty and ends in a character the final trim keeps |
| `Report.RootLine` | TinyProfiler/TinyProfiler.cs:253 | The root's line starts with the root's name and ends in a character the final trim keeps |
| `Report.OverheadLine` | TinyProfiler/TinyProfiler.cs:259-260 | The overhead line is non-empty and ends in a character the final trim keeps |
| `Report.ChildrenInInsertionOrder` | TinyProfiler/TinyProfiler.cs:178-184 | The lines at a given depth below a node are its children's own lines, in the order the children were added |
| `Report.ReportText` | TinyProfiler/TinyProfiler.cs:251-260 | The writer's text is the root line, the children's subtrees in pre-order and the overhead line when there is one, each followed by the newline |
| `Report.Report` | TinyProfiler/TinyProfiler.cs:251-262 | The trimmed text sent to the logger is exactly the report lines joined by the newline, so the trim removes only the last newline |
| `Report.ReportLinesEnds` | TinyProfiler/TinyProfiler.cs:253-260 | The first line is the root's name and duration, and the last line is the overhead line exactly when the overhead is not zero |
| `Report.ReportLinesEnd` | TinyProfiler/TinyProfiler.cs:172-177 | Every report line is non-empty and ends in a character the final trim keeps |
| `Report.LastLineNotOverhead` | TinyProfiler/TinyProfiler.cs:259-260 | With zero overhead, no root line or node line can be mistaken for the overhead line |
| `LineParse.ChildLineRoundTrip` | TinyProfiler/TinyProfiler.cs:172-177 | Parsing a line written for a node below the root gives back its depth, name, duration and offset |
| `LineParse.ChildLineInjective` | TinyProfiler/TinyProfiler.cs:172-177 | Different entries below the root give different lines |
| `LineParse.ChildLineShape` | TinyProfiler/TinyProfiler.cs:172-177 | A line at depth d starts with 2*d spaces and a `-`, and ends in `)` exactly when the depth is over 1 or the offset is not zero |
| `ThreadSlot.Disposed` | TinyProfiler/TinyProfiler.cs:374-378 | The notification clears the calling thread's slot and leaves every other thread's slot as it was |
| `Profiler.NewRoot` | TinyProfiler/TinyProfiler.cs:151-157 | The root constructor adds a live root with the given name, logger and notifier, on a new stopwatch started now, keeping the invariant |
| `Profiler.StartStep` | TinyProfiler/TinyProfiler.cs:188-202 | On the inert profiler, it returns itself. On a disposed node, it returns the inert profiler and adds a Debug warning only for a root. On a live node, it appends one fresh child and changes nothing else |
| `Profiler.AddChild` | TinyProfiler/TinyProfiler.cs:162-167 | The child constructor shares the parent's stopwatch, takes the stopwatch reading now as its offset, has no logger, and goes after the parent's existing children |
| `Profiler.StartStepFormat` | TinyProfiler/TinyProfiler.cs:204-218 | The format overload, written as its own copy of the disposed check, warning and child creation, gives the same result as `StartStep` with the formatted name |
| `Profiler.DiscardNode` | TinyProfiler/TinyProfiler.cs:220-231 | `Discard` only marks nodes, and never changes a node allocated before the discarded one |
| `Profiler.DiscardNodeMarks` | TinyProfiler/TinyProfiler.cs:220-231 | The recursive `Discard` marks exactly the nodes it reaches through live nodes, disposed with no children, and changes nothing else |
| `Profiler.DiscardList` | TinyProfiler/TinyProfiler.cs:227-228 | Discarding the children one after another keeps the node ids and the order, only marks nodes, and changes no node allocated up to the parent |
| `Profiler.DiscardListMarks` | TinyProfiler/TinyProfiler.cs:227-228 | Discarding the children one after another marks the union of what each reaches |
| `Profiler.Discard` | TinyProfiler/TinyProfiler.cs:220-231 | `Discard` changes only the nodes, as the declarative marking says. It touches no duration, stopwatch, slot or log. On the inert profiler it does nothing |
| `Profiler.Finish` | TinyProfiler/TinyProfiler.cs:239-240 | The first `Dispose` marks the node disposed and sets its duration to the stopwatch reading minus its offset |
| `Profiler.Dispose` | TinyProfiler/TinyProfiler.cs:233-271 | `Dispose(false)`, a repeated `Dispose` and the inert profiler's `Dispose` change nothing. A child's first `Dispose` only fixes its duration. A root's first `Dispose` also reports, and its duration is the time since its stopwatch started |
| `Profiler.DisposeRoot` | TinyProfiler/TinyProfiler.cs:241-263 | A root's report step notifies the factory, stops the stopwatch after rendering, and logs one Info message with the report; the overhead in the report is the rendering time |
| `ProfilerFacts.OneParent` | TinyProfiler/TinyProfiler.cs:196-200 | A node is in the child list of one profiler only, and no child list holds a node twice |
| `ProfilerFacts.DisposeIdempotent` | TinyProfiler/TinyProfiler.cs:237-238 | A second `Dispose` of the same profiler changes nothing but the clock |
| `ProfilerFacts.DisposeMeasuresFromStart` | TinyProfiler/TinyProfiler.cs:240 | While its root runs, a node's duration is the time from its own start to its `Dispose` |
| `ProfilerFacts.StartStepOffset` | TinyProfiler/TinyProfiler.cs:196-201 | A new step's offset is at least its parent's and its earlier siblings'; while the root runs, it is the time since the root started |
| `ProfilerFacts.StartStepAfterDispose` | TinyProfiler/TinyProfiler.cs:190-195 | After `Dispose`, `StartStep` returns the inert profiler, adds no node, and warns only on a root |
| `ProfilerFacts.DiscardIdempotent` | TinyProfiler/TinyProfiler.cs:222-223 | A second `Discard` changes nothing |
| `ProfilerFacts.DiscardMarks` | TinyProfiler/TinyProfiler.cs:220-231 | Each node reached is disposed with no children and duration 0; every other node, the parent included, is unchanged |
| `ProfilerFacts.DiscardedChildReportsZero` | TinyProfiler/TinyProfiler.cs:170-185 | A discarded step stays in its parent's list and renders as one line of 0 ms with nothing below it |
| `ProfilerFacts.DisposeAfterDiscard` | TinyProfiler/TinyProfiler.cs:237-238 | A discarded profiler's `Dispose` changes nothing but the clock, so it never reports |
| `ProfilerFacts.StartStepAfterDiscard` | TinyProfiler/TinyProfiler.cs:190-195 | After `Discard`, `StartStep` returns the inert profiler and warns only on a root |
| `ProfilerFacts.DisposeQuiet` | TinyProfiler/TinyProfiler.cs:233-241 | Every `Dispose` other than a root's first `Dispose(true)` sends no message and leaves the slots and stopwatches alone |
| `ProfilerFacts.RootDisposeReports` | TinyProfiler/TinyProfiler.cs:241-262 | A root's first `Dispose` sends exactly one message to its logger: an Info message whose text is the report lines joined by the newline |
| `ProfilerFacts.RootDisposeReportShape` | TinyProfiler/TinyProfiler.cs:253-260 | In that report, the first line is the root's name with the time since its stopwatch started. The last line is the overhead line exactly when rendering took time |
| `Factory.NewProfilerFactory` | TinyProfiler/TinyProfiler.cs:287-292 | The constructor fails with `ArgumentNullException("logger")` exactly when the logger is null, and otherwise stores the logger |
| `Factory.NewStaticThreadProfilerFactory` | TinyProfiler/TinyProfiler.cs:327-332 | The constructor fails with `ArgumentNullException("logger")` exactly when the logger is null, and otherwise stores the logger |
| `Factory.StartProfiling` | TinyProfiler/TinyProfiler.cs:294-297 | Always a new live root with the factory's logger and no notifier; slots and log untouched |
| `Factory.StartProfilingFormat` | TinyProfiler/TinyProfiler.cs:299-302 | The format overload adds a live root named by the formatted text, with the factory's logger, no notifier and a new stopwatch, leaving slots and log alone; this is what `StartProfiling` does with that name |
| `Factory.ThreadStartProfiling` | TinyProfiler/TinyProfiler.cs:335-352 | With the thread's slot set, it is a `StartStep` of the slot's root and the slot is kept. Otherwise it creates a new root with the factory's logger and a notifier, and stores it in the slot |
| `Factory.ThreadStartProfilingFormat` | TinyProfiler/TinyProfiler.cs:354-371 | The format overload behaves as the plain one with the formatted name |
| `FactoryFacts.RequestNestsUnderSlotRoot` | TinyProfiler/TinyProfiler.cs:337-342 | A request on a thread holding a live root gives a child of that root, whichever factory instance serves it. The child goes on the root's stopwatch, after its other children |
| `FactoryFacts.RequestKeepsOtherSlots` | TinyProfiler/TinyProfiler.cs:316-320 | A request sets only its own thread's slot |
| `FactoryFacts.RootDisposeFreesSlot` | TinyProfiler/TinyProfiler.cs:244-245 | A slot root disposed on its own thread frees the slot and reports once; the thread's next request starts a new tree |
| `FactoryFacts.CrossThreadDisposeLeavesSlot` | TinyProfiler/TinyProfiler.cs:374-378 | A slot root disposed on another thread frees that thread's slot, not its own. Its creator then gets the inert profiler and a warning |
| `FactoryFacts.StartAll` | TinyProfiler/TinyProfiler.cs:335-352 | Runs a series of requests on one thread. It states only that the invariant is kept and that there is one profiler per request; the lemmas on a disposed slot root below are stated over it |
| `FactoryFacts.RequestOnDisposedSlot` | TinyProfiler/TinyProfiler.cs:337-342 | A request on a thread whose slot root is disposed returns the inert profiler, creates nothing, and logs one warning |
| `FactoryFacts.DisposedSlotRootPoisons` | TinyProfiler/TinyProfiler.cs:335-352 | While the slot holds a disposed root, any number of requests create nothing and keep the slot, with one warning each |
| `FactoryFacts.DisposedSlotRootGivesEmpty` | TinyProfiler/TinyProfiler.cs:335-352 | While the slot holds a disposed root, every request returns the inert profiler |
| `FactoryFacts.DiscardLeavesSlotRoot` | TinyProfiler/TinyProfiler.cs:220-231 | `Discard` of a thread's slot root marks it disposed and never clears the slot, because it does not notify the factory |
| `FactoryFacts.DiscardPoisonsThread` | TinyProfiler/TinyProfiler.cs:335-352 | After a thread's root is discarded, every later request on that thread returns the inert profiler |
| `FactoryFacts.DiscardedThreadWarns` | TinyProfiler/TinyProfiler.cs:188-195 | After a thread's root is discarded, later requests on that thread create nothing, keep the slot, and log one warning each |
| `FactoryFacts.SlotsChangeOnlyOnRootDispose` | TinyProfiler/TinyProfiler.cs:241-245 | Only a first `Dispose(true)` of a root with a notifier changes a slot, and only the disposing thread's. A child's `Dispose` and a `Discard` never change one |
| `Example.ExampleLines` | TinyProfiler/TinyProfiler.cs:172-177 | For one concrete tree, the report lines are spelled out: the offset is left out at depth 1 only when it is zero, and always written deeper |
| `Example.ExampleReport` | TinyProfiler/TinyProfiler.cs:251-262 | For the same tree, the exact text the logger receives with CR LF line ends |

## Left out

- Locks, `volatile` and races. Every call is one atomic step on the whole state. Interleavings of
  concurrent `StartStep`, `Dispose` and `Discard` calls are not modelled. Neither are reads of a
  child list that is changing, or the spots where two calls both see `_disposed == false`.
- `Stopwatch` internals. A stopwatch is a start time on a millisecond clock the caller advances.
  Sub-millisecond truncation and the `long` range are not modelled; values are unbounded.
- The rendering time. The time spent between fixing the duration and stopping the stopwatch is a
  parameter (`renderTime`), so the measure overhead is whatever the caller says.
- The `catch` around the delegated `StartStep` in `StaticThreadProfilerFactory.StartProfiling`
  (TinyProfiler/TinyProfiler.cs:343-346 and 362-365). In the model `StartStep` cannot fail, so
  that path is never taken. `string.Format` exceptions are not modelled either.
- `string.Format`, `ILogger` formatting and `Environment.NewLine`. `string.Format` is a function
  parameter. A message records the format and arguments `ILogger` receives. The newline is a
  parameter, required to be made of the trimmed characters.
- The `IProfiler`/`IProfilerFactory` interfaces, `IDisposable`, and `EmptyProfiler`'s singleton
  field. A handle is either the inert profiler or a node id.
- Null names. The C# accepts a null `name` (TinyProfiler/TinyProfiler.cs:296), which `WriteLine`
  renders as empty text and the Debug warning passes on as a null argument. A model name is
  always a string.
- Logger exceptions. An exception from `ILogger.Info` (TinyProfiler/TinyProfiler.cs:262) or
  `ILogger.Debug` (192, 208) leaves the C# object partly updated: `_disposed` set, the
  stopwatch stopped, the slot cleared. In the model, sending a message is an append that
  cannot fail.
- The unit tests and `DebugLogger`. They are callers and test doubles.

