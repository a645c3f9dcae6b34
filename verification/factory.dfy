/**
 * `ProfilerFactory` and `StaticThreadProfilerFactory`: where root profilers come from. The
 * thread factory remembers, per thread, the root it handed out last (`[ThreadStatic]` fields,
 * so shared by every instance of the class) and turns later requests on that thread into
 * steps of that root until the root notifies it of its disposal.
 */
module Factory {
  import opened Wrappers
  import opened Arena
  import opened ThreadSlot
  import opened Profiler

  /** `ArgumentNullException(paramName)`. */
  datatype ConfigError = ArgumentNull(paramName: string)

  /** A `ProfilerFactory` and the logger every root it creates reports to. */
  datatype ProfilerFactory = ProfilerFactory(logger: LoggerId)

  /** A `StaticThreadProfilerFactory` and the logger of the roots it creates. */
  datatype StaticThreadProfilerFactory = StaticThreadProfilerFactory(logger: LoggerId)

  /** `new ProfilerFactory(logger)`: a null logger is refused. */
  function NewProfilerFactory(logger: Option<LoggerId>): (r: Result<ProfilerFactory, ConfigError>)
    ensures r.Failure? <==> logger.None?
    ensures r.Failure? ==> r.error == ArgumentNull("logger")
    ensures r.Success? ==> r.value.logger == logger.value
  {
    match logger
    case None => Failure(ArgumentNull("logger"))
    case Some(l) => Success(ProfilerFactory(l))
  }

  /** `new StaticThreadProfilerFactory(logger)`: a null logger is refused. */
  function NewStaticThreadProfilerFactory(logger: Option<LoggerId>): (r: Result<StaticThreadProfilerFactory, ConfigError>)
    ensures r.Failure? <==> logger.None?
    ensures r.Failure? ==> r.error == ArgumentNull("logger")
    ensures r.Success? ==> r.value.logger == logger.value
  {
    match logger
    case None => Failure(ArgumentNull("logger"))
    case Some(l) => Success(StaticThreadProfilerFactory(l))
  }

  /**
   * `ProfilerFactory.StartProfiling(name)`: always a new root, on a new stopwatch, with the
   * factory's logger and no notifier; the thread slots are not involved.
   */
  function StartProfiling(s: State, f: ProfilerFactory, name: string, now: nat): (r: Started)
    requires Valid(s) && s.clock <= now
    ensures Valid(r.state) && r.state.clock == now
    ensures r.profiler == Ref(s.next) && s.next !in s.nodes
    ensures r.state.nodes == s.nodes[s.next := Node(name, s.next, 0, 0, [], false, Some(f.logger), false)]
    ensures r.state.watches == s.watches[s.next := Watch(now, None)]
    ensures r.state.slots == s.slots && r.state.log == s.log
  {
    NewRoot(s, f.logger, false, name, now)
  }

  /**
   * `ProfilerFactory.StartProfiling(nameFormat, args)`, `string.Format` given as `format`: a
   * new root named by the formatted text, the same root `StartProfiling` makes for that name.
   */
  function StartProfilingFormat<A>(s: State, f: ProfilerFactory, nameFormat: string, args: seq<A>,
                                   format: (string, seq<A>) -> string, now: nat): (r: Started)
    requires Valid(s) && s.clock <= now
    ensures r == StartProfiling(s, f, format(nameFormat, args), now)
    ensures r.profiler == Ref(s.next)
    ensures r.state.nodes == s.nodes[s.next := Node(format(nameFormat, args), s.next, 0, 0, [], false, Some(f.logger), false)]
    ensures r.state.watches == s.watches[s.next := Watch(now, None)]
    ensures r.state.slots == s.slots && r.state.log == s.log
  {
    NewRoot(s, f.logger, false, format(nameFormat, args), now)
  }

  /**
   * `StaticThreadProfilerFactory.StartProfiling(name)` on thread `thread`. With the slot set,
   * a step of the slot's root, whatever factory created it; otherwise a new root that will
   * notify the factory, stored in the slot.
   */
  function ThreadStartProfiling(s: State, f: StaticThreadProfilerFactory, thread: ThreadId,
                                name: string, now: nat): (r: Started)
    requires Valid(s) && s.clock <= now
    ensures Valid(r.state) && r.state.clock == now
    ensures thread in s.slots ==>
      && r == StartStep(s, Ref(s.slots[thread]), name, now)
      && r.state.slots == s.slots
    ensures thread !in s.slots ==>
      && r.profiler == Ref(s.next) && s.next !in s.nodes && r.state.next == s.next + 1
      && r.state.slots == s.slots[thread := s.next]
      && r.state.nodes == s.nodes[s.next := Node(name, s.next, 0, 0, [], false, Some(f.logger), true)]
      && r.state.watches == s.watches[s.next := Watch(now, None)]
      && r.state.log == s.log
  {
    if thread in s.slots then
      StartStep(s, Ref(s.slots[thread]), name, now)
    else
      var st := NewRoot(s, f.logger, true, name, now);
      var r := Started(st.state.(slots := st.state.slots[thread := s.next]), st.profiler);
      assert SlotOk(r.state.nodes, s.next);
      r
  }

  /**
   * `StaticThreadProfilerFactory.StartProfiling(nameFormat, args)`: the slot's root gets
   * `StartStep(nameFormat, args)`, a new root is named `string.Format(nameFormat, args)`.
   */
  function ThreadStartProfilingFormat<A>(s: State, f: StaticThreadProfilerFactory, thread: ThreadId,
                                         nameFormat: string, args: seq<A>,
                                         format: (string, seq<A>) -> string, now: nat): (r: Started)
    requires Valid(s) && s.clock <= now
    ensures r == ThreadStartProfiling(s, f, thread, format(nameFormat, args), now)
    ensures thread !in s.slots ==> r.state.nodes[s.next].name == format(nameFormat, args)
  {
    if thread in s.slots then
      StartStepFormat(s, Ref(s.slots[thread]), nameFormat, args, format, now)
    else
      ThreadStartProfiling(s, f, thread, format(nameFormat, args), now)
  }
}
