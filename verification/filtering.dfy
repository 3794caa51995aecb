/**
 * The in-kernel decision whether an event of the current task is traced
 * (`should_trace`): a self-exclusion rule, then one of three filter modes
 * matched against the event context's uid, pid and tid.
 */
module Filtering {
  import opened Results
  import opened Bytes

  /** The configured filter mode; any value other than the three named ones is `OtherMode`. */
  datatype FilterMode = UidMode | PidMode | PidTidMode | OtherMode(code: nat)

  /** The parts of the probe configuration the decision reads. */
  datatype Config = Config(filterMode: FilterMode, stackplzPid: nat)

  /** The single `common_filter` map entry (key 0). */
  datatype CommonFilter = CommonFilter(uid: nat, pid: nat, tid: nat, blacklistPids: nat, blacklistTids: nat)

  /** The identifiers the event context carries. */
  datatype TaskContext = TaskContext(uid: nat, pid: nat, tid: nat, hostPid: nat)

  /** What `bpf_get_current_uid_gid` and `bpf_get_current_pid_tgid` report for the running task. */
  datatype CurrentTask = CurrentTask(uidGid: nat, pidTgid: nat)

  /** The host identifiers of the running task, as u32 values. */
  datatype HostIds = HostIds(uid: nat, pid: nat, tid: nat)

  /**
   * The host uid is the low half of the uid/gid word; the host pid is the
   * high half of the pid/tgid word and the host tid its low half.
   */
  function CurrentHostIds(task: CurrentTask): (ids: HostIds)
    ensures ids.uid < U32Modulus && ids.pid < U32Modulus && ids.tid < U32Modulus
    ensures task.uidGid == (task.uidGid / U32Modulus) * U32Modulus + ids.uid
    ensures task.pidTgid < U32Modulus * U32Modulus ==> task.pidTgid == ids.pid * U32Modulus + ids.tid
  {
    HostIds(task.uidGid % U32Modulus, (task.pidTgid / U32Modulus) % U32Modulus, task.pidTgid % U32Modulus)
  }

  /**
   * 1 when the event is traced, 0 when it is not.  The tracer's own process
   * is never traced; without a filter entry nothing is; otherwise the mode
   * decides: by uid minus a blacklisted pid and tid, by pid minus a
   * blacklisted tid, or by the exact pid and tid.
   */
  function ShouldTrace(config: Config, filter: Option<CommonFilter>, ctx: TaskContext, task: CurrentTask): (r: nat)
    ensures r == 0 || r == 1
    ensures config.stackplzPid == ctx.hostPid ==> r == 0
    ensures filter.None? ==> r == 0
    ensures config.filterMode.OtherMode? ==> r == 0
    ensures config.stackplzPid != ctx.hostPid && filter.Some? && config.filterMode.UidMode? ==>
      (r == 1 <==> filter.value.uid == ctx.uid && ctx.pid != filter.value.blacklistPids
                   && ctx.tid != filter.value.blacklistTids)
    ensures config.stackplzPid != ctx.hostPid && filter.Some? && config.filterMode.PidMode? ==>
      (r == 1 <==> filter.value.pid == ctx.pid && ctx.tid != filter.value.blacklistTids)
    ensures config.stackplzPid != ctx.hostPid && filter.Some? && config.filterMode.PidTidMode? ==>
      (r == 1 <==> filter.value.pid == ctx.pid && filter.value.tid == ctx.tid)
  {
    var host := CurrentHostIds(task);
    if config.stackplzPid == ctx.hostPid then 0
    else
      match config.filterMode
      case UidMode =>
        if filter.None? then 0
        else if filter.value.uid == ctx.uid then
          if filter.value.blacklistPids == ctx.pid then 0
          else if filter.value.blacklistTids == ctx.tid then 0
          else 1
        else 0
      case PidMode =>
        if filter.None? then 0
        else if filter.value.pid == ctx.pid then
          if filter.value.blacklistTids == ctx.tid then 0 else 1
        else 0
      case PidTidMode =>
        if filter.None? then 0
        else if filter.value.pid == ctx.pid && filter.value.tid == ctx.tid then 1
        else 0
      case OtherMode(_) => 0
  }

  /** The host identifiers the decision computes never change it: only the event context counts. */
  lemma ShouldTraceIgnoresTask(config: Config, filter: Option<CommonFilter>, ctx: TaskContext,
                               task1: CurrentTask, task2: CurrentTask)
    ensures ShouldTrace(config, filter, ctx, task1) == ShouldTrace(config, filter, ctx, task2)
  {
  }

  /**
   * An independent statement of when an event is traced: the tracer itself
   * never is, and otherwise the mode's match must hold for the filter entry.
   */
  predicate Traced(config: Config, filter: Option<CommonFilter>, ctx: TaskContext) {
    && config.stackplzPid != ctx.hostPid
    && filter.Some?
    && match config.filterMode
       case UidMode =>
         filter.value.uid == ctx.uid && ctx.pid != filter.value.blacklistPids && ctx.tid != filter.value.blacklistTids
       case PidMode => filter.value.pid == ctx.pid && ctx.tid != filter.value.blacklistTids
       case PidTidMode => filter.value.pid == ctx.pid && filter.value.tid == ctx.tid
       case OtherMode(_) => false
  }

  /** The decision is 1 exactly for the traced events and 0 for all others. */
  lemma ShouldTraceMeansTraced(config: Config, filter: Option<CommonFilter>, ctx: TaskContext, task: CurrentTask)
    ensures ShouldTrace(config, filter, ctx, task) == (if Traced(config, filter, ctx) then 1 else 0)
  {
  }

  /** Narrowing the filter from a pid to one of its threads never traces more. */
  lemma PidTidNarrowsPid(stackplzPid: nat, f: CommonFilter, ctx: TaskContext, task: CurrentTask)
    requires f.blacklistTids != f.tid
    ensures ShouldTrace(Config(PidTidMode, stackplzPid), Some(f), ctx, task) == 1
        ==> ShouldTrace(Config(PidMode, stackplzPid), Some(f), ctx, task) == 1
  {
  }
}
