/** The run-level results: what every reachable state of the polling loop satisfies. */
module SchedulingTheorems {
  import opened Numbers
  import opened ScrapeGroups
  import opened Scheduling
  import opened SchedulingRuns
  import opened SchedulingSafety

  // ------------------------------------------------------------------
  // Every step keeps the invariant
  // ------------------------------------------------------------------

  lemma DispatchKeepsInv(s: State, ready: seq<nat>, gi: nat, now: real, startedAt: real, o: Outcome)
    requires Inv(s) && Wired(s) && AllBelow(ready, |s.board.groups|) && gi in ready && gi < |s.board.groups|
    ensures Inv(Dispatch(s, ready, gi, now, startedAt, o))
  {
    hide Inv, Wired, StartCycle, SubmitJob, ProcessGroup;
    match s.mode
    case InterleavedMode => StartCycleKeepsInv(s, ready, gi, now, startedAt);
    case ConcurrentMode => SubmitKeepsInv(s, gi, now);
    case SequentialMode => ProcessKeepsInv(s, gi, now, o);
  }

  lemma SubmitKeepsInv(s: State, gi: nat, now: real)
    requires Inv(s) && Wired(s) && gi < |s.board.groups| && s.mode == ConcurrentMode
    ensures Inv(SubmitJob(s, gi, now))
  {
    hide CycleInv, DueMembers, KeepsCadence;
  }

  lemma ProcessKeepsInv(s: State, gi: nat, now: real, o: Outcome)
    requires Inv(s) && Wired(s) && gi < |s.board.groups| && s.mode == SequentialMode
    ensures Inv(ProcessGroup(s, gi, now, o))
  {
    var g := s.board.groups[gi];
    ForwardDueKeepsCadence(g, now, o);
    var h := ForwardAll(g, MembersDue(g, now), now, o);
    hide CycleInv, KeepsCadence, ForwardAll, MembersDue;
    BoardInvAfter(s.board.groups, gi, h);
    PrimariesStay(s.board.groups, gi, h, s.lastRead);
    NoCycleIsServed(s.board.groups[gi := h]);
    LogInvWithNoCycle(s, ProcessGroup(s, gi, now, o));
  }

  lemma {:induction false} DispatchAllKeepsInv(s: State, ready: seq<nat>, k: nat, now: real, startedAt: real, outcomes: seq<Outcome>)
    requires Inv(s) && Wired(s) && k <= |ready| && k <= |outcomes| && AllBelow(ready, |s.board.groups|)
    ensures Inv(DispatchAll(s, ready, k, now, startedAt, outcomes))
  {
    hide Inv, Dispatch, Wired;
    if k > 0 {
      DispatchAllKeepsInv(s, ready, k - 1, now, startedAt, outcomes);
      DispatchKeepsInv(DispatchAll(s, ready, k - 1, now, startedAt, outcomes), ready, ready[k - 1], now, startedAt, outcomes[k - 1]);
    }
  }

  lemma TickKeepsInv(s: State, current: real, now: real, startedAt: real, outcomes: seq<Outcome>)
    requires Inv(s) && Schedulable(s)
    ensures Inv(TickStep(s, current, now, startedAt, outcomes))
  {
    hide LogInv, CycleInv, JobInv;
    PollDelivers(s, current);
    PollKeepsWiring(s, current);
    var s1 := Poll(s, current);
    var (ready, lastRead) := ScanReady(s1.board.groups, s1.lastRead, |s1.board.groups|, now);
    var s2 := s1.(lastRead := lastRead);
    LogInvDependsOn(s1, s2);
    DispatchAllKeepsInv(s2, ready, Min(|ready|, |outcomes|), now, startedAt, outcomes);
  }

  lemma LogInvDependsOn(s: State, s': State)
    requires LogInv(s) && s'.board == s.board && s'.cycles == s.cycles && s'.nextId == s.nextId && s'.expired == s.expired
    ensures LogInv(s')
  {
    forall i | 0 <= i < |s'.cycles| ensures ActiveRead(s', s'.cycles[i]) {
      assert ActiveRead(s, s.cycles[i]);
    }
  }

  lemma AdvanceKeepsInv(s: State, e: Event)
    requires Inv(s) && (e.WorkerStarts? || e.WorkerFinishes?)
    ensures Inv(s.(cycles := AdvanceCycles(s.cycles, e)))
  {
    hide JobInv, CycleInv;
    forall i | 0 <= i < |s.cycles| ensures SameRead(s.cycles[i], AdvanceCycle(s.cycles[i], e)) {
      assert ActiveRead(s, s.cycles[i]);
    }
    AdvanceKeepsLog(s, e);
    assert ValidGroups(s.board.groups);
    hide LogInv, BoardInv, SameRead;
    AdvanceKeepsCycles(s.board.groups, s.cycles, e, |s.cycles|);
    assert AdvanceFirst(s.cycles, e, |s.cycles|) == AdvanceCycles(s.cycles, e);
  }

  lemma AdvanceKeepsLog(s: State, e: Event)
    requires LogInv(s) && (e.WorkerStarts? || e.WorkerFinishes?)
    ensures LogInv(s.(cycles := AdvanceCycles(s.cycles, e)))
  {
    var s' := s.(cycles := AdvanceCycles(s.cycles, e));
    forall i | 0 <= i < |s'.cycles| ensures ActiveRead(s', s'.cycles[i]) && s'.cycles[i].tasks[0].id == s.cycles[i].tasks[0].id {
      assert ActiveRead(s, s.cycles[i]);
    }
  }

  function AdvanceFirst(cycles: seq<Cycle>, e: Event, n: nat): seq<Cycle>
    requires n <= |cycles|
  {
    seq(|cycles|, i requires 0 <= i < |cycles| => if i < n then AdvanceCycle(cycles[i], e) else cycles[i])
  }

  lemma {:induction false} AdvanceKeepsCycles(groups: seq<Group>, cycles: seq<Cycle>, e: Event, n: nat)
    requires ValidGroups(groups) && CycleInv(groups, cycles) && n <= |cycles|
    requires forall i | 0 <= i < |cycles| :: SameRead(cycles[i], AdvanceCycle(cycles[i], e))
    ensures CycleInv(groups, AdvanceFirst(cycles, e, n))
  {
    hide CycleInv;
    if n == 0 {
      assert AdvanceFirst(cycles, e, 0) == cycles;
    } else {
      AdvanceKeepsCycles(groups, cycles, e, n - 1);
      var before := AdvanceFirst(cycles, e, n - 1);
      CycleInvReplace(groups, before, n - 1, AdvanceCycle(cycles[n - 1], e));
      assert before[n - 1 := AdvanceCycle(cycles[n - 1], e)] == AdvanceFirst(cycles, e, n);
    }
  }

  /** One worker's progress changes only its own group, whatever the other workers are doing. */
  lemma JobForwardKeepsInv(s: State, key: string)
    requires Inv(s) && Schedulable(s) && key in s.jobs
    ensures Inv(JobForwardStep(s, key))
  {
    hide CycleInv, DueMembers, KeepsCadence;
    var job := s.jobs[key];
    var s' := JobForwardStep(s, key);
    LogInvDependsOn(s, s.(jobs := s'.jobs));
    if job.phase.Forwarding? && job.phase.due != [] {
      var due, o := job.phase.due, job.phase.outcome;
      DueMembersTail(s.board.groups[job.group], due, job.now);
      DueMembersNames(s.board.groups[job.group], due[1..], job.now);
      if due[0].name in o.nonEmpty && due[0].name !in o.failing {
        JobMarkKeepsInv(s, key, s');
      }
    }
  }

  lemma JobMarkKeepsInv(s: State, key: string, s': State)
    requires Inv(s) && Schedulable(s) && key in s.jobs && s.jobs[key].phase.Forwarding? && s.jobs[key].phase.due != []
    requires var job := s.jobs[key]; var due, o := job.phase.due, job.phase.outcome;
             due[0].name in o.nonEmpty && due[0].name !in o.failing
    requires s' == JobForwardStep(s, key)
    ensures Inv(s')
  {
    var job := s.jobs[key];
    var groups, due := s.board.groups, job.phase.due;
    assert due[0].name in Names(due);
    var h := Mark(groups[job.group], due[0].name, job.now);
    var job' := job.(phase := Forwarding(due[1..], job.phase.outcome));
    assert s' == s.(board := s.board.(groups := groups[job.group := h]), jobs := s.jobs[key := job']);
    hide JobForwardStep, CycleInv, LogInv, DueMembers, KeepsCadence, Wired;
    MarkServesMember(groups[job.group], due, job.now);
    BoardInvAfter(groups, job.group, h);
    PrimariesStay(groups, job.group, h, s.lastRead);
    OtherJobsUnaffected(groups, s.jobs, key, h);
    NoCycleIsServed(groups[job.group := h]);
    LogInvWithNoCycle(s, s');
    OneJobMore(groups[job.group := h], s.jobs, key, job');
  }

  lemma OneJobMore(groups: seq<Group>, jobs: map<string, Job>, key: string, job: Job)
    requires ValidGroups(groups) && JobInv(groups, jobs - {key})
    requires job.group < |groups| && groups[job.group].primary.target == key && job.phase.Forwarding?
    requires DueMembers(groups[job.group], job.phase.due, job.now) && Names(job.phase.due) <= groups[job.group].forwards.Keys
    ensures JobInv(groups, jobs[key := job])
  {
    hide DueMembers, Names;
    forall k | k in jobs && k != key ensures k in jobs - {key} && (jobs - {key})[k] == jobs[key := job][k] {
    }
  }

  lemma MarkServesMember(g: Group, due: seq<Transport>, now: real)
    requires KeepsCadence(g) && DueMembers(g, due, now) && due != []
    ensures due[0].name in g.forwards
    ensures var h := Mark(g, due[0].name, now);
            SameShape(g, h) && KeepsCadence(h) && DueMembers(h, due[1..], now) && Names(due[1..]) <= h.forwards.Keys
  {
    DueMembersTail(g, due, now);
    DueMembersAfterMark(g, due, now);
    DueMembersNames(Mark(g, due[0].name, now), due[1..], now);
    MarkDueKeepsCadence(g, due[0], now);
  }

  lemma NoCycleIsServed(groups: seq<Group>)
    requires ValidGroups(groups)
    ensures CycleInv(groups, [])
  {
  }

  lemma LogInvWithNoCycle(s: State, s': State)
    requires LogInv(s) && s.cycles == s'.cycles == [] && s'.board.routed == s.board.routed
    requires s'.nextId == s.nextId && s'.expired == s.expired
    ensures LogInv(s')
  {
  }

  lemma OtherJobsUnaffected(groups: seq<Group>, jobs: map<string, Job>, key: string, h: Group)
    requires BoardInv(groups) && JobInv(groups, jobs) && key in jobs
    requires SameShape(groups[jobs[key].group], h) && KeepsCadence(h)
    ensures ValidGroups(groups[jobs[key].group := h]) && JobInv(groups[jobs[key].group := h], jobs - {key})
  {
    BoardInvAfter(groups, jobs[key].group, h);
    forall k | k in jobs && k != key ensures jobs[k].group != jobs[key].group {
    }
  }

  lemma StepKeepsInv(s: State, e: Event)
    requires Inv(s) && Schedulable(s)
    ensures Inv(Step(s, e))
  {
    hide BoardInv, CycleInv, LogInv, JobInv, TickStep, JobReadStep, JobForwardStep, AdvanceCycles;
    match e
    case Tick(current, now, startedAt, outcomes) => TickKeepsInv(s, current, now, startedAt, outcomes);
    case JobReads(key, o) => if key in s.jobs { JobReadKeepsInv(s, key, o); }
    case JobForwards(key) => if key in s.jobs { JobForwardKeepsInv(s, key); }
    case Reconnect(name) => if name in s.lastRead { LogInvDependsOn(s, s.(lastRead := s.lastRead[name := 0.0])); }
    case _ => AdvanceKeepsInv(s, e);
  }

  lemma JobReadKeepsInv(s: State, key: string, o: Outcome)
    requires Inv(s) && Schedulable(s) && key in s.jobs
    ensures Inv(JobReadStep(s, key, o))
  {
    hide CycleInv, LogInv, BoardInv;
    LogInvDependsOn(s, JobReadStep(s, key, o));
    JobReadKeepsJobs(s, key, o);
  }

  lemma JobReadKeepsJobs(s: State, key: string, o: Outcome)
    requires Inv(s) && Schedulable(s) && key in s.jobs
    ensures JobInv(s.board.groups, JobReadStep(s, key, o).jobs)
  {
    hide CycleInv, LogInv;
    var job := s.jobs[key];
    assert KeepsCadence(s.board.groups[job.group]);
    DueIsDueMembers(s.board.groups[job.group], job.now);
    hide MembersDue, DueMembers, BoardInv, KeepsCadence, Names;
  }

  lemma DueIsDueMembers(g: Group, now: real)
    requires ValidGroup(g)
    ensures DueMembers(g, MembersDue(g, now), now) && Names(MembersDue(g, now)) <= g.forwards.Keys
  {
    DueMembersNames(g, MembersDue(g, now), now);
  }

  // ------------------------------------------------------------------
  // Runs
  // ------------------------------------------------------------------

  /** The gateway as its constructor leaves it for the configured transports `ts`. */
  function Init(ts: seq<Transport>, mode: Mode): State {
    State(mode, Board(GroupsOf(ts), []), map t | t in ts :: t.name := 0.0, [], map[], 0, {})
  }

  lemma InitInv(ts: seq<Transport>, mode: Mode)
    requires DistinctNames(ts)
    ensures Inv(Init(ts, mode))
  {
    var s := Init(ts, mode);
    var groups := s.board.groups;
    GroupsPartition(ts);
    forall i | 0 <= i < |groups|
      ensures KeepsCadence(groups[i]) && groups[i].members == OnTarget(ts, TargetAt(ts, i))
      ensures groups[i].primary in groups[i].members && groups[i].primary.name in s.lastRead
    {
      GroupHoldsItsDevice(ts, i);
    }
  }

  /** The state after the events `es`, in order. */
  function Run(s: State, es: seq<Event>): (s': State)
    requires Inv(s)
    ensures Inv(s') && Schedulable(s')
  {
    if es == [] then
      InvSchedulable(s);
      s
    else
      var t := Run(s, es[..|es| - 1]);
      StepKeepsInv(t, es[|es| - 1]);
      InvSchedulable(Step(t, es[|es| - 1]));
      Step(t, es[|es| - 1])
  }

  function RunFrom(ts: seq<Transport>, mode: Mode, es: seq<Event>): (s: State)
    requires DistinctNames(ts)
    ensures Inv(s) && Schedulable(s)
  {
    InitInv(ts, mode);
    Run(Init(ts, mode), es)
  }

  /** In every reachable state, with any clock readings whatsoever: the active cycles have
      pairwise disjoint member sets, any two submitted reads still in the table are on
      different devices, and so are any two concurrent jobs. */
  lemma OneReadPerDevice(ts: seq<Transport>, mode: Mode, es: seq<Event>)
    requires DistinctNames(ts)
    ensures var s := RunFrom(ts, mode, es);
            && (forall i, j | 0 <= i < j < |s.cycles| :: s.cycles[i].key !! s.cycles[j].key)
            && (forall i | 0 <= i < |s.cycles| :: |s.cycles[i].tasks| == 1)
            && (forall i, j | 0 <= i < j < |s.cycles| ::
                  s.cycles[i].tasks[0].transport.target != s.cycles[j].tasks[0].transport.target)
            && (forall j, k | j in s.jobs && k in s.jobs && j != k ::
                  s.board.groups[s.jobs[j].group].primary.target != s.board.groups[s.jobs[k].group].primary.target)
  {
    var s := RunFrom(ts, mode, es);
    forall i, j | 0 <= i < j < |s.cycles|
      ensures s.cycles[i].key !! s.cycles[j].key
      ensures |s.cycles[i].tasks| == 1 && |s.cycles[j].tasks| == 1
      ensures s.cycles[i].tasks[0].transport.target != s.cycles[j].tasks[0].transport.target
    {
      CyclesApart(s, i, j);
    }
    forall i | 0 <= i < |s.cycles| ensures |s.cycles[i].tasks| == 1 {
      assert ActiveRead(s, s.cycles[i]);
    }
  }

  lemma CyclesApart(s: State, i: nat, j: nat)
    requires Inv(s) && i < j < |s.cycles|
    ensures s.cycles[i].key !! s.cycles[j].key
    ensures |s.cycles[i].tasks| == 1 && |s.cycles[j].tasks| == 1
    ensures s.cycles[i].tasks[0].transport.target != s.cycles[j].tasks[0].transport.target
  {
    hide LogInv, JobInv, Wired, Home;
    var groups := s.board.groups;
    assert ValidGroups(groups);
    hide BoardInv;
    var a: nat :| Serves(groups, s.cycles[i], a);
    var b: nat :| Serves(groups, s.cycles[j], b);
    assert !SameHome(groups, s.cycles[i], s.cycles[j]);
    assert a != b;
    HomesApart(groups, s.cycles[i], s.cycles[j], a, b);
  }

  lemma HomesApart(groups: seq<Group>, c: Cycle, d: Cycle, a: nat, b: nat)
    requires BoardInv(groups) && Serves(groups, c, a) && Serves(groups, d, b) && a != b
    ensures c.key !! d.key && |c.tasks| == 1 && |d.tasks| == 1
    ensures c.tasks[0].transport.target != d.tasks[0].transport.target
  {
    KeyWithinGroup(groups[a], c.cycleNow);
    KeyWithinGroup(groups[b], d.cycleNow);
    assert groups[a].primary in groups[a].members && groups[b].primary in groups[b].members;
  }

  /** In every reachable state `s` of every mode, consecutive forward marks of a member are at
      least its read interval apart; so `n` forwards take `n` intervals. */
  lemma CadenceIsKept(ts: seq<Transport>, mode: Mode, es: seq<Event>, s: State, gi: nat, m: Transport, i: nat, j: nat)
    requires DistinctNames(ts) && s == RunFrom(ts, mode, es)
    requires gi < |s.board.groups| && m in s.board.groups[gi].members && m.name in s.board.groups[gi].forwards
    requires i <= j < |s.board.groups[gi].forwards[m.name]|
    ensures s.board.groups[gi].forwards[m.name][j] - s.board.groups[gi].forwards[m.name][i]
            >= (j - i) as real * m.readInterval
  {
    hide LogInv, CycleInv, JobInv, RunFrom, Schedulable;
    MarksTakeTime(s.board.groups[gi].forwards[m.name], m.readInterval, i, j);
  }

  // ------------------------------------------------------------------
  // What becomes of a submitted read
  // ------------------------------------------------------------------

  lemma {:induction false} DispatchAllLogs(s: State, ready: seq<nat>, k: nat, now: real, startedAt: real, outcomes: seq<Outcome>)
    requires Wired(s) && k <= |ready| && k <= |outcomes| && AllBelow(ready, |s.board.groups|)
    ensures var s' := DispatchAll(s, ready, k, now, startedAt, outcomes);
            s'.board.routed == s.board.routed && s'.expired == s.expired
  {
    hide Dispatch, Wired;
    if k > 0 {
      DispatchAllLogs(s, ready, k - 1, now, startedAt, outcomes);
      DispatchLogs(DispatchAll(s, ready, k - 1, now, startedAt, outcomes), ready, ready[k - 1], now, startedAt, outcomes[k - 1]);
    }
  }

  lemma DispatchLogs(s: State, ready: seq<nat>, gi: nat, now: real, startedAt: real, o: Outcome)
    requires Wired(s) && gi < |s.board.groups| && AllBelow(ready, |s.board.groups|)
    ensures var s' := Dispatch(s, ready, gi, now, startedAt, o);
            s'.board.routed == s.board.routed && s'.expired == s.expired
  {
  }

  /** The logs only grow. */
  lemma StepLogs(s: State, e: Event)
    requires Inv(s) && Schedulable(s)
    ensures var s' := Step(s, e);
            s.board.routed <= s'.board.routed && s.expired <= s'.expired
    ensures e.Tick? ==> Step(s, e).board.routed == s.board.routed + DeliveredBy(s.cycles, |s.cycles|)
  {
    hide Inv;
    if e.Tick? {
      PollDelivers(s, e.current);
      PollKeepsWiring(s, e.current);
      var s1 := Poll(s, e.current);
      PrimariesListed(s.board.groups, s1.board.groups, s.lastRead.Keys);
      var (ready, lastRead) := ScanReady(s1.board.groups, s1.lastRead, |s1.board.groups|, e.now);
      DispatchAllLogs(s1.(lastRead := lastRead), ready, Min(|ready|, |e.outcomes|), e.now, e.startedAt, e.outcomes);
    }
  }

  lemma {:induction false} RunLogs(s: State, es: seq<Event>, more: seq<Event>)
    requires Inv(s)
    ensures Run(s, es).board.routed <= Run(s, es + more).board.routed
    ensures Run(s, es).expired <= Run(s, es + more).expired
    decreases |more|
  {
    hide Inv, Schedulable, Step;
    if more == [] {
      assert es + more == es;
    } else {
      var all := es + more;
      RunLogs(s, es, more[..|more| - 1]);
      assert all[..|all| - 1] == es + more[..|more| - 1];
      StepLogs(Run(s, all[..|all| - 1]), all[|all| - 1]);
    }
  }

  /** However a run continues, no read is ever routed twice, and one whose cycle had timed out
      before it was done is never routed. */
  lemma RoutedAtMostOnce(ts: seq<Transport>, mode: Mode, es: seq<Event>, more: seq<Event>)
    requires DistinctNames(ts)
    ensures NoDuplicates(RunFrom(ts, mode, es + more).board.routed)
    ensures RunFrom(ts, mode, es).board.routed <= RunFrom(ts, mode, es + more).board.routed
    ensures forall id | id in RunFrom(ts, mode, es).expired :: id !in RunFrom(ts, mode, es + more).board.routed
  {
    InitInv(ts, mode);
    RunLogs(Init(ts, mode), es, more);
  }

  /** A read seen finished by a tick before its cycle timed out is routed by that tick. */
  lemma SeenDoneIsRouted(ts: seq<Transport>, mode: Mode, es: seq<Event>, tick: Event, i: nat)
    requires DistinctNames(ts) && tick.Tick?
    requires i < |RunFrom(ts, mode, es).cycles|
    requires var c := RunFrom(ts, mode, es).cycles[i];
             c.tasks != [] && c.tasks[0].future.Finished? && !c.timedOut
    ensures RunFrom(ts, mode, es).cycles[i].tasks[0].id in RunFrom(ts, mode, es + [tick]).board.routed
  {
    hide BoardInv, CycleInv, JobInv, Schedulable;
    var s := RunFrom(ts, mode, es);
    InitInv(ts, mode);
    assert (es + [tick])[..|es|] == es;
    StepLogs(s, tick);
    assert ActiveRead(s, s.cycles[i]);
    DeliveredHas(s.cycles, |s.cycles|, i);
  }

  lemma {:induction false} DeliveredHas(cycles: seq<Cycle>, n: nat, i: nat)
    requires i < n <= |cycles|
    ensures forall id | id in Delivered(cycles[i]) :: id in DeliveredBy(cycles, n)
  {
    if i < n - 1 {
      DeliveredHas(cycles, n - 1, i);
    }
  }
}
