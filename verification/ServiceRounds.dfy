/** Whole rounds of service: from the tick that takes a group up to the marks of the members that waited. */
module ServiceRounds {
  import opened Numbers
  import opened ScrapeGroups
  import opened Scheduling
  import opened SchedulingRuns
  import opened SchedulingSafety
  import opened SchedulingTheorems
  import opened TickTheorems

  // ------------------------------------------------------------------
  // Runs from the front
  // ------------------------------------------------------------------

  lemma RunNone(s: State)
    requires Inv(s)
    ensures Run(s, []) == s
  {
    hide Inv;
  }

  lemma RunMore(s: State, es: seq<Event>, e: Event)
    requires Inv(s)
    ensures Run(s, es + [e]) == Step(Run(s, es), e)
  {
    hide Inv, Schedulable, Step;
    assert (es + [e])[..|es|] == es;
  }

  lemma StepStaysGood(s: State, e: Event)
    requires Inv(s)
    ensures Schedulable(s) && Inv(Step(s, e))
  {
    InvSchedulable(s);
    StepKeepsInv(s, e);
  }

  lemma {:induction false} RunHead(s: State, e: Event, es: seq<Event>)
    requires Inv(s)
    ensures Schedulable(s) && Inv(Step(s, e)) && Run(s, [e] + es) == Run(Step(s, e), es)
  {
    hide *;
    StepStaysGood(s, e);
    if es == [] {
      RunNone(s);
      RunMore(s, [], e);
      RunNone(Step(s, e));
      assert [e] + es == [] + [e];
    } else {
      var init, last := es[..|es| - 1], es[|es| - 1];
      RunHead(s, e, init);
      RunMore(s, [e] + init, last);
      RunMore(Step(s, e), init, last);
      assert [e] + es == [e] + init + [last] && es == init + [last];
    }
  }

  // ------------------------------------------------------------------
  // Workers of concurrent jobs
  // ------------------------------------------------------------------

  function Forwards(key: string, n: nat): seq<Event> {
    seq(n, i => JobForwards(key))
  }

  /** The job of `key` has returned, its group is `h`, and nothing else has changed. */
  ghost predicate HasReturned(s: State, s': State, key: string, h: Group)
    requires key in s.jobs && s.jobs[key].group < |s.board.groups|
  {
    var job := s.jobs[key];
    && key in s'.jobs && s'.jobs[key].phase.Returned?
    && s' == s.(board := s.board.(groups := s.board.groups[job.group := h]), jobs := s.jobs[key := s'.jobs[key]])
  }

  lemma {:induction false} IdleForwards(s: State, key: string, n: nat)
    requires Inv(s) && key in s.jobs && s.jobs[key].phase.Returned?
    ensures Run(s, Forwards(key, n)) == s
  {
    if n == 0 {
      assert Forwards(key, 0) == [];
      hide *;
      RunNone(s);
    } else {
      assert Forwards(key, n) == Forwards(key, n - 1) + [JobForwards(key)];
      hide *;
      IdleForwards(s, key, n - 1);
      InvSchedulable(s);
      IdleStep(s, key);
      RunMore(s, Forwards(key, n - 1), JobForwards(key));
    }
  }

  lemma IdleStep(s: State, key: string)
    requires Schedulable(s) && key in s.jobs && s.jobs[key].phase.Returned?
    ensures Step(s, JobForwards(key)) == s
  {
    hide Schedulable;
  }

  lemma JobInRange(s: State, key: string)
    requires Inv(s) && key in s.jobs
    ensures Schedulable(s) && s.jobs[key].group < |s.board.groups|
    ensures s.jobs[key].phase.Forwarding? ==>
              var due, g := s.jobs[key].phase.due, s.board.groups[s.jobs[key].group];
              Names(due) <= g.forwards.Keys && (due != [] ==> due[0].name in g.forwards)
  {
    InvSchedulable(s);
    hide BoardInv, CycleInv, LogInv;
    if s.jobs[key].phase.Forwarding? && s.jobs[key].phase.due != [] {
      assert s.jobs[key].phase.due[0].name in Names(s.jobs[key].phase.due);
    }
  }

  /** A worker that has read forwards to all it has found due, one after the other. */
  lemma {:induction false} WorkerForwards(s: State, key: string)
    requires Inv(s) && key in s.jobs && s.jobs[key].phase.Forwarding? && s.jobs[key].group < |s.board.groups|
    requires Names(s.jobs[key].phase.due) <= s.board.groups[s.jobs[key].group].forwards.Keys
    ensures var job := s.jobs[key];
            var g := s.board.groups[job.group];
            HasReturned(s, Run(s, Forwards(key, |job.phase.due| + 1)), key,
                        ForwardAll(g, job.phase.due, job.now, job.phase.outcome))
    decreases |s.jobs[key].phase.due|
  {
    hide *;
    var job := s.jobs[key];
    var due, o, n := job.phase.due, job.phase.outcome, |job.phase.due|;
    MoreForwards(key, n);
    RunHead(s, JobForwards(key), Forwards(key, n));
    JobInRange(s, key);
    var s1 := Step(s, JobForwards(key));
    OneForward(s, key);
    if due == [] || (due[0].name in o.nonEmpty && due[0].name in o.failing) {
      ReturnedIsIdle(s, s1, key, ForwardAll(s.board.groups[job.group], due, job.now, o));
      IdleForwards(s1, key, n);
    } else {
      var h := s1.board.groups[job.group];
      assert s1.jobs[key] == job.(phase := Forwarding(due[1..], o)) && |due[1..]| + 1 == n;
      WorkerForwards(s1, key);
      ReturnsLater(s, s1, Run(s1, Forwards(key, n)), key, h, ForwardAll(h, due[1..], job.now, o));
    }
  }

  lemma ReturnedIsIdle(s: State, s1: State, key: string, h: Group)
    requires key in s.jobs && s.jobs[key].group < |s.board.groups| && HasReturned(s, s1, key, h)
    ensures key in s1.jobs && s1.jobs[key].phase.Returned?
  {
  }

  lemma ReturnsLater(s: State, s1: State, s': State, key: string, h: Group, h': Group)
    requires key in s.jobs && s.jobs[key].group < |s.board.groups| && key in s1.jobs && s1.jobs[key].group == s.jobs[key].group
    requires s1 == s.(board := s.board.(groups := s.board.groups[s.jobs[key].group := h]), jobs := s.jobs[key := s1.jobs[key]])
    requires HasReturned(s1, s', key, h')
    ensures HasReturned(s, s', key, h')
  {
    var gi := s.jobs[key].group;
    assert s.board.groups[gi := h][gi := h'] == s.board.groups[gi := h'];
    assert s.jobs[key := s1.jobs[key]][key := s'.jobs[key]] == s.jobs[key := s'.jobs[key]];
  }

  lemma MoreForwards(key: string, n: nat)
    ensures Forwards(key, n + 1) == [JobForwards(key)] + Forwards(key, n)
  {
  }

  /** One step of the worker: it returns, or has one member less to serve. */
  lemma OneForward(s: State, key: string)
    requires Schedulable(s) && key in s.jobs && s.jobs[key].phase.Forwarding? && s.jobs[key].group < |s.board.groups|
    requires Names(s.jobs[key].phase.due) <= s.board.groups[s.jobs[key].group].forwards.Keys
    ensures var job := s.jobs[key];
            var due, o, g := job.phase.due, job.phase.outcome, s.board.groups[job.group];
            var s1 := Step(s, JobForwards(key));
            if due == [] || (due[0].name in o.nonEmpty && due[0].name in o.failing) then
              HasReturned(s, s1, key, ForwardAll(g, due, job.now, o))
            else
              var h := if due[0].name in o.nonEmpty then Mark(g, due[0].name, job.now) else g;
              && due[0].name in g.forwards && Names(due[1..]) <= h.forwards.Keys
              && s1 == s.(board := s.board.(groups := s.board.groups[job.group := h]),
                          jobs := s.jobs[key := job.(phase := Forwarding(due[1..], o))])
              && ForwardAll(g, due, job.now, o) == ForwardAll(h, due[1..], job.now, o)
  {
    var due := s.jobs[key].phase.due;
    if due != [] {
      assert due[0].name in Names(due) && Names(due[1..]) <= Names(due);
    }
    hide Schedulable;
  }

  lemma ReadsOnce(s: State, key: string, o: Outcome)
    requires Inv(s) && key in s.jobs && s.jobs[key].phase.Reading?
    ensures Schedulable(s) && s.jobs[key].group < |s.board.groups| && ValidGroup(s.board.groups[s.jobs[key].group])
    ensures var job := s.jobs[key];
            Step(s, JobReads(key, o))
            == s.(jobs := s.jobs[key := job.(phase := Forwarding(MembersDue(s.board.groups[job.group], job.now), o))])
  {
    InvSchedulable(s);
    hide CycleInv, LogInv, MembersDue;
  }

  /** Once a job's read is over, its worker serves the members that wait, and returns. */
  lemma WorkerServes(s: State, key: string, o: Outcome) returns (n: nat)
    requires Inv(s) && key in s.jobs && s.jobs[key].phase.Reading?
    ensures s.jobs[key].group < |s.board.groups|
    ensures var s', gi := Run(s, [JobReads(key, o)] + Forwards(key, n)), s.jobs[key].group;
            && |s'.board.groups| == |s.board.groups|
            && HasReturned(s, s', key, s'.board.groups[gi])
            && Forwarded(s.board.groups[gi], s'.board.groups[gi], s.jobs[key].now, o)
  {
    hide *;
    ReadsOnce(s, key, o);
    StepStaysGood(s, JobReads(key, o));
    var s1 := Step(s, JobReads(key, o));
    JobInRange(s1, key);
    var job := s1.jobs[key];
    var g := s.board.groups[job.group];
    n := |job.phase.due| + 1;
    RunHead(s, JobReads(key, o), Forwards(key, n));
    WorkerForwards(s1, key);
    ForwardServesExactly(g, job.now, o);
    var s', h := Run(s1, Forwards(key, n)), ForwardAll(g, MembersDue(g, job.now), job.now, o);
    assert s.board.groups[job.group := g] == s.board.groups;
    ReturnsLater(s, s1, s', key, g, h);
    ReturnedGroup(s, s', key, h);
  }

  lemma ReturnedGroup(s: State, s': State, key: string, h: Group)
    requires key in s.jobs && s.jobs[key].group < |s.board.groups| && HasReturned(s, s', key, h)
    ensures |s'.board.groups| == |s.board.groups| && s'.board.groups[s.jobs[key].group] == h
  {
  }

  /** No more groups are taken up than there are. */
  lemma {:induction false} FewAreReady(ready: seq<nat>, n: nat)
    requires Increasing(ready) && AllBelow(ready, n)
    ensures |ready| <= n
  {
    if ready != [] {
      FewAreReady(ready[..|ready| - 1], ready[|ready| - 1]);
    }
  }

  lemma IsDispatched(s: State, ready: seq<nat>, now: real, gi: nat, outcomes: seq<Outcome>) returns (k: nat)
    requires TakesUp(s, ready, now) && gi < |s.board.groups| && IsReady(s.board.groups[gi], s.lastRead, now)
    requires |outcomes| >= |s.board.groups|
    ensures k < |ready| == Min(|ready|, |outcomes|) && ready[k] == gi
  {
    hide IsReady;
    FewAreReady(ready, |s.board.groups|);
    assert gi in ready;
    k :| 0 <= k < |ready| && ready[k] == gi;
  }

  lemma GroupsTakenUp(s: State, s': State, tick: Event) returns (ready: seq<nat>, n: nat)
    requires tick.Tick? && IsTick(s, s', tick.current, tick.now, tick.startedAt, tick.outcomes)
    ensures TakesUp(s, ready, tick.now) && AllBelow(ready, |s.board.groups|) && SameShapes(s.board.groups, s'.board.groups)
    ensures s'.mode == s.mode
    ensures n == Min(|ready|, |tick.outcomes|) && n <= |ready| && n <= |tick.outcomes|
    ensures Dispatches(s, s', ready, n, tick.current, tick.now, tick.startedAt, tick.outcomes)
  {
    hide Dispatches, Stamps, IsReady;
    ready :| TakesUp(s, ready, tick.now) && SameShapes(s.board.groups, s'.board.groups)
             && Dispatches(s, s', ready, Min(|ready|, |tick.outcomes|), tick.current, tick.now, tick.startedAt, tick.outcomes);
    n := Min(|ready|, |tick.outcomes|);
  }

  /** A round in concurrent mode: a tick submits the read of a ready group whose device is idle, and the
      worker serves the members that wait. */
  lemma ConcurrentRound(s: State, tick: Event, gi: nat, o: Outcome) returns (n: nat)
    requires Inv(s) && s.mode.ConcurrentMode? && tick.Tick? && |tick.outcomes| >= |s.board.groups|
    requires gi < |s.board.groups| && IsReady(s.board.groups[gi], s.lastRead, tick.now)
    requires var key := s.board.groups[gi].primary.target;
             key in s.jobs ==> s.jobs[key].phase.Returned?
    ensures var key := s.board.groups[gi].primary.target;
            var s' := Run(s, [tick, JobReads(key, o)] + Forwards(key, n));
            && |s'.board.groups| == |s.board.groups|
            && Forwarded(s.board.groups[gi], s'.board.groups[gi], tick.now, o)
            && key in s'.jobs && s'.jobs[key].phase.Returned?
  {
    hide *;
    var key := s.board.groups[gi].primary.target;
    StepServes(s, tick);
    var s1 := Step(s, tick);
    JobSubmitted(s, s1, tick, gi);
    n := WorkerServes(s1, key, o);
    RunHead(s, tick, [JobReads(key, o)] + Forwards(key, n));
    assert [tick, JobReads(key, o)] + Forwards(key, n) == [tick] + ([JobReads(key, o)] + Forwards(key, n));
    var s' := Run(s1, [JobReads(key, o)] + Forwards(key, n));
    JobOver(s1, s', key);
  }

  lemma JobOver(s: State, s': State, key: string)
    requires key in s.jobs && s.jobs[key].group < |s.board.groups| && |s'.board.groups| == |s.board.groups|
    requires HasReturned(s, s', key, s'.board.groups[s.jobs[key].group])
    ensures key in s'.jobs && s'.jobs[key].phase.Returned?
  {
  }

  lemma StepServes(s: State, tick: Event)
    requires Inv(s) && tick.Tick?
    ensures Schedulable(s) && Inv(Step(s, tick))
    ensures IsTick(s, Step(s, tick), tick.current, tick.now, tick.startedAt, tick.outcomes)
  {
    hide IsTick, Inv, Schedulable, TickStep;
    StepStaysGood(s, tick);
    TickServes(s, tick.current, tick.now, tick.startedAt, tick.outcomes);
  }

  lemma JobSubmitted(s: State, s1: State, tick: Event, gi: nat)
    requires tick.Tick? && IsTick(s, s1, tick.current, tick.now, tick.startedAt, tick.outcomes)
    requires s.mode.ConcurrentMode? && |tick.outcomes| >= |s.board.groups|
    requires gi < |s.board.groups| && IsReady(s.board.groups[gi], s.lastRead, tick.now)
    requires var key := s.board.groups[gi].primary.target;
             key in s.jobs ==> s.jobs[key].phase.Returned?
    ensures var key := s.board.groups[gi].primary.target;
            s1.board.groups == s.board.groups && key in s1.jobs && s1.jobs[key] == Job(gi, tick.now, Reading)
  {
    hide IsReady, TakesUp, Min, IsTick, IsDeviceOf;
    var ready, n := GroupsTakenUp(s, s1, tick);
    var k := IsDispatched(s, ready, tick.now, gi, tick.outcomes);
    assert HasJob(s, s1, ready[k], tick.now);
  }

  // ------------------------------------------------------------------
  // Workers of interleaved reads
  // ------------------------------------------------------------------

  function WithFuture(c: Cycle, f: Future): Cycle
    requires |c.tasks| == 1
  {
    c.(tasks := [c.tasks[0].(future := f)])
  }

  /** An event of one read's worker changes that read's cycle and no other. */
  lemma AdvancesOne(s: State, i: nat, e: Event, f: Future)
    requires Inv(s) && i < |s.cycles| && |s.cycles[i].tasks| == 1
    requires var r := s.cycles[i].tasks[0];
             || (e == WorkerStarts(r.id) && r.future.Queued? && f == Running)
             || (e.WorkerFinishes? && e.id == r.id && r.future.Running? && f == Finished(e.outcome))
    ensures Schedulable(s) && Step(s, e) == s.(cycles := s.cycles[i := WithFuture(s.cycles[i], f)])
  {
    InvSchedulable(s);
    var s' := Step(s, e);
    forall j | 0 <= j < |s.cycles| ensures s'.cycles[j] == if j == i then WithFuture(s.cycles[i], f) else s.cycles[j] {
      assert ActiveRead(s, s.cycles[j]);
      AdvancesCycle(s, j, i, e, f);
    }
    hide Inv, Schedulable, AdvanceCycle;
    assert s'.cycles == s.cycles[i := WithFuture(s.cycles[i], f)];
  }

  lemma AdvancesCycle(s: State, j: nat, i: nat, e: Event, f: Future)
    requires LogInv(s) && j < |s.cycles| && i < |s.cycles| && |s.cycles[i].tasks| == |s.cycles[j].tasks| == 1
    requires var r := s.cycles[i].tasks[0];
             || (e == WorkerStarts(r.id) && r.future.Queued? && f == Running)
             || (e.WorkerFinishes? && e.id == r.id && r.future.Running? && f == Finished(e.outcome))
    ensures AdvanceCycle(s.cycles[j], e) == if j == i then WithFuture(s.cycles[i], f) else s.cycles[j]
  {
    var c := s.cycles[j];
    if j != i {
      assert s.cycles[if i < j then i else j].tasks[0].id != s.cycles[if i < j then j else i].tasks[0].id;
    }
    assert AdvanceCycle(c, e).tasks == [AdvanceRead(c.tasks[0], e)];
    assert c.tasks == [c.tasks[0]];
  }

  /** An event whose read is not in the table, or not at the stage the event is about, changes nothing. */
  lemma StrayEventIsIgnored(s: State, e: Event)
    requires Inv(s) && (e.WorkerStarts? || e.WorkerFinishes?)
    requires forall c, r | c in s.cycles && r in c.tasks && r.id == e.id ::
               if e.WorkerStarts? then !r.future.Queued? else !r.future.Running?
    ensures Schedulable(s) && Step(s, e) == s
  {
    InvSchedulable(s);
    hide Inv, Schedulable;
    forall i | 0 <= i < |s.cycles| ensures AdvanceCycle(s.cycles[i], e) == s.cycles[i] {
      StrayInCycle(s, i, e);
    }
    assert AdvanceCycles(s.cycles, e) == s.cycles;
  }

  lemma StrayInCycle(s: State, i: nat, e: Event)
    requires i < |s.cycles| && (e.WorkerStarts? || e.WorkerFinishes?)
    requires forall c, r | c in s.cycles && r in c.tasks && r.id == e.id ::
               if e.WorkerStarts? then !r.future.Queued? else !r.future.Running?
    ensures AdvanceCycle(s.cycles[i], e) == s.cycles[i]
  {
    var c := s.cycles[i];
    assert c in s.cycles;
    assert AdvanceCycle(c, e).tasks == c.tasks;
  }

  lemma ReadFinishes(s: State, i: nat, o: Outcome)
    requires Inv(s) && i < |s.cycles| && |s.cycles[i].tasks| == 1 && s.cycles[i].tasks[0].future.Queued?
    ensures var id := s.cycles[i].tasks[0].id;
            Run(s, [WorkerStarts(id), WorkerFinishes(id, o)]) == s.(cycles := s.cycles[i := WithFuture(s.cycles[i], Finished(o))])
  {
    hide Inv, Schedulable, Run, Step;
    var id := s.cycles[i].tasks[0].id;
    var a, b := WorkerStarts(id), WorkerFinishes(id, o);
    RunHead(s, a, [b]);
    assert [a, b] == [a] + [b];
    AdvancesOne(s, i, a, Running);
    var s1 := Step(s, a);
    RunHead(s1, b, []);
    assert [b] == [b] + [];
    AdvancesOne(s1, i, b, Finished(o));
    RunNone(Step(s1, b));
    assert s.cycles[i := s1.cycles[i]][i := WithFuture(s1.cycles[i], Finished(o))] == s.cycles[i := WithFuture(s.cycles[i], Finished(o))];
  }

  /** A round in interleaved mode: a tick begins a cycle for a ready group that is not busy and in which
      someone waits; once the worker has finished its read the next tick serves those who wait. */
  lemma InterleavedRound(s: State, tick: Event, gi: nat, o: Outcome, next: Event) returns (id: nat)
    requires Inv(s) && Schedulable(s) && s.mode.InterleavedMode? && tick.Tick? && next.Tick?
    requires |tick.outcomes| >= |s.board.groups| && gi < |s.board.groups|
    requires IsReady(s.board.groups[gi], s.lastRead, tick.now) && !IsBusy(s, gi)
    requires |Step(s, tick).board.groups| == |s.board.groups| && SomeoneWaits(Step(s, tick).board.groups[gi], tick.now)
    ensures var s1, s' := Step(s, tick), Run(s, [tick, WorkerStarts(id), WorkerFinishes(id, o), next]);
            && |s'.board.groups| == |s.board.groups|
            && Forwarded(s1.board.groups[gi], s'.board.groups[gi], tick.now, o)
  {
    hide *;
    StepServes(s, tick);
    var s1 := Step(s, tick);
    var i := CycleBegun(s, s1, tick, gi);
    BegunIsQueued(s, s1, s1.cycles[i], tick.now, tick.startedAt);
    id := s1.cycles[i].tasks[0].id;
    var a, b := WorkerStarts(id), WorkerFinishes(id, o);
    RunHead(s, tick, [a, b, next]);
    assert [tick, a, b, next] == [tick] + [a, b, next];
    ReadFinishes(s1, i, o);
    RunMore(s1, [a, b], next);
    assert [a, b, next] == [a, b] + [next];
    var s2 := Run(s1, [a, b]);
    FinishedIsDelivered(s, s1, s2, i, gi, o);
    DeliveredByTick(s2, next, i, gi);
  }

  lemma BegunIsQueued(s: State, s1: State, c: Cycle, now: real, startedAt: real)
    requires IsBegun(s, s1, c, now, startedAt)
    ensures |c.tasks| == 1 && c.tasks[0].future.Queued? && !c.timedOut && c.cycleNow == now
  {
  }

  lemma FinishedIsDelivered(s: State, s1: State, s2: State, i: nat, gi: nat, o: Outcome)
    requires i < |s1.cycles| && |s1.cycles[i].tasks| == 1 && !s1.cycles[i].timedOut
    requires s2 == s1.(cycles := s1.cycles[i := WithFuture(s1.cycles[i], Finished(o))])
    requires SameShapes(s.board.groups, s1.board.groups) && Home(s.board.groups, s1.cycles[i], gi)
    ensures i < |s2.cycles| && IsDelivered(s2.cycles[i]) && Home(s2.board.groups, s2.cycles[i], gi)
    ensures s2.cycles[i].cycleNow == s1.cycles[i].cycleNow && s2.cycles[i].tasks[0].future.outcome == o
    ensures s2.board == s1.board && s2.mode == s1.mode
  {
  }

  lemma CycleBegun(s: State, s1: State, tick: Event, gi: nat) returns (i: nat)
    requires tick.Tick? && IsTick(s, s1, tick.current, tick.now, tick.startedAt, tick.outcomes)
    requires Inv(s) && s.mode.InterleavedMode? && |s1.board.groups| == |s.board.groups|
    requires |tick.outcomes| >= |s.board.groups| && gi < |s.board.groups|
    requires IsReady(s.board.groups[gi], s.lastRead, tick.now) && !IsBusy(s, gi) && SomeoneWaits(s1.board.groups[gi], tick.now)
    ensures i < |s1.cycles| && Home(s.board.groups, s1.cycles[i], gi)
    ensures SameShapes(s.board.groups, s1.board.groups) && s1.mode == s.mode
    ensures IsBegun(s, s1, s1.cycles[i], tick.now, tick.startedAt)
  {
    hide Inv, TakesUp, IsTick, IsReady, IsBusy, SomeoneWaits, Home, Delivers, Min, IsBegun, IsLeftOf, IsWanted, IsLeftIn;
    var ready, n := GroupsTakenUp(s, s1, tick);
    var k := IsDispatched(s, ready, tick.now, gi, tick.outcomes);
    assert HasCycle(s, s1, ready[k], tick.current, tick.now, tick.startedAt);
    var c :| c in s1.cycles && Home(s.board.groups, c, gi) && IsBegun(s, s1, c, tick.now, tick.startedAt);
    i :| 0 <= i < |s1.cycles| && s1.cycles[i] == c;
  }

  lemma DeliveredByTick(s: State, tick: Event, i: nat, gi: nat)
    requires Inv(s) && Schedulable(s) && s.mode.InterleavedMode? && tick.Tick?
    requires i < |s.cycles| && IsDelivered(s.cycles[i]) && Home(s.board.groups, s.cycles[i], gi)
    ensures var s' := Step(s, tick);
            && |s'.board.groups| == |s.board.groups|
            && Forwarded(s.board.groups[gi], s'.board.groups[gi], s.cycles[i].cycleNow, s.cycles[i].tasks[0].future.outcome)
  {
    hide Inv, Schedulable, TakesUp, IsTick, Forwarded, Circulates, Min, Home, IsDelivered, Step;
    StepServes(s, tick);
    var s' := Step(s, tick);
    var ready, n := GroupsTakenUp(s, s', tick);
  }
}
