/** Runs of the polling loop, and what holds in every state a run can reach. */
module SchedulingRuns {
  import opened Numbers
  import opened ScrapeGroups
  import opened Scheduling

  /** One step of a run.  A tick polls at clock reading `current`, schedules at `now` and
      dispatches as many of the ready groups as `outcomes` has entries (fewer than all when
      an exception ends the tick); sequential mode reads each of them with that outcome.
      Nothing is assumed about how the clock readings of different steps compare. */
  datatype Event =
    | Tick(current: real, now: real, startedAt: real, outcomes: seq<Outcome>)
    | WorkerStarts(id: nat)
    | WorkerFinishes(id: nat, outcome: Outcome)
    | JobReads(key: string, outcome: Outcome)
    | JobForwards(key: string)
    | Reconnect(name: string)

  ghost predicate Schedulable(s: State) {
    && Wired(s)
    && (forall g | g in s.board.groups :: g.primary.name in s.lastRead)
    && (forall k | k in s.jobs ::
          && s.jobs[k].group < |s.board.groups|
          && (s.jobs[k].phase.Forwarding? ==>
                Names(s.jobs[k].phase.due) <= s.board.groups[s.jobs[k].group].forwards.Keys))
  }

  /** The first half of a tick: poll, then collect the ready groups. */
  function Collected(s: State, current: real, now: real): (r: (seq<nat>, State))
    requires Schedulable(s)
    ensures Wired(r.1) && AllBelow(r.0, |r.1.board.groups|)
  {
    PollKeepsWiring(s, current);
    var s1 := Poll(s, current);
    PrimariesListed(s.board.groups, s1.board.groups, s.lastRead.Keys);
    var (ready, lastRead) := ScanReady(s1.board.groups, s1.lastRead, |s1.board.groups|, now);
    (ready, s1.(lastRead := lastRead))
  }

  function TickStep(s: State, current: real, now: real, startedAt: real, outcomes: seq<Outcome>): State
    requires Schedulable(s)
  {
    var (ready, s2) := Collected(s, current, now);
    DispatchAll(s2, ready, Min(|ready|, |outcomes|), now, startedAt, outcomes)
  }

  function AdvanceRead(r: Read, e: Event): Read {
    match e
    case WorkerStarts(id) => if r.id == id && r.future.Queued? then r.(future := Running) else r
    case WorkerFinishes(id, o) => if r.id == id && r.future.Running? then r.(future := Finished(o)) else r
    case _ => r
  }

  function AdvanceCycle(c: Cycle, e: Event): Cycle {
    c.(tasks := seq(|c.tasks|, i requires 0 <= i < |c.tasks| => AdvanceRead(c.tasks[i], e)))
  }

  function AdvanceCycles(cycles: seq<Cycle>, e: Event): seq<Cycle> {
    seq(|cycles|, i requires 0 <= i < |cycles| => AdvanceCycle(cycles[i], e))
  }

  /** The worker of a concurrent job evaluates who is due once its read is over, then serves
      those members one at a time; other workers may run between any two of these steps. */
  function JobReadStep(s: State, key: string, o: Outcome): State
    requires Schedulable(s) && key in s.jobs
  {
    var job := s.jobs[key];
    if !job.phase.Reading? then s
    else s.(jobs := s.jobs[key := job.(phase := Forwarding(MembersDue(s.board.groups[job.group], job.now), o))])
  }

  function JobForwardStep(s: State, key: string): State
    requires Schedulable(s) && key in s.jobs
  {
    var job := s.jobs[key];
    match job.phase
    case Forwarding(due, o) =>
      if due == [] then s.(jobs := s.jobs[key := job.(phase := Returned)])
      else if due[0].name !in o.nonEmpty then s.(jobs := s.jobs[key := job.(phase := Forwarding(due[1..], o))])
      else if due[0].name in o.failing then s.(jobs := s.jobs[key := job.(phase := Returned)])
      else
        assert due[0].name in Names(due);
        var groups := s.board.groups;
        s.(board := s.board.(groups := groups[job.group := Mark(groups[job.group], due[0].name, job.now)]),
           jobs := s.jobs[key := job.(phase := Forwarding(due[1..], o))])
    case _ => s
  }

  function Step(s: State, e: Event): State
    requires Schedulable(s)
  {
    match e
    case Tick(current, now, startedAt, outcomes) => TickStep(s, current, now, startedAt, outcomes)
    case JobReads(key, o) => if key in s.jobs then JobReadStep(s, key, o) else s
    case JobForwards(key) => if key in s.jobs then JobForwardStep(s, key) else s
    case Reconnect(name) => if name in s.lastRead then s.(lastRead := s.lastRead[name := 0.0]) else s
    case _ => s.(cycles := AdvanceCycles(s.cycles, e))
  }

  // ------------------------------------------------------------------
  // Shapes never change
  // ------------------------------------------------------------------

  ghost predicate SameShapes(a: seq<Group>, b: seq<Group>) {
    |a| == |b| && forall i | 0 <= i < |a| :: SameShape(a[i], b[i])
  }

  lemma {:induction false} MarkStandaloneShapes(groups: seq<Group>, ready: seq<nat>, t: Transport, now: real)
    requires ValidGroups(groups) && AllBelow(ready, |groups|)
    ensures SameShapes(groups, MarkStandalone(groups, ready, t, now))
    decreases |ready|
  {
    if ready != [] {
      if t in groups[ready[0]].members {
        assert t.name in Names(groups[ready[0]].members);
      } else {
        MarkStandaloneShapes(groups, ready[1..], t, now);
      }
    }
  }

  lemma {:induction false} RouteDoneShapes(b: Board, c: Cycle, tasks: seq<Read>)
    requires ValidGroups(b.groups) && SourcesInRange(c, |b.groups|) && forall r | r in tasks :: r in c.tasks
    ensures SameShapes(b.groups, RouteDone(b, c, tasks).groups)
    decreases |tasks|
  {
    if tasks != [] {
      assert tasks[0] in tasks && forall r | r in tasks[1..] :: r in tasks;
      if tasks[0].future.Finished? && !c.timedOut {
        if tasks[0].source.Standalone? {
          MarkStandaloneShapes(b.groups, c.readyGroups, tasks[0].transport, c.cycleNow);
        }
        RouteDoneShapes(Route(b, c, tasks[0]), c, tasks[1..]);
      } else {
        RouteDoneShapes(b, c, tasks[1..]);
      }
    }
  }

  /** What polling and dispatching leave as they found it. */
  ghost predicate SameSetting(s: State, s': State) {
    && SameShapes(s.board.groups, s'.board.groups)
    && s'.mode == s.mode
    && s'.lastRead.Keys == s.lastRead.Keys
  }

  lemma {:induction false} BoardAfterShapes(b: Board, cycles: seq<Cycle>, n: nat)
    requires ValidGroups(b.groups) && AllInRange(cycles, |b.groups|) && n <= |cycles|
    ensures SameShapes(b.groups, BoardAfter(b, cycles, n).groups)
  {
    if n > 0 {
      BoardAfterShapes(b, cycles, n - 1);
      RouteDoneShapes(BoardAfter(b, cycles, n - 1), cycles[n - 1], cycles[n - 1].tasks);
    }
  }

  lemma PollKeepsWiring(s: State, current: real)
    requires Wired(s)
    ensures Wired(Poll(s, current)) && SameSetting(s, Poll(s, current))
  {
    BoardAfterShapes(s.board, s.cycles, |s.cycles|);
    KeptOfInRange(s.cycles, |s.cycles|, current, |s.board.groups|);
  }

  lemma PrimariesListed(a: seq<Group>, b: seq<Group>, names: set<string>)
    requires SameShapes(a, b) && forall g | g in a :: g.primary.name in names
    ensures forall g | g in b :: g.primary.name in names
  {
    forall i | 0 <= i < |b| ensures b[i].primary.name in names {
      assert a[i] in a;
    }
  }
}
