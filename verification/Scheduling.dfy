/** The polling loop as a step machine: the scheduling tick in its three modes, the
    workers' progress in between, and upstream reconnect requests. */
module Scheduling {
  import opened ScrapeGroups

  /** A submitted interleaved read as the executor sees it. */
  datatype Future = Queued | Running | Finished(outcome: Outcome) | Cancelled {
    predicate Done() { Finished? || Cancelled? }
  }

  datatype Source = Standalone | Consolidated(group: nat)

  /** One submitted read: one transport on its own, or a whole group through its primary. */
  datatype Read = Read(id: nat, transport: Transport, source: Source, future: Future)

  /** One entry of the active-cycle table. */
  datatype Cycle = Cycle(key: set<string>, tasks: seq<Read>, startedAt: real, overallTimeout: real,
                         cycleNow: real, readyGroups: seq<nat>, timedOut: bool)

  /** One entry of the concurrent futures table: a worker is reading, is part-way through
      forwarding to the members it found due, or has returned. */
  datatype Phase = Reading | Forwarding(due: seq<Transport>, outcome: Outcome) | Returned
  datatype Job = Job(group: nat, now: real, phase: Phase)

  datatype Mode = SequentialMode | ConcurrentMode | InterleavedMode

  /** What routing a read changes: the forward marks and the log of routed reads. */
  datatype Board = Board(groups: seq<Group>, routed: seq<nat>)

  /** `expired` logs the reads whose cycle timed out before they were done. */
  datatype State = State(mode: Mode, board: Board, lastRead: map<string, real>, cycles: seq<Cycle>,
                         jobs: map<string, Job>, nextId: nat, expired: set<nat>)

  // ------------------------------------------------------------------
  // Routing and retiring interleaved cycles
  // ------------------------------------------------------------------

  ghost predicate ValidGroups(groups: seq<Group>) {
    forall i | 0 <= i < |groups| :: ValidGroup(groups[i])
  }

  ghost predicate AllBelow(ready: seq<nat>, n: nat) {
    forall i | 0 <= i < |ready| :: ready[i] < n
  }

  ghost predicate SourcesInRange(c: Cycle, n: nat) {
    && AllBelow(c.readyGroups, n)
    && (forall r | r in c.tasks && r.source.Consolidated? :: r.source.group < n)
  }

  /** The first of the listed groups that has `t` as a member is marked; no such group, no mark. */
  function MarkStandalone(groups: seq<Group>, ready: seq<nat>, t: Transport, now: real): (r: seq<Group>)
    requires ValidGroups(groups) && AllBelow(ready, |groups|)
    ensures |r| == |groups| && ValidGroups(r)
  {
    if ready == [] then groups
    else
      if t in groups[ready[0]].members then
        assert t.name in Names(groups[ready[0]].members);
        groups[ready[0] := Mark(groups[ready[0]], t.name, now)]
      else MarkStandalone(groups, ready[1..], t, now)
  }

  /** Route one finished read's data. */
  function Route(b: Board, c: Cycle, r: Read): (b': Board)
    requires ValidGroups(b.groups) && SourcesInRange(c, |b.groups|) && r in c.tasks && r.future.Finished?
    ensures |b'.groups| == |b.groups| && ValidGroups(b'.groups)
  {
    var o := r.future.outcome;
    match r.source
    case Consolidated(gi) =>
      var g := b.groups[gi];
      Board(b.groups[gi := ForwardAll(g, MembersDue(g, c.cycleNow), c.cycleNow, o)], b.routed + [r.id])
    case Standalone =>
      var served := r.transport.name in o.nonEmpty && r.transport.name !in o.failing;
      Board(if served then MarkStandalone(b.groups, c.readyGroups, r.transport, c.cycleNow) else b.groups,
            b.routed + [r.id])
  }

  /** Route every done read of `reads` unless the cycle has timed out; a cancelled read has nothing to route. */
  function RouteDone(b: Board, c: Cycle, tasks: seq<Read>): (b': Board)
    requires ValidGroups(b.groups) && SourcesInRange(c, |b.groups|) && forall r | r in tasks :: r in c.tasks
    ensures |b'.groups| == |b.groups| && ValidGroups(b'.groups)
    decreases |tasks|
  {
    if tasks == [] then b
    else
      assert tasks[0] in tasks && forall r | r in tasks[1..] :: r in tasks;
      var b1 := if tasks[0].future.Finished? && !c.timedOut then Route(b, c, tasks[0]) else b;
      RouteDone(b1, c, tasks[1..])
  }

  function Pending(tasks: seq<Read>): (p: seq<Read>)
    ensures forall r :: r in p <==> r in tasks && !r.future.Done()
  {
    if tasks == [] then []
    else if tasks[0].future.Done() then Pending(tasks[1..])
    else [tasks[0]] + Pending(tasks[1..])
  }

  /** Cancelling a future only succeeds while it is still queued. */
  function Cancel(tasks: seq<Read>): (r: seq<Read>)
    ensures |r| == |tasks|
    ensures forall i | 0 <= i < |r| ::
              r[i] == if tasks[i].future.Queued? then tasks[i].(future := Cancelled) else tasks[i]
  {
    seq(|tasks|, i requires 0 <= i < |tasks| =>
      if tasks[i].future.Queued? then tasks[i].(future := Cancelled) else tasks[i])
  }

  predicate TimesOut(c: Cycle, current: real) {
    !c.timedOut && Pending(c.tasks) != [] && current - c.startedAt > c.overallTimeout
  }

  /** What one poll leaves of a cycle: its unfinished reads, cancelled if the cycle just timed out. */
  function Polled(c: Cycle, current: real): Cycle {
    if TimesOut(c, current) then c.(tasks := Cancel(Pending(c.tasks)), timedOut := true)
    else c.(tasks := Pending(c.tasks))
  }

  function Ids(tasks: seq<Read>): set<nat> {
    set r | r in tasks :: r.id
  }

  ghost predicate AllInRange(cycles: seq<Cycle>, n: nat) {
    forall i | 0 <= i < |cycles| :: SourcesInRange(cycles[i], n)
  }

  ghost predicate Wired(s: State) {
    ValidGroups(s.board.groups) && AllInRange(s.cycles, |s.board.groups|)
  }

  /** The board after polling the first `n` cycles. */
  function BoardAfter(b: Board, cycles: seq<Cycle>, n: nat): (b': Board)
    requires ValidGroups(b.groups) && AllInRange(cycles, |b.groups|) && n <= |cycles|
    ensures |b'.groups| == |b.groups| && ValidGroups(b'.groups)
  {
    if n == 0 then b else RouteDone(BoardAfter(b, cycles, n - 1), cycles[n - 1], cycles[n - 1].tasks)
  }

  /** What polling leaves of one cycle: nothing once no read is left in it. */
  function Kept(c: Cycle, current: real): seq<Cycle> {
    if Polled(c, current).tasks == [] then [] else [Polled(c, current)]
  }

  function KeptOf(cycles: seq<Cycle>, n: nat, current: real): seq<Cycle>
    requires n <= |cycles|
  {
    if n == 0 then [] else KeptOf(cycles, n - 1, current) + Kept(cycles[n - 1], current)
  }

  function ExpiredBy(c: Cycle, current: real): set<nat> {
    if TimesOut(c, current) then Ids(Pending(c.tasks)) else {}
  }

  function ExpiredOf(cycles: seq<Cycle>, n: nat, current: real): set<nat>
    requires n <= |cycles|
  {
    if n == 0 then {} else ExpiredOf(cycles, n - 1, current) + ExpiredBy(cycles[n - 1], current)
  }

  /** The state once the first `n` cycles of the table have been polled. */
  function PollFirst(s: State, n: nat, current: real): State
    requires Wired(s) && n <= |s.cycles|
  {
    s.(board := BoardAfter(s.board, s.cycles, n),
       cycles := KeptOf(s.cycles, n, current) + s.cycles[n..],
       expired := s.expired + ExpiredOf(s.cycles, n, current))
  }

  function Poll(s: State, current: real): State
    requires Wired(s)
  {
    PollFirst(s, |s.cycles|, current)
  }

  lemma KeptInRange(c: Cycle, current: real, n: nat)
    requires SourcesInRange(c, n)
    ensures AllInRange(Kept(c, current), n)
  {
    var c' := Polled(c, current);
    forall k | 0 <= k < |c'.tasks| ensures c'.tasks[k].source.Consolidated? ==> c'.tasks[k].source.group < n {
      assert Pending(c.tasks)[k] in c.tasks;
    }
  }

  lemma {:induction false} KeptOfInRange(cycles: seq<Cycle>, k: nat, current: real, n: nat)
    requires AllInRange(cycles, n) && k <= |cycles|
    ensures AllInRange(KeptOf(cycles, k, current), n)
  {
    if k > 0 {
      KeptOfInRange(cycles, k - 1, current, n);
      KeptInRange(cycles[k - 1], current, n);
    }
  }

  // ------------------------------------------------------------------
  // Starting interleaved cycles
  // ------------------------------------------------------------------

  /** The first ready group with more than one member that `t` belongs to. */
  function OwningGroup(groups: seq<Group>, ready: seq<nat>, t: Transport): (r: Source)
    requires AllBelow(ready, |groups|)
    ensures r.Consolidated? ==> r.group in ready && |groups[r.group].members| > 1 && t in groups[r.group].members
    ensures r.Standalone? ==> forall gi | gi in ready && |groups[gi].members| > 1 :: t !in groups[gi].members
  {
    if ready == [] then Standalone
    else
      if |groups[ready[0]].members| > 1 && t in groups[ready[0]].members then Consolidated(ready[0])
      else OwningGroup(groups, ready[1..], t)
  }

  /** The groups to read once each for the due transports `ts`, in order of first need. */
  function Consolidations(groups: seq<Group>, ready: seq<nat>, ts: seq<Transport>): (r: seq<nat>)
    requires AllBelow(ready, |groups|)
    ensures forall gi | gi in r :: gi in ready
  {
    if ts == [] then []
    else
      var r := Consolidations(groups, ready, ts[..|ts| - 1]);
      var o := OwningGroup(groups, ready, ts[|ts| - 1]);
      if o.Standalone? || o.group in r then r else r + [o.group]
  }

  function Standalones(groups: seq<Group>, ready: seq<nat>, ts: seq<Transport>): seq<Transport>
    requires AllBelow(ready, |groups|)
  {
    if ts == [] then []
    else
      var r := Standalones(groups, ready, ts[..|ts| - 1]);
      if OwningGroup(groups, ready, ts[|ts| - 1]).Standalone? then r + [ts[|ts| - 1]] else r
  }

  function NewReads(groups: seq<Group>, ready: seq<nat>, ts: seq<Transport>, id: nat): (tasks: seq<Read>)
    requires AllBelow(ready, |groups|)
    ensures forall r | r in tasks && r.source.Consolidated? :: r.source.group in ready
  {
    var cs := Consolidations(groups, ready, ts);
    var st := Standalones(groups, ready, ts);
    seq(|cs|, i requires 0 <= i < |cs| => assert cs[i] in cs; Read(id + i, groups[cs[i]].primary, Consolidated(cs[i]), Queued))
    + seq(|st|, i requires 0 <= i < |st| => Read(id + |cs| + i, st[i], Standalone, Queued))
  }

  /** The longest of the reads' timeouts, 60 seconds for no read at all. */
  function OverallTimeout(tasks: seq<Read>): (r: real)
    ensures tasks != [] ==> exists t :: t in tasks && t.transport.cycleTimeout == r
    ensures forall t | t in tasks :: t.transport.cycleTimeout <= r
  {
    if tasks == [] then 60.0
    else if |tasks| == 1 then tasks[0].transport.cycleTimeout
    else
      var rest := OverallTimeout(tasks[..|tasks| - 1]);
      var last := tasks[|tasks| - 1].transport.cycleTimeout;
      assert tasks == tasks[..|tasks| - 1] + [tasks[|tasks| - 1]];
      if rest < last then last else rest
  }

  predicate Overlaps(cycles: seq<Cycle>, key: set<string>) {
    exists c :: c in cycles && c.key * key != {}
  }

  /** Start a cycle for the due transports `ts`, unless one that shares a transport is still active. */
  function StartCycle(s: State, ts: seq<Transport>, ready: seq<nat>, now: real, startedAt: real): State
    requires AllBelow(ready, |s.board.groups|)
  {
    if ts == [] || Overlaps(s.cycles, Names(ts)) then s
    else
      var tasks := NewReads(s.board.groups, ready, ts, s.nextId);
      s.(cycles := s.cycles + [Cycle(Names(ts), tasks, startedAt, OverallTimeout(tasks), now, ready, false)],
         nextId := s.nextId + |tasks|)
  }

  // ------------------------------------------------------------------
  // One tick of the main loop
  // ------------------------------------------------------------------

  /** The groups among the first `n` whose scrape interval has elapsed, and the read times
      with each such group's primary stamped. */
  function ScanReady(groups: seq<Group>, lastRead: map<string, real>, n: nat, now: real): (r: (seq<nat>, map<string, real>))
    requires n <= |groups| && forall g | g in groups :: g.primary.name in lastRead
    ensures r.1.Keys == lastRead.Keys
    ensures AllBelow(r.0, n)
    ensures forall i, j | 0 <= i < j < |r.0| :: r.0[i] < r.0[j]
  {
    if n == 0 then ([], lastRead)
    else
      var (ready, times) := ScanReady(groups, lastRead, n - 1, now);
      var g := groups[n - 1];
      var interval := FastestInterval(g.members);
      if interval > 0.0 && now - times[g.primary.name] >= interval then
        (ready + [n - 1], times[g.primary.name := now])
      else (ready, times)
  }

  /** Submit one group's read to the pool unless a prior one for its device is still running. */
  function SubmitJob(s: State, gi: nat, now: real): State
    requires gi < |s.board.groups|
  {
    var key := s.board.groups[gi].primary.target;
    if key in s.jobs && !s.jobs[key].phase.Returned? then s
    else s.(jobs := s.jobs[key := Job(gi, now, Reading)])
  }

  /** Read one group in line and forward to the members then due. */
  function ProcessGroup(s: State, gi: nat, now: real, o: Outcome): State
    requires gi < |s.board.groups| && ValidGroup(s.board.groups[gi])
  {
    var g := s.board.groups[gi];
    s.(board := s.board.(groups := s.board.groups[gi := ForwardAll(g, MembersDue(g, now), now, o)]))
  }

  function Dispatch(s: State, ready: seq<nat>, gi: nat, now: real, startedAt: real, o: Outcome): State
    requires Wired(s) && gi < |s.board.groups| && AllBelow(ready, |s.board.groups|)
  {
    match s.mode
    case ConcurrentMode => SubmitJob(s, gi, now)
    case InterleavedMode => StartCycle(s, MembersDue(s.board.groups[gi], now), ready, now, startedAt)
    case SequentialMode => ProcessGroup(s, gi, now, o)
  }

  lemma DispatchWired(s: State, ready: seq<nat>, gi: nat, now: real, startedAt: real, o: Outcome)
    requires Wired(s) && gi < |s.board.groups| && AllBelow(ready, |s.board.groups|)
    ensures Wired(Dispatch(s, ready, gi, now, startedAt, o))
    ensures |Dispatch(s, ready, gi, now, startedAt, o).board.groups| == |s.board.groups|
  {
  }

  /** Dispatch the first `k` ready groups in order. */
  function DispatchAll(s: State, ready: seq<nat>, k: nat, now: real, startedAt: real, outcomes: seq<Outcome>): (s': State)
    requires Wired(s) && k <= |ready| && k <= |outcomes| && AllBelow(ready, |s.board.groups|)
    ensures Wired(s') && |s'.board.groups| == |s.board.groups|
  {
    if k == 0 then s
    else
      var s1 := DispatchAll(s, ready, k - 1, now, startedAt, outcomes);
      DispatchWired(s1, ready, ready[k - 1], now, startedAt, outcomes[k - 1]);
      Dispatch(s1, ready, ready[k - 1], now, startedAt, outcomes[k - 1])
  }
}
