/** What the scheduler owes a group that is ready: it is taken up, its device is read, and the members
    that wait are served. */
module TickTheorems {
  import opened Numbers
  import opened ScrapeGroups
  import opened Scheduling
  import opened SchedulingRuns
  import opened SchedulingSafety
  import opened SchedulingTheorems

  // ------------------------------------------------------------------
  // Forwarding one read
  // ------------------------------------------------------------------

  /** The member's read interval has passed since its last mark. */
  predicate Waits(g: Group, m: Transport, now: real) {
    && m.name in g.forwards && g.forwards[m.name] != [] && m.readInterval > 0.0
    && now - g.forwards[m.name][|g.forwards[m.name]| - 1] >= m.readInterval
  }

  /** Member `i` waits, and the read has brought something for it. */
  predicate Takes(g: Group, i: nat, now: real, o: Outcome) {
    i < |g.members| && Waits(g, g.members[i], now) && g.members[i].name in o.nonEmpty
  }

  /** It is served: no bridge that was written to before it raised, nor does its own. */
  ghost predicate IsServed(g: Group, i: nat, now: real, o: Outcome) {
    Takes(g, i, now, o) && forall j: nat | j <= i && Takes(g, j, now, o) :: g.members[j].name !in o.failing
  }

  /** `h` is `g` with one read forwarded: the members served have one mark more, and no others. */
  ghost predicate Forwarded(g: Group, h: Group, now: real, o: Outcome) {
    && SameShape(g, h)
    && forall i: nat | i < |g.members| :: NewMarks(g, h, i, if IsServed(g, i, now, o) then [now] else [])
  }

  predicate NewMarks(g: Group, h: Group, i: nat, marks: seq<real>)
    requires i < |g.members|
  {
    var n := g.members[i].name;
    n in g.forwards && n in h.forwards && h.forwards[n] == g.forwards[n] + marks
  }

  /** The same along a list of members. */
  ghost predicate ListServes(due: seq<Transport>, k: nat, o: Outcome) {
    && k < |due| && due[k].name in o.nonEmpty
    && forall j: nat | j <= k && due[j].name in o.nonEmpty :: due[j].name !in o.failing
  }

  lemma ListServesTail(due: seq<Transport>, k: nat, o: Outcome)
    requires 0 < k < |due|
    ensures ListServes(due, k, o)
       <==> !(due[0].name in o.nonEmpty && due[0].name in o.failing) && ListServes(due[1..], k - 1, o)
  {
    if ListServes(due[1..], k - 1, o) && !(due[0].name in o.nonEmpty && due[0].name in o.failing) {
      forall j: nat | j <= k && due[j].name in o.nonEmpty ensures due[j].name !in o.failing {
        if j > 0 {
          assert due[1..][j - 1] == due[j];
        }
      }
    }
    if ListServes(due, k, o) {
      forall j: nat | j <= k - 1 && due[1..][j].name in o.nonEmpty ensures due[1..][j].name !in o.failing {
        assert due[1..][j] == due[j + 1];
      }
    }
  }

  lemma {:induction false} ForwardAllAt(g: Group, due: seq<Transport>, now: real, o: Outcome, k: nat)
    requires Names(due) <= g.forwards.Keys && DistinctNames(due) && k < |due|
    ensures due[k].name in g.forwards
    ensures ForwardAll(g, due, now, o).forwards[due[k].name]
         == g.forwards[due[k].name] + if ListServes(due, k, o) then [now] else []
    decreases |due|
  {
    var head, rest, n := due[0], due[1..], due[k].name;
    assert head.name in Names(due) && n in Names(due);
    assert Names(rest) <= Names(due);
    if k == 0 {
      assert head.name !in Names(rest);
      var h := if head.name in o.nonEmpty && head.name !in o.failing then Mark(g, head.name, now) else g;
      ForwardAllMarks(h, rest, now, o, n);
    } else {
      assert rest[k - 1] == due[k];
      ListServesTail(due, k, o);
      hide ListServes;
      if head.name !in o.nonEmpty {
        ForwardAllAt(g, rest, now, o, k - 1);
      } else if head.name !in o.failing {
        ForwardAllAt(Mark(g, head.name, now), rest, now, o, k - 1);
      }
    }
  }

  /** The due members stand in the order of the members. */
  lemma {:induction false} DueKeepsOrder(g: Group, ts: seq<Transport>, now: real, j: nat, k: nat, p: nat, q: nat)
    requires ValidGroup(g) && (forall t | t in ts :: t in g.members) && DistinctNames(ts)
    requires j < k < |Due(g, ts, now)| && p < |ts| && q < |ts|
    requires ts[p] == Due(g, ts, now)[j] && ts[q] == Due(g, ts, now)[k]
    ensures p < q
  {
    var n := |ts| - 1;
    var init := ts[..n];
    assert ts == init + [ts[n]];
    var due := Due(g, init, now);
    assert due[j] in due && due[j] in init;
    if k < |due| {
      assert due[k] in due && due[k] in init;
      DueKeepsOrder(g, init, now, j, k, p, q);
    }
  }

  lemma DueIsWaiting(g: Group, now: real, i: nat)
    requires ValidGroup(g) && i < |g.members|
    ensures g.members[i] in MembersDue(g, now) <==> Waits(g, g.members[i], now)
  {
    assert g.members[i].name in Names(g.members);
  }

  lemma ServedInList(g: Group, now: real, o: Outcome, i: nat, k: nat)
    requires ValidGroup(g) && i < |g.members| && k < |MembersDue(g, now)| && MembersDue(g, now)[k] == g.members[i]
    ensures IsServed(g, i, now, o) <==> ListServes(MembersDue(g, now), k, o)
  {
    hide ValidGroup, Due, Waits;
    var due := MembersDue(g, now);
    DueIsWaiting(g, now, i);
    if IsServed(g, i, now, o) {
      forall j: nat | j <= k && due[j].name in o.nonEmpty ensures due[j].name !in o.failing {
        var p := PositionOf(g, now, j);
        DueIsWaiting(g, now, p);
        if j < k { OrderOf(g, now, j, k, p, i); } else { SamePosition(g, p, i); }
      }
    }
    if ListServes(due, k, o) {
      forall j: nat | j <= i && Takes(g, j, now, o) ensures g.members[j].name !in o.failing {
        DueIsWaiting(g, now, j);
        var q: nat :| q < |due| && due[q] == g.members[j];
        if q > k { OrderOf(g, now, k, q, i, j); }
      }
    }
  }

  lemma PositionOf(g: Group, now: real, j: nat) returns (p: nat)
    requires ValidGroup(g) && j < |MembersDue(g, now)|
    ensures p < |g.members| && g.members[p] == MembersDue(g, now)[j]
  {
    assert MembersDue(g, now)[j] in MembersDue(g, now);
    p :| p < |g.members| && g.members[p] == MembersDue(g, now)[j];
  }

  lemma SamePosition(g: Group, p: nat, i: nat)
    requires ValidGroup(g) && p < |g.members| && i < |g.members| && g.members[p] == g.members[i]
    ensures p == i
  {
  }

  lemma OrderOf(g: Group, now: real, j: nat, k: nat, p: nat, q: nat)
    requires ValidGroup(g) && j < k < |MembersDue(g, now)| && p < |g.members| && q < |g.members|
    requires g.members[p] == MembersDue(g, now)[j] && g.members[q] == MembersDue(g, now)[k]
    ensures p < q
  {
    DueKeepsOrder(g, g.members, now, j, k, p, q);
  }

  /** Forwarding serves exactly the waiting members with data that come before the first bridge that
      raises. */
  lemma ForwardServesExactly(g: Group, now: real, o: Outcome)
    requires ValidGroup(g)
    ensures Forwarded(g, ForwardAll(g, MembersDue(g, now), now, o), now, o)
  {
    var due := MembersDue(g, now);
    var h := ForwardAll(g, due, now, o);
    assert DistinctNames(due) && Names(due) <= g.forwards.Keys;
    forall i: nat | i < |g.members| ensures NewMarks(g, h, i, if IsServed(g, i, now, o) then [now] else []) {
      ServesMember(g, now, o, i);
    }
  }

  lemma ServesMember(g: Group, now: real, o: Outcome, i: nat)
    requires ValidGroup(g) && i < |g.members|
    ensures NewMarks(g, ForwardAll(g, MembersDue(g, now), now, o), i, if IsServed(g, i, now, o) then [now] else [])
  {
    var due := MembersDue(g, now);
    var m := g.members[i];
    assert DistinctNames(due) && m.name in Names(g.members);
    DueIsWaiting(g, now, i);
    hide IsServed, ListServes, Due;
    if m in due {
      var k: nat :| k < |due| && due[k] == m;
      ForwardAllAt(g, due, now, o, k);
      ServedInList(g, now, o, i, k);
    } else {
      if m.name in Names(due) {
        DueByName(g, now, i);
      }
      ForwardAllMarks(g, due, now, o, m.name);
      NotWaitingNotServed(g, now, o, i);
    }
  }

  lemma DueByName(g: Group, now: real, i: nat)
    requires ValidGroup(g) && i < |g.members| && g.members[i].name in Names(MembersDue(g, now))
    ensures g.members[i] in MembersDue(g, now)
  {
    var t :| t in MembersDue(g, now) && t.name == g.members[i].name;
    SameNameSameTransport(g.members, t, g.members[i]);
  }

  lemma NotWaitingNotServed(g: Group, now: real, o: Outcome, i: nat)
    requires i < |g.members| && !Waits(g, g.members[i], now)
    ensures !IsServed(g, i, now, o)
  {
  }

  // ------------------------------------------------------------------
  // Which groups are taken up
  // ------------------------------------------------------------------

  /** The smallest positive read interval. */
  ghost predicate IsFastest(ts: seq<Transport>, interval: real) {
    && interval > 0.0 && (exists t | t in ts :: t.readInterval == interval)
    && forall t | t in ts && t.readInterval > 0.0 :: interval <= t.readInterval
  }

  /** The group's fastest interval has passed since its primary was read. */
  ghost predicate IsReady(g: Group, lastRead: map<string, real>, now: real) {
    g.primary.name in lastRead && exists interval :: IsFastest(g.members, interval) && now - lastRead[g.primary.name] >= interval
  }

  lemma FastestIsIt(ts: seq<Transport>, interval: real)
    ensures IsFastest(ts, interval) <==> interval > 0.0 && interval == FastestInterval(ts)
  {
  }

  /** The name is that of the primary of one of the first `n` groups, and the group is ready. */
  ghost predicate IsStamped(groups: seq<Group>, n: nat, lastRead: map<string, real>, now: real, name: string)
    requires n <= |groups|
  {
    exists i: nat :: i < n && IsReady(groups[i], lastRead, now) && groups[i].primary.name == name
  }

  /** The scan of the first `n` groups has found the ready ones, and stamped their primaries. */
  ghost predicate Scanned(groups: seq<Group>, lastRead: map<string, real>, n: nat, now: real, ready: seq<nat>, times: map<string, real>)
    requires n <= |groups|
  {
    && (forall i: nat :: i in ready <==> i < n && IsReady(groups[i], lastRead, now))
    && times.Keys == lastRead.Keys
    && (forall name | name in lastRead ::
          times[name] == if IsStamped(groups, n, lastRead, now, name) then now else lastRead[name])
  }

  lemma {:induction false} ScanIsExact(groups: seq<Group>, lastRead: map<string, real>, n: nat, now: real)
    requires DisjointGroups(groups) && ValidGroups(groups) && n <= |groups|
    requires forall g | g in groups :: g.primary.name in lastRead
    ensures var (ready, times) := ScanReady(groups, lastRead, n, now);
            Scanned(groups, lastRead, n, now, ready, times)
  {
    hide *;
    if n == 0 {
      ScanOfNone(groups, lastRead, now);
    } else {
      ScanIsExact(groups, lastRead, n - 1, now);
      assert groups[n - 1] in groups;
      ScanOneMore(groups, lastRead, n, now);
      var (ready, times) := ScanReady(groups, lastRead, n - 1, now);
      if IsReady(groups[n - 1], lastRead, now) {
        StampOne(groups, lastRead, n, now, ready, times);
      } else {
        PassOver(groups, lastRead, n, now, ready, times);
      }
    }
  }

  lemma ScanOfNone(groups: seq<Group>, lastRead: map<string, real>, now: real)
    requires forall g | g in groups :: g.primary.name in lastRead
    ensures ScanReady(groups, lastRead, 0, now) == ([], lastRead) && Scanned(groups, lastRead, 0, now, [], lastRead)
  {
  }

  lemma StampOne(groups: seq<Group>, lastRead: map<string, real>, n: nat, now: real, ready: seq<nat>, times: map<string, real>)
    requires 0 < n <= |groups| && Scanned(groups, lastRead, n - 1, now, ready, times)
    requires IsReady(groups[n - 1], lastRead, now) && groups[n - 1].primary.name in lastRead
    ensures Scanned(groups, lastRead, n, now, ready + [n - 1], times[groups[n - 1].primary.name := now])
  {
    hide IsReady;
    StampedMore(groups, n, lastRead, now);
    hide IsStamped;
  }

  lemma PassOver(groups: seq<Group>, lastRead: map<string, real>, n: nat, now: real, ready: seq<nat>, times: map<string, real>)
    requires 0 < n <= |groups| && Scanned(groups, lastRead, n - 1, now, ready, times)
    requires !IsReady(groups[n - 1], lastRead, now)
    ensures Scanned(groups, lastRead, n, now, ready, times)
  {
    hide IsReady;
    StampedMore(groups, n, lastRead, now);
    hide IsStamped;
  }

  /** The test the scan makes. */
  lemma ScanOneMore(groups: seq<Group>, lastRead: map<string, real>, n: nat, now: real)
    requires 0 < n <= |groups| && DisjointGroups(groups) && ValidGroups(groups)
    requires forall g | g in groups :: g.primary.name in lastRead
    requires var (ready, times) := ScanReady(groups, lastRead, n - 1, now);
             Scanned(groups, lastRead, n - 1, now, ready, times)
    ensures var (ready, times) := ScanReady(groups, lastRead, n - 1, now);
            var g := groups[n - 1];
            ScanReady(groups, lastRead, n, now)
            == if IsReady(g, lastRead, now) then (ready + [n - 1], times[g.primary.name := now]) else (ready, times)
  {
    var g := groups[n - 1];
    assert g in groups;
    PrimaryIsOne(groups, lastRead, n - 1, now);
    ReadyByTest(g, lastRead, now);
    hide IsReady, IsStamped, FastestInterval, DisjointGroups, ValidGroups;
  }

  lemma ReadyByTest(g: Group, lastRead: map<string, real>, now: real)
    requires g.primary.name in lastRead
    ensures var interval := FastestInterval(g.members);
            IsReady(g, lastRead, now) <==> interval > 0.0 && now - lastRead[g.primary.name] >= interval
  {
    FastestIsIt(g.members, FastestInterval(g.members));
    forall interval | IsFastest(g.members, interval) ensures interval == FastestInterval(g.members) {
      FastestIsIt(g.members, interval);
    }
  }

  /** No earlier group has the primary of group `n`. */
  lemma PrimaryIsOne(groups: seq<Group>, lastRead: map<string, real>, n: nat, now: real)
    requires DisjointGroups(groups) && ValidGroups(groups) && n < |groups|
    ensures !IsStamped(groups, n, lastRead, now, groups[n].primary.name)
  {
    forall i: nat | i < n ensures groups[i].primary.name != groups[n].primary.name {
      assert ValidGroup(groups[i]) && ValidGroup(groups[n]);
      assert groups[i].primary.name in Names(groups[i].members) && groups[n].primary.name in Names(groups[n].members);
    }
  }

  lemma StampedMore(groups: seq<Group>, n: nat, lastRead: map<string, real>, now: real)
    requires 0 < n <= |groups|
    ensures forall name :: IsStamped(groups, n, lastRead, now, name)
                      <==> IsStamped(groups, n - 1, lastRead, now, name)
                           || (IsReady(groups[n - 1], lastRead, now) && groups[n - 1].primary.name == name)
  {
    hide IsReady;
  }

  // ------------------------------------------------------------------
  // What a tick does for the cycles it finds
  // ------------------------------------------------------------------

  /** A cycle is overdue: more time than allowed has passed since it was started. */
  predicate IsOverdue(c: Cycle, current: real) { current - c.startedAt > c.overallTimeout }

  /** What a poll leaves of a cycle whose read is not done: unless it is overdue for the first time it is
      unchanged; then it is marked, and its read cancelled if it is still queued. */
  predicate LeftBy(c: Cycle, c': Cycle, current: real)
    requires |c.tasks| == 1
  {
    if c.timedOut || !IsOverdue(c, current) then c' == c
    else c' == c.(timedOut := true, tasks := [if c.tasks[0].future.Queued? then c.tasks[0].(future := Cancelled) else c.tasks[0]])
  }

  /** `left` is what a poll leaves of one of the cycles with a read that was not done. */
  ghost predicate IsLeftOf(cycles: seq<Cycle>, left: Cycle, current: real) {
    exists c :: c in cycles && |c.tasks| == 1 && !c.tasks[0].future.Done() && LeftBy(c, left, current)
  }

  ghost predicate IsLeftIn(c: Cycle, left: seq<Cycle>, current: real)
    requires |c.tasks| == 1
  {
    exists c' :: c' in left && LeftBy(c, c', current)
  }

  /** The cycles a poll leaves are those whose read was not done. */
  ghost predicate Leaves(cycles: seq<Cycle>, left: seq<Cycle>, current: real) {
    && (forall c | c in left :: IsLeftOf(cycles, c, current))
    && (forall c | c in cycles && |c.tasks| == 1 && !c.tasks[0].future.Done() :: IsLeftIn(c, left, current))
  }

  /** The read of the cycle is finished, and in time. */
  predicate IsDelivered(c: Cycle) { |c.tasks| == 1 && c.tasks[0].future.Finished? && !c.timedOut }

  /** Of the first `n` cycles those with finished reads have served their groups; no other group is changed. */
  ghost predicate Delivers(groups: seq<Group>, after: seq<Group>, cycles: seq<Cycle>, n: nat)
    requires n <= |cycles| && |after| == |groups|
  {
    && (forall i: nat, gi: nat | i < n && IsDelivered(cycles[i]) && Home(groups, cycles[i], gi) ::
          Forwarded(groups[gi], after[gi], cycles[i].cycleNow, cycles[i].tasks[0].future.outcome))
    && (forall gi: nat | gi < |groups| && (forall i: nat | i < n :: !(IsDelivered(cycles[i]) && Home(groups, cycles[i], gi))) ::
          after[gi] == groups[gi])
  }

  // ------------------------------------------------------------------
  // What a tick does for a group it takes up
  // ------------------------------------------------------------------

  ghost predicate Increasing(ready: seq<nat>) {
    forall i, j | 0 <= i < j < |ready| :: ready[i] < ready[j]
  }

  /** The groups a tick takes up, in order. */
  ghost predicate TakesUp(s: State, ready: seq<nat>, now: real) {
    && Increasing(ready) && AllBelow(ready, |s.board.groups|)
    && forall i: nat :: i in ready <==> i < |s.board.groups| && IsReady(s.board.groups[i], s.lastRead, now)
  }

  /** Exactly the primaries of the groups taken up are stamped. */
  ghost predicate Stamps(s: State, s': State, now: real) {
    && s'.lastRead.Keys == s.lastRead.Keys
    && forall name | name in s.lastRead ::
         s'.lastRead[name] == if IsStamped(s.board.groups, |s.board.groups|, s.lastRead, now, name) then now else s.lastRead[name]
  }

  /** The group's device has a job that has not returned: the old one, or a new one. */
  predicate HasJob(s: State, s': State, gi: nat, now: real)
    requires gi < |s.board.groups|
  {
    var key := s.board.groups[gi].primary.target;
    && key in s'.jobs
    && s'.jobs[key] == if key in s.jobs && !s.jobs[key].phase.Returned? then s.jobs[key] else Job(gi, now, Reading)
  }

  /** The devices of the first `n` groups have jobs, and no other job is changed. */
  ghost predicate Submits(s: State, s': State, ready: seq<nat>, n: nat, now: real)
    requires n <= |ready| && AllBelow(ready, |s.board.groups|)
  {
    && (forall k: nat | k < n :: HasJob(s, s', ready[k], now))
    && (forall key | key in s.jobs || key in s'.jobs ::
          IsDeviceOf(s, ready[..n], key) || (key in s.jobs && key in s'.jobs && s'.jobs[key] == s.jobs[key]))
  }

  predicate IsDeviceOf(s: State, ready: seq<nat>, key: string)
    requires AllBelow(ready, |s.board.groups|)
  {
    exists k: nat :: k < |ready| && s.board.groups[ready[k]].primary.target == key
  }

  /** Some cycle of the group has a read that is not done. */
  ghost predicate IsBusy(s: State, gi: nat) {
    exists i: nat :: i < |s.cycles| && Home(s.board.groups, s.cycles[i], gi) && !s.cycles[i].tasks[0].future.Done()
  }

  /** The cycle was started by this tick: its one read is queued, and may take as long as its transport
      allows. */
  predicate IsBegun(s: State, s': State, c: Cycle, now: real, startedAt: real) {
    && |c.tasks| == 1 && s.nextId <= c.tasks[0].id < s'.nextId && c.tasks[0].future.Queued?
    && c.cycleNow == now && c.startedAt == startedAt && !c.timedOut && c.overallTimeout == c.tasks[0].transport.cycleTimeout
  }

  ghost predicate SomeoneWaits(g: Group, now: real) {
    exists m :: m in g.members && Waits(g, m, now)
  }

  /** If someone waits, the table holds a cycle of the group: the old one, or a new one. */
  ghost predicate HasCycle(s: State, s': State, gi: nat, current: real, now: real, startedAt: real)
    requires gi < |s'.board.groups|
  {
    SomeoneWaits(s'.board.groups[gi], now) ==>
      exists c :: c in s'.cycles && Home(s.board.groups, c, gi)
                  && if IsBusy(s, gi) then IsLeftOf(s.cycles, c, current) else IsBegun(s, s', c, now, startedAt)
  }

  /** A cycle that the tick has begun is of one of the first `n` groups, someone waits there, and it was
      not busy. */
  ghost predicate IsWanted(s: State, s': State, c: Cycle, ready: seq<nat>, n: nat, now: real, startedAt: real)
    requires n <= |ready| && AllBelow(ready, |s.board.groups|) && |s'.board.groups| == |s.board.groups|
  {
    exists k: nat :: k < n && Home(s.board.groups, c, ready[k]) && SomeoneWaits(s'.board.groups[ready[k]], now)
                     && !IsBusy(s, ready[k]) && IsBegun(s, s', c, now, startedAt)
  }

  /** The first `n` groups have cycles where they need one; the others are those the poll has left. */
  ghost predicate Circulates(s: State, s': State, ready: seq<nat>, n: nat, current: real, now: real, startedAt: real)
    requires n <= |ready| && AllBelow(ready, |s.board.groups|) && |s'.board.groups| == |s.board.groups|
  {
    && (forall k: nat | k < n :: HasCycle(s, s', ready[k], current, now, startedAt))
    && (forall c | c in s'.cycles :: IsLeftOf(s.cycles, c, current) || IsWanted(s, s', c, ready, n, now, startedAt))
    && (forall c | c in s.cycles && |c.tasks| == 1 && !c.tasks[0].future.Done() :: IsLeftIn(c, s'.cycles, current))
  }

  /** The first `n` groups have been read in line, and no other group is changed. */
  ghost predicate ReadsInLine(s: State, s': State, ready: seq<nat>, n: nat, now: real, outcomes: seq<Outcome>)
    requires n <= |ready| && n <= |outcomes| && AllBelow(ready, |s.board.groups|) && |s'.board.groups| == |s.board.groups|
  {
    && (forall k: nat | k < n :: Forwarded(s.board.groups[ready[k]], s'.board.groups[ready[k]], now, outcomes[k]))
    && (forall i: nat | i < |s.board.groups| && i !in ready[..n] :: s'.board.groups[i] == s.board.groups[i])
  }

  /** What becomes of the first `n` groups taken up, and of all that was under way. */
  ghost predicate Dispatches(s: State, s': State, ready: seq<nat>, n: nat, current: real, now: real, startedAt: real, outcomes: seq<Outcome>)
    requires n <= |ready| && n <= |outcomes| && AllBelow(ready, |s.board.groups|) && |s'.board.groups| == |s.board.groups|
  {
    match s.mode
    case SequentialMode => ReadsInLine(s, s', ready, n, now, outcomes)
    case ConcurrentMode => s'.board.groups == s.board.groups && Submits(s, s', ready, n, now)
    case InterleavedMode =>
      && Delivers(s.board.groups, s'.board.groups, s.cycles, |s.cycles|)
      && Circulates(s, s', ready, n, current, now, startedAt)
  }

  /** All that one tick owes: the ready groups are taken up, and as many of them dispatched as the tick
      gets to. */
  ghost predicate IsTick(s: State, s': State, current: real, now: real, startedAt: real, outcomes: seq<Outcome>) {
    exists ready ::
      && TakesUp(s, ready, now) && Stamps(s, s', now) && SameShapes(s.board.groups, s'.board.groups) && s'.mode == s.mode
      && Dispatches(s, s', ready, Min(|ready|, |outcomes|), current, now, startedAt, outcomes)
  }

  // ------------------------------------------------------------------
  // Dispatching in sequential and concurrent mode
  // ------------------------------------------------------------------

  lemma {:induction false} SequentialDispatch(s: State, ready: seq<nat>, k: nat, now: real, startedAt: real, outcomes: seq<Outcome>)
    requires Wired(s) && k <= |ready| && k <= |outcomes| && AllBelow(ready, |s.board.groups|)
    requires s.mode.SequentialMode? && Increasing(ready)
    ensures var s' := DispatchAll(s, ready, k, now, startedAt, outcomes);
            && ReadsInLine(s, s', ready, k, now, outcomes)
            && s' == s.(board := s.board.(groups := s'.board.groups))
  {
    hide Wired, Increasing, ReadsInLine, ProcessGroup;
    if k > 0 {
      SequentialDispatch(s, ready, k - 1, now, startedAt, outcomes);
      var s1 := DispatchAll(s, ready, k - 1, now, startedAt, outcomes);
      GroupsOfWired(s1);
      InLineOneMore(s, s1, ready, k, now, outcomes);
    } else {
      InLineNone(s, ready, now, outcomes);
    }
  }

  lemma GroupsOfWired(s: State)
    requires Wired(s)
    ensures ValidGroups(s.board.groups)
  {
  }

  lemma InLineNone(s: State, ready: seq<nat>, now: real, outcomes: seq<Outcome>)
    requires AllBelow(ready, |s.board.groups|)
    ensures ReadsInLine(s, s, ready, 0, now, outcomes)
  {
  }

  lemma InLineOneMore(s: State, s1: State, ready: seq<nat>, k: nat, now: real, outcomes: seq<Outcome>)
    requires 0 < k <= |ready| && k <= |outcomes| && AllBelow(ready, |s.board.groups|) && Increasing(ready)
    requires |s1.board.groups| == |s.board.groups| && ValidGroups(s1.board.groups)
    requires s1 == s.(board := s.board.(groups := s1.board.groups)) && ReadsInLine(s, s1, ready, k - 1, now, outcomes)
    ensures var s' := ProcessGroup(s1, ready[k - 1], now, outcomes[k - 1]);
            && |s'.board.groups| == |s.board.groups| && s' == s.(board := s.board.(groups := s'.board.groups))
            && ReadsInLine(s, s', ready, k, now, outcomes)
  {
    hide Forwarded, ValidGroup, ForwardAll, MembersDue;
    var gi := ready[k - 1];
    assert gi !in ready[..k - 1];
    ForwardServesExactly(s1.board.groups[gi], now, outcomes[k - 1]);
    assert ready[..k] == ready[..k - 1] + [gi];
    forall q: nat | q < k - 1 ensures ready[q] != gi {
      assert ready[..k - 1][q] == ready[q];
    }
  }

  lemma {:induction false} ConcurrentDispatch(s: State, ready: seq<nat>, k: nat, now: real, startedAt: real, outcomes: seq<Outcome>)
    requires Wired(s) && k <= |ready| && k <= |outcomes| && AllBelow(ready, |s.board.groups|)
    requires s.mode.ConcurrentMode? && Increasing(ready) && BoardInv(s.board.groups)
    ensures var s' := DispatchAll(s, ready, k, now, startedAt, outcomes);
            && Submits(s, s', ready, k, now)
            && s' == s.(jobs := s'.jobs)
  {
    hide Wired, BoardInv, SubmitJob, Submits, Increasing;
    if k > 0 {
      ConcurrentDispatch(s, ready, k - 1, now, startedAt, outcomes);
      var s1 := DispatchAll(s, ready, k - 1, now, startedAt, outcomes);
      SubmitsOneMore(s, s1, ready, k, now);
    } else {
      SubmitsNone(s, ready, now);
    }
  }

  lemma SubmitsNone(s: State, ready: seq<nat>, now: real)
    requires AllBelow(ready, |s.board.groups|)
    ensures Submits(s, s, ready, 0, now)
  {
  }

  lemma SubmitsOneMore(s: State, s1: State, ready: seq<nat>, k: nat, now: real)
    requires 0 < k <= |ready| && AllBelow(ready, |s.board.groups|) && Increasing(ready) && BoardInv(s.board.groups)
    requires s1 == s.(jobs := s1.jobs) && Submits(s, s1, ready, k - 1, now)
    ensures var s' := SubmitJob(s1, ready[k - 1], now);
            s' == s.(jobs := s'.jobs) && Submits(s, s', ready, k, now)
  {
    DevicesOneMore(s, ready, k);
    NotYetSubmitted(s, ready, k);
    SubmitsNew(s, s1, ready, k, now);
    var s' := SubmitJob(s1, ready[k - 1], now);
    hide BoardInv, IsDeviceOf, SubmitJob, Increasing;
    SubmitsKept(s, s1, s', ready, k, now);
  }

  /** A job for one more device leaves what the others have. */
  lemma SubmitsKept(s: State, s1: State, s': State, ready: seq<nat>, k: nat, now: real)
    requires 0 < k <= |ready| && AllBelow(ready, |s.board.groups|) && Submits(s, s1, ready, k - 1, now)
    requires HasJob(s, s', ready[k - 1], now)
    requires forall key | key != s.board.groups[ready[k - 1]].primary.target ::
               (key in s'.jobs <==> key in s1.jobs) && (key in s1.jobs ==> s'.jobs[key] == s1.jobs[key])
    requires forall key :: IsDeviceOf(s, ready[..k], key)
                      <==> IsDeviceOf(s, ready[..k - 1], key) || key == s.board.groups[ready[k - 1]].primary.target
    requires forall q: nat | q < k - 1 :: s.board.groups[ready[q]].primary.target != s.board.groups[ready[k - 1]].primary.target
    ensures Submits(s, s', ready, k, now)
  {
    hide IsDeviceOf;
    forall q: nat | q < k ensures HasJob(s, s', ready[q], now) {
      if q < k - 1 {
        assert HasJob(s, s1, ready[q], now);
      }
    }
  }

  lemma SubmitsNew(s: State, s1: State, ready: seq<nat>, k: nat, now: real)
    requires 0 < k <= |ready| && AllBelow(ready, |s.board.groups|)
    requires s1 == s.(jobs := s1.jobs) && Submits(s, s1, ready, k - 1, now)
    requires !IsDeviceOf(s, ready[..k - 1], s.board.groups[ready[k - 1]].primary.target)
    ensures var gi := ready[k - 1];
            var key, s' := s.board.groups[gi].primary.target, SubmitJob(s1, gi, now);
            && s' == s.(jobs := s'.jobs) && HasJob(s, s', gi, now)
            && forall other | other != key :: (other in s'.jobs <==> other in s1.jobs) && (other in s1.jobs ==> s'.jobs[other] == s1.jobs[other])
  {
    hide IsDeviceOf;
    var key := s.board.groups[ready[k - 1]].primary.target;
    assert key in s.jobs || key in s1.jobs ==> key in s.jobs && key in s1.jobs && s1.jobs[key] == s.jobs[key];
  }

  lemma DevicesOneMore(s: State, ready: seq<nat>, k: nat)
    requires 0 < k <= |ready| && AllBelow(ready, |s.board.groups|)
    ensures forall key :: IsDeviceOf(s, ready[..k], key)
                     <==> IsDeviceOf(s, ready[..k - 1], key) || key == s.board.groups[ready[k - 1]].primary.target
    ensures forall q: nat | q < k :: IsDeviceOf(s, ready[..k], s.board.groups[ready[q]].primary.target)
    ensures forall q: nat | q < k - 1 :: IsDeviceOf(s, ready[..k - 1], s.board.groups[ready[q]].primary.target)
  {
    var init, all := ready[..k - 1], ready[..k];
    assert all == init + [ready[k - 1]];
    forall key ensures IsDeviceOf(s, all, key) <==> IsDeviceOf(s, init, key) || key == s.board.groups[ready[k - 1]].primary.target {
      if IsDeviceOf(s, init, key) {
        var q: nat :| q < |init| && s.board.groups[init[q]].primary.target == key;
        assert all[q] == init[q];
      }
      assert all[k - 1] == ready[k - 1];
    }
    forall q: nat | q < k - 1 ensures IsDeviceOf(s, init, s.board.groups[ready[q]].primary.target) {
      assert init[q] == ready[q];
    }
  }

  lemma NotYetSubmitted(s: State, ready: seq<nat>, k: nat)
    requires 0 < k <= |ready| && AllBelow(ready, |s.board.groups|) && Increasing(ready) && BoardInv(s.board.groups)
    ensures !IsDeviceOf(s, ready[..k - 1], s.board.groups[ready[k - 1]].primary.target)
  {
    hide KeepsCadence, DisjointGroups;
    var init, key := ready[..k - 1], s.board.groups[ready[k - 1]].primary.target;
    forall q: nat | q < |init| ensures s.board.groups[init[q]].primary.target != key {
      assert init[q] == ready[q] < ready[k - 1];
    }
  }

  // ------------------------------------------------------------------
  // Dispatching in interleaved mode
  // ------------------------------------------------------------------

  ghost predicate NoCycleOf(s: State, gi: nat) {
    forall i: nat | i < |s.cycles| :: !Home(s.board.groups, s.cycles[i], gi)
  }

  lemma SomeoneIsDue(g: Group, now: real)
    requires ValidGroup(g)
    ensures MembersDue(g, now) != [] <==> SomeoneWaits(g, now)
  {
    if MembersDue(g, now) != [] {
      var p := PositionOf(g, now, 0);
      DueIsWaiting(g, now, p);
    }
    if m :| m in g.members && Waits(g, m, now) {
      var i: nat :| i < |g.members| && g.members[i] == m;
      DueIsWaiting(g, now, i);
    }
  }

  /** One group dispatched: a cycle for it is begun exactly if someone waits and it has none. */
  lemma StartsExactly(s: State, ready: seq<nat>, gi: nat, now: real, startedAt: real)
    requires Inv(s) && AllBelow(ready, |s.board.groups|) && gi in ready
    ensures var s' := StartCycle(s, MembersDue(s.board.groups[gi], now), ready, now, startedAt);
            if SomeoneWaits(s.board.groups[gi], now) && NoCycleOf(s, gi) then
              && |s'.cycles| == |s.cycles| + 1 && s' == s.(cycles := s.cycles + [s'.cycles[|s.cycles|]], nextId := s.nextId + 1)
              && Home(s.board.groups, s'.cycles[|s.cycles|], gi) && IsBegun(s, s', s'.cycles[|s.cycles|], now, startedAt)
            else s' == s
  {
    ValidByInv(s, gi);
    hide *;
    BlocksExactly(s, gi, now);
    if SomeoneWaits(s.board.groups[gi], now) && NoCycleOf(s, gi) {
      OneReadPerDispatch(s.board.groups, ready, gi, now, s.nextId);
      StartsOne(s, MembersDue(s.board.groups[gi], now), ready, gi, now, startedAt);
    } else {
      StartsNone(s, MembersDue(s.board.groups[gi], now), ready, now, startedAt);
    }
  }

  /** The guard lets a group through exactly if someone waits in it and it has no cycle. */
  lemma BlocksExactly(s: State, gi: nat, now: real)
    requires gi < |s.board.groups| && ValidGroup(s.board.groups[gi])
    requires BoardInv(s.board.groups) && CycleInv(s.board.groups, s.cycles)
    ensures var ts := MembersDue(s.board.groups[gi], now);
            (ts == [] || Overlaps(s.cycles, Names(ts))) <==> !(SomeoneWaits(s.board.groups[gi], now) && NoCycleOf(s, gi))
  {
    SomeoneIsDue(s.board.groups[gi], now);
    if MembersDue(s.board.groups[gi], now) != [] {
      GuardIsPerGroup(s.board.groups, s.cycles, gi, now);
    }
    hide BoardInv, CycleInv, SomeoneWaits, MembersDue, Overlaps, Names, Home;
  }

  lemma StartsNone(s: State, ts: seq<Transport>, ready: seq<nat>, now: real, startedAt: real)
    requires AllBelow(ready, |s.board.groups|) && (ts == [] || Overlaps(s.cycles, Names(ts)))
    ensures StartCycle(s, ts, ready, now, startedAt) == s
  {
    hide Overlaps;
  }

  lemma StartsOne(s: State, ts: seq<Transport>, ready: seq<nat>, gi: nat, now: real, startedAt: real)
    requires AllBelow(ready, |s.board.groups|) && gi in ready && ts != [] && !Overlaps(s.cycles, Names(ts))
    requires var tasks := NewReads(s.board.groups, ready, ts, s.nextId);
             && |tasks| == 1 && tasks[0].id == s.nextId && tasks[0].future == Queued
             && (if |s.board.groups[gi].members| > 1 then
                   tasks[0].source == Consolidated(gi) && tasks[0].transport == s.board.groups[gi].primary
                 else tasks[0].source == Standalone && s.board.groups[gi].members == [tasks[0].transport])
    ensures var s' := StartCycle(s, ts, ready, now, startedAt);
            && |s'.cycles| == |s.cycles| + 1 && s' == s.(cycles := s.cycles + [s'.cycles[|s.cycles|]], nextId := s.nextId + 1)
            && Home(s.board.groups, s'.cycles[|s.cycles|], gi) && IsBegun(s, s', s'.cycles[|s.cycles|], now, startedAt)
  {
    hide Overlaps, NewReads;
  }

  lemma ValidByInv(s: State, gi: nat)
    requires Inv(s) && gi < |s.board.groups|
    ensures BoardInv(s.board.groups) && CycleInv(s.board.groups, s.cycles) && ValidGroup(s.board.groups[gi])
  {
  }

  /** The cycle was begun for one of the first `k` ready groups: someone waits there, and it had none. */
  ghost predicate IsNew(s: State, s': State, c: Cycle, ready: seq<nat>, k: nat, now: real, startedAt: real)
    requires k <= |ready| && AllBelow(ready, |s.board.groups|)
  {
    exists q: nat :: q < k && Home(s.board.groups, c, ready[q]) && SomeoneWaits(s.board.groups[ready[q]], now)
                     && NoCycleOf(s, ready[q]) && IsBegun(s, s', c, now, startedAt)
  }

  ghost predicate Holds(s: State, gi: nat) { !NoCycleOf(s, gi) }

  ghost predicate Begins(s: State, s': State, ready: seq<nat>, k: nat, now: real, startedAt: real)
    requires k <= |ready| && AllBelow(ready, |s.board.groups|)
  {
    && s' == s.(cycles := s'.cycles, nextId := s'.nextId) && s.cycles <= s'.cycles && s.nextId <= s'.nextId
    && (forall j: nat | |s.cycles| <= j < |s'.cycles| :: IsNew(s, s', s'.cycles[j], ready, k, now, startedAt))
    && (forall q: nat | q < k && SomeoneWaits(s.board.groups[ready[q]], now) :: Holds(s', ready[q]))
  }

  lemma {:induction false} InterleavedDispatch(s: State, ready: seq<nat>, k: nat, now: real, startedAt: real, outcomes: seq<Outcome>)
    requires Inv(s) && Wired(s) && k <= |ready| && k <= |outcomes| && AllBelow(ready, |s.board.groups|)
    requires s.mode.InterleavedMode?
    ensures Begins(s, DispatchAll(s, ready, k, now, startedAt, outcomes), ready, k, now, startedAt)
  {
    hide *;
    if k == 0 {
      BeginsNone(s, ready, now, startedAt, outcomes);
    } else {
      InterleavedDispatch(s, ready, k - 1, now, startedAt, outcomes);
      DispatchAllKeepsInv(s, ready, k - 1, now, startedAt, outcomes);
      var s1 := DispatchAll(s, ready, k - 1, now, startedAt, outcomes);
      SameBoard(s, s1, ready, k - 1, now, startedAt);
      DispatchOneMore(s, ready, k, now, startedAt, outcomes);
      StartsExactly(s1, ready, ready[k - 1], now, startedAt);
      BeginsOneMore(s, s1, DispatchAll(s, ready, k, now, startedAt, outcomes), ready, k, now, startedAt);
    }
  }

  lemma BeginsNone(s: State, ready: seq<nat>, now: real, startedAt: real, outcomes: seq<Outcome>)
    requires Wired(s) && AllBelow(ready, |s.board.groups|)
    ensures Begins(s, DispatchAll(s, ready, 0, now, startedAt, outcomes), ready, 0, now, startedAt)
  {
  }

  lemma SameBoard(s: State, s1: State, ready: seq<nat>, k: nat, now: real, startedAt: real)
    requires k <= |ready| && AllBelow(ready, |s.board.groups|) && Begins(s, s1, ready, k, now, startedAt)
    ensures s1.board == s.board && s1.mode == s.mode
  {
  }

  lemma DispatchOneMore(s: State, ready: seq<nat>, k: nat, now: real, startedAt: real, outcomes: seq<Outcome>)
    requires Wired(s) && 0 < k <= |ready| && k <= |outcomes| && AllBelow(ready, |s.board.groups|)
    requires s.mode.InterleavedMode? && DispatchAll(s, ready, k - 1, now, startedAt, outcomes).mode == s.mode
    ensures var s1 := DispatchAll(s, ready, k - 1, now, startedAt, outcomes);
            && ready[k - 1] < |s1.board.groups| && ValidGroup(s1.board.groups[ready[k - 1]]) && AllBelow(ready, |s1.board.groups|)
            && DispatchAll(s, ready, k, now, startedAt, outcomes)
               == StartCycle(s1, MembersDue(s1.board.groups[ready[k - 1]], now), ready, now, startedAt)
  {
    hide StartCycle, MembersDue;
  }

  lemma BeginsOneMore(s: State, s1: State, s': State, ready: seq<nat>, k: nat, now: real, startedAt: real)
    requires 0 < k <= |ready| && AllBelow(ready, |s.board.groups|) && Begins(s, s1, ready, k - 1, now, startedAt)
    requires var gi := ready[k - 1];
             if SomeoneWaits(s1.board.groups[gi], now) && NoCycleOf(s1, gi) then
               && |s'.cycles| == |s1.cycles| + 1 && s' == s1.(cycles := s1.cycles + [s'.cycles[|s1.cycles|]], nextId := s1.nextId + 1)
               && Home(s1.board.groups, s'.cycles[|s1.cycles|], gi) && IsBegun(s1, s', s'.cycles[|s1.cycles|], now, startedAt)
             else s' == s1
    ensures Begins(s, s', ready, k, now, startedAt)
  {
    hide Home, SomeoneWaits;
    var gi := ready[k - 1];
    forall j: nat | |s.cycles| <= j < |s'.cycles| ensures IsNew(s, s', s'.cycles[j], ready, k, now, startedAt) {
      if j < |s1.cycles| {
        assert IsNew(s, s1, s1.cycles[j], ready, k - 1, now, startedAt);
      } else {
        assert forall i: nat | i < |s.cycles| :: s1.cycles[i] == s.cycles[i];
        assert NoCycleOf(s, gi);
      }
    }
    forall q: nat | q < k && SomeoneWaits(s.board.groups[ready[q]], now) ensures Holds(s', ready[q]) {
      if s' == s1 && q == k - 1 {
        assert Holds(s1, gi);
      } else if q == k - 1 {
        assert Home(s'.board.groups, s'.cycles[|s1.cycles|], gi);
      } else {
        assert Holds(s1, ready[q]);
        var i: nat :| i < |s1.cycles| && Home(s1.board.groups, s1.cycles[i], ready[q]);
        assert s'.cycles[i] == s1.cycles[i];
      }
    }
  }

  // ------------------------------------------------------------------
  // Polling
  // ------------------------------------------------------------------

  lemma PolledIsLeft(c: Cycle, current: real)
    requires |c.tasks| == 1
    ensures if c.tasks[0].future.Done() then Kept(c, current) == []
            else |Kept(c, current)| == 1 && LeftBy(c, Kept(c, current)[0], current)
  {
    assert c.tasks == [c.tasks[0]];
    assert Pending(c.tasks[1..]) == [];
  }

  lemma {:induction false} PollLeaves(cycles: seq<Cycle>, n: nat, current: real)
    requires n <= |cycles| && forall i | 0 <= i < |cycles| :: |cycles[i].tasks| == 1
    ensures Leaves(cycles[..n], KeptOf(cycles, n, current), current)
  {
    hide LeftBy, Kept, Leaves;
    if n > 0 {
      PollLeaves(cycles, n - 1, current);
      PolledIsLeft(cycles[n - 1], current);
      LeavesOneMore(cycles[..n - 1], cycles[n - 1], KeptOf(cycles, n - 1, current), Kept(cycles[n - 1], current), current);
      assert cycles[..n] == cycles[..n - 1] + [cycles[n - 1]];
    } else {
      LeavesNone(current);
    }
  }

  lemma LeavesNone(current: real)
    ensures Leaves([], [], current)
  {
  }

  lemma LeavesOneMore(cycles: seq<Cycle>, c: Cycle, before: seq<Cycle>, more: seq<Cycle>, current: real)
    requires |c.tasks| == 1 && Leaves(cycles, before, current)
    requires if c.tasks[0].future.Done() then more == [] else |more| == 1 && LeftBy(c, more[0], current)
    ensures Leaves(cycles + [c], before + more, current)
  {
    hide LeftBy;
    var left := before + more;
    forall c' | c' in left ensures IsLeftOf(cycles + [c], c', current) {
      if c' in before {
        assert IsLeftOf(cycles, c', current);
      } else {
        assert c' == more[0] && c in cycles + [c];
      }
    }
    forall d | d in cycles + [c] && |d.tasks| == 1 && !d.tasks[0].future.Done() ensures IsLeftIn(d, left, current) {
      if d in cycles {
        assert IsLeftIn(d, before, current);
      } else {
        assert more[0] in left;
      }
    }
  }

  /** Routing serves the cycle's group as of the cycle's own time. */
  lemma RouteServes(b: Board, c: Cycle, gi: nat)
    requires BoardInv(b.groups) && SourcesInRange(c, |b.groups|) && Serves(b.groups, c, gi) && IsDelivered(c)
    ensures var b' := Route(b, c, c.tasks[0]);
            && b'.groups == b.groups[gi := b'.groups[gi]]
            && Forwarded(b.groups[gi], b'.groups[gi], c.cycleNow, c.tasks[0].future.outcome)
  {
    RouteTouchesOneGroup(b, c, gi);
    if c.tasks[0].source.Consolidated? {
      var g := b.groups[gi];
      assert ValidGroup(g);
      ForwardServesExactly(g, c.cycleNow, c.tasks[0].future.outcome);
      hide Forwarded, ForwardAll, MembersDue, BoardInv, ValidGroup;
    } else {
      StandaloneServes(b, c, gi);
    }
  }

  lemma StandaloneServes(b: Board, c: Cycle, gi: nat)
    requires BoardInv(b.groups) && SourcesInRange(c, |b.groups|) && Serves(b.groups, c, gi) && IsDelivered(c)
    requires c.tasks[0].source.Standalone?
    ensures Forwarded(b.groups[gi], Route(b, c, c.tasks[0]).groups[gi], c.cycleNow, c.tasks[0].future.outcome)
  {
    var r, g := c.tasks[0], b.groups[gi];
    StandaloneIsDue(b.groups, c, gi);
    MarkStandaloneAt(b.groups, c.readyGroups, r.transport, c.cycleNow, gi);
    hide MarkStandalone, BoardInv, Serves, SourcesInRange;
    assert ValidGroup(g);
    LoneMemberServed(g, Route(b, c, r).groups[gi], c.cycleNow, r.future.outcome);
  }

  lemma LoneMemberServed(g: Group, h: Group, now: real, o: Outcome)
    requires ValidGroup(g) && |g.members| == 1 && g.members[0].name in g.forwards && IsDue(g, g.members[0], now)
    requires var n := g.members[0].name;
             h == if n in o.nonEmpty && n !in o.failing then Mark(g, n, now) else g
    ensures Forwarded(g, h, now, o)
  {
    var n := g.members[0].name;
    assert IsServed(g, 0, now, o) <==> n in o.nonEmpty && n !in o.failing;
  }

  lemma {:induction false} PollServes(s: State, n: nat, current: real)
    requires Inv(s) && Wired(s) && n <= |s.cycles|
    ensures Delivers(s.board.groups, BoardAfter(s.board, s.cycles, n).groups, s.cycles, n)
  {
    hide *;
    if n == 0 {
      DeliversNone(s);
    } else {
      PollServes(s, n - 1, current);
      PollFirstKeepsInv(s, n - 1, current);
      PollOne(s, n, current);
    }
  }

  lemma DeliversNone(s: State)
    requires Wired(s)
    ensures Delivers(s.board.groups, BoardAfter(s.board, s.cycles, 0).groups, s.cycles, 0)
  {
  }

  lemma PollOne(s: State, n: nat, current: real)
    requires Inv(s) && Wired(s) && 0 < n <= |s.cycles| && Inv(PollFirst(s, n - 1, current))
    requires Delivers(s.board.groups, BoardAfter(s.board, s.cycles, n - 1).groups, s.cycles, n - 1)
    ensures Delivers(s.board.groups, BoardAfter(s.board, s.cycles, n).groups, s.cycles, n)
  {
    hide Inv, Home, Delivers, BoardAfter, PollFirst, Route, RouteDone, Serves, ValidGroup, SourcesInRange, SameShape;
    var c, b := s.cycles[n - 1], BoardAfter(s.board, s.cycles, n - 1);
    PolledBoard(s, n - 1, current);
    BoardOneMore(s, n);
    if IsDelivered(c) {
      var gi := HomeOf(s, n - 1);
      NoOtherHome(s, n - 1, gi);
      NotYetServed(s, n, b.groups, gi);
      ServesStays(s.board.groups, b.groups, c, gi);
      RouteServes(b, c, gi);
      DeliversOneMore(s, b.groups, Route(b, c, c.tasks[0]).groups, n, gi);
    } else {
      DeliversNoMore(s.board.groups, b.groups, s.cycles, n);
    }
  }

  lemma HomeOf(s: State, i: nat) returns (gi: nat)
    requires Inv(s) && Wired(s) && i < |s.cycles|
    ensures Serves(s.board.groups, s.cycles[i], gi) && Home(s.board.groups, s.cycles[i], gi)
  {
    hide SameHome, LogInv, JobInv, Home;
    gi :| Serves(s.board.groups, s.cycles[i], gi);
  }

  lemma PolledBoard(s: State, n: nat, current: real)
    requires Inv(s) && Wired(s) && n <= |s.cycles| && Inv(PollFirst(s, n, current))
    ensures BoardInv(BoardAfter(s.board, s.cycles, n).groups) && |BoardAfter(s.board, s.cycles, n).groups| == |s.board.groups|
    ensures SameShapes(s.board.groups, BoardAfter(s.board, s.cycles, n).groups)
  {
    hide BoardInv, CycleInv, LogInv, JobInv;
    BoardAfterShapes(s.board, s.cycles, n);
  }

  lemma BoardOneMore(s: State, n: nat)
    requires Inv(s) && Wired(s) && 0 < n <= |s.cycles|
    ensures var c, b := s.cycles[n - 1], BoardAfter(s.board, s.cycles, n - 1);
            && ValidGroups(b.groups) && SourcesInRange(c, |b.groups|) && |c.tasks| == 1 && c.tasks[0] in c.tasks
            && BoardAfter(s.board, s.cycles, n).groups == if IsDelivered(c) then Route(b, c, c.tasks[0]).groups else b.groups
  {
    hide BoardInv, CycleInv, JobInv, SourcesInRange, RouteDone;
    assert ActiveRead(s, s.cycles[n - 1]);
    RouteDoneSingle(BoardAfter(s.board, s.cycles, n - 1), s.cycles[n - 1]);
  }

  lemma NotYetServed(s: State, n: nat, before: seq<Group>, gi: nat)
    requires 0 < n <= |s.cycles| && |before| == |s.board.groups| && Delivers(s.board.groups, before, s.cycles, n - 1)
    requires Home(s.board.groups, s.cycles[n - 1], gi)
    requires forall i: nat | i < |s.cycles| && i != n - 1 :: !Home(s.board.groups, s.cycles[i], gi)
    ensures before[gi] == s.board.groups[gi]
  {
    assert gi < |s.board.groups|;
    hide Home, Forwarded;
  }

  /** What a cycle serves depends on its own group only. */
  lemma ServesStays(groups: seq<Group>, after: seq<Group>, c: Cycle, gi: nat)
    requires ValidGroups(groups) && ValidGroups(after) && SameShapes(groups, after)
    requires Serves(groups, c, gi) && after[gi] == groups[gi]
    ensures Serves(after, c, gi)
  {
  }

  lemma DeliversNoMore(groups: seq<Group>, after: seq<Group>, cycles: seq<Cycle>, n: nat)
    requires 0 < n <= |cycles| && |after| == |groups| && Delivers(groups, after, cycles, n - 1) && !IsDelivered(cycles[n - 1])
    ensures Delivers(groups, after, cycles, n)
  {
    hide Home, Forwarded, IsDelivered;
  }

  /** No cycle has the home of another. */
  lemma NoOtherHome(s: State, k: nat, gi: nat)
    requires Inv(s) && k < |s.cycles| && Home(s.board.groups, s.cycles[k], gi)
    ensures forall i: nat | i < |s.cycles| && i != k :: !Home(s.board.groups, s.cycles[i], gi)
    ensures forall h: nat | h != gi :: !Home(s.board.groups, s.cycles[k], h)
  {
    hide LogInv, JobInv, Home, KeepsCadence, Served, SourcesInRange;
    forall i: nat | i < |s.cycles| && i != k ensures !Home(s.board.groups, s.cycles[i], gi) {
      assert !SameHome(s.board.groups, s.cycles[if i < k then i else k], s.cycles[if i < k then k else i]);
    }
    forall h: nat | h != gi ensures !Home(s.board.groups, s.cycles[k], h) {
      if Home(s.board.groups, s.cycles[k], h) {
        HomeUnique(s.board.groups, s.cycles[k], gi, h);
      }
    }
  }

  lemma DeliversOneMore(s: State, before: seq<Group>, after: seq<Group>, n: nat, gi: nat)
    requires Inv(s) && 0 < n <= |s.cycles| && |before| == |s.board.groups|
    requires Delivers(s.board.groups, before, s.cycles, n - 1)
    requires IsDelivered(s.cycles[n - 1]) && Home(s.board.groups, s.cycles[n - 1], gi)
    requires before[gi] == s.board.groups[gi] && |after| == |before| && after == before[gi := after[gi]]
    requires Forwarded(before[gi], after[gi], s.cycles[n - 1].cycleNow, s.cycles[n - 1].tasks[0].future.outcome)
    ensures Delivers(s.board.groups, after, s.cycles, n)
  {
    assert gi < |s.board.groups|;
    NoOtherHome(s, n - 1, gi);
    hide Inv, Home, Forwarded, IsDelivered;
  }

  // ------------------------------------------------------------------
  // The whole tick
  // ------------------------------------------------------------------

  /** Whether a group is ready depends on its members and their primary only. */
  lemma ReadyByShape(a: seq<Group>, b: seq<Group>, lastRead: map<string, real>, now: real)
    requires SameShapes(a, b)
    ensures forall i: nat | i < |a| :: IsReady(a[i], lastRead, now) <==> IsReady(b[i], lastRead, now)
    ensures forall name :: IsStamped(a, |a|, lastRead, now, name) <==> IsStamped(b, |b|, lastRead, now, name)
  {
    hide IsFastest;
    forall i: nat | i < |a| ensures IsReady(a[i], lastRead, now) <==> IsReady(b[i], lastRead, now) {
    }
    hide IsReady;
  }

  lemma CollectsExactly(s: State, current: real, now: real)
    requires Inv(s) && Schedulable(s)
    ensures var (ready, s2) := Collected(s, current, now);
            && TakesUp(s, ready, now) && Stamps(s, s2, now) && s2 == Poll(s, current).(lastRead := s2.lastRead)
            && SameShapes(s.board.groups, s2.board.groups) && Inv(s2) && Wired(s2)
  {
    PollKeepsWiring(s, current);
    PollDelivers(s, current);
    var s1 := Poll(s, current);
    PollKeepsTimes(s, current);
    BoardOfInv(s1);
    CollectsByScan(s, current, now);
    hide Inv, BoardInv, CycleInv, LogInv, JobInv, Wired, Poll, PollFirst, ValidGroup, DisjointGroups, IsReady, IsStamped, SameShapes, TakesUp, Stamps, Collected, Scanned, SourcesInRange, ScanReady;
    var (ready, lastRead) := ScanReady(s1.board.groups, s1.lastRead, |s1.board.groups|, now);
    ScanIsExact(s1.board.groups, s1.lastRead, |s1.board.groups|, now);
    ScanTakesUp(s, s1, ready, lastRead, now);
    InvAfterScan(s1, lastRead);
  }

  lemma PollKeepsTimes(s: State, current: real)
    requires Wired(s)
    ensures Poll(s, current).lastRead == s.lastRead
  {
  }

  lemma CollectsByScan(s: State, current: real, now: real)
    requires Schedulable(s)
    ensures var s1 := Poll(s, current);
            && (forall g | g in s1.board.groups :: g.primary.name in s1.lastRead)
            && (var (ready, lastRead) := ScanReady(s1.board.groups, s1.lastRead, |s1.board.groups|, now);
                Collected(s, current, now) == (ready, s1.(lastRead := lastRead)))
  {
    PollKeepsWiring(s, current);
    PollKeepsTimes(s, current);
    PrimariesListed(s.board.groups, Poll(s, current).board.groups, s.lastRead.Keys);
    hide Wired, ScanReady, Poll, SameShape;
  }

  lemma ScanTakesUp(s: State, s1: State, ready: seq<nat>, lastRead: map<string, real>, now: real)
    requires SameShapes(s.board.groups, s1.board.groups) && s1.lastRead == s.lastRead
    requires Increasing(ready) && AllBelow(ready, |s1.board.groups|)
    requires Scanned(s1.board.groups, s1.lastRead, |s1.board.groups|, now, ready, lastRead)
    ensures TakesUp(s, ready, now) && Stamps(s, s1.(lastRead := lastRead), now)
  {
    ReadyByShape(s.board.groups, s1.board.groups, s.lastRead, now);
    hide IsReady, IsStamped, SameShape;
  }

  lemma BoardOfInv(s: State)
    requires Inv(s)
    ensures DisjointGroups(s.board.groups) && ValidGroups(s.board.groups)
    ensures forall g | g in s.board.groups :: g.primary.name in s.lastRead
  {
  }

  lemma InvAfterScan(s: State, lastRead: map<string, real>)
    requires Inv(s) && Wired(s) && lastRead.Keys == s.lastRead.Keys
    ensures Inv(s.(lastRead := lastRead)) && Wired(s.(lastRead := lastRead))
  {
    hide BoardInv, CycleInv, LogInv, JobInv, ValidGroups, AllInRange;
    LogInvDependsOn(s, s.(lastRead := lastRead));
  }

  /** Outside interleaved mode there is nothing to poll. */
  lemma NothingPolled(s: State, current: real)
    requires Inv(s) && Wired(s) && !s.mode.InterleavedMode?
    ensures Poll(s, current) == s
  {
    hide BoardInv, CycleInv, LogInv, JobInv;
    PollNothing(s, current);
  }

  lemma LeftHasHome(groups: seq<Group>, c: Cycle, c': Cycle, current: real)
    requires |c.tasks| == 1 && LeftBy(c, c', current)
    ensures forall gi :: Home(groups, c, gi) <==> Home(groups, c', gi)
  {
  }

  /** A group was busy before a poll exactly if it has a cycle after it. */
  lemma BusyIsHeld(s: State, s1: State, gi: nat, current: real)
    requires Inv(s) && SameShapes(s.board.groups, s1.board.groups) && Leaves(s.cycles, s1.cycles, current)
    ensures IsBusy(s, gi) <==> Holds(s1, gi)
  {
    hide *;
    if IsBusy(s, gi) {
      var c := BusyCycle(s, gi);
      var c' := StillThere(s, s1, c, current);
      LeftHasHome(s.board.groups, c, c', current);
      HomeFrame(s.board.groups, s1.board.groups, c', gi);
      HoldsIt(s1, c', gi);
    }
    if Holds(s1, gi) {
      var c' := HeldCycle(s1, gi);
      var c := WasThere(s, s1, c', current);
      LeftHasHome(s.board.groups, c, c', current);
      HomeFrame(s.board.groups, s1.board.groups, c', gi);
      BusyWithIt(s, c, gi);
    }
  }

  lemma StillThere(s: State, s1: State, c: Cycle, current: real) returns (c': Cycle)
    requires Leaves(s.cycles, s1.cycles, current) && c in s.cycles && |c.tasks| == 1 && !c.tasks[0].future.Done()
    ensures c' in s1.cycles && LeftBy(c, c', current)
  {
    hide LeftBy;
    assert IsLeftIn(c, s1.cycles, current);
    c' :| c' in s1.cycles && LeftBy(c, c', current);
  }

  lemma WasThere(s: State, s1: State, c': Cycle, current: real) returns (c: Cycle)
    requires Leaves(s.cycles, s1.cycles, current) && c' in s1.cycles
    ensures c in s.cycles && |c.tasks| == 1 && !c.tasks[0].future.Done() && LeftBy(c, c', current)
  {
    hide LeftBy;
    assert IsLeftOf(s.cycles, c', current);
    c :| c in s.cycles && |c.tasks| == 1 && !c.tasks[0].future.Done() && LeftBy(c, c', current);
  }

  lemma HoldsIt(s: State, c: Cycle, gi: nat)
    requires c in s.cycles && Home(s.board.groups, c, gi)
    ensures Holds(s, gi)
  {
    hide Home;
    var j: nat :| j < |s.cycles| && s.cycles[j] == c;
  }

  lemma HeldCycle(s: State, gi: nat) returns (c: Cycle)
    requires Holds(s, gi)
    ensures c in s.cycles && Home(s.board.groups, c, gi)
  {
    hide Home;
    var j: nat :| j < |s.cycles| && Home(s.board.groups, s.cycles[j], gi);
    c := s.cycles[j];
  }

  lemma BusyWithIt(s: State, c: Cycle, gi: nat)
    requires c in s.cycles && |c.tasks| == 1 && Home(s.board.groups, c, gi) && !c.tasks[0].future.Done()
    ensures IsBusy(s, gi)
  {
    hide Home;
    var i: nat :| i < |s.cycles| && s.cycles[i] == c;
  }

  lemma BusyCycle(s: State, gi: nat) returns (c: Cycle)
    requires IsBusy(s, gi)
    ensures c in s.cycles && Home(s.board.groups, c, gi) && |c.tasks| == 1 && !c.tasks[0].future.Done()
  {
    var i: nat :| i < |s.cycles| && Home(s.board.groups, s.cycles[i], gi) && !s.cycles[i].tasks[0].future.Done();
    c := s.cycles[i];
  }

  /** What a tick in interleaved mode has polled and what it has begun make up what it owes. */
  lemma CirculatesAll(s: State, s1: State, s': State, ready: seq<nat>, n: nat, current: real, now: real, startedAt: real)
    requires Inv(s) && BoardInv(s1.board.groups) && SameShapes(s.board.groups, s1.board.groups) && s1.nextId == s.nextId
    requires n <= |ready| && AllBelow(ready, |s.board.groups|)
    requires Leaves(s.cycles, s1.cycles, current) && AllBelow(ready, |s1.board.groups|) && Begins(s1, s', ready, n, now, startedAt)
    ensures |s'.board.groups| == |s.board.groups| && Circulates(s, s', ready, n, current, now, startedAt)
  {
    assert |s1.board.groups| == |s.board.groups| && s'.board == s1.board && DisjointGroups(s1.board.groups);
    hide Inv, BoardInv, SameShapes, DisjointGroups, Begins, Leaves, HasCycle, IsLeftOf, IsWanted, IsLeftIn, SomeoneWaits;
    forall k: nat | k < n ensures HasCycle(s, s', ready[k], current, now, startedAt) {
      if SomeoneWaits(s'.board.groups[ready[k]], now) {
        HeldIsOldOrNew(s, s1, s', ready, n, k, current, now, startedAt);
      } else {
        NobodyWaits(s, s', ready[k], current, now, startedAt);
      }
    }
    forall c | c in s'.cycles ensures IsLeftOf(s.cycles, c, current) || IsWanted(s, s', c, ready, n, now, startedAt) {
      var isOld := OldOrNew(s1, s', c, ready, n, now, startedAt);
      if isOld {
        LeftInTable(s, s1, c, current);
      } else {
        NewIsWanted(s, s1, s', c, ready, n, current, now, startedAt);
      }
    }
    forall c | c in s.cycles && |c.tasks| == 1 && !c.tasks[0].future.Done() ensures IsLeftIn(c, s'.cycles, current) {
      OldIsLeft(s, s1, s', c, ready, n, current, now, startedAt);
    }
  }

  lemma NobodyWaits(s: State, s': State, gi: nat, current: real, now: real, startedAt: real)
    requires gi < |s'.board.groups| && !SomeoneWaits(s'.board.groups[gi], now)
    ensures HasCycle(s, s', gi, current, now, startedAt)
  {
  }

  lemma OldOrNew(s1: State, s': State, c: Cycle, ready: seq<nat>, n: nat, now: real, startedAt: real) returns (isOld: bool)
    requires n <= |ready| && AllBelow(ready, |s1.board.groups|) && Begins(s1, s', ready, n, now, startedAt) && c in s'.cycles
    ensures if isOld then c in s1.cycles else IsNew(s1, s', c, ready, n, now, startedAt)
  {
    hide IsNew, SomeoneWaits;
    var j: nat :| j < |s'.cycles| && s'.cycles[j] == c;
    isOld := j < |s1.cycles|;
    if isOld {
      assert s1.cycles[j] == c;
    }
  }

  lemma OldIsLeft(s: State, s1: State, s': State, c: Cycle, ready: seq<nat>, n: nat, current: real, now: real, startedAt: real)
    requires n <= |ready| && AllBelow(ready, |s1.board.groups|)
    requires Leaves(s.cycles, s1.cycles, current) && Begins(s1, s', ready, n, now, startedAt)
    requires c in s.cycles && |c.tasks| == 1 && !c.tasks[0].future.Done()
    ensures IsLeftIn(c, s'.cycles, current)
  {
    hide *;
    var c' := StillThere(s, s1, c, current);
    OldStays(s1, s', c', ready, n, now, startedAt);
    LeftIn(c, c', s'.cycles, current);
  }

  lemma LeftIn(c: Cycle, c': Cycle, left: seq<Cycle>, current: real)
    requires |c.tasks| == 1 && c' in left && LeftBy(c, c', current)
    ensures IsLeftIn(c, left, current)
  {
    hide LeftBy;
  }

  lemma OldStays(s1: State, s': State, c: Cycle, ready: seq<nat>, n: nat, now: real, startedAt: real)
    requires n <= |ready| && AllBelow(ready, |s1.board.groups|) && Begins(s1, s', ready, n, now, startedAt) && c in s1.cycles
    ensures c in s'.cycles
  {
    hide IsNew, SomeoneWaits, Holds;
    var j: nat :| j < |s1.cycles| && s1.cycles[j] == c;
    assert s'.cycles[j] == c;
  }

  lemma NewIsWanted(s: State, s1: State, s': State, c: Cycle, ready: seq<nat>, n: nat, current: real, now: real, startedAt: real)
    requires Inv(s) && SameShapes(s.board.groups, s1.board.groups) && s1.nextId == s.nextId && s'.board == s1.board
    requires n <= |ready| && AllBelow(ready, |s.board.groups|) && AllBelow(ready, |s1.board.groups|)
    requires |s1.board.groups| == |s.board.groups|
    requires Leaves(s.cycles, s1.cycles, current) && IsNew(s1, s', c, ready, n, now, startedAt)
    ensures IsWanted(s, s', c, ready, n, now, startedAt)
  {
    hide Inv, Home, SomeoneWaits, SameShapes, Leaves, NoCycleOf;
    var q: nat :| q < n && Home(s1.board.groups, c, ready[q]) && SomeoneWaits(s1.board.groups[ready[q]], now)
                  && NoCycleOf(s1, ready[q]) && IsBegun(s1, s', c, now, startedAt);
    HomeFrame(s.board.groups, s1.board.groups, c, ready[q]);
    BusyIsHeld(s, s1, ready[q], current);
    assert IsBegun(s, s', c, now, startedAt);
  }

  lemma HeldIsOldOrNew(s: State, s1: State, s': State, ready: seq<nat>, n: nat, k: nat, current: real, now: real, startedAt: real)
    requires Inv(s) && SameShapes(s.board.groups, s1.board.groups) && s1.nextId == s.nextId && s'.board == s1.board
    requires |s1.board.groups| == |s.board.groups| && DisjointGroups(s1.board.groups)
    requires k < n <= |ready| && AllBelow(ready, |s.board.groups|) && AllBelow(ready, |s1.board.groups|)
    requires Leaves(s.cycles, s1.cycles, current) && Begins(s1, s', ready, n, now, startedAt)
    requires SomeoneWaits(s'.board.groups[ready[k]], now)
    ensures HasCycle(s, s', ready[k], current, now, startedAt)
  {
    hide Inv, Home, SomeoneWaits, SameShapes, Leaves, DisjointGroups, IsLeftOf;
    var gi := ready[k];
    assert Holds(s', gi);
    var j: nat :| j < |s'.cycles| && Home(s'.board.groups, s'.cycles[j], gi);
    var c := s'.cycles[j];
    HomeFrame(s.board.groups, s1.board.groups, c, gi);
    BusyIsHeld(s, s1, gi, current);
    if j < |s1.cycles| {
      assert s1.cycles[j] == c;
      LeftInTable(s, s1, c, current);
    } else {
      assert IsNew(s1, s', c, ready, n, now, startedAt);
      var q: nat :| q < n && Home(s1.board.groups, c, ready[q]) && NoCycleOf(s1, ready[q]) && IsBegun(s1, s', c, now, startedAt);
      HomeUnique(s1.board.groups, c, gi, ready[q]);
      assert IsBegun(s, s', c, now, startedAt);
    }
    assert c in s'.cycles;
  }

  lemma LeftInTable(s: State, s1: State, c: Cycle, current: real)
    requires Leaves(s.cycles, s1.cycles, current) && c in s1.cycles
    ensures IsLeftOf(s.cycles, c, current)
  {
  }

  /** A tick takes up exactly the groups whose fastest interval has passed, stamps exactly their
      primaries, and dispatches them: in line they are forwarded what they wait for; otherwise their
      devices have a job or a cycle under way. Cycles under way before are kept until they are done
      or overdue, and what their reads have brought is forwarded. */
  lemma TickServes(s: State, current: real, now: real, startedAt: real, outcomes: seq<Outcome>)
    requires Inv(s) && Schedulable(s)
    ensures IsTick(s, TickStep(s, current, now, startedAt, outcomes), current, now, startedAt, outcomes)
  {
    CollectsExactly(s, current, now);
    var (ready, s2) := Collected(s, current, now);
    TakenUpIsInRange(s, ready, now);
    assert |s2.board.groups| == |s.board.groups|;
    var n := Min(|ready|, |outcomes|);
    assert TickStep(s, current, now, startedAt, outcomes) == DispatchAll(s2, ready, n, now, startedAt, outcomes);
    var s' := DispatchAll(s2, ready, n, now, startedAt, outcomes);
    assert Wired(s);
    hide *;
    TickIsDispatch(s, s2, current, ready, now, startedAt, outcomes);
  }

  /** The second half of a tick, for the groups its first half has collected. */
  lemma TickIsDispatch(s: State, s2: State, current: real, ready: seq<nat>, now: real, startedAt: real, outcomes: seq<Outcome>)
    requires Inv(s) && Wired(s) && s2 == Poll(s, current).(lastRead := s2.lastRead)
    requires Inv(s2) && Wired(s2) && SameShapes(s.board.groups, s2.board.groups) && |s2.board.groups| == |s.board.groups|
    requires TakesUp(s, ready, now) && Stamps(s, s2, now) && Increasing(ready) && AllBelow(ready, |s.board.groups|)
    ensures Min(|ready|, |outcomes|) <= |ready| && Min(|ready|, |outcomes|) <= |outcomes|
    ensures IsTick(s, DispatchAll(s2, ready, Min(|ready|, |outcomes|), now, startedAt, outcomes), current, now, startedAt, outcomes)
  {
    hide Inv, Wired, TakesUp, Stamps, SameShapes, Submits, ReadsInLine, Delivers, Circulates, Poll, AllBelow, Increasing, DispatchAll, Min;
    var n := Min(|ready|, |outcomes|);
    MinIsBelow(|ready|, |outcomes|);
    var s' := DispatchAll(s2, ready, n, now, startedAt, outcomes);
    match s.mode {
      case SequentialMode => TickInLine(s, s2, current, ready, n, now, startedAt, outcomes);
      case ConcurrentMode =>
        TickConcurrent(s, s2, current, ready, n, now, startedAt, outcomes);
        SameShapesAsItself(s.board.groups);
      case InterleavedMode => TickInterleaved(s, s2, current, ready, n, now, startedAt, outcomes);
    }
    StampsByTimes(s, s2, s', now);
  }

  lemma StampsByTimes(s: State, s2: State, s': State, now: real)
    requires Stamps(s, s2, now) && s'.lastRead == s2.lastRead
    ensures Stamps(s, s', now)
  {
    hide IsStamped;
  }

  lemma SameShapesAsItself(groups: seq<Group>)
    ensures SameShapes(groups, groups)
  {
  }

  lemma MinIsBelow(a: nat, b: nat)
    ensures Min(a, b) <= a && Min(a, b) <= b
  {
  }

  lemma TakenUpIsInRange(s: State, ready: seq<nat>, now: real)
    requires TakesUp(s, ready, now)
    ensures Increasing(ready) && AllBelow(ready, |s.board.groups|)
  {
  }

  lemma TickInLine(s: State, s2: State, current: real, ready: seq<nat>, n: nat, now: real, startedAt: real, outcomes: seq<Outcome>)
    requires Inv(s) && Wired(s) && s.mode.SequentialMode? && s2 == Poll(s, current).(lastRead := s2.lastRead)
    requires Wired(s2) && AllBelow(ready, |s.board.groups|) && Increasing(ready) && n <= |ready| && n <= |outcomes|
    ensures |s2.board.groups| == |s.board.groups|
    ensures var s' := DispatchAll(s2, ready, n, now, startedAt, outcomes);
            && SameShapes(s.board.groups, s'.board.groups) && s'.mode == s.mode && s'.lastRead == s2.lastRead
            && ReadsInLine(s, s', ready, n, now, outcomes)
  {
    hide Inv, Wired, Poll, Forwarded, DispatchAll;
    NothingPolled(s, current);
    SequentialDispatch(s2, ready, n, now, startedAt, outcomes);
    ReadingKeepsShapes(s, DispatchAll(s2, ready, n, now, startedAt, outcomes), ready, n, now, outcomes);
  }

  lemma ReadingKeepsShapes(s: State, s': State, ready: seq<nat>, n: nat, now: real, outcomes: seq<Outcome>)
    requires n <= |ready| && n <= |outcomes| && AllBelow(ready, |s.board.groups|) && |s'.board.groups| == |s.board.groups|
    requires ReadsInLine(s, s', ready, n, now, outcomes)
    ensures SameShapes(s.board.groups, s'.board.groups)
  {
    hide NewMarks, IsServed;
    forall i: nat | i < |s.board.groups| ensures SameShape(s.board.groups[i], s'.board.groups[i]) {
      if i in ready[..n] {
        var k: nat :| k < n && ready[..n][k] == i;
        assert Forwarded(s.board.groups[ready[k]], s'.board.groups[ready[k]], now, outcomes[k]);
      }
    }
  }

  lemma TickConcurrent(s: State, s2: State, current: real, ready: seq<nat>, n: nat, now: real, startedAt: real, outcomes: seq<Outcome>)
    requires Inv(s) && Wired(s) && s.mode.ConcurrentMode? && s2 == Poll(s, current).(lastRead := s2.lastRead)
    requires Wired(s2) && AllBelow(ready, |s.board.groups|) && Increasing(ready) && n <= |ready| && n <= |outcomes|
    ensures |s2.board.groups| == |s.board.groups|
    ensures var s' := DispatchAll(s2, ready, n, now, startedAt, outcomes);
            && s'.board.groups == s.board.groups && s'.mode == s.mode && s'.lastRead == s2.lastRead
            && Submits(s, s', ready, n, now)
  {
    hide Wired, Poll, DispatchAll, CycleInv, LogInv, JobInv, BoardInv;
    NothingPolled(s, current);
    ConcurrentDispatch(s2, ready, n, now, startedAt, outcomes);
    SubmitsByBoard(s, s2, DispatchAll(s2, ready, n, now, startedAt, outcomes), ready, n, now);
  }

  lemma SubmitsByBoard(s: State, s2: State, s': State, ready: seq<nat>, n: nat, now: real)
    requires s2.board == s.board && s2.jobs == s.jobs && n <= |ready| && AllBelow(ready, |s.board.groups|)
    requires Submits(s2, s', ready, n, now)
    ensures Submits(s, s', ready, n, now)
  {
    assert forall key :: IsDeviceOf(s2, ready[..n], key) <==> IsDeviceOf(s, ready[..n], key);
    hide IsDeviceOf;
    forall k: nat | k < n ensures HasJob(s, s', ready[k], now) {
      assert HasJob(s2, s', ready[k], now);
    }
  }

  lemma TickInterleaved(s: State, s2: State, current: real, ready: seq<nat>, n: nat, now: real, startedAt: real, outcomes: seq<Outcome>)
    requires Inv(s) && Wired(s) && s.mode.InterleavedMode? && s2 == Poll(s, current).(lastRead := s2.lastRead)
    requires Inv(s2) && Wired(s2) && SameShapes(s.board.groups, s2.board.groups)
    requires AllBelow(ready, |s.board.groups|) && n <= |ready| && n <= |outcomes|
    ensures |s2.board.groups| == |s.board.groups|
    ensures var s' := DispatchAll(s2, ready, n, now, startedAt, outcomes);
            && SameShapes(s.board.groups, s'.board.groups) && s'.mode == s.mode && s'.lastRead == s2.lastRead
            && Delivers(s.board.groups, s'.board.groups, s.cycles, |s.cycles|)
            && Circulates(s, s', ready, n, current, now, startedAt)
  {
    PollServes(s, |s.cycles|, current);
    PollLeavesAll(s, current);
    InterleavedDispatch(s2, ready, n, now, startedAt, outcomes);
    assert BoardInv(s2.board.groups) && s2.nextId == s.nextId;
    hide Inv, Wired, BoardInv, Leaves, Delivers, SameShape, KeptOf, ExpiredOf, BoardAfter, DispatchAll;
    CirculatesAll(s, s2, DispatchAll(s2, ready, n, now, startedAt, outcomes), ready, n, current, now, startedAt);
  }

  lemma PollLeavesAll(s: State, current: real)
    requires Inv(s) && Wired(s)
    ensures Leaves(s.cycles, Poll(s, current).cycles, current)
    ensures Poll(s, current).board == BoardAfter(s.board, s.cycles, |s.cycles|)
  {
    hide BoardInv, CycleInv, JobInv, Leaves, BoardAfter;
    forall i | 0 <= i < |s.cycles| ensures |s.cycles[i].tasks| == 1 {
      assert ActiveRead(s, s.cycles[i]);
    }
    PollLeaves(s.cycles, |s.cycles|, current);
    assert s.cycles[..|s.cycles|] == s.cycles;
    assert Poll(s, current).cycles == KeptOf(s.cycles, |s.cycles|, current);
  }
}
