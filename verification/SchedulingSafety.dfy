/** Safety of every run of the polling loop: one outstanding read per device, every read
    routed at most once, every member served no faster than its own cadence. */
module SchedulingSafety {
  import opened ScrapeGroups
  import opened Scheduling
  import opened SchedulingRuns

  // ------------------------------------------------------------------
  // The invariant
  // ------------------------------------------------------------------

  /** Groups stand for distinct devices and every member has kept its cadence so far. */
  ghost predicate BoardInv(groups: seq<Group>) {
    && DisjointGroups(groups)
    && (forall i | 0 <= i < |groups| :: KeepsCadence(groups[i]))
    && (forall i, m | 0 <= i < |groups| && m in groups[i].members :: m.target == groups[i].primary.target)
    && (forall i, j | 0 <= i < j < |groups| :: groups[i].primary.target != groups[j].primary.target)
  }

  /** Cycle `c` holds a single read, and it is a read of group `gi`. */
  ghost predicate Home(groups: seq<Group>, c: Cycle, gi: nat) {
    && gi < |groups| && |c.tasks| == 1
    && if |groups[gi].members| > 1 then c.tasks[0].source == Consolidated(gi) && c.tasks[0].transport == groups[gi].primary
       else c.tasks[0].source == Standalone && groups[gi].members == [c.tasks[0].transport]
  }

  /** Cycle `c` was started for the members of group `gi` that were due, and those same
      members are still unmarked. */
  ghost predicate Serves(groups: seq<Group>, c: Cycle, gi: nat)
    requires ValidGroups(groups)
  {
    && Home(groups, c, gi) && gi in c.readyGroups
    && MembersDue(groups[gi], c.cycleNow) != []
    && c.key == Names(MembersDue(groups[gi], c.cycleNow))
  }

  ghost predicate Served(groups: seq<Group>, c: Cycle)
    requires ValidGroups(groups)
  {
    exists gi :: Serves(groups, c, gi)
  }

  ghost predicate SameHome(groups: seq<Group>, c: Cycle, d: Cycle) {
    exists gi :: Home(groups, c, gi) && Home(groups, d, gi)
  }

  ghost predicate CycleInv(groups: seq<Group>, cycles: seq<Cycle>)
    requires ValidGroups(groups)
  {
    && (forall i | 0 <= i < |cycles| :: SourcesInRange(cycles[i], |groups|) && Served(groups, cycles[i]))
    && (forall i, j | 0 <= i < j < |cycles| :: !SameHome(groups, cycles[i], cycles[j]))
  }

  ghost predicate NoDuplicates(s: seq<nat>) {
    forall i, j | 0 <= i < j < |s| :: s[i] != s[j]
  }

  /** Bookkeeping of read ids: an active read is unrouted, an expired one never was or will be. */
  ghost predicate LogInv(s: State) {
    && NoDuplicates(s.board.routed)
    && (forall id | id in s.board.routed :: id < s.nextId && id !in s.expired)
    && (forall id | id in s.expired :: id < s.nextId)
    && (forall i | 0 <= i < |s.cycles| :: ActiveRead(s, s.cycles[i]))
    && (forall i, j | 0 <= i < j < |s.cycles| :: s.cycles[i].tasks[0].id != s.cycles[j].tasks[0].id)
  }

  ghost predicate ActiveRead(s: State, c: Cycle) {
    && |c.tasks| == 1
    && c.tasks[0].id < s.nextId
    && c.tasks[0].id !in s.board.routed
    && (c.tasks[0].id in s.expired <==> c.timedOut)
  }

  ghost predicate JobInv(groups: seq<Group>, jobs: map<string, Job>)
    requires ValidGroups(groups)
  {
    forall k | k in jobs ::
      && jobs[k].group < |groups|
      && groups[jobs[k].group].primary.target == k
      && (jobs[k].phase.Forwarding? ==>
            && DueMembers(groups[jobs[k].group], jobs[k].phase.due, jobs[k].now)
            && Names(jobs[k].phase.due) <= groups[jobs[k].group].forwards.Keys)
  }

  ghost predicate Inv(s: State) {
    && BoardInv(s.board.groups)
    && (forall g | g in s.board.groups :: g.primary.name in s.lastRead)
    && CycleInv(s.board.groups, s.cycles)
    && LogInv(s)
    && JobInv(s.board.groups, s.jobs)
    && (s.mode != InterleavedMode ==> s.cycles == [])
    && (s.mode != ConcurrentMode ==> s.jobs == map[])
  }

  lemma InvSchedulable(s: State)
    requires Inv(s)
    ensures Schedulable(s)
  {
  }

  // ------------------------------------------------------------------
  // Homes
  // ------------------------------------------------------------------

  lemma MemberOfOneGroup(groups: seq<Group>, t: Transport, a: nat, b: nat)
    requires DisjointGroups(groups) && a < |groups| && b < |groups|
    requires t in groups[a].members && t in groups[b].members
    ensures a == b
  {
    assert t.name in Names(groups[a].members) && t.name in Names(groups[b].members);
  }

  lemma HomeUnique(groups: seq<Group>, c: Cycle, a: nat, b: nat)
    requires DisjointGroups(groups) && Home(groups, c, a) && Home(groups, c, b)
    ensures a == b
  {
    if c.tasks[0].source.Standalone? {
      MemberOfOneGroup(groups, c.tasks[0].transport, a, b);
    }
  }

  lemma HomeFrame(a: seq<Group>, b: seq<Group>, c: Cycle, gi: nat)
    requires SameShapes(a, b)
    ensures Home(a, c, gi) <==> Home(b, c, gi)
  {
  }

  lemma SameHomeFrame(a: seq<Group>, b: seq<Group>, c: Cycle, d: Cycle)
    requires SameShapes(a, b)
    ensures SameHome(a, c, d) <==> SameHome(b, c, d)
  {
    forall gi: nat ensures Home(a, c, gi) <==> Home(b, c, gi) { HomeFrame(a, b, c, gi); }
    forall gi: nat ensures Home(a, d, gi) <==> Home(b, d, gi) { HomeFrame(a, b, d, gi); }
    if gi :| Home(a, c, gi) && Home(a, d, gi) { assert Home(b, c, gi) && Home(b, d, gi); }
    if gi :| Home(b, c, gi) && Home(b, d, gi) { assert Home(a, c, gi) && Home(a, d, gi); }
  }

  // ------------------------------------------------------------------
  // Routing one read
  // ------------------------------------------------------------------

  lemma {:induction false} MarkStandaloneAt(groups: seq<Group>, ready: seq<nat>, t: Transport, now: real, gi: nat)
    requires BoardInv(groups) && AllBelow(ready, |groups|)
    requires gi in ready && t in groups[gi].members
    ensures t.name in groups[gi].forwards
    ensures MarkStandalone(groups, ready, t, now) == groups[gi := Mark(groups[gi], t.name, now)]
    decreases |ready|
  {
    assert t.name in Names(groups[gi].members);
    if t in groups[ready[0]].members {
      MemberOfOneGroup(groups, t, gi, ready[0]);
    } else {
      MarkStandaloneAt(groups, ready[1..], t, now, gi);
    }
  }

  /** Routing the read of a cycle touches the group it serves and no other, and keeps every cadence. */
  lemma RouteTouchesOneGroup(b: Board, c: Cycle, gi: nat)
    requires BoardInv(b.groups) && SourcesInRange(c, |b.groups|) && Serves(b.groups, c, gi)
    requires c.tasks[0].future.Finished?
    ensures var b' := Route(b, c, c.tasks[0]);
            && b'.routed == b.routed + [c.tasks[0].id]
            && b'.groups == b.groups[gi := b'.groups[gi]]
            && SameShape(b.groups[gi], b'.groups[gi])
            && KeepsCadence(b'.groups[gi])
  {
    var r := c.tasks[0];
    var g := b.groups[gi];
    if r.source.Consolidated? {
      hide ForwardAll, MembersDue, SpacedBy;
      ForwardDueKeepsCadence(g, c.cycleNow, r.future.outcome);
    } else {
      StandaloneIsDue(b.groups, c, gi);
      hide Home, MembersDue;
      MarkStandaloneAt(b.groups, c.readyGroups, r.transport, c.cycleNow, gi);
      MarkDueKeepsCadence(g, r.transport, c.cycleNow);
    }
  }

  /** The transport of a standalone read is its group's only member, and due. */
  lemma StandaloneIsDue(groups: seq<Group>, c: Cycle, gi: nat)
    requires ValidGroups(groups) && Serves(groups, c, gi) && c.tasks[0].source.Standalone?
    ensures groups[gi].members == [c.tasks[0].transport]
    ensures c.tasks[0].transport.name in groups[gi].forwards && IsDue(groups[gi], c.tasks[0].transport, c.cycleNow)
  {
    var g := groups[gi];
    assert MembersDue(g, c.cycleNow)[0] in MembersDue(g, c.cycleNow);
  }

  lemma BoardInvAfter(groups: seq<Group>, gi: nat, g: Group)
    requires BoardInv(groups) && gi < |groups| && SameShape(groups[gi], g) && KeepsCadence(g)
    ensures BoardInv(groups[gi := g]) && SameShapes(groups, groups[gi := g])
  {
  }

  /** Changing the marks of group `gi` leaves the cycles of the other groups served. */
  lemma CycleInvAfter(groups: seq<Group>, cycles: seq<Cycle>, gi: nat, g: Group)
    requires BoardInv(groups) && CycleInv(groups, cycles)
    requires gi < |groups| && SameShape(groups[gi], g) && KeepsCadence(g)
    requires forall i | 0 <= i < |cycles| :: !Home(groups, cycles[i], gi)
    ensures ValidGroups(groups[gi := g]) && CycleInv(groups[gi := g], cycles)
  {
    var after := groups[gi := g];
    BoardInvAfter(groups, gi, g);
    forall i | 0 <= i < |cycles| ensures Served(after, cycles[i]) {
      var gj :| Serves(groups, cycles[i], gj);
      assert gj != gi;
      assert Serves(after, cycles[i], gj);
    }
    forall i, j | 0 <= i < j < |cycles| ensures !SameHome(after, cycles[i], cycles[j]) {
      SameHomeFrame(groups, after, cycles[i], cycles[j]);
    }
  }

  // ------------------------------------------------------------------
  // Polling
  // ------------------------------------------------------------------

  /** Polling the cycle at position `i` alone. */
  function PollAt(s: State, i: nat, current: real): State
    requires Wired(s) && i < |s.cycles|
  {
    var c := s.cycles[i];
    s.(board := RouteDone(s.board, c, c.tasks),
       cycles := s.cycles[..i] + Kept(c, current) + s.cycles[i + 1..],
       expired := s.expired + ExpiredBy(c, current))
  }

  function Without<T>(s: seq<T>, i: nat): seq<T>
    requires i < |s|
  {
    s[..i] + s[i + 1..]
  }

  /** A cycle's single read decides what polling does with it. */
  lemma PolledSingle(c: Cycle, current: real)
    requires |c.tasks| == 1
    ensures Pending(c.tasks) == if c.tasks[0].future.Done() then [] else c.tasks
    ensures Polled(c, current).tasks == [] <==> c.tasks[0].future.Done()
    ensures !c.tasks[0].future.Done() ==>
              var p := Polled(c, current);
              && |p.tasks| == 1
              && p.tasks[0].(future := Queued) == c.tasks[0].(future := Queued)
              && (p.tasks[0].future == c.tasks[0].future || (p.timedOut && p.tasks[0].future.Cancelled?))
              && (p.timedOut <==> c.timedOut || TimesOut(c, current))
              && p.(tasks := c.tasks, timedOut := c.timedOut) == c
  {
    assert c.tasks == [c.tasks[0]];
    assert Pending(c.tasks[1..]) == [];
  }

  lemma RouteDoneSingle(b: Board, c: Cycle)
    requires ValidGroups(b.groups) && SourcesInRange(c, |b.groups|) && |c.tasks| == 1
    ensures c.tasks[0] in c.tasks
    ensures RouteDone(b, c, c.tasks) ==
            if c.tasks[0].future.Finished? && !c.timedOut then Route(b, c, c.tasks[0]) else b
  {
    assert c.tasks[1..] == [];
  }

  lemma CycleInvWithout(groups: seq<Group>, cycles: seq<Cycle>, i: nat)
    requires ValidGroups(groups) && CycleInv(groups, cycles) && i < |cycles|
    ensures CycleInv(groups, Without(cycles, i))
  {
    hide Served, SameHome, SourcesInRange;
    var rest := Without(cycles, i);
    forall j, k | 0 <= j < k < |rest| ensures !SameHome(groups, rest[j], rest[k]) {
      assert rest[j] == cycles[if j < i then j else j + 1] && rest[k] == cycles[if k < i then k else k + 1];
    }
  }

  /** Dropping cycle `i`, routed or not, keeps the bookkeeping of ids. */
  lemma LogInvWithout(s: State, i: nat, s': State)
    requires LogInv(s) && i < |s.cycles| && s'.cycles == Without(s.cycles, i)
    requires s'.nextId == s.nextId && s'.expired == s.expired
    requires s'.board.routed == s.board.routed
             || (!s.cycles[i].timedOut && s'.board.routed == s.board.routed + [s.cycles[i].tasks[0].id])
    ensures LogInv(s')
  {
    assert ActiveRead(s, s.cycles[i]);
    forall j | 0 <= j < |s'.cycles| ensures ActiveRead(s', s'.cycles[j]) {
      var k := if j < i then j else j + 1;
      assert s'.cycles[j] == s.cycles[k] && ActiveRead(s, s.cycles[k]);
    }
    forall j, k | 0 <= j < k < |s'.cycles| ensures s'.cycles[j].tasks[0].id != s'.cycles[k].tasks[0].id {
      assert s'.cycles[j] == s.cycles[if j < i then j else j + 1] && s'.cycles[k] == s.cycles[if k < i then k else k + 1];
    }
  }

  /** No other cycle has the home of cycle `i`. */
  lemma SoleHome(groups: seq<Group>, cycles: seq<Cycle>, i: nat, gi: nat)
    requires ValidGroups(groups) && CycleInv(groups, cycles) && i < |cycles| && Home(groups, cycles[i], gi)
    ensures forall j | 0 <= j < |cycles| - 1 :: !Home(groups, Without(cycles, i)[j], gi)
  {
    var rest := Without(cycles, i);
    forall j | 0 <= j < |rest| ensures !Home(groups, rest[j], gi) {
      var k := if j < i then j else j + 1;
      assert rest[j] == cycles[k];
      if Home(groups, rest[j], gi) {
        assert SameHome(groups, cycles[i], cycles[k]) && SameHome(groups, cycles[k], cycles[i]);
      }
    }
  }

  lemma JobInvAfter(groups: seq<Group>, jobs: map<string, Job>, mode: Mode, gi: nat, g: Group)
    requires BoardInv(groups) && JobInv(groups, jobs) && (mode != ConcurrentMode ==> jobs == map[])
    requires gi < |groups| && SameShape(groups[gi], g) && KeepsCadence(g) && mode != ConcurrentMode
    ensures ValidGroups(groups[gi := g]) && JobInv(groups[gi := g], jobs)
  {
    BoardInvAfter(groups, gi, g);
  }

  /** Polling a cycle whose read is done: route it unless timed out, then drop the cycle. */
  lemma PollAtDone(s: State, i: nat, current: real)
    requires Inv(s) && i < |s.cycles| && s.cycles[i].tasks[0].future.Done()
    ensures Inv(PollAt(s, i, current))
  {
    var c := s.cycles[i];
    var s' := PollAt(s, i, current);
    PollDoneEffect(s, i, current);
    hide SameHome, SourcesInRange, Serves, KeepsCadence, CycleInv, LogInv, JobInv, BoardInv;
    if c.tasks[0].future.Finished? && !c.timedOut {
      RoutedKeepsBoard(s, i);
    } else {
      CycleInvWithout(s.board.groups, s.cycles, i);
    }
    LogInvWithout(s, i, s');
  }

  /** What polling a cycle with a done read comes to. */
  lemma PollDoneEffect(s: State, i: nat, current: real)
    requires Inv(s) && i < |s.cycles| && s.cycles[i].tasks[0].future.Done()
    ensures ActiveRead(s, s.cycles[i]) && s.cycles[i].tasks[0] in s.cycles[i].tasks
    ensures SourcesInRange(s.cycles[i], |s.board.groups|)
    ensures var c := s.cycles[i];
            PollAt(s, i, current)
            == s.(cycles := Without(s.cycles, i),
                  board := if c.tasks[0].future.Finished? && !c.timedOut then Route(s.board, c, c.tasks[0]) else s.board)
    ensures var c, r := s.cycles[i], s.cycles[i].tasks[0];
            r.future.Finished? && !c.timedOut ==> Route(s.board, c, r).routed == s.board.routed + [r.id]
  {
    hide JobInv, SameHome, Served;
    var c := s.cycles[i];
    assert ActiveRead(s, c);
    PolledSingle(c, current);
    RouteDoneSingle(s.board, c);
    assert Ids(Pending(c.tasks)) == {};
    assert PollAt(s, i, current).cycles == Without(s.cycles, i);
  }

  /** Routing the read of a cycle that is then dropped keeps everything the other cycles rely on. */
  lemma RoutedKeepsBoard(s: State, i: nat)
    requires Inv(s) && i < |s.cycles| && ActiveRead(s, s.cycles[i])
    requires SourcesInRange(s.cycles[i], |s.board.groups|) && s.cycles[i].tasks[0] in s.cycles[i].tasks
    requires s.cycles[i].tasks[0].future.Finished?
    ensures var groups := Route(s.board, s.cycles[i], s.cycles[i].tasks[0]).groups;
            && BoardInv(groups) && CycleInv(groups, Without(s.cycles, i)) && JobInv(groups, s.jobs)
            && forall g | g in groups :: g.primary.name in s.lastRead
  {
    hide SameHome, SourcesInRange, LogInv;
    var c := s.cycles[i];
    var gi: nat :| Serves(s.board.groups, c, gi);
    RouteTouchesOneGroup(s.board, c, gi);
    var g := Route(s.board, c, c.tasks[0]).groups[gi];
    CycleInvWithout(s.board.groups, s.cycles, i);
    SoleHome(s.board.groups, s.cycles, i, gi);
    hide CycleInv, BoardInv, JobInv;
    BoardInvAfter(s.board.groups, gi, g);
    CycleInvAfter(s.board.groups, Without(s.cycles, i), gi, g);
    JobInvAfter(s.board.groups, s.jobs, s.mode, gi, g);
    PrimariesStay(s.board.groups, gi, g, s.lastRead);
  }

  lemma PrimariesStay(groups: seq<Group>, gi: nat, g: Group, lastRead: map<string, real>)
    requires gi < |groups| && SameShape(groups[gi], g)
    requires forall h | h in groups :: h.primary.name in lastRead
    ensures forall h | h in groups[gi := g] :: h.primary.name in lastRead
  {
    assert groups[gi] in groups;
  }

  /** The id of a cycle's read if polling now would route it. */
  function Delivered(c: Cycle): seq<nat> {
    if |c.tasks| == 1 && c.tasks[0].future.Finished? && !c.timedOut then [c.tasks[0].id] else []
  }

  /** Polling a cycle whose read is not done: only its time-out can change. */
  lemma PollAtPending(s: State, i: nat, current: real)
    requires Inv(s) && i < |s.cycles| && !s.cycles[i].tasks[0].future.Done()
    ensures Inv(PollAt(s, i, current))
  {
    hide Served, SameHome, JobInv;
    var c := s.cycles[i];
    var c' := Polled(c, current);
    PolledSingle(c, current);
    RouteDoneSingle(s.board, c);
    assert PollAt(s, i, current).cycles == s.cycles[i := c'];
    CycleInvReplace(s.board.groups, s.cycles, i, c');
    LogInvReplace(s, i, c', PollAt(s, i, current));
  }

  /** A time-out enters the read into the log of expired ones. */
  lemma LogInvReplace(s: State, i: nat, c: Cycle, s': State)
    requires LogInv(s) && i < |s.cycles| && s'.cycles == s.cycles[i := c] && SameRead(s.cycles[i], c)
    requires s'.board == s.board && s'.nextId == s.nextId
    requires s'.expired == s.expired + if c.timedOut && !s.cycles[i].timedOut then {c.tasks[0].id} else {}
    requires s.cycles[i].timedOut ==> c.timedOut
    ensures LogInv(s')
  {
    var id := c.tasks[0].id;
    assert ActiveRead(s, s.cycles[i]) && id == s.cycles[i].tasks[0].id;
    forall j | 0 <= j < |s'.cycles| ensures ActiveRead(s', s'.cycles[j]) {
      assert ActiveRead(s, s.cycles[j]);
    }
  }

  /** Replacing a cycle by one with the same home, key and schedule keeps the cycle invariant. */
  lemma CycleInvReplace(groups: seq<Group>, cycles: seq<Cycle>, i: nat, c: Cycle)
    requires ValidGroups(groups) && CycleInv(groups, cycles) && i < |cycles|
    requires SameRead(cycles[i], c)
    ensures CycleInv(groups, cycles[i := c])
  {
    var after := cycles[i := c];
    var gi :| Serves(groups, cycles[i], gi);
    SameReadSameHome(groups, cycles[i], c);
    assert Serves(groups, c, gi);
    hide Serves, SourcesInRange, Home;
    forall j, k | 0 <= j < k < |after| ensures !SameHome(groups, after[j], after[k]) {
      assert !SameHome(groups, cycles[j], cycles[k]);
    }
  }

  lemma SameReadSameHome(groups: seq<Group>, c: Cycle, d: Cycle)
    requires SameRead(c, d)
    ensures forall gi :: Home(groups, c, gi) <==> Home(groups, d, gi)
  {
  }

  /** Cycles that differ at most in the progress of their single read and in having timed out. */
  ghost predicate SameRead(c: Cycle, d: Cycle) {
    && |c.tasks| == 1 && |d.tasks| == 1
    && c.tasks[0].(future := Queued) == d.tasks[0].(future := Queued)
    && c.(tasks := [], timedOut := true) == d.(tasks := [], timedOut := true)
  }

  // ------------------------------------------------------------------
  // A whole poll
  // ------------------------------------------------------------------

  /** The ids routed by polling the first `n` cycles, in table order. */
  function DeliveredBy(cycles: seq<Cycle>, n: nat): seq<nat>
    requires n <= |cycles|
  {
    if n == 0 then [] else DeliveredBy(cycles, n - 1) + Delivered(cycles[n - 1])
  }

  lemma RoutedByOne(b: Board, c: Cycle)
    requires ValidGroups(b.groups) && SourcesInRange(c, |b.groups|) && |c.tasks| == 1
    ensures RouteDone(b, c, c.tasks).routed == b.routed + Delivered(c)
  {
    RouteDoneSingle(b, c);
    hide RouteDone, ForwardAll, MarkStandalone, MembersDue;
  }

  lemma {:induction false} RoutedExactly(b: Board, cycles: seq<Cycle>, n: nat)
    requires ValidGroups(b.groups) && AllInRange(cycles, |b.groups|) && n <= |cycles|
    requires forall i | 0 <= i < |cycles| :: |cycles[i].tasks| == 1
    ensures BoardAfter(b, cycles, n).routed == b.routed + DeliveredBy(cycles, n)
  {
    if n > 0 {
      hide RouteDone, SourcesInRange, ValidGroups;
      RoutedExactly(b, cycles, n - 1);
      RoutedByOne(BoardAfter(b, cycles, n - 1), cycles[n - 1]);
    }
  }

  /** Polling one more cycle of the table. */
  lemma PollFirstUnfold(s: State, n: nat, current: real)
    requires Wired(s) && 0 < n <= |s.cycles|
    ensures var t, i := PollFirst(s, n - 1, current), |KeptOf(s.cycles, n - 1, current)|;
            && Wired(t) && i < |t.cycles| && t.cycles[i] == s.cycles[n - 1]
            && PollFirst(s, n, current) == PollAt(t, i, current)
  {
    hide SourcesInRange, ValidGroup, RouteDone, ExpiredBy, Kept;
    var t, i := PollFirst(s, n - 1, current), |KeptOf(s.cycles, n - 1, current)|;
    KeptOfInRange(s.cycles, n - 1, current, |s.board.groups|);
    assert t.cycles[..i] == KeptOf(s.cycles, n - 1, current) && t.cycles[i + 1..] == s.cycles[n..];
  }

  lemma PollAtKeepsInv(s: State, i: nat, current: real)
    requires Inv(s) && Wired(s) && i < |s.cycles|
    ensures Inv(PollAt(s, i, current))
  {
    if s.cycles[i].tasks[0].future.Done() {
      PollAtDone(s, i, current);
    } else {
      PollAtPending(s, i, current);
    }
  }

  lemma PollNothing(s: State, current: real)
    requires Wired(s)
    ensures PollFirst(s, 0, current) == s
  {
  }

  lemma {:induction false} PollFirstKeepsInv(s: State, n: nat, current: real)
    requires Inv(s) && Wired(s) && n <= |s.cycles|
    ensures Inv(PollFirst(s, n, current))
  {
    hide Inv, Wired, PollFirst, PollAt;
    if n == 0 {
      PollNothing(s, current);
    } else {
      PollFirstKeepsInv(s, n - 1, current);
      PollFirstUnfold(s, n, current);
      PollAtKeepsInv(PollFirst(s, n - 1, current), |KeptOf(s.cycles, n - 1, current)|, current);
    }
  }

  /** A poll routes exactly the finished reads of cycles that had not timed out, each once and
      in table order; and it keeps exactly the cycles whose read is not done. */
  lemma PollDelivers(s: State, current: real)
    requires Inv(s)
    ensures Wired(s) && Inv(Poll(s, current))
    ensures Poll(s, current).board.routed == s.board.routed + DeliveredBy(s.cycles, |s.cycles|)
    ensures Poll(s, current).cycles == KeptOf(s.cycles, |s.cycles|, current)
    ensures forall c | c in s.cycles :: Kept(c, current) == [] <==> c.tasks[0].future.Done()
  {
    InvSchedulable(s);
    PollFirstKeepsInv(s, |s.cycles|, current);
    RoutedExactly(s.board, s.cycles, |s.cycles|);
    forall i | 0 <= i < |s.cycles| ensures Kept(s.cycles[i], current) == [] <==> s.cycles[i].tasks[0].future.Done() {
      PolledSingle(s.cycles[i], current);
    }
  }

  // ------------------------------------------------------------------
  // Starting a cycle
  // ------------------------------------------------------------------

  lemma {:induction false} OwnerOf(groups: seq<Group>, ready: seq<nat>, t: Transport, gi: nat)
    requires BoardInv(groups) && AllBelow(ready, |groups|) && gi in ready && t in groups[gi].members
    ensures OwningGroup(groups, ready, t) == if |groups[gi].members| > 1 then Consolidated(gi) else Standalone
  {
    var o := OwningGroup(groups, ready, t);
    if o.Consolidated? {
      MemberOfOneGroup(groups, t, o.group, gi);
    }
  }

  lemma {:induction false} ConsolidationsOf(groups: seq<Group>, ready: seq<nat>, ts: seq<Transport>, gi: nat)
    requires BoardInv(groups) && AllBelow(ready, |groups|) && gi in ready && ts != []
    requires |groups[gi].members| > 1 && forall t | t in ts :: t in groups[gi].members
    ensures Consolidations(groups, ready, ts) == [gi] && Standalones(groups, ready, ts) == []
  {
    var init, last := ts[..|ts| - 1], ts[|ts| - 1];
    assert ts == init + [last];
    OwnerOf(groups, ready, last, gi);
    if init != [] {
      ConsolidationsOf(groups, ready, init, gi);
    }
  }

  /** Whatever members of one group are due, dispatching them submits exactly one read. */
  lemma OneReadPerDispatch(groups: seq<Group>, ready: seq<nat>, gi: nat, now: real, id: nat)
    requires BoardInv(groups) && AllBelow(ready, |groups|) && gi in ready
    requires MembersDue(groups[gi], now) != []
    ensures var tasks := NewReads(groups, ready, MembersDue(groups[gi], now), id);
            && |tasks| == 1 && tasks[0].id == id && tasks[0].future == Queued
            && (if |groups[gi].members| > 1 then
                  tasks[0].source == Consolidated(gi) && tasks[0].transport == groups[gi].primary
                else tasks[0].source == Standalone && groups[gi].members == [tasks[0].transport])
  {
    var g := groups[gi];
    var ts := MembersDue(g, now);
    if |g.members| > 1 {
      ConsolidationsOf(groups, ready, ts, gi);
    } else {
      assert g.primary in g.members;
      assert g.members == [g.primary];
      DueOfSingle(g, now);
      OwnerOf(groups, ready, g.primary, gi);
      assert ts[..0] == [] && Consolidations(groups, ready, ts) == [] && Standalones(groups, ready, ts) == ts;
    }
  }

  lemma DueOfSingle(g: Group, now: real)
    requires ValidGroup(g) && g.members == [g.primary] && MembersDue(g, now) != []
    ensures MembersDue(g, now) == [g.primary]
  {
    assert Due(g, g.members[..0], now) == [];
  }

  /** The guard on due-member sets never blocks a group because of another one, and never
      lets a group through that already has an active cycle. */
  lemma GuardIsPerGroup(groups: seq<Group>, cycles: seq<Cycle>, gi: nat, now: real)
    requires BoardInv(groups) && CycleInv(groups, cycles) && gi < |groups|
    requires MembersDue(groups[gi], now) != []
    ensures Overlaps(cycles, Names(MembersDue(groups[gi], now)))
            <==> exists i :: 0 <= i < |cycles| && Home(groups, cycles[i], gi)
  {
    hide CycleInv, Home;
    var key := Names(MembersDue(groups[gi], now));
    if i :| 0 <= i < |cycles| && Home(groups, cycles[i], gi) {
      ActiveGroupOverlaps(groups, cycles, i, gi, now);
      assert cycles[i] in cycles;
    }
    if c :| c in cycles && c.key * key != {} {
      var i: nat :| i < |cycles| && cycles[i] == c;
      OverlapIsAtHome(groups, cycles, i, gi, now);
    }
  }

  lemma ActiveGroupOverlaps(groups: seq<Group>, cycles: seq<Cycle>, i: nat, gi: nat, now: real)
    requires BoardInv(groups) && CycleInv(groups, cycles) && gi < |groups| && i < |cycles|
    requires MembersDue(groups[gi], now) != [] && Home(groups, cycles[i], gi)
    ensures cycles[i].key * Names(MembersDue(groups[gi], now)) != {}
  {
    hide SameHome, MembersDue;
    var gj: nat :| Serves(groups, cycles[i], gj);
    HomeUnique(groups, cycles[i], gi, gj);
    DueSetsOverlap(groups[gi], cycles[i].cycleNow, now);
  }

  lemma OverlapIsAtHome(groups: seq<Group>, cycles: seq<Cycle>, i: nat, gi: nat, now: real)
    requires BoardInv(groups) && CycleInv(groups, cycles) && gi < |groups| && i < |cycles|
    requires cycles[i].key * Names(MembersDue(groups[gi], now)) != {}
    ensures Home(groups, cycles[i], gi)
  {
    hide SameHome, MembersDue;
    var c := cycles[i];
    var gj: nat :| Serves(groups, c, gj);
    var n :| n in c.key * Names(MembersDue(groups[gi], now));
    KeyWithinGroup(groups[gi], now);
    KeyWithinGroup(groups[gj], c.cycleNow);
    assert n in Names(groups[gi].members) && n in Names(groups[gj].members);
    assert gi == gj;
  }

  lemma KeyWithinGroup(g: Group, now: real)
    requires ValidGroup(g)
    ensures Names(MembersDue(g, now)) <= Names(g.members)
  {
  }

  lemma StartCycleKeepsInv(s: State, ready: seq<nat>, gi: nat, now: real, startedAt: real)
    requires Inv(s) && s.mode == InterleavedMode && AllBelow(ready, |s.board.groups|) && gi in ready
    ensures Inv(StartCycle(s, MembersDue(s.board.groups[gi], now), ready, now, startedAt))
  {
    var groups := s.board.groups;
    var ts := MembersDue(groups[gi], now);
    var s' := StartCycle(s, ts, ready, now, startedAt);
    if ts != [] && !Overlaps(s.cycles, Names(ts)) {
      OneReadPerDispatch(groups, ready, gi, now, s.nextId);
      GuardIsPerGroup(groups, s.cycles, gi, now);
      var c := s'.cycles[|s.cycles|];
      assert c.tasks[0] in c.tasks;
      assert Serves(groups, c, gi);
      CycleInvAppend(groups, s.cycles, c, gi);
      LogInvAppend(s, c, s');
    }
  }

  lemma LogInvAppend(s: State, c: Cycle, s': State)
    requires LogInv(s) && |c.tasks| == 1 && c.tasks[0].id == s.nextId && !c.timedOut
    requires s'.cycles == s.cycles + [c] && s'.nextId == s.nextId + 1
    requires s'.board == s.board && s'.expired == s.expired
    ensures LogInv(s')
  {
    forall i | 0 <= i < |s'.cycles| ensures ActiveRead(s', s'.cycles[i]) {
      if i < |s.cycles| { assert ActiveRead(s, s.cycles[i]); }
    }
  }

  lemma CycleInvAppend(groups: seq<Group>, cycles: seq<Cycle>, c: Cycle, gi: nat)
    requires DisjointGroups(groups) && ValidGroups(groups) && CycleInv(groups, cycles)
    requires SourcesInRange(c, |groups|) && Serves(groups, c, gi)
    requires forall i | 0 <= i < |cycles| :: !Home(groups, cycles[i], gi)
    ensures CycleInv(groups, cycles + [c])
  {
    forall i | 0 <= i < |cycles| ensures !SameHome(groups, cycles[i], c) {
      if h: nat :| Home(groups, cycles[i], h) && Home(groups, c, h) {
        HomeUnique(groups, c, gi, h);
      }
    }
  }
}
