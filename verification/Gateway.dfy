/** The scheduling objects themselves, updated in place, each method proved to take the
    corresponding step of the machine in Scheduling. */
module Gateway {
  import opened Numbers
  import opened ScrapeGroups
  import opened Scheduling
  import opened SchedulingRuns
  import opened SchedulingSafety
  import opened SchedulingTheorems
  import opened TickTheorems

  class ScrapeGroup {
    var primary: Transport
    var members: seq<Transport>
    var memberLastForward: map<string, real>
    ghost var forwards: map<string, seq<real>>

    ghost function View(): Group
      reads this
    {
      Group(primary, members, forwards)
    }

    ghost predicate Valid()
      reads this
    {
      && ValidGroup(View())
      && memberLastForward.Keys == forwards.Keys
      && forall n | n in forwards :: memberLastForward[n] == LastForward(View(), n)
    }

    constructor (t: Transport)
      ensures Valid() && View() == NewGroup(t)
    {
      primary := t;
      members := [t];
      memberLastForward := map[t.name := 0.0];
      forwards := map[t.name := [0.0]];
    }

    method Add(t: Transport)
      requires Valid() && t.name !in View().forwards
      modifies this
      ensures Valid() && View() == AddMember(old(View()), t)
    {
      hide ValidGroup;
      AddMemberValid(View(), t);
      members := members + [t];
      memberLastForward := memberLastForward[t.name := 0.0];
      forwards := forwards[t.name := [0.0]];
      if t.readInterval > 0.0 && (primary.readInterval <= 0.0 || t.readInterval < primary.readInterval) {
        primary := t;
      }
    }

    method ScrapeInterval() returns (r: real)
      ensures r == FastestInterval(members)
    {
      r := 0.0;
      for i := 0 to |members|
        invariant r == FastestInterval(members[..i])
      {
        assert members[..i + 1][..i] == members[..i];
        if members[i].readInterval > 0.0 && (r <= 0.0 || members[i].readInterval < r) {
          r := members[i].readInterval;
        }
      }
      assert members[..|members|] == members;
    }

    method MembersDueNow(now: real) returns (due: seq<Transport>)
      requires Valid()
      ensures due == MembersDue(View(), now)
    {
      hide ValidGroup, Due, Names;
      ghost var g := View();
      assert members[..0] == [];
      due := [];
      DueNone(g, now);
      for i := 0 to |members|
        invariant forall t | t in members[..i] :: t in g.members
        invariant due == Due(g, members[..i], now)
      {
        DueNext(g, i, now);
        if members[i].readInterval > 0.0 && now - memberLastForward[members[i].name] >= members[i].readInterval {
          due := due + [members[i]];
        }
      }
      assert members[..|members|] == members;
    }

    method MarkForwarded(name: string, now: real)
      requires Valid() && name in memberLastForward
      modifies this
      ensures Valid() && View() == Mark(old(View()), name, now)
    {
      hide ValidGroup;
      MarkIsValid(View(), name, now);
      memberLastForward := memberLastForward[name := now];
      forwards := forwards[name := forwards[name] + [now]];
    }

    /** Serve the due members in order, giving up at the first bridge that raises. */
    method Forward(due: seq<Transport>, now: real, o: Outcome)
      requires Valid() && Names(due) <= memberLastForward.Keys
      modifies this
      ensures Valid() && View() == ForwardAll(old(View()), due, now, o)
    {
      hide ValidGroup, ForwardAll, Mark, Names;
      ghost var g := View();
      assert due[0..] == due;
      for i := 0 to |due|
        invariant Valid() && memberLastForward.Keys == forwards.Keys
        invariant Names(due[i..]) <= View().forwards.Keys
        invariant ForwardAll(View(), due[i..], now, o) == ForwardAll(g, due, now, o)
      {
        ForwardNext(View(), due, i, now, o);
        if due[i].name in o.nonEmpty {
          if due[i].name in o.failing {
            return;
          }
          MarkForwarded(due[i].name, now);
        }
      }
      ForwardNone(View(), due[|due|..], now, o);
    }
  }

  lemma PendingNext(tasks: seq<Read>, i: nat)
    requires i < |tasks|
    ensures Pending(tasks[i..]) == (if tasks[i].future.Done() then [] else [tasks[i]]) + Pending(tasks[i + 1..])
  {
    assert tasks[i..][1..] == tasks[i + 1..];
  }

  lemma RouteNothing(b: Board, c: Cycle)
    requires ValidGroups(b.groups) && SourcesInRange(c, |b.groups|)
    ensures c.tasks[0..] == c.tasks && c.tasks[|c.tasks|..] == []
    ensures Pending(c.tasks[|c.tasks|..]) == [] && RouteDone(b, c, c.tasks[|c.tasks|..]) == b
  {
  }

  lemma RouteNext(b: Board, c: Cycle, i: nat)
    requires ValidGroups(b.groups) && SourcesInRange(c, |b.groups|) && i < |c.tasks|
    ensures (forall q | q in c.tasks[i..] :: q in c.tasks) && (forall q | q in c.tasks[i + 1..] :: q in c.tasks)
    ensures c.tasks[i] in c.tasks
    ensures var r := c.tasks[i];
            RouteDone(b, c, c.tasks[i..])
            == if r.future.Finished? && !c.timedOut then RouteDone(Route(b, c, r), c, c.tasks[i + 1..])
               else RouteDone(b, c, c.tasks[i + 1..])
  {
    hide Route, ValidGroups, SourcesInRange;
    assert c.tasks[i..][0] == c.tasks[i] && c.tasks[i..][1..] == c.tasks[i + 1..];
  }

  lemma DueNone(g: Group, now: real)
    requires ValidGroup(g)
    ensures Due(g, [], now) == []
  {
  }

  lemma DueNext(g: Group, i: nat, now: real)
    requires ValidGroup(g) && i < |g.members|
    ensures (forall t | t in g.members[..i] :: t in g.members) && (forall t | t in g.members[..i + 1] :: t in g.members)
    ensures var m := g.members[i];
            && m.name in g.forwards
            && Due(g, g.members[..i + 1], now)
               == Due(g, g.members[..i], now)
                  + if m.readInterval > 0.0 && now - LastForward(g, m.name) >= m.readInterval then [m] else []
  {
    assert g.members[..i + 1][..i] == g.members[..i];
    assert g.members[i].name in Names(g.members);
  }

  lemma MarkIsValid(g: Group, name: string, now: real)
    requires ValidGroup(g) && name in g.forwards
    ensures var h := Mark(g, name, now);
            && ValidGroup(h) && h.forwards.Keys == g.forwards.Keys
            && forall n | n in g.forwards :: LastForward(h, n) == if n == name then now else LastForward(g, n)
  {
  }

  /** One member more of the due ones. */
  lemma ForwardNext(g: Group, due: seq<Transport>, i: nat, now: real, o: Outcome)
    requires i < |due| && Names(due[i..]) <= g.forwards.Keys
    ensures due[i].name in g.forwards && Names(due[i + 1..]) <= g.forwards.Keys
    ensures var h := Mark(g, due[i].name, now);
            h.forwards.Keys == g.forwards.Keys
    ensures ForwardAll(g, due[i..], now, o)
         == if due[i].name !in o.nonEmpty then ForwardAll(g, due[i + 1..], now, o)
            else if due[i].name in o.failing then g
            else ForwardAll(Mark(g, due[i].name, now), due[i + 1..], now, o)
  {
    var rest := due[i..];
    assert rest[0] == due[i] && rest[1..] == due[i + 1..];
    assert rest[0].name in Names(rest) && Names(rest[1..]) <= Names(rest);
  }

  lemma ForwardNone(g: Group, due: seq<Transport>, now: real, o: Outcome)
    requires due == [] && Names(due) <= g.forwards.Keys
    ensures ForwardAll(g, due, now, o) == g
  {
  }

  /** Group objects that are pairwise distinct and individually consistent. */
  ghost predicate GroupsValid(gs: seq<ScrapeGroup>)
    reads gs
  {
    && (forall i, j | 0 <= i < j < |gs| :: gs[i] != gs[j])
    && (forall i | 0 <= i < |gs| :: gs[i].Valid())
  }

  ghost function Views(gs: seq<ScrapeGroup>): (r: seq<Group>)
    reads gs
    ensures |r| == |gs| && forall i | 0 <= i < |gs| :: r[i] == gs[i].View()
  {
    if gs == [] then [] else Views(gs[..|gs| - 1]) + [gs[|gs| - 1].View()]
  }

  /** `groups` holds, target by target, the groups of the transports `ts`. */
  ghost predicate Grouped(ts: seq<Transport>, targets: seq<string>, groups: seq<Group>) {
    && |groups| == |targets|
    && forall k | 0 <= k < |targets| ::
         OnTarget(ts, targets[k]) != [] && groups[k] == GroupOf(OnTarget(ts, targets[k]))
  }

  ghost predicate Indexed(byTarget: map<string, nat>, targets: seq<string>) {
    && (forall x :: x in byTarget <==> x in targets)
    && (forall x | x in byTarget :: byTarget[x] < |targets| && targets[byTarget[x]] == x)
  }

  method AddTo(gs: seq<ScrapeGroup>, k: nat, t: Transport)
    requires GroupsValid(gs) && k < |gs| && t.name !in Views(gs)[k].forwards
    modifies gs
    ensures GroupsValid(gs) && Views(gs) == old(Views(gs))[k := AddMember(old(Views(gs))[k], t)]
  {
    hide Views, ScrapeGroup.Valid, ScrapeGroup.View, AddMember;
    ghost var views := Views(gs);
    gs[k].Add(t);
    assert Views(gs) == views[k := AddMember(views[k], t)];
  }

  /** Put one transport where it belongs: nowhere (a bridge), into its device's group, or
      into a new group. */
  method Place(gs: seq<ScrapeGroup>, byTarget: map<string, nat>, t: Transport, ghost ts: seq<Transport>)
    returns (gs': seq<ScrapeGroup>, byTarget': map<string, nat>)
    requires GroupsValid(gs) && Indexed(byTarget, Targets(ts)) && Grouped(ts, Targets(ts), Views(gs))
    requires t.name !in Names(ts)
    modifies gs
    ensures GroupsValid(gs') && Indexed(byTarget', Targets(ts + [t])) && Grouped(ts + [t], Targets(ts + [t]), Views(gs'))
    ensures |gs| <= |gs'|
    ensures forall i | 0 <= i < |gs'| :: if i < |gs| then gs'[i] == gs[i] else fresh(gs'[i])
  {
    hide Targets, OnTarget, GroupOf, AddMember, NewGroup, Grouped, Indexed, Views, ScrapeGroup.Valid, ScrapeGroup.View;
    ghost var views := Views(gs);
    IndexedFacts(byTarget, Targets(ts), t.target);
    GroupedLength(ts, Targets(ts), views);
    TargetsAppend(ts, t);
    gs', byTarget' := gs, byTarget;
    if t.target == "" {
      GroupedKeep(ts, t, Targets(ts), views);
    } else if t.target in byTarget {
      var k := byTarget[t.target];
      FreshName(ts, t, views, k);
      GroupedJoin(ts, t, Targets(ts), views, k);
      AddTo(gs, k, t);
    } else {
      GroupedStart(ts, t, views);
      IndexedExtend(byTarget, Targets(ts), t.target);
      byTarget' := byTarget[t.target := |gs|];
      gs' := AppendNew(gs, t);
    }
  }

  method AppendNew(gs: seq<ScrapeGroup>, t: Transport) returns (gs': seq<ScrapeGroup>)
    requires GroupsValid(gs)
    ensures |gs'| == |gs| + 1 && gs'[..|gs|] == gs && fresh(gs'[|gs|])
    ensures GroupsValid(gs') && Views(gs') == Views(gs) + [NewGroup(t)]
  {
    hide Views, NewGroup, ScrapeGroup.Valid, ScrapeGroup.View;
    var g := new ScrapeGroup(t);
    gs' := gs + [g];
  }

  /** Group the scrapers of a configuration by the device they read. */
  method BuildScrapeGroups(transports: seq<Transport>) returns (gs: seq<ScrapeGroup>)
    requires DistinctNames(transports)
    ensures (forall k | 0 <= k < |gs| :: fresh(gs[k])) && GroupsValid(gs)
    ensures Views(gs) == GroupsOf(transports)
  {
    var byTarget: map<string, nat> := map[];
    gs := [];
    assert transports[..0] == [] && Targets([]) == [];
    hide Targets, OnTarget, GroupOf, GroupsOf, DistinctNames, Names, ScrapeGroup.Valid, ScrapeGroup.View;
    for i := 0 to |transports|
      invariant (forall k | 0 <= k < |gs| :: fresh(gs[k])) && GroupsValid(gs)
      invariant Indexed(byTarget, Targets(transports[..i]))
      invariant Grouped(transports[..i], Targets(transports[..i]), Views(gs))
    {
      TakeOneMore(transports, i);
      EarlierNames(transports, i);
      gs, byTarget := Place(gs, byTarget, transports[i], transports[..i]);
    }
    assert transports[..|transports|] == transports;
    GroupedIsGroupsOf(transports, Views(gs));
  }

  lemma GroupedIsGroupsOf(ts: seq<Transport>, groups: seq<Group>)
    requires Grouped(ts, Targets(ts), groups)
    ensures groups == GroupsOf(ts)
  {
    forall k | 0 <= k < |groups| ensures groups[k] == GroupsOf(ts)[k] {
    }
  }

  lemma PollFirstStep(s: State, i: nat, current: real)
    requires Wired(s) && i < |s.cycles|
    ensures SourcesInRange(s.cycles[i], |PollFirst(s, i, current).board.groups|)
    ensures KeptOf(s.cycles, i + 1, current) == KeptOf(s.cycles, i, current) + Kept(s.cycles[i], current)
    ensures var t, c := PollFirst(s, i, current), s.cycles[i];
            && ValidGroups(t.board.groups)
            && PollFirst(s, i + 1, current)
               == t.(board := RouteDone(t.board, c, c.tasks),
                     cycles := KeptOf(s.cycles, i + 1, current) + s.cycles[i + 1..],
                     expired := t.expired + ExpiredBy(c, current))
  {
  }

  lemma AddMemberValid(g: Group, t: Transport)
    requires ValidGroup(g) && t.name !in g.forwards
    ensures ValidGroup(AddMember(g, t))
  {
    NamesAppend(g.members, t);
    assert forall m | m in g.members :: m.name in Names(g.members);
    assert g.primary in g.members + [t];
  }

  lemma ViewsValid(gs: seq<ScrapeGroup>)
    requires GroupsValid(gs)
    ensures ValidGroups(Views(gs))
  {
  }

  lemma MemberHasMarks(g: Group, t: Transport)
    requires ValidGroup(g) && t in g.members
    ensures t.name in g.forwards
  {
    assert t.name in Names(g.members);
  }

  lemma TakeOneMore<T>(s: seq<T>, i: nat)
    requires i < |s|
    ensures s[..i + 1] == s[..i] + [s[i]]
  {
  }

  lemma GroupedLength(ts: seq<Transport>, targets: seq<string>, groups: seq<Group>)
    requires Grouped(ts, targets, groups)
    ensures |groups| == |targets|
  {
  }

  lemma IndexedFacts(byTarget: map<string, nat>, targets: seq<string>, x: string)
    requires Indexed(byTarget, targets)
    ensures x in byTarget <==> x in targets
    ensures x in byTarget ==> byTarget[x] < |targets| && targets[byTarget[x]] == x
  {
  }

  lemma IndexedExtend(byTarget: map<string, nat>, targets: seq<string>, x: string)
    requires Indexed(byTarget, targets) && x !in targets
    ensures Indexed(byTarget[x := |targets|], targets + [x])
  {
  }

  lemma EarlierNames(ts: seq<Transport>, i: nat)
    requires DistinctNames(ts) && i < |ts|
    ensures ts[i].name !in Names(ts[..i])
  {
  }

  lemma OnTargetAppend(ts: seq<Transport>, t: Transport, x: string)
    ensures OnTarget(ts + [t], x) == OnTarget(ts, x) + if t.target == x then [t] else []
  {
    assert (ts + [t])[..|ts|] == ts;
  }

  lemma TargetsAppend(ts: seq<Transport>, t: Transport)
    ensures Targets(ts + [t]) == if t.target == "" || t.target in Targets(ts) then Targets(ts) else Targets(ts) + [t.target]
    ensures forall k | 0 <= k < |Targets(ts)| :: Targets(ts)[k] != ""
  {
    assert (ts + [t])[..|ts|] == ts;
    forall k | 0 <= k < |Targets(ts)| ensures Targets(ts)[k] != "" {
      assert Targets(ts)[k] in Targets(ts);
    }
  }

  lemma GroupOfAppend(ts: seq<Transport>, t: Transport)
    ensures GroupOf(ts + [t]) == if ts == [] then NewGroup(t) else AddMember(GroupOf(ts), t)
  {
    assert (ts + [t])[..|ts|] == ts;
  }

  /** A bridge, or a transport of another device, leaves a group as it is. */
  lemma GroupedKeep(ts: seq<Transport>, t: Transport, targets: seq<string>, groups: seq<Group>)
    requires Grouped(ts, targets, groups) && t.target !in targets
    ensures Grouped(ts + [t], targets, groups)
  {
    hide OnTarget, GroupOf;
    forall k | 0 <= k < |targets| ensures OnTarget(ts + [t], targets[k]) == OnTarget(ts, targets[k]) {
      OnTargetAppend(ts, t, targets[k]);
    }
  }

  /** A transport of a known device joins that device's group. */
  lemma GroupedJoin(ts: seq<Transport>, t: Transport, targets: seq<string>, groups: seq<Group>, k: nat)
    requires Grouped(ts, targets, groups) && k < |targets| && targets[k] == t.target
    requires forall i, j | 0 <= i < j < |targets| :: targets[i] != targets[j]
    ensures Grouped(ts + [t], targets, groups[k := AddMember(groups[k], t)])
  {
    hide OnTarget, GroupOf, AddMember;
    OnTargetAppend(ts, t, t.target);
    GroupOfAppend(OnTarget(ts, t.target), t);
    forall i | 0 <= i < |targets| && i != k ensures OnTarget(ts + [t], targets[i]) == OnTarget(ts, targets[i]) {
      OnTargetAppend(ts, t, targets[i]);
    }
  }

  /** The first transport of a device starts a group. */
  lemma GroupedStart(ts: seq<Transport>, t: Transport, groups: seq<Group>)
    requires Grouped(ts, Targets(ts), groups) && t.target != "" && t.target !in Targets(ts)
    ensures Grouped(ts + [t], Targets(ts) + [t.target], groups + [NewGroup(t)])
  {
    hide OnTarget, GroupOf, NewGroup, Targets;
    GroupedKeep(ts, t, Targets(ts), groups);
    OnTargetAppend(ts, t, t.target);
    NothingOnTarget(ts, t.target);
    GroupOfAppend([], t);
    assert [] + [t] == [t];
  }

  lemma {:induction false} NothingOnTarget(ts: seq<Transport>, x: string)
    requires x != "" && x !in Targets(ts)
    ensures OnTarget(ts, x) == []
  {
    if ts != [] {
      var init, last := ts[..|ts| - 1], ts[|ts| - 1];
      assert ts == init + [last];
      TargetsAppend(init, last);
      NothingOnTarget(init, x);
    }
  }

  lemma FreshName(ts: seq<Transport>, t: Transport, groups: seq<Group>, k: nat)
    requires Grouped(ts, Targets(ts), groups) && k < |Targets(ts)| && t.name !in Names(ts)
    ensures t.name !in groups[k].forwards
  {
    GroupOfMembers(OnTarget(ts, Targets(ts)[k]));
    forall u | u in OnTarget(ts, Targets(ts)[k]) ensures u.name in Names(ts) {
      assert u in ts;
    }
  }

  class ProtocolGateway {
    const mode: Mode
    const scrapeGroups: seq<ScrapeGroup>
    var lastReadTime: map<string, real>
    var activeCycles: seq<Cycle>
    var concurrentFutures: map<string, Job>
    var nextId: nat
    ghost var routed: seq<nat>
    ghost var expired: set<nat>

    ghost function View(): State
      reads this, scrapeGroups
    {
      State(mode, Board(Views(scrapeGroups), routed), lastReadTime, activeCycles, concurrentFutures, nextId, expired)
    }

    ghost predicate Valid()
      reads this, scrapeGroups
    {
      GroupsValid(scrapeGroups)
    }

    constructor (transports: seq<Transport>, mode: Mode)
      requires DistinctNames(transports)
      ensures Valid() && View() == Init(transports, mode)
    {
      hide Views, GroupsOf;
      this.mode := mode;
      var gs := BuildScrapeGroups(transports);
      scrapeGroups := gs;
      lastReadTime := map t | t in transports :: t.name := 0.0;
      activeCycles, concurrentFutures, nextId := [], map[], 0;
      routed, expired := [], {};
    }

    /** The first listed group the transport belongs to is marked. */
    method MarkFirstGroup(ready: seq<nat>, t: Transport, now: real)
      requires Valid() && AllBelow(ready, |scrapeGroups|)
      modifies scrapeGroups
      ensures Valid()
      ensures ValidGroups(old(Views(scrapeGroups)))
      ensures Views(scrapeGroups) == MarkStandalone(old(Views(scrapeGroups)), ready, t, now)
    {
      hide Views, ValidGroup;
      ghost var groups := Views(scrapeGroups);
      for k := 0 to |ready|
        invariant Valid() && Views(scrapeGroups) == groups
        invariant MarkStandalone(groups, ready, t, now) == MarkStandalone(groups, ready[k..], t, now)
      {
        var g := scrapeGroups[ready[k]];
        assert ready[k..][0] == ready[k] && ready[k..][1..] == ready[k + 1..];
        if t in g.members {
          MemberHasMarks(g.View(), t);
          g.MarkForwarded(t.name, now);
          assert Views(scrapeGroups) == groups[ready[k] := Mark(groups[ready[k]], t.name, now)];
          return;
        }
      }
    }

    method RouteInterleavedState(c: Cycle, r: Read)
      requires Valid() && SourcesInRange(c, |scrapeGroups|) && r in c.tasks && r.future.Finished?
      modifies this`routed, scrapeGroups
      ensures Valid()
      ensures ValidGroups(old(Views(scrapeGroups)))
      ensures View() == old(View()).(board := Route(old(View()).board, c, r))
    {
      hide Views, ValidGroup, Due, ForwardAll, MarkStandalone;
      ghost var groups := Views(scrapeGroups);
      var o := r.future.outcome;
      if r.source.Consolidated? {
        var g := scrapeGroups[r.source.group];
        var due := g.MembersDueNow(c.cycleNow);
        g.Forward(due, c.cycleNow, o);
        assert Views(scrapeGroups) == groups[r.source.group := ForwardAll(groups[r.source.group], due, c.cycleNow, o)];
      } else if r.transport.name in o.nonEmpty && r.transport.name !in o.failing {
        MarkFirstGroup(c.readyGroups, r.transport, c.cycleNow);
      }
      routed := routed + [r.id];
    }

    /** Route what is done in one cycle; what is left of the cycle is returned. */
    method PollCycle(c: Cycle, current: real) returns (kept: seq<Cycle>)
      requires Valid() && SourcesInRange(c, |scrapeGroups|)
      modifies this`routed, this`expired, scrapeGroups
      ensures Valid()
      ensures ValidGroups(old(Views(scrapeGroups)))
      ensures kept == Kept(c, current)
      ensures View() == old(View()).(board := RouteDone(old(View()).board, c, c.tasks),
                                     expired := old(expired) + ExpiredBy(c, current))
    {
      hide Views, ValidGroups, RouteDone, Pending, SourcesInRange;
      var pending := RouteFinished(c);
      if !c.timedOut && pending != [] && current - c.startedAt > c.overallTimeout {
        expired := expired + Ids(pending);
        kept := [c.(tasks := Cancel(pending), timedOut := true)];
      } else {
        kept := if pending == [] then [] else [c.(tasks := pending)];
      }
    }

    /** Route the finished reads of a cycle; the unfinished ones are returned. */
    method RouteFinished(c: Cycle) returns (pending: seq<Read>)
      requires Valid() && SourcesInRange(c, |scrapeGroups|)
      modifies this`routed, scrapeGroups
      ensures Valid()
      ensures ValidGroups(old(Views(scrapeGroups)))
      ensures pending == Pending(c.tasks)
      ensures View() == old(View()).(board := RouteDone(old(View()).board, c, c.tasks))
    {
      hide Views, ValidGroups, Route, SourcesInRange, RouteDone, Pending;
      ViewsValid(scrapeGroups);
      ghost var board := View().board;
      pending := [];
      RouteNothing(board, c);
      for i := 0 to |c.tasks|
        invariant Valid() && ValidGroups(View().board.groups) && |View().board.groups| == |board.groups|
        invariant View() == old(View()).(board := View().board)
        invariant pending + Pending(c.tasks[i..]) == Pending(c.tasks)
        invariant forall q | q in c.tasks[i..] :: q in c.tasks
        invariant RouteDone(View().board, c, c.tasks[i..]) == RouteDone(board, c, c.tasks)
      {
        var r := c.tasks[i];
        PendingNext(c.tasks, i);
        RouteNext(View().board, c, i);
        if r.future.Done() {
          if r.future.Finished? && !c.timedOut {
            RouteInterleavedState(c, r);
            ViewsValid(scrapeGroups);
          }
        } else {
          pending := pending + [r];
        }
      }
      RouteNothing(View().board, c);
    }

    /** Poll cycle `i` of the snapshot `s` of the table, the first `i` being done. */
    method PollNext(ghost s: State, snapshot: seq<Cycle>, i: nat, kept: seq<Cycle>, current: real)
      returns (kept': seq<Cycle>)
      requires Valid() && Wired(s) && snapshot == s.cycles && i < |snapshot|
      requires View() == PollFirst(s, i, current) && kept == KeptOf(s.cycles, i, current)
      modifies this`routed, this`expired, this`activeCycles, scrapeGroups
      ensures Valid() && View() == PollFirst(s, i + 1, current) && kept' == KeptOf(s.cycles, i + 1, current)
    {
      hide Views, Wired, SourcesInRange, ValidGroups, RouteDone, Kept, KeptOf, ExpiredBy, PollFirst, GroupsValid;
      PollFirstStep(s, i, current);
      var left := PollCycle(snapshot[i], current);
      kept' := kept + left;
      activeCycles := kept' + snapshot[i + 1..];
    }

    method PollInterleavedCycles(current: real)
      requires Valid() && Wired(View())
      modifies this`routed, this`expired, this`activeCycles, scrapeGroups
      ensures Valid() && View() == Poll(old(View()), current)
    {
      ghost var s := View();
      var snapshot := activeCycles;
      var kept: seq<Cycle> := [];
      PollNothing(s, current);
      assert KeptOf(snapshot, 0, current) == [] && Poll(s, current) == PollFirst(s, |snapshot|, current);
      hide *;
      for i := 0 to |snapshot|
        invariant Valid()
        invariant kept == KeptOf(snapshot, i, current)
        invariant View() == PollFirst(s, i, current)
      {
        kept := PollNext(s, snapshot, i, kept, current);
      }
    }

    /** The first ready group with several members that the transport belongs to. */
    method FindOwner(ready: seq<nat>, t: Transport) returns (r: Source)
      requires AllBelow(ready, |scrapeGroups|)
      ensures r == OwningGroup(Views(scrapeGroups), ready, t)
    {
      for k := 0 to |ready|
        invariant OwningGroup(Views(scrapeGroups), ready, t) == OwningGroup(Views(scrapeGroups), ready[k..], t)
      {
        assert ready[k..][0] == ready[k] && ready[k..][1..] == ready[k + 1..];
        if |scrapeGroups[ready[k]].members| > 1 && t in scrapeGroups[ready[k]].members {
          return Consolidated(ready[k]);
        }
      }
      r := Standalone;
    }

    /** One read for each group with several members among the due transports, and one for
        each of the others. */
    method MakeReads(ready: seq<nat>, ts: seq<Transport>) returns (tasks: seq<Read>)
      requires AllBelow(ready, |scrapeGroups|)
      ensures tasks == NewReads(Views(scrapeGroups), ready, ts, nextId)
    {
      hide Views, OwningGroup;
      ghost var groups := Views(scrapeGroups);
      var grouped: seq<nat>, alone: seq<Transport> := [], [];
      for k := 0 to |ts|
        invariant grouped == Consolidations(groups, ready, ts[..k])
        invariant alone == Standalones(groups, ready, ts[..k])
      {
        assert ts[..k + 1][..k] == ts[..k];
        var owner := FindOwner(ready, ts[k]);
        if owner.Standalone? {
          alone := alone + [ts[k]];
        } else if owner.group !in grouped {
          grouped := grouped + [owner.group];
        }
      }
      assert ts[..|ts|] == ts;
      forall j | 0 <= j < |grouped| ensures grouped[j] < |groups| {
        assert grouped[j] in grouped;
      }
      tasks := [];
      for k := 0 to |grouped|
        invariant |tasks| == k
        invariant forall j | 0 <= j < k :: tasks[j] == Read(nextId + j, groups[grouped[j]].primary, Consolidated(grouped[j]), Queued)
      {
        tasks := tasks + [Read(nextId + k, scrapeGroups[grouped[k]].primary, Consolidated(grouped[k]), Queued)];
      }
      for k := 0 to |alone|
        invariant |tasks| == |grouped| + k
        invariant forall j | 0 <= j < |grouped| :: tasks[j] == Read(nextId + j, groups[grouped[j]].primary, Consolidated(grouped[j]), Queued)
        invariant forall j | 0 <= j < k :: tasks[|grouped| + j] == Read(nextId + |grouped| + j, alone[j], Standalone, Queued)
      {
        tasks := tasks + [Read(nextId + |grouped| + k, alone[k], Standalone, Queued)];
      }
    }

    /** Start a cycle for the due transports unless one that shares a transport is active. */
    method ProcessTransportsInterleaved(ts: seq<Transport>, now: real, ready: seq<nat>, startedAt: real)
      requires Valid() && AllBelow(ready, |scrapeGroups|)
      modifies this`activeCycles, this`nextId
      ensures View() == StartCycle(old(View()), ts, ready, now, startedAt)
    {
      hide Views, NewReads;
      if ts == [] {
        return;
      }
      var key := Names(ts);
      for k := 0 to |activeCycles|
        invariant !Overlaps(activeCycles[..k], key)
      {
        assert activeCycles[k] in activeCycles;
        if activeCycles[k].key * key != {} {
          return;
        }
      }
      assert activeCycles[..|activeCycles|] == activeCycles;
      var tasks := MakeReads(ready, ts);
      activeCycles := activeCycles + [Cycle(key, tasks, startedAt, OverallTimeout(tasks), now, ready, false)];
      nextId := nextId + |tasks|;
    }

    method SubmitConcurrentGroupRead(gi: nat, now: real)
      requires gi < |scrapeGroups|
      modifies this`concurrentFutures
      ensures View() == SubmitJob(old(View()), gi, now)
    {
      hide Views;
      var key := scrapeGroups[gi].primary.target;
      if key !in concurrentFutures || concurrentFutures[key].phase.Returned? {
        concurrentFutures := concurrentFutures[key := Job(gi, now, Reading)];
      }
    }

    method ProcessGroupRead(gi: nat, now: real, o: Outcome)
      requires Valid() && gi < |scrapeGroups|
      modifies scrapeGroups
      ensures Valid() && ValidGroup(old(scrapeGroups[gi].View()))
      ensures View() == ProcessGroup(old(View()), gi, now, o)
    {
      hide Views, ValidGroup, Due, ForwardAll;
      ghost var groups := Views(scrapeGroups);
      var due := scrapeGroups[gi].MembersDueNow(now);
      scrapeGroups[gi].Forward(due, now, o);
      assert Views(scrapeGroups) == groups[gi := ForwardAll(groups[gi], due, now, o)];
    }

    /** The groups whose scrape interval has elapsed; their primaries are stamped as read. */
    method CollectReadyGroups(now: real) returns (ready: seq<nat>)
      requires forall g | g in Views(scrapeGroups) :: g.primary.name in lastReadTime
      modifies this`lastReadTime
      ensures (ready, lastReadTime) == ScanReady(Views(scrapeGroups), old(lastReadTime), |scrapeGroups|, now)
    {
      hide Views, FastestInterval;
      ghost var groups := Views(scrapeGroups);
      ready := [];
      for i := 0 to |scrapeGroups|
        invariant (ready, lastReadTime) == ScanReady(groups, old(lastReadTime), i, now)
      {
        assert groups[i] in groups;
        var g := scrapeGroups[i];
        var interval := g.ScrapeInterval();
        if interval > 0.0 && now - lastReadTime[g.primary.name] >= interval {
          lastReadTime := lastReadTime[g.primary.name := now];
          ready := ready + [i];
        }
      }
    }

    method DispatchGroup(ready: seq<nat>, gi: nat, now: real, startedAt: real, o: Outcome)
      requires Valid() && Wired(View()) && gi < |scrapeGroups| && AllBelow(ready, |scrapeGroups|)
      modifies this`activeCycles, this`nextId, this`concurrentFutures, scrapeGroups
      ensures Valid()
      ensures View() == Dispatch(old(View()), ready, gi, now, startedAt, o)
    {
      hide Views, Due, StartCycle, SubmitJob, ProcessGroup;
      match mode
      case ConcurrentMode => SubmitConcurrentGroupRead(gi, now);
      case InterleavedMode =>
        var due := scrapeGroups[gi].MembersDueNow(now);
        ProcessTransportsInterleaved(due, now, ready, startedAt);
      case SequentialMode => ProcessGroupRead(gi, now, o);
    }

    method DispatchReady(ready: seq<nat>, k: nat, now: real, startedAt: real, outcomes: seq<Outcome>)
      requires Valid() && Wired(View()) && k <= |ready| && k <= |outcomes| && AllBelow(ready, |scrapeGroups|)
      modifies this`activeCycles, this`nextId, this`concurrentFutures, scrapeGroups
      ensures Valid() && View() == DispatchAll(old(View()), ready, k, now, startedAt, outcomes)
    {
      ghost var s := View();
      hide Views, Wired, Dispatch;
      for i := 0 to k
        invariant Valid() && View() == DispatchAll(s, ready, i, now, startedAt, outcomes)
      {
        DispatchGroup(ready, ready[i], now, startedAt, outcomes[i]);
      }
    }

    /** One pass of the main loop: poll, collect the ready groups, dispatch them; what this owes every
        group is spelled out by `IsTick`. */
    method RunTick(current: real, now: real, startedAt: real, outcomes: seq<Outcome>)
      requires Valid() && Inv(View()) && Schedulable(View())
      modifies this, scrapeGroups
      ensures Valid() && Inv(View())
      ensures View() == TickStep(old(View()), current, now, startedAt, outcomes)
      ensures IsTick(old(View()), View(), current, now, startedAt, outcomes)
    {
      ghost var s := View();
      TickKeepsInv(s, current, now, startedAt, outcomes);
      TickServes(s, current, now, startedAt, outcomes);
      hide IsTick, Views, Wired, Collected, DispatchAll, Inv, Schedulable, AllBelow;
      var ready := PollAndCollect(current, now);
      DispatchReady(ready, Min(|ready|, |outcomes|), now, startedAt, outcomes);
    }

    method PollAndCollect(current: real, now: real) returns (ready: seq<nat>)
      requires Valid() && Schedulable(View())
      modifies this, scrapeGroups
      ensures Valid() && (ready, View()) == Collected(old(View()), current, now)
    {
      ghost var s := View();
      PollKeepsWiring(s, current);
      PrimariesListed(s.board.groups, Poll(s, current).board.groups, s.lastRead.Keys);
      hide Views, Wired, Poll, ScanReady, SameShapes, ValidGroups;
      PollInterleavedCycles(current);
      ready := CollectReadyGroups(now);
    }
  }
}
