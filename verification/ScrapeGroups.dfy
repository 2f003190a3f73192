/** Scrape groups: the transports that share one physical device, the cadence each
    of them is served at, and the partition of a configuration into groups. */
module ScrapeGroups {

  /** A configured transport, reduced to what scheduling looks at.  `target` is the
      physical device it reads ("" for a bridge, which is never scheduled) and
      `cycleTimeout` the time one interleaved read of it may take. */
  datatype Transport = Transport(name: string, target: string, readInterval: real, cycleTimeout: real)

  /** The value of a scrape group.  `forwards[n]` holds every forward mark of member
      `n`, oldest first, beginning with the initial 0.0; the program keeps only the
      last one. */
  datatype Group = Group(primary: Transport, members: seq<Transport>, forwards: map<string, seq<real>>)

  /** What one physical read brings home: the members left with something to forward
      after filtering, and the members whose bridge raises when written to. */
  datatype Outcome = Outcome(nonEmpty: set<string>, failing: set<string>)

  function Names(ts: seq<Transport>): set<string> {
    set t | t in ts :: t.name
  }

  ghost predicate DistinctNames(ts: seq<Transport>) {
    forall i, j | 0 <= i < j < |ts| :: ts[i].name != ts[j].name
  }

  ghost predicate ValidGroup(g: Group) {
    && g.primary in g.members
    && DistinctNames(g.members)
    && g.forwards.Keys == Names(g.members)
    && forall n | n in g.forwards :: g.forwards[n] != []
  }

  /** A group's shape is what marking a member forwarded leaves alone. */
  ghost predicate SameShape(g: Group, h: Group) {
    g.primary == h.primary && g.members == h.members && g.forwards.Keys == h.forwards.Keys
  }

  function LastForward(g: Group, name: string): real
    requires name in g.forwards && g.forwards[name] != []
  {
    g.forwards[name][|g.forwards[name]| - 1]
  }

  predicate IsDue(g: Group, m: Transport, now: real)
    requires m.name in g.forwards && g.forwards[m.name] != []
  {
    m.readInterval > 0.0 && now - LastForward(g, m.name) >= m.readInterval
  }

  /** The members of `ts` that are due, in order. */
  function Due(g: Group, ts: seq<Transport>, now: real): (due: seq<Transport>)
    requires ValidGroup(g) && (forall t | t in ts :: t in g.members)
    ensures forall m :: m in due <==> m in ts && IsDue(g, m, now)
    ensures DistinctNames(ts) ==> DistinctNames(due)
  {
    if ts == [] then []
    else
      var init := ts[..|ts| - 1];
      var last := ts[|ts| - 1];
      assert ts == init + [last];
      assert DistinctNames(ts) ==> DistinctNames(init) && forall t | t in init :: t.name != last.name;
      if IsDue(g, last, now) then Due(g, init, now) + [last] else Due(g, init, now)
  }

  function MembersDue(g: Group, now: real): (due: seq<Transport>)
    requires ValidGroup(g)
    ensures Names(due) <= g.forwards.Keys
  {
    Due(g, g.members, now)
  }

  /** The smallest positive read interval among `ts`, 0.0 when there is none. */
  function FastestInterval(ts: seq<Transport>): (r: real)
    ensures r >= 0.0
    ensures forall t | t in ts && t.readInterval > 0.0 :: 0.0 < r <= t.readInterval
    ensures r > 0.0 ==> exists t :: t in ts && t.readInterval == r
  {
    if ts == [] then 0.0
    else
      var rest := FastestInterval(ts[..|ts| - 1]);
      var last := ts[|ts| - 1];
      assert ts == ts[..|ts| - 1] + [last];
      if last.readInterval > 0.0 && (rest <= 0.0 || last.readInterval < rest) then last.readInterval else rest
  }

  function Mark(g: Group, name: string, now: real): Group
    requires name in g.forwards
  {
    g.(forwards := g.forwards[name := g.forwards[name] + [now]])
  }

  /** Forward one read's data to the due members in order, stopping at the first
      bridge that raises. */
  function ForwardAll(g: Group, due: seq<Transport>, now: real, o: Outcome): (h: Group)
    requires Names(due) <= g.forwards.Keys
    ensures SameShape(g, h)
    ensures ValidGroup(g) ==> ValidGroup(h)
    decreases |due|
  {
    if due == [] then g
    else
      assert due[0].name in Names(due) && Names(due[1..]) <= Names(due);
      if due[0].name !in o.nonEmpty then ForwardAll(g, due[1..], now, o)
      else if due[0].name in o.failing then g
      else ForwardAll(Mark(g, due[0].name, now), due[1..], now, o)
  }

  /** `ForwardAll` adds at most one mark to each member of `due`, at `now`, and none elsewhere. */
  lemma {:induction false} ForwardAllMarks(g: Group, due: seq<Transport>, now: real, o: Outcome, n: string)
    requires Names(due) <= g.forwards.Keys && DistinctNames(due)
    requires n in g.forwards
    ensures var h := ForwardAll(g, due, now, o);
            || h.forwards[n] == g.forwards[n]
            || (n in Names(due) && h.forwards[n] == g.forwards[n] + [now])
    decreases |due|
  {
    if due != [] {
      var head, rest := due[0], due[1..];
      assert head.name !in Names(rest);
      assert Names(due) == {head.name} + Names(rest);
      if head.name !in o.nonEmpty {
        ForwardAllMarks(g, rest, now, o, n);
      } else if head.name !in o.failing {
        ForwardAllMarks(Mark(g, head.name, now), rest, now, o, n);
      }
    }
  }

  /** At an error-free read every due member with data is marked, exactly once. */
  lemma {:induction false} ForwardAllServes(g: Group, due: seq<Transport>, now: real, o: Outcome, n: string)
    requires Names(due) <= g.forwards.Keys && DistinctNames(due)
    requires o.failing !! Names(due) && n in Names(due) && n in o.nonEmpty
    ensures ForwardAll(g, due, now, o).forwards[n] == g.forwards[n] + [now]
    decreases |due|
  {
    var head, rest := due[0], due[1..];
    assert Names(due) == {head.name} + Names(rest);
    if head.name == n {
      assert n !in Names(rest);
      ForwardAllMarks(Mark(g, n, now), rest, now, o, n);
    } else if head.name !in o.nonEmpty {
      ForwardAllServes(g, rest, now, o, n);
    } else {
      ForwardAllServes(Mark(g, head.name, now), rest, now, o, n);
    }
  }

  /** Names of due members at two clock readings are nested, whichever reading is later. */
  lemma DueNested(g: Group, a: real, b: real)
    requires ValidGroup(g) && a <= b
    ensures Names(MembersDue(g, a)) <= Names(MembersDue(g, b))
  {
    forall n | n in Names(MembersDue(g, a)) ensures n in Names(MembersDue(g, b)) {
      var m :| m in MembersDue(g, a) && m.name == n;
      assert IsDue(g, m, b);
      assert m in MembersDue(g, b);
    }
  }

  /** Two non-empty due sets of one group, at any two clock readings, share a member. */
  lemma DueSetsOverlap(g: Group, a: real, b: real)
    requires ValidGroup(g)
    requires MembersDue(g, a) != [] && MembersDue(g, b) != []
    ensures Names(MembersDue(g, a)) * Names(MembersDue(g, b)) != {}
  {
    if a <= b { DueNested(g, a, b); } else { DueNested(g, b, a); }
    var earlier := MembersDue(g, if a <= b then a else b);
    assert earlier[0].name in Names(MembersDue(g, a)) * Names(MembersDue(g, b)) by {
      assert earlier[0].name in Names(earlier);
    }
  }

  // ------------------------------------------------------------------
  // Spacing of the forward marks
  // ------------------------------------------------------------------

  ghost predicate SpacedBy(marks: seq<real>, interval: real) {
    forall i | 0 <= i < |marks| - 1 :: marks[i + 1] - marks[i] >= interval
  }

  /** Every member's consecutive forward marks are at least its read interval apart. */
  ghost predicate KeepsCadence(g: Group) {
    && ValidGroup(g)
    && forall m | m in g.members :: SpacedBy(g.forwards[m.name], m.readInterval)
  }

  lemma SpacedAppend(marks: seq<real>, now: real, interval: real)
    requires SpacedBy(marks, interval) && marks != [] && now - marks[|marks| - 1] >= interval
    ensures SpacedBy(marks + [now], interval)
  {
  }

  lemma MarkDueKeepsCadence(g: Group, m: Transport, now: real)
    requires KeepsCadence(g) && m in g.members && IsDue(g, m, now)
    ensures KeepsCadence(Mark(g, m.name, now)) && SameShape(g, Mark(g, m.name, now))
  {
    var h := Mark(g, m.name, now);
    assert h.forwards.Keys == g.forwards.Keys;
    SpacedAppend(g.forwards[m.name], now, m.readInterval);
    forall t | t in h.members ensures SpacedBy(h.forwards[t.name], t.readInterval) {
      if t.name == m.name {
        SameNameSameTransport(g.members, t, m);
      }
    }
  }

  lemma ForwardDueKeepsCadence(g: Group, now: real, o: Outcome)
    requires KeepsCadence(g)
    ensures Names(MembersDue(g, now)) <= g.forwards.Keys
    ensures KeepsCadence(ForwardAll(g, MembersDue(g, now), now, o))
  {
    var due := MembersDue(g, now);
    DueMembersNames(g, due, now);
    ForwardSomeDueKeepsCadence(g, due, now, o);
  }

  /** The members of `due` are due members of `g`, each listed once. */
  ghost predicate DueMembers(g: Group, due: seq<Transport>, now: real) {
    && ValidGroup(g) && DistinctNames(due)
    && (forall m | m in due :: m in g.members && m.name in g.forwards && IsDue(g, m, now))
  }

  lemma DueMembersTail(g: Group, due: seq<Transport>, now: real)
    requires DueMembers(g, due, now) && due != []
    ensures DueMembers(g, due[1..], now) && due[0] in g.members && due[0].name in g.forwards && IsDue(g, due[0], now)
  {
    assert due[0] in due && forall m | m in due[1..] :: m in due;
  }

  lemma DueMembersAfterMark(g: Group, due: seq<Transport>, now: real)
    requires KeepsCadence(g) && DueMembers(g, due, now) && due != []
    ensures due[0].name in g.forwards
    ensures KeepsCadence(Mark(g, due[0].name, now)) && DueMembers(Mark(g, due[0].name, now), due[1..], now)
  {
    DueMembersTail(g, due, now);
    MarkDueKeepsCadence(g, due[0], now);
    forall m | m in due[1..] ensures m.name != due[0].name {
    }
  }

  lemma DueMembersNames(g: Group, due: seq<Transport>, now: real)
    requires DueMembers(g, due, now)
    ensures Names(due) <= g.forwards.Keys
  {
  }

  lemma {:induction false} ForwardSomeDueKeepsCadence(g: Group, due: seq<Transport>, now: real, o: Outcome)
    requires KeepsCadence(g) && DueMembers(g, due, now) && Names(due) <= g.forwards.Keys
    ensures KeepsCadence(ForwardAll(g, due, now, o))
    decreases |due|
  {
    if due != [] {
      DueMembersTail(g, due, now);
      if due[0].name !in o.nonEmpty {
        DueMembersNames(g, due[1..], now);
        ForwardSomeDueKeepsCadence(g, due[1..], now, o);
      } else if due[0].name !in o.failing {
        var h := Mark(g, due[0].name, now);
        DueMembersAfterMark(g, due, now);
        DueMembersNames(h, due[1..], now);
        ForwardSomeDueKeepsCadence(h, due[1..], now, o);
      }
    }
  }

  /** What the cadence means over time: `n` forwards after the first mark take `n` intervals. */
  lemma {:induction false} MarksTakeTime(marks: seq<real>, interval: real, i: nat, j: nat)
    requires SpacedBy(marks, interval) && i <= j < |marks|
    ensures marks[j] - marks[i] >= (j - i) as real * interval
    decreases j - i
  {
    if i < j {
      MarksTakeTime(marks, interval, i, j - 1);
      assert (j - i) as real * interval == (j - 1 - i) as real * interval + interval;
    }
  }

  // ------------------------------------------------------------------
  // Building groups
  // ------------------------------------------------------------------

  function NewGroup(t: Transport): Group {
    Group(t, [t], map[t.name := [0.0]])
  }

  function AddMember(g: Group, t: Transport): Group {
    Group(
      if t.readInterval > 0.0 && (g.primary.readInterval <= 0.0 || t.readInterval < g.primary.readInterval) then t else g.primary,
      g.members + [t],
      g.forwards[t.name := [0.0]])
  }

  function GroupOf(ts: seq<Transport>): Group
    requires ts != []
  {
    if |ts| == 1 then NewGroup(ts[0]) else AddMember(GroupOf(ts[..|ts| - 1]), ts[|ts| - 1])
  }

  /** `m` is the earliest of the fastest members of `ts`; with no positive interval it is the first. */
  ghost predicate EarliestFastest(ts: seq<Transport>, m: Transport)
    requires ts != []
  {
    if FastestInterval(ts) > 0.0 then
      exists i :: IsEarliestFastest(ts, m, i)
    else
      m == ts[0]
  }

  ghost predicate IsEarliestFastest(ts: seq<Transport>, m: Transport, i: int) {
    && 0 <= i < |ts| && ts[i] == m && m.readInterval == FastestInterval(ts)
    && forall j | 0 <= j < i :: ts[j].readInterval != FastestInterval(ts)
  }

  /** After any sequence of additions the primary is the earliest of the fastest members,
      so its interval is the scrape interval. */
  lemma {:induction false} PrimaryIsFastest(ts: seq<Transport>)
    requires ts != []
    ensures EarliestFastest(ts, GroupOf(ts).primary)
  {
    var g := GroupOf(ts);
    var init, last := ts[..|ts| - 1], ts[|ts| - 1];
    assert ts == init + [last];
    if |ts| == 1 {
      assert FastestInterval(init) == 0.0;
      assert last.readInterval > 0.0 ==> IsEarliestFastest(ts, last, 0);
    } else {
      PrimaryIsFastest(init);
      var fastest := FastestInterval(init);
      if fastest > 0.0 && !(0.0 < last.readInterval < fastest) {
        var i :| IsEarliestFastest(init, GroupOf(init).primary, i);
        assert IsEarliestFastest(ts, g.primary, i);
      } else if last.readInterval > 0.0 {
        assert forall j | 0 <= j < |init| :: ts[j] in init;
        assert IsEarliestFastest(ts, last, |init|);
      }
    }
  }

  /** A freshly built group holds the given members and has forwarded nothing yet. */
  lemma {:induction false} GroupOfShape(ts: seq<Transport>)
    requires ts != [] && DistinctNames(ts)
    ensures var g := GroupOf(ts);
            g.members == ts && KeepsCadence(g) && forall n | n in g.forwards :: g.forwards[n] == [0.0]
  {
    GroupOfMembers(ts);
    PrimaryIsFastest(ts);
    assert GroupOf(ts).primary in ts;
  }

  lemma {:induction false} GroupOfMembers(ts: seq<Transport>)
    requires ts != []
    ensures var g := GroupOf(ts);
            g.members == ts && g.forwards.Keys == Names(ts) && forall n | n in g.forwards :: g.forwards[n] == [0.0]
  {
    var init, last := ts[..|ts| - 1], ts[|ts| - 1];
    assert ts == init + [last];
    NamesAppend(init, last);
    if |ts| > 1 {
      GroupOfMembers(init);
    } else {
      assert ts == [ts[0]] && init == [];
    }
  }

  lemma NamesAppend(ts: seq<Transport>, t: Transport)
    ensures Names(ts + [t]) == Names(ts) + {t.name}
  {
    forall n | n in Names(ts) + {t.name} ensures n in Names(ts + [t]) {
      if n in Names(ts) {
        var m :| m in ts && m.name == n;
        assert m in ts + [t];
      } else {
        assert t in ts + [t];
      }
    }
  }

  /** The transports of `ts` that read device `target`, in configuration order. */
  function OnTarget(ts: seq<Transport>, target: string): (r: seq<Transport>)
    ensures forall t :: t in r <==> t in ts && t.target == target
    ensures DistinctNames(ts) ==> DistinctNames(r)
  {
    if ts == [] then []
    else
      var init, last := ts[..|ts| - 1], ts[|ts| - 1];
      OnTargetGrows(init, last, OnTarget(init, target), target);
      assert ts == init + [last];
      if last.target == target then OnTarget(init, target) + [last] else OnTarget(init, target)
  }

  /** Selecting keeps names distinct, one transport at a time. */
  lemma OnTargetGrows(init: seq<Transport>, last: Transport, r: seq<Transport>, target: string)
    requires forall t :: t in r <==> t in init && t.target == target
    requires DistinctNames(init) ==> DistinctNames(r)
    ensures DistinctNames(init + [last]) ==> DistinctNames(init) && DistinctNames(r + [last])
    ensures forall t :: t in r + [last] <==> t in r || t == last
    ensures forall t :: t in init + [last] <==> t in init || t == last
  {
    if DistinctNames(init + [last]) {
      var all := init + [last];
      forall i, j | 0 <= i < j < |init| ensures init[i].name != init[j].name {
        assert all[i].name != all[j].name;
      }
      forall i | 0 <= i < |r| ensures r[i].name != last.name {
        assert r[i] in r;
        var k :| 0 <= k < |init| && init[k] == r[i];
        assert all[k].name != all[|init|].name;
      }
    }
  }

  /** The devices of `ts` in order of first appearance. */
  function Targets(ts: seq<Transport>): (r: seq<string>)
    ensures forall x :: x in r <==> x != "" && exists t :: t in ts && t.target == x
    ensures forall i, j | 0 <= i < j < |r| :: r[i] != r[j]
  {
    if ts == [] then []
    else
      var init, last := ts[..|ts| - 1], ts[|ts| - 1];
      assert ts == init + [last];
      var r := Targets(init);
      if last.target == "" || last.target in r then r else r + [last.target]
  }

  /** The groups of a configuration: one per device, holding exactly that device's transports. */
  function GroupsOf(ts: seq<Transport>): (groups: seq<Group>)
    ensures |groups| == |Targets(ts)|
  {
    seq(|Targets(ts)|, i requires 0 <= i < |Targets(ts)| => GroupOf(OnTarget(ts, TargetAt(ts, i))))
  }

  function TargetAt(ts: seq<Transport>, i: nat): (target: string)
    requires i < |Targets(ts)|
    ensures target != "" && OnTarget(ts, target) != []
  {
    assert Targets(ts)[i] in Targets(ts);
    Targets(ts)[i]
  }

  /** Members of different groups have different names. */
  ghost predicate DisjointGroups(groups: seq<Group>) {
    forall i, j | 0 <= i < j < |groups| :: Names(groups[i].members) !! Names(groups[j].members)
  }

  /** Each group holds exactly the transports of its device, ready to be scheduled. */
  lemma GroupHoldsItsDevice(ts: seq<Transport>, i: nat)
    requires DistinctNames(ts) && i < |Targets(ts)|
    ensures GroupsOf(ts)[i].members == OnTarget(ts, TargetAt(ts, i)) && KeepsCadence(GroupsOf(ts)[i])
  {
    GroupOfShape(OnTarget(ts, TargetAt(ts, i)));
  }

  /** The groups partition the scrapers by device: no name is in two groups, every scraper is in
      one, a bridge is in none, all members of a group are on its device, and no two groups
      are on the same one. */
  lemma GroupsPartition(ts: seq<Transport>)
    requires DistinctNames(ts)
    ensures DisjointGroups(GroupsOf(ts))
    ensures forall i, t | 0 <= i < |GroupsOf(ts)| && t in GroupsOf(ts)[i].members ::
              t.target == GroupsOf(ts)[i].primary.target
    ensures forall i, j | 0 <= i < j < |GroupsOf(ts)| ::
              GroupsOf(ts)[i].primary.target != GroupsOf(ts)[j].primary.target
    ensures forall t | t in ts ::
              t.target != "" <==> exists i :: 0 <= i < |GroupsOf(ts)| && t in GroupsOf(ts)[i].members
  {
    var groups := GroupsOf(ts);
    forall i | 0 <= i < |groups|
      ensures groups[i].members == OnTarget(ts, TargetAt(ts, i)) && groups[i].primary.target == TargetAt(ts, i)
    {
      GroupHoldsItsDevice(ts, i);
      GroupIsOnItsDevice(ts, i);
    }
    forall i, j | 0 <= i < j < |groups| ensures Names(groups[i].members) !! Names(groups[j].members) {
      GroupHoldsItsDevice(ts, i);
      GroupHoldsItsDevice(ts, j);
      OnTargetsDisjoint(ts, TargetAt(ts, i), TargetAt(ts, j));
    }
    forall t | t in ts ensures t.target != "" <==> exists i :: 0 <= i < |groups| && t in groups[i].members {
      GroupOfScraper(ts, t);
    }
  }

  lemma GroupIsOnItsDevice(ts: seq<Transport>, i: nat)
    requires DistinctNames(ts) && i < |Targets(ts)|
    ensures GroupsOf(ts)[i].primary.target == TargetAt(ts, i)
  {
    GroupOfShape(OnTarget(ts, TargetAt(ts, i)));
    assert GroupsOf(ts)[i].primary in OnTarget(ts, TargetAt(ts, i));
  }

  lemma GroupOfScraper(ts: seq<Transport>, t: Transport)
    requires DistinctNames(ts) && t in ts
    ensures t.target != "" <==> exists i :: 0 <= i < |GroupsOf(ts)| && t in GroupsOf(ts)[i].members
  {
    if t.target != "" {
      assert t.target in Targets(ts);
      var i :| 0 <= i < |Targets(ts)| && Targets(ts)[i] == t.target;
      assert TargetAt(ts, i) == t.target;
      GroupHoldsItsDevice(ts, i);
    } else {
      forall i | 0 <= i < |GroupsOf(ts)| ensures t !in GroupsOf(ts)[i].members {
        GroupHoldsItsDevice(ts, i);
      }
    }
  }

  lemma OnTargetsDisjoint(ts: seq<Transport>, x: string, y: string)
    requires DistinctNames(ts) && x != y
    ensures Names(OnTarget(ts, x)) !! Names(OnTarget(ts, y))
  {
    forall a, b | a in OnTarget(ts, x) && b in OnTarget(ts, y) ensures a.name != b.name {
      if a.name == b.name { SameNameSameTransport(ts, a, b); }
    }
  }

  lemma SameNameSameTransport(ts: seq<Transport>, a: Transport, b: Transport)
    requires DistinctNames(ts) && a in ts && b in ts && a.name == b.name
    ensures a == b
  {
    var i :| 0 <= i < |ts| && ts[i] == a;
    var j :| 0 <= j < |ts| && ts[j] == b;
  }
}
