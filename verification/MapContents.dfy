/** What a loaded map holds: an entry for every row whose register is known, a deferred row for every other,
    and a description for every entry with a code table. */
module MapContents {
  import opened Options
  import opened Decimals
  import opened DynamicMaps
  import opened DynamicMapsTheorems
  import R = RegisterMap
  import B = Batching
  import BT = BatchingTheorems
  import P = PollSchedule

  // ------------------------------------------------------------------
  // Where a row is
  // ------------------------------------------------------------------

  /** The value of a name, if it is known to be a number. */
  function NumberOf(anchors: Anchors, name: string): Option<int> {
    if name in anchors && anchors[name].Number? then Some(anchors[name].n) else None
  }

  function Plus(n: Option<int>, offset: Option<int>): Option<int> {
    if n.None? then None else if offset.None? then n else Some(n.value + offset.value)
  }

  /** The register of instance `j` of a row: what its cell says, or what its anchor says and the offset. */
  function RegisterOf(row: Row, j: nat, anchors: Anchors): Option<int>
    requires row.Row?
  {
    match row.cell
    case Literal(address) => Some(address)
    case Named(name, offset) => Plus(NumberOf(anchors, name), offset)
    case PerInstance(stem, part, offset) => Plus(NumberOf(anchors, stem + "_" + Decimal(j) + "_" + part), offset)
  }

  /** A row without instance token stands for itself; one with a token in its register stands for each of
      the instances counted. */
  ghost predicate Stands(row: Row, j: nat, anchors: Anchors) {
    && row.Row?
    && if j == 0 then !row.name.token && !row.documented.token && !row.cell.PerInstance?
       else
         && row.cell.PerInstance?
         && exists n :: NumberOf(anchors, row.cell.stem + "_count") == Some(n) && j <= n
  }

  lemma StandsIsLine(rows: seq<Row>, q: nat, j: nat, anchors: Anchors)
    requires q < |rows|
    ensures Stands(rows[q], j, anchors) <==> IsLine(rows, q, j, anchors)
  {
    if rows[q].Row? && rows[q].cell.PerInstance? {
      var count := NumberOf(anchors, rows[q].cell.stem + "_count");
      assert CountName(rows[q].cell.stem) == rows[q].cell.stem + "_count";
      assert j > 0 ==> ((exists n :: count == Some(n) && j <= n) <==> count.Some? && j <= count.value);
    }
  }

  lemma RegisterIsPlace(row: Row, j: nat, anchors: Anchors)
    requires row.Row?
    ensures PlaceOf(row, j, anchors).Address? <==> RegisterOf(row, j, anchors).Some?
    ensures PlaceOf(row, j, anchors).Address? ==> RegisterOf(row, j, anchors) == Some(PlaceOf(row, j, anchors).a)
  {
  }

  /** The entry of instance `j` of row `q`. */
  ghost predicate IsEntryOf(rows: seq<Row>, anchors: Anchors, e: Entry, q: nat, j: nat) {
    && q < |rows| && Stands(rows[q], j, anchors)
    && RegisterOf(rows[q], j, anchors) == Some(e.register)
    && e.name == Naming(rows[q].name, j) && e.documented == Naming(rows[q].documented, j)
    && e.shape == rows[q].shape && !e.describes
    && (e.dynamic <==> rows[q].name.token || rows[q].documented.token || !rows[q].cell.Literal?)
  }

  function Naming(c: NameCell, j: nat): string {
    if c.token then c.before + Decimal(j) + c.after else c.before
  }

  lemma EntryOfLine(rows: seq<Row>, anchors: Anchors, q: nat, j: nat)
    requires q < |rows| && rows[q].Row?
    ensures var line := LineAt(rows[q], j, anchors);
            && (line.place.Address? <==> RegisterOf(rows[q], j, anchors).Some?)
            && (line.place.Address? && IsLine(rows, q, j, anchors) ==> IsEntryOf(rows, anchors, EntryOf(line), q, j))
            && forall e | IsEntryOf(rows, anchors, e, q, j) :: line.place.Address? && e == EntryOf(line)
  {
    RegisterIsPlace(rows[q], j, anchors);
    StandsIsLine(rows, q, j, anchors);
    hide RegisterOf, PlaceOf, Stands, IsLine;
  }

  /** A map, before masks, holds exactly the entries of the rows whose registers are known. */
  lemma EntriesAreOfRows(rows: seq<Row>, anchors: Anchors, e: Entry)
    ensures e in EntriesOf(LinesOf(rows, anchors)) <==> exists q, j :: IsEntryOf(rows, anchors, e, q, j)
  {
    hide LinesOf, EntriesOf, IsLine, LineAt, IsEntryOf;
    if e in EntriesOf(LinesOf(rows, anchors)) {
      var line := LineOfEntry(LinesOf(rows, anchors), e);
      var q, j := LineHasRow(rows, anchors, line);
      LineIsOfRow(rows, q, j, anchors);
      EntryOfLine(rows, anchors, q, j);
      assert IsEntryOf(rows, anchors, e, q, j);
    }
    if q: nat, j: nat :| IsEntryOf(rows, anchors, e, q, j) {
      EntryIsOfLine(rows, anchors, e, q, j);
      EntryOfLine(rows, anchors, q, j);
      RowHasLine(rows, anchors, q, j);
      EntryOfLineIsThere(LinesOf(rows, anchors), LineAt(rows[q], j, anchors));
    }
  }

  lemma LineIsOfRow(rows: seq<Row>, q: nat, j: nat, anchors: Anchors)
    requires IsLine(rows, q, j, anchors)
    ensures q < |rows| && rows[q].Row?
  {
  }

  lemma EntryIsOfLine(rows: seq<Row>, anchors: Anchors, e: Entry, q: nat, j: nat)
    requires IsEntryOf(rows, anchors, e, q, j)
    ensures q < |rows| && rows[q].Row? && IsLine(rows, q, j, anchors)
  {
    StandsIsLine(rows, q, j, anchors);
  }

  lemma {:induction false} LineOfEntry(lines: seq<Line>, e: Entry) returns (line: Line)
    requires e in EntriesOf(lines)
    ensures line in lines && line.place.Address? && e == EntryOf(line)
  {
    var n := |lines| - 1;
    if e in EntriesOf(lines[..n]) {
      line := LineOfEntry(lines[..n], e);
    } else {
      line := lines[n];
    }
  }

  lemma {:induction false} EntryOfLineIsThere(lines: seq<Line>, line: Line)
    requires line in lines && line.place.Address?
    ensures EntryOf(line) in EntriesOf(lines)
  {
    var n := |lines| - 1;
    if line in lines[..n] {
      EntryOfLineIsThere(lines[..n], line);
    }
  }

  // ------------------------------------------------------------------
  // Their order
  // ------------------------------------------------------------------

  /** A row and one of its instances. */
  datatype Spot = Spot(row: nat, instance: nat)

  predicate Earlier(a: Spot, b: Spot) { a.row < b.row || (a.row == b.row && a.instance < b.instance) }

  /** The spots stand in reading order, and entry `i` is the one of spot `i`. */
  ghost predicate InOrder(rows: seq<Row>, anchors: Anchors, entries: seq<Entry>, spots: seq<Spot>) {
    && |spots| == |entries|
    && (forall i, k | 0 <= i < k < |spots| :: Earlier(spots[i], spots[k]))
    && (forall i | 0 <= i < |spots| :: IsEntryOf(rows, anchors, entries[i], spots[i].row, spots[i].instance))
  }

  /** The entries stand in the order of the rows, and of their instances. */
  lemma {:induction false} EntriesAreInOrder(rows: seq<Row>, anchors: Anchors) returns (spots: seq<Spot>)
    ensures InOrder(rows, anchors, EntriesOf(LinesOf(rows, anchors)), spots)
    ensures forall i | 0 <= i < |spots| :: spots[i].row < |rows|
  {
    spots := [];
    if rows != [] {
      var n := |rows| - 1;
      var before := EntriesAreInOrder(rows[..n], anchors);
      var more := RowInOrder(rows, anchors, |Expand(rows[n], anchors)|);
      var lines := Expand(rows[n], anchors);
      assert lines[..|lines|] == lines;
      ConcatEntries(LinesOf(rows[..n], anchors), lines);
      hide InOrder, EntriesOf, Expand;
      spots := before + more;
      JoinInOrder(rows, anchors, EntriesOf(LinesOf(rows[..n], anchors)), before, EntriesOf(lines), more);
    } else {
      assert EntriesOf(LinesOf(rows, anchors)) == [];
    }
  }

  lemma JoinInOrder(rows: seq<Row>, anchors: Anchors, a: seq<Entry>, before: seq<Spot>, b: seq<Entry>, more: seq<Spot>)
    requires rows != [] && InOrder(rows[..|rows| - 1], anchors, a, before) && InOrder(rows, anchors, b, more)
    requires forall i | 0 <= i < |before| :: before[i].row < |rows| - 1
    requires forall i | 0 <= i < |more| :: more[i].row == |rows| - 1
    ensures InOrder(rows, anchors, a + b, before + more)
  {
    hide IsEntryOf;
    var spots, all := before + more, a + b;
    forall i | 0 <= i < |spots| ensures IsEntryOf(rows, anchors, all[i], spots[i].row, spots[i].instance) {
      if i < |before| {
        SameEntryOf(rows, anchors, all[i], spots[i].row, spots[i].instance);
      }
    }
  }

  lemma SameEntryOf(rows: seq<Row>, anchors: Anchors, e: Entry, q: nat, j: nat)
    requires rows != [] && IsEntryOf(rows[..|rows| - 1], anchors, e, q, j)
    ensures IsEntryOf(rows, anchors, e, q, j)
  {
    hide Stands, RegisterOf;
  }

  /** The first `k` lines of the last row. */
  lemma {:induction false} RowInOrder(rows: seq<Row>, anchors: Anchors, k: nat) returns (spots: seq<Spot>)
    requires rows != [] && k <= |Expand(rows[|rows| - 1], anchors)|
    ensures InOrder(rows, anchors, EntriesOf(Expand(rows[|rows| - 1], anchors)[..k]), spots)
    ensures forall i | 0 <= i < |spots| :: spots[i].row == |rows| - 1 && spots[i].instance <= k
    ensures k == 0 ==> spots == []
  {
    var n := |rows| - 1;
    var lines := Expand(rows[n], anchors);
    spots := [];
    if k > 0 {
      spots := RowInOrder(rows, anchors, k - 1);
      var j := LineOfRow(rows, anchors, k);
      EntryOfLine(rows, anchors, n, j);
      EntriesOneMore(lines, k);
      hide *;
      if lines[k - 1].place.Address? {
        SpotAdded(rows, anchors, EntriesOf(lines[..k - 1]), spots, EntryOf(lines[k - 1]), j);
        spots := spots + [Spot(n, j)];
      }
    }
  }

  lemma LineOfRow(rows: seq<Row>, anchors: Anchors, k: nat) returns (j: nat)
    requires rows != [] && 0 < k <= |Expand(rows[|rows| - 1], anchors)|
    ensures var n := |rows| - 1;
            rows[n].Row? && IsLine(rows, n, j, anchors) && Expand(rows[n], anchors)[k - 1] == LineAt(rows[n], j, anchors)
    ensures j <= k && (j == k || k == 1)
  {
    hide LineAt;
    j := if IsPlain(rows[|rows| - 1]) then 0 else k;
  }

  lemma EntriesOneMore(lines: seq<Line>, k: nat)
    requires 0 < k <= |lines|
    ensures EntriesOf(lines[..k]) == EntriesOf(lines[..k - 1]) + if lines[k - 1].place.Address? then [EntryOf(lines[k - 1])] else []
  {
    assert lines[..k][..k - 1] == lines[..k - 1];
  }

  lemma SpotAdded(rows: seq<Row>, anchors: Anchors, entries: seq<Entry>, spots: seq<Spot>, e: Entry, j: nat)
    requires rows != [] && InOrder(rows, anchors, entries, spots) && IsEntryOf(rows, anchors, e, |rows| - 1, j)
    requires forall i | 0 <= i < |spots| :: spots[i].row == |rows| - 1 && spots[i].instance < j
    ensures InOrder(rows, anchors, entries + [e], spots + [Spot(|rows| - 1, j)])
  {
    hide IsEntryOf;
  }

  // ------------------------------------------------------------------
  // Deferred rows
  // ------------------------------------------------------------------

  /** A row waits: the name in its cell is not known, or is text where a number is to be added to. */
  predicate Waits(row: Row, j: nat, anchors: Anchors)
    requires row.Row?
  {
    match row.cell
    case Literal(_) => false
    case Named(name, offset) => name !in anchors || (anchors[name].Word? && offset.Some?)
    case PerInstance(stem, part, offset) =>
      var name := stem + "_" + Decimal(j) + "_" + part;
      name !in anchors || (anchors[name].Word? && offset.Some?)
  }

  /** The line of instance `j` of row `q` waits for its anchor. */
  ghost predicate IsDeferred(rows: seq<Row>, anchors: Anchors, line: Line, q: nat, j: nat) {
    && q < |rows| && Stands(rows[q], j, anchors) && Waits(rows[q], j, anchors)
    && line == Line(Naming(rows[q].name, j), Naming(rows[q].documented, j), rows[q].table, Unresolved, false, rows[q].shape)
  }

  /** The deferred rows are exactly those that wait. */
  lemma DeferredAreWaiting(rows: seq<Row>, anchors: Anchors, line: Line)
    ensures line in Parked(LinesOf(rows, anchors)) <==> exists q, j :: IsDeferred(rows, anchors, line, q, j)
  {
    hide LinesOf, Parked, IsLine, LineAt, IsDeferred;
    ParkedExactly(LinesOf(rows, anchors), line);
    if line in Parked(LinesOf(rows, anchors)) {
      var q, j := LineHasRow(rows, anchors, line);
      LineIsOfRow(rows, q, j, anchors);
      WaitingLine(rows, anchors, q, j);
      assert IsDeferred(rows, anchors, line, q, j);
    }
    if q: nat, j: nat :| IsDeferred(rows, anchors, line, q, j) {
      DeferredIsLine(rows, anchors, line, q, j);
      WaitingLine(rows, anchors, q, j);
      RowHasLine(rows, anchors, q, j);
    }
  }

  lemma DeferredIsLine(rows: seq<Row>, anchors: Anchors, line: Line, q: nat, j: nat)
    requires IsDeferred(rows, anchors, line, q, j)
    ensures q < |rows| && rows[q].Row? && IsLine(rows, q, j, anchors)
  {
    StandsIsLine(rows, q, j, anchors);
  }

  lemma WaitingLine(rows: seq<Row>, anchors: Anchors, q: nat, j: nat)
    requires q < |rows| && rows[q].Row? && IsLine(rows, q, j, anchors)
    ensures var line := LineAt(rows[q], j, anchors);
            && (line.place.Unresolved? ==> IsDeferred(rows, anchors, line, q, j))
            && forall other | IsDeferred(rows, anchors, other, q, j) :: line.place.Unresolved? && other == line
  {
    StandsIsLine(rows, q, j, anchors);
  }

  lemma {:induction false} ParkedExactly(lines: seq<Line>, line: Line)
    ensures line in Parked(lines) <==> line in lines && line.place.Unresolved?
  {
    if lines != [] {
      ParkedExactly(lines[..|lines| - 1], line);
      assert lines == lines[..|lines| - 1] + [lines[|lines| - 1]];
    }
  }

  // ------------------------------------------------------------------
  // Descriptions
  // ------------------------------------------------------------------

  /** The entry has a code table with something in it, under either of its names. */
  predicate IsCoded(codes: Codes, e: Entry) {
    || (e.documented in codes && codes[e.documented] != map[])
    || (e.name in codes && codes[e.name] != map[])
  }

  /** The entry may get a description: it is coded, describes nothing itself, and the name is free. */
  ghost predicate MayBeDescribed(entries: seq<Entry>, codes: Codes, screened: string -> bool, e: Entry) {
    && e in entries && !e.describes && IsCoded(codes, e) && !screened(e.name + "_desc")
    && forall other | other in entries :: other.name != e.name + "_desc"
  }

  /** `d` describes `e`: it is called after it, stands at its register, and is never read. */
  predicate Describes(d: Entry, e: Entry) {
    && d.name == e.name + "_desc" && d.documented == e.documented + "_desc" && d.register == e.register
    && d.describes && !d.dynamic && d.shape.writeMode.ReadDisabled? && d.shape.readInterval == e.shape.readInterval
    && d.shape.field.dataType.String? && d.shape.field.registerList == [] && !d.shape.field.concatenate
  }

  lemma DescriptionDescribes(e: Entry)
    ensures Describes(DescriptionOf(e), e)
  {
  }

  /** No name is described twice. */
  ghost predicate NamesDiffer(entries: seq<Entry>) {
    forall i, k | 0 <= i < k < |entries| :: entries[i].name != entries[k].name
  }

  /** Each description is of an entry that may have one; each such entry's name has its description; and no
      name has two. */
  ghost predicate AreDescribed(entries: seq<Entry>, k: nat, codes: Codes, screened: string -> bool, more: seq<Entry>)
    requires k <= |entries|
  {
    && NamesDiffer(more)
    && (forall d | d in more :: IsDescription(entries, codes, screened, d))
    && (forall i | 0 <= i < k && MayBeDescribed(entries, codes, screened, entries[i]) :: Uses(more, entries[i].name + "_desc"))
  }

  ghost predicate IsDescription(entries: seq<Entry>, codes: Codes, screened: string -> bool, d: Entry) {
    exists e :: MayBeDescribed(entries, codes, screened, e) && Describes(d, e)
  }

  lemma {:induction false} DescriptionsExactly(entries: seq<Entry>, k: nat, codes: Codes, screened: string -> bool)
    requires k <= |entries|
    ensures AreDescribed(entries, k, codes, screened, Descriptions(entries, k, codes, screened))
  {
    if k > 0 {
      hide AreDescribed;
      DescriptionsExactly(entries, k - 1, codes, screened);
      DescribedOneMore(entries, k, codes, screened, Descriptions(entries, k - 1, codes, screened));
    }
  }

  lemma DescribedOneMore(entries: seq<Entry>, k: nat, codes: Codes, screened: string -> bool, before: seq<Entry>)
    requires 0 < k <= |entries| && AreDescribed(entries, k - 1, codes, screened, before)
    ensures var e := entries[k - 1];
            AreDescribed(entries, k, codes, screened,
                         if e.describes || !HasTable(codes, e) || Uses(entries, DescName(e.name)) || Uses(before, DescName(e.name))
                            || screened(DescName(e.name)) then before
                         else before + [DescriptionOf(e)])
  {
    var e := entries[k - 1];
    assert HasTable(codes, e) <==> IsCoded(codes, e);
    FreeName(entries, DescName(e.name));
    hide IsCoded, HasTable;
    DescriptionDescribes(e);
    hide DescriptionOf;
    if !e.describes && HasTable(codes, e) && !Uses(entries, DescName(e.name)) && !Uses(before, DescName(e.name))
       && !screened(DescName(e.name)) {
      assert MayBeDescribed(entries, codes, screened, e);
      AddDescription(entries, k, codes, screened, before, DescriptionOf(e));
    }
  }

  lemma FreeName(entries: seq<Entry>, name: string)
    ensures Uses(entries, name) <==> exists other :: other in entries && other.name == name
  {
    if Uses(entries, name) {
      var i :| 0 <= i < |entries| && entries[i].name == name;
      assert entries[i] in entries;
    }
  }

  lemma AddDescription(entries: seq<Entry>, k: nat, codes: Codes, screened: string -> bool, before: seq<Entry>, d: Entry)
    requires 0 < k <= |entries| && AreDescribed(entries, k - 1, codes, screened, before)
    requires MayBeDescribed(entries, codes, screened, entries[k - 1]) && Describes(d, entries[k - 1]) && !Uses(before, d.name)
    ensures AreDescribed(entries, k, codes, screened, before + [d])
  {
    hide MayBeDescribed, Describes;
    var more := before + [d];
    assert d.name == entries[k - 1].name + "_desc" by {
      DescribesByName(d, entries[k - 1]);
    }
    forall i | 0 <= i < k && MayBeDescribed(entries, codes, screened, entries[i]) ensures Uses(more, entries[i].name + "_desc") {
      if i < k - 1 {
        var n :| 0 <= n < |before| && before[n].name == entries[i].name + "_desc";
        assert more[n] == before[n];
      } else {
        assert more[|before|] == d;
      }
    }
  }

  lemma DescribesByName(d: Entry, e: Entry)
    requires Describes(d, e)
    ensures d.name == e.name + "_desc"
  {
  }

  // ------------------------------------------------------------------
  // Anchors
  // ------------------------------------------------------------------

  /** After a discovery an anchor is what was discovered; a default stays where nothing was and the name is
      not the provider's. */
  lemma DiscoveredAnchors(p: Protocol, s: State, discovered: Anchors, owned: string -> bool, name: string)
    requires Fresh(p, s)
    ensures var anchors := Apply(p, s, discovered, owned).anchors;
            && (name in anchors <==> name in discovered || (name in p.defaults && !owned(name)))
            && (name in anchors ==> anchors[name] == if name in discovered then discovered[name] else p.defaults[name])
  {
    ApplyIsFresh(p, s, discovered, owned);
    hide Apply, Fresh;
  }

  /** Live values overlay the anchors if anything waits for them; the maps are then as loaded with them. */
  lemma LiveValuesAreTaken(p: Protocol, s: State, live: Anchors)
    requires Fresh(p, s) && s.deferred != []
    ensures var s' := ResolveLive(p, s, live);
            && Fresh(p, s')
            && (forall name :: name in s'.anchors <==> name in live || name in s.anchors)
            && (forall name | name in s'.anchors :: s'.anchors[name] == if name in live then live[name] else s.anchors[name])
  {
    RebuildMakesFresh(p, s, s.anchors + live);
    hide Fresh, Rebuild;
  }

  /** If nothing waits they are not taken at all. */
  lemma LiveValuesAreNotNeeded(p: Protocol, s: State, live: Anchors)
    requires s.deferred == []
    ensures ResolveLive(p, s, live) == s
  {
  }

  /** So a row that waited for live values only is in its map afterwards. */
  lemma WaitingRowIsResolved(p: Protocol, s: State, live: Anchors, t: RegType, e: Entry, q: nat, j: nat)
    requires Fresh(p, s) && s.deferred != [] && t in p.files
    requires forall entries :: p.finish(entries) == entries
    requires IsEntryOf(p.files[t], s.anchors + live, e, q, j)
    ensures var s' := ResolveLive(p, s, live);
            t in s'.maps && e in s'.maps[t].entries
  {
    LiveValuesAreTaken(p, s, live);
    var s' := ResolveLive(p, s, live);
    assert s'.anchors == s.anchors + live;
    assert Good(p, s', s'.anchors, t);
    EntriesAreOfRows(p.files[t], s'.anchors, e);
    hide Fresh, ResolveLive, IsEntryOf, Plausible, EntriesOf, LinesOf;
    var codes :| s'.maps[t] == MapWith(p, s'.anchors, t, codes) && Plausible(p, s'.anchors, t, codes);
  }

  // ------------------------------------------------------------------
  // Size and first poll
  // ------------------------------------------------------------------

  /** The highest register an entry reaches from where it is. */
  function Reaches(e: Entry): int { B.LastRegister(e.shape.field.(register := e.register)) }

  /** In every reachable state the size of a map is the highest register any of its entries reaches, or 0. */
  lemma SizeIsHighest(p: Protocol, ops: seq<Op>, t: RegType)
    requires t in After(p, ops).maps
    ensures var m := After(p, ops).maps[t];
            && m.size >= 0 && (forall e | e in m.entries :: Reaches(e) <= m.size)
            && (m.size > 0 ==> exists e :: e in m.entries && Reaches(e) == m.size)
  {
    MapIsMeasured(p, ops, t);
    var m := After(p, ops).maps[t];
    var rows := AsRows(m.entries);
    BT.MapSizeIsHighest(rows, m.size);
    hide After, B.LastRegister, B.MapSize;
    forall e | e in m.entries ensures Reaches(e) <= m.size {
      var i: nat :| i < |m.entries| && m.entries[i] == e;
      assert rows[i].field == e.shape.field.(register := e.register);
    }
    if m.size > 0 {
      var i: nat :| i < |rows| && B.LastRegister(rows[i].field) == m.size;
      assert Reaches(m.entries[i]) == m.size;
    }
  }

  lemma MapIsMeasured(p: Protocol, ops: seq<Op>, t: RegType)
    requires t in After(p, ops).maps
    ensures var m := After(p, ops).maps[t];
            m.size == B.MapSize(AsRows(m.entries)) && m == Measured(p, m.entries)
  {
    hide After, Plausible, Parsed, Described, B.AllRanges, B.MapSize;
    MapsFollowAnchors(p, ops);
    var s := After(p, ops);
    assert Good(p, s, s.anchors, t);
  }

  /** And its first poll reads every register of every entry that may be read. */
  lemma FirstPollReads(p: Protocol, ops: seq<Op>, t: RegType, e: Entry, a: int)
    requires p.batch > 0 && t in After(p, ops).maps && e in After(p, ops).maps[t].entries
    requires e.register >= 0 && (e.shape.writeMode.Read? || e.shape.writeMode.Write?)
    requires R.ValidField(e.shape.field.(register := e.register)) && e.register <= a <= Reaches(e)
    ensures BT.Fetched(After(p, ops).maps[t].ranges, a)
  {
    MapIsMeasured(p, ops, t);
    SizeIsHighest(p, ops, t);
    var m := After(p, ops).maps[t];
    var rows := AsRows(m.entries);
    var i: nat :| i < |m.entries| && m.entries[i] == e;
    assert rows[i] == B.Row(e.shape.field.(register := e.register), e.shape.writeMode, e.shape.readInterval, 0.0);
    hide After, BT.Fetched, B.MapSize;
    assert B.IsPolled(rows[i], FirstPoll(p, m.size)) by {
      hide B.AllRanges;
    }
    P.PolledIsFetched(rows, FirstPoll(p, m.size), i, a);
  }
}
