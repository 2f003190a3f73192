/** Register maps with template rows: resolved from anchors, and rebuilt when the anchors change. The
    code tables that rows bring along are kept from load to load. */
module DynamicMaps {
  import opened Options
  import opened Decimals
  import R = RegisterMap
  import B = Batching

  /** The value of an anchor: a number, or text that is none. */
  datatype Value = Number(n: int) | Word(s: string)

  type Anchors = map<string, Value>

  /** A register cell: an address, `[name]`, `[name+offset]`, or the same with the instance token in
      the name: `[stem_{i}_part+offset]`. */
  datatype Cell =
    | Literal(address: int)
    | Named(name: string, offset: Option<int>)
    | PerInstance(stem: string, part: string, offset: Option<int>)

  /** A name cell, with the instance token between its two halves if it has one. */
  datatype NameCell = NameCell(before: string, token: bool, after: string)

  /** The rest of a row: how its register is decoded, whether it may be read, and how often. */
  datatype Shape = Shape(field: R.Field, writeMode: B.WriteMode, readInterval: real)

  /** A code table: what the values of a register stand for. A JSON value that is no object counts as
      an empty one. */
  type Table = map<string, string>

  /** The code tables known, by the name in front of `_codes`. */
  type Codes = map<string, Table>

  /** A row: its variable name, its documented name, the code table in its values cell, and its
      register. Rows that are commented out or have no name are comments. */
  datatype Row = Comment | Row(name: NameCell, documented: NameCell, table: Option<Table>, cell: Cell, shape: Shape)

  /** Where a row's register turned out to be. */
  datatype Place = Address(a: int) | NotNumeric | Unresolved

  /** A concrete row; `dynamic` marks one that came from a template. */
  datatype Line = Line(name: string, documented: string, table: Option<Table>, place: Place, dynamic: bool, shape: Shape)

  /** A map entry; `describes` marks the ones that only put another entry's value into words. */
  datatype Entry = Entry(name: string, documented: string, register: int, dynamic: bool, describes: bool, shape: Shape)

  // ------------------------------------------------------------------
  // Expanding rows
  // ------------------------------------------------------------------

  predicate HasToken(row: Row) {
    row.Row? && (row.name.token || row.documented.token || row.cell.PerInstance?)
  }

  predicate IsTemplate(row: Row) {
    row.Row? && (HasToken(row) || !row.cell.Literal?)
  }

  function NameFor(c: NameCell, i: nat): string {
    if c.token then c.before + Decimal(i) + c.after else c.before
  }

  function InstanceName(stem: string, i: nat, part: string): string {
    stem + "_" + Decimal(i) + "_" + part
  }

  function CountName(stem: string): string { stem + "_count" }

  /** The number of instances an anchor announces; a missing or unreadable count is zero. */
  function CountOf(anchors: Anchors, stem: string): nat {
    var name := CountName(stem);
    if name in anchors && anchors[name].Number? && anchors[name].n > 0 then anchors[name].n else 0
  }

  /** `[name]` takes any value, `[name+offset]` needs a number. */
  function Find(anchors: Anchors, name: string, offset: Option<int>): Place {
    if name !in anchors then Unresolved
    else
      match anchors[name]
      case Number(n) => Address(n + if offset.Some? then offset.value else 0)
      case Word(_) => if offset.Some? then Unresolved else NotNumeric
  }

  /** A row that always stands for itself alone. */
  predicate IsPlain(row: Row) { row.Row? && !HasToken(row) }

  function PlaceOf(row: Row, i: nat, anchors: Anchors): Place
    requires row.Row?
  {
    match row.cell
    case Literal(address) => Address(address)
    case Named(name, offset) => Find(anchors, name, offset)
    case PerInstance(stem, part, offset) => Find(anchors, InstanceName(stem, i, part), offset)
  }

  /** Instance `i` of a row, or the row itself if it is plain. */
  function LineAt(row: Row, i: nat, anchors: Anchors): Line
    requires row.Row?
  {
    var place := PlaceOf(row, i, anchors);
    Line(NameFor(row.name, i), NameFor(row.documented, i), row.table, place,
         IsTemplate(row) && !place.Unresolved?, row.shape)
  }

  /** The concrete rows of one row under the anchors known; a row with an instance token but no
      instances to count is skipped. */
  function Expand(row: Row, anchors: Anchors): seq<Line> {
    if IsPlain(row) then [LineAt(row, 0, anchors)]
    else if row.Row? && row.cell.PerInstance? then
      var n := CountOf(anchors, row.cell.stem);
      seq(n, i requires 0 <= i < n => LineAt(row, i + 1, anchors))
    else []
  }

  function LinesOf(rows: seq<Row>, anchors: Anchors): seq<Line> {
    if rows == [] then [] else LinesOf(rows[..|rows| - 1], anchors) + Expand(rows[|rows| - 1], anchors)
  }

  function EntryOf(line: Line): Entry
    requires line.place.Address?
  {
    Entry(line.name, line.documented, line.place.a, line.dynamic, false, line.shape)
  }

  function EntriesOf(lines: seq<Line>): seq<Entry> {
    if lines == [] then []
    else
      var line := lines[|lines| - 1];
      EntriesOf(lines[..|lines| - 1]) + if line.place.Address? then [EntryOf(line)] else []
  }

  function Parked(lines: seq<Line>): seq<Line> {
    if lines == [] then []
    else
      var line := lines[|lines| - 1];
      Parked(lines[..|lines| - 1]) + if line.place.Unresolved? then [line] else []
  }

  predicate HasTemplates(rows: seq<Row>) {
    exists i | 0 <= i < |rows| :: IsTemplate(rows[i])
  }

  // ------------------------------------------------------------------
  // Code tables and descriptions
  // ------------------------------------------------------------------

  /** A row's table is kept unless its name has one already; this comes before its register is looked
      at, so rows that are parked or skipped bring their tables too. */
  function WithTable(codes: Codes, line: Line): Codes {
    if line.table.Some? && line.documented !in codes then codes[line.documented := line.table.value] else codes
  }

  function WithTables(codes: Codes, lines: seq<Line>): Codes {
    if lines == [] then codes else WithTable(WithTables(codes, lines[..|lines| - 1]), lines[|lines| - 1])
  }

  /** A non-empty table is known under the name. */
  predicate Tabled(codes: Codes, name: string) { name in codes && codes[name] != map[] }

  predicate HasTable(codes: Codes, e: Entry) { Tabled(codes, e.documented) || Tabled(codes, e.name) }

  function DescName(name: string): string { name + "_desc" }

  /** The entry that puts the value of `e` into words; it is never read from the device. */
  function DescriptionOf(e: Entry): Entry {
    var f := e.shape.field;
    Entry(DescName(e.name), DescName(e.documented), e.register, false, true,
          Shape(R.Field(f.register, f.registerBit, f.registerByte, [], R.String, -1, false, []), B.ReadDisabled, e.shape.readInterval))
  }

  predicate Uses(entries: seq<Entry>, name: string) {
    exists i | 0 <= i < |entries| :: entries[i].name == name
  }

  /** The description entries for the first `k` entries: those that have a table, unless the name is
      taken or screened. */
  function Descriptions(entries: seq<Entry>, k: nat, codes: Codes, screened: string -> bool): seq<Entry>
    requires k <= |entries|
  {
    if k == 0 then []
    else
      var before, e := Descriptions(entries, k - 1, codes, screened), entries[k - 1];
      if e.describes || !HasTable(codes, e) || Uses(entries, DescName(e.name)) || Uses(before, DescName(e.name))
         || screened(DescName(e.name)) then before
      else before + [DescriptionOf(e)]
  }

  function Described(entries: seq<Entry>, codes: Codes, screened: string -> bool): seq<Entry> {
    entries + Descriptions(entries, |entries|, codes, screened)
  }

  // ------------------------------------------------------------------
  // The state
  // ------------------------------------------------------------------

  /** Protocols without register types, coils, discrete inputs, holding and input registers, in the order
      they are loaded. */
  const TYPES: nat := 5
  type RegType = t: nat | t < TYPES

  datatype Deferred = Deferred(registryType: RegType, line: Line)

  /** An entry as the batcher sees it when its map has just been loaded. */
  function AsRow(e: Entry): B.Row {
    B.Row(e.shape.field.(register := e.register), e.shape.writeMode, e.shape.readInterval, 0.0)
  }

  function AsRows(entries: seq<Entry>): (r: seq<B.Row>)
    ensures |r| == |entries|
  {
    seq(|entries|, i requires 0 <= i < |entries| => AsRow(entries[i]))
  }

  /** With a window length of zero no map can be loaded. */
  type WindowLength = b: int | b != 0 witness 40

  /** A protocol: its map files, the code tables of its own file, the anchors it assumes before any
      discovery, the length of its read windows, what is done with the parsed entries of a map (pair
      merging, masks, screens), and the description names that are screened. */
  datatype Protocol = Protocol(files: map<RegType, seq<Row>>, codes: Codes, defaults: Anchors, batch: WindowLength,
                               finish: seq<Entry> -> seq<Entry>, screened: string -> bool)

  /** A loaded map, the highest register its entries reach, and the ranges of its first poll. */
  datatype LoadedMap = LoadedMap(entries: seq<Entry>, size: int, ranges: seq<B.Range>)

  /** The call that computes the first poll of a map; as it reads everything, the time is no matter. */
  function FirstPoll(p: Protocol, size: int): B.Call { B.Call(p.batch, size, true, 0.0) }

  function Measured(p: Protocol, entries: seq<Entry>): LoadedMap {
    var rows := AsRows(entries);
    LoadedMap(entries, B.MapSize(rows), B.AllRanges(rows, FirstPoll(p, B.MapSize(rows))).ranges)
  }

  datatype State = State(anchors: Anchors, maps: map<RegType, LoadedMap>, deferred: seq<Deferred>, dynamicTypes: set<RegType>,
                         codes: Codes)

  function WithoutType(deferred: seq<Deferred>, t: RegType): seq<Deferred> {
    if deferred == [] then []
    else
      var init, d := WithoutType(deferred[..|deferred| - 1], t), deferred[|deferred| - 1];
      if d.registryType == t then init else init + [d]
  }

  function Tagged(lines: seq<Line>, t: RegType): (r: seq<Deferred>)
    ensures |r| == |lines|
  {
    seq(|lines|, i requires 0 <= i < |lines| => Deferred(t, lines[i]))
  }

  /** The entries of a map under some anchors, before any are described. */
  function Parsed(p: Protocol, anchors: Anchors, t: RegType): seq<Entry>
    requires t in p.files
  {
    p.finish(EntriesOf(LinesOf(p.files[t], anchors)))
  }

  /** A map loaded under some anchors when some tables are known. */
  function MapWith(p: Protocol, anchors: Anchors, t: RegType, codes: Codes): LoadedMap
    requires t in p.files
  {
    Measured(p, Described(Parsed(p, anchors, t), codes, p.screened))
  }

  /** One map loaded again: nothing of its previous load remains, except the tables its rows brought. */
  function Load(p: Protocol, s: State, t: RegType): State {
    if t !in p.files then s
    else
      var lines := LinesOf(p.files[t], s.anchors);
      var codes := WithTables(s.codes, lines);
      State(s.anchors,
            s.maps[t := MapWith(p, s.anchors, t, codes)],
            WithoutType(s.deferred, t) + Tagged(Parked(lines), t),
            if HasTemplates(p.files[t]) then s.dynamicTypes + {t} else s.dynamicTypes - {t},
            codes)
  }

  /** The chosen types below `k` loaded, in the order of their codes. */
  function LoadTypes(p: Protocol, s: State, chosen: set<RegType>, k: nat): State
    requires k <= TYPES
  {
    if k == 0 then s
    else
      var before := LoadTypes(p, s, chosen, k - 1);
      if k - 1 in chosen then Load(p, before, k - 1) else before
  }

  function Rebuild(p: Protocol, s: State): State {
    LoadTypes(p, s, s.dynamicTypes, TYPES)
  }

  function Unloaded(p: Protocol): State { State(p.defaults, map[], [], {}, p.codes) }

  function Initial(p: Protocol): State {
    LoadTypes(p, Unloaded(p), p.files.Keys, TYPES)
  }

  /** Default anchors the discovery provider does not speak for. */
  function Kept(defaults: Anchors, owned: string -> bool): Anchors {
    map name | name in defaults && !owned(name) :: defaults[name]
  }

  function Apply(p: Protocol, s: State, discovered: Anchors, owned: string -> bool): State {
    var merged := Kept(p.defaults, owned) + discovered;
    if merged == s.anchors then s else Rebuild(p, s.(anchors := merged))
  }

  function ResolveLive(p: Protocol, s: State, live: Anchors): State {
    if s.deferred == [] then s else Rebuild(p, s.(anchors := s.anchors + live))
  }

  /** The protocol object, whose maps are replaced in place. */
  class ProtocolSettings {
    const p: Protocol
    var anchors: Anchors
    var registryMap: map<RegType, LoadedMap>
    var deferredRows: seq<Deferred>
    var dynamicTypes: set<RegType>
    var codes: Codes

    constructor (p: Protocol)
      ensures this.p == p && View() == Initial(p)
    {
      this.p := p;
      anchors, registryMap, deferredRows, dynamicTypes, codes := p.defaults, map[], [], {}, p.codes;
      new;
      for t := 0 to TYPES
        invariant View() == LoadTypes(p, Unloaded(p), p.files.Keys, t)
        invariant this.p == p
      {
        LoadRegistryMap(t);
      }
    }

    function View(): State
      reads this
    {
      State(anchors, registryMap, deferredRows, dynamicTypes, codes)
    }

    method LoadRegistryMap(t: RegType)
      modifies this
      ensures View() == Load(p, old(View()), t)
    {
      hide Measured, LinesOf, Parked, EntriesOf, HasTemplates, Tagged, WithoutType, WithTables, Described;
      if t !in p.files {
        return;
      }
      deferredRows := DropType(deferredRows, t);
      var entries, parked, templates;
      entries, parked, templates, codes := LoadRows(p.files[t], anchors, codes);
      var described := AddDescriptions(p.finish(entries), codes, p.screened);
      dynamicTypes := dynamicTypes - {t};
      if templates {
        dynamicTypes := dynamicTypes + {t};
      }
      deferredRows := deferredRows + Tagged(parked, t);
      registryMap := registryMap[t := Measured(p, described)];
    }

    method RebuildDynamicMaps()
      modifies this
      ensures View() == Rebuild(p, old(View()))
    {
      var chosen := dynamicTypes;
      for t := 0 to TYPES
        invariant View() == LoadTypes(p, old(View()), chosen, t)
      {
        if t in chosen {
          LoadRegistryMap(t);
        }
      }
    }

    /** Whether the maps were rebuilt. */
    method ApplyAnchors(discovered: Anchors, owned: string -> bool) returns (rebuilt: bool)
      modifies this
      ensures View() == Apply(p, old(View()), discovered, owned)
      ensures rebuilt <==> Kept(p.defaults, owned) + discovered != old(anchors)
    {
      var merged := Kept(p.defaults, owned) + discovered;
      if merged == anchors {
        return false;
      }
      anchors := merged;
      RebuildDynamicMaps();
      rebuilt := true;
    }

    method ResolveDynamicRegistryEntries(live: Anchors)
      modifies this
      ensures View() == ResolveLive(p, old(View()), live)
    {
      if deferredRows == [] {
        return;
      }
      anchors := anchors + live;
      RebuildDynamicMaps();
    }
  }

  method DropType(deferred: seq<Deferred>, t: RegType) returns (r: seq<Deferred>)
    ensures r == WithoutType(deferred, t)
  {
    r := [];
    for i := 0 to |deferred|
      invariant r == WithoutType(deferred[..i], t)
    {
      assert deferred[..i + 1][..i] == deferred[..i];
      if deferred[i].registryType != t {
        r := r + [deferred[i]];
      }
    }
    assert deferred[..|deferred|] == deferred;
  }

  method LoadRows(rows: seq<Row>, anchors: Anchors, before: Codes)
    returns (entries: seq<Entry>, parked: seq<Line>, templates: bool, codes: Codes)
    ensures entries == EntriesOf(LinesOf(rows, anchors)) && parked == Parked(LinesOf(rows, anchors))
    ensures templates <==> HasTemplates(rows)
    ensures codes == WithTables(before, LinesOf(rows, anchors))
  {
    hide Expand;
    entries, parked, templates, codes := [], [], false, before;
    for i := 0 to |rows|
      invariant entries == EntriesOf(LinesOf(rows[..i], anchors)) && parked == Parked(LinesOf(rows[..i], anchors))
      invariant templates <==> HasTemplates(rows[..i])
      invariant codes == WithTables(before, LinesOf(rows[..i], anchors))
    {
      assert rows[..i + 1][..i] == rows[..i];
      var lines := Expand(rows[i], anchors);
      templates := templates || IsTemplate(rows[i]);
      MoreTemplates(rows, i);
      ConcatLines(LinesOf(rows[..i], anchors), lines);
      ConcatTables(before, LinesOf(rows[..i], anchors), lines);
      var more, left;
      more, left, codes := ProcessRows(lines, codes);
      entries, parked := entries + more, parked + left;
    }
    assert rows[..|rows|] == rows;
  }

  lemma MoreTemplates(rows: seq<Row>, i: nat)
    requires i < |rows|
    ensures HasTemplates(rows[..i + 1]) <==> HasTemplates(rows[..i]) || IsTemplate(rows[i])
  {
    hide IsTemplate;
    if HasTemplates(rows[..i]) {
      var j :| 0 <= j < i && IsTemplate(rows[..i][j]);
      assert rows[..i + 1][j] == rows[..i][j];
    }
    if IsTemplate(rows[i]) {
      assert rows[..i + 1][i] == rows[i];
    }
    if HasTemplates(rows[..i + 1]) {
      var j :| 0 <= j < i + 1 && IsTemplate(rows[..i + 1][j]);
      if j < i {
        assert rows[..i][j] == rows[..i + 1][j];
      }
    }
  }

  method ProcessRows(lines: seq<Line>, before: Codes) returns (entries: seq<Entry>, parked: seq<Line>, codes: Codes)
    ensures entries == EntriesOf(lines) && parked == Parked(lines) && codes == WithTables(before, lines)
  {
    entries, parked, codes := [], [], before;
    for i := 0 to |lines|
      invariant entries == EntriesOf(lines[..i]) && parked == Parked(lines[..i])
      invariant codes == WithTables(before, lines[..i])
    {
      assert lines[..i + 1][..i] == lines[..i];
      var line := lines[i];
      if line.table.Some? && line.documented !in codes {
        codes := codes[line.documented := line.table.value];
      }
      match line.place
      case Address(_) => entries := entries + [EntryOf(line)];
      case Unresolved => parked := parked + [line];
      case NotNumeric =>
    }
    assert lines[..|lines|] == lines;
  }

  /** The last step of a load: append the description entries. */
  method AddDescriptions(entries: seq<Entry>, codes: Codes, screened: string -> bool) returns (r: seq<Entry>)
    ensures r == Described(entries, codes, screened)
  {
    var additions: seq<Entry> := [];
    for k := 0 to |entries|
      invariant additions == Descriptions(entries, k, codes, screened)
    {
      var e := entries[k];
      if e.describes || !HasTable(codes, e) {
        continue;
      }
      var name := DescName(e.name);
      var taken := FindName(entries, name);
      if !taken {
        taken := FindName(additions, name);
      }
      if taken || screened(name) {
        continue;
      }
      additions := additions + [DescriptionOf(e)];
    }
    r := entries + additions;
  }

  method FindName(entries: seq<Entry>, name: string) returns (taken: bool)
    ensures taken <==> Uses(entries, name)
  {
    for i := 0 to |entries|
      invariant !Uses(entries[..i], name)
    {
      if entries[i].name == name {
        return true;
      }
    }
    assert entries[..|entries|] == entries;
    taken := false;
  }

  lemma {:induction false} ConcatTables(codes: Codes, a: seq<Line>, b: seq<Line>)
    ensures WithTables(codes, a + b) == WithTables(WithTables(codes, a), b)
  {
    if b == [] {
      assert a + b == a;
    } else {
      ConcatTables(codes, a, b[..|b| - 1]);
      ConcatEnds(a, b);
    }
  }

  lemma ConcatLines(a: seq<Line>, b: seq<Line>)
    ensures EntriesOf(a + b) == EntriesOf(a) + EntriesOf(b) && Parked(a + b) == Parked(a) + Parked(b)
  {
    ConcatEntries(a, b);
    ConcatParked(a, b);
  }

  lemma ConcatEnds(a: seq<Line>, b: seq<Line>)
    requires b != []
    ensures (a + b)[..|a + b| - 1] == a + b[..|b| - 1] && (a + b)[|a + b| - 1] == b[|b| - 1]
  {
  }

  lemma {:induction false} ConcatEntries(a: seq<Line>, b: seq<Line>)
    ensures EntriesOf(a + b) == EntriesOf(a) + EntriesOf(b)
  {
    if b == [] {
      assert a + b == a;
    } else {
      ConcatEntries(a, b[..|b| - 1]);
      ConcatEnds(a, b);
    }
  }

  lemma {:induction false} ConcatParked(a: seq<Line>, b: seq<Line>)
    ensures Parked(a + b) == Parked(a) + Parked(b)
  {
    if b == [] {
      assert a + b == a;
    } else {
      ConcatParked(a, b[..|b| - 1]);
      ConcatEnds(a, b);
    }
  }
}
