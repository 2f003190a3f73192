/** The condition under which whole maps have no history is exact: a protocol with an entry that is not
    settled has a run after which some selection of its entries differs from a fresh load. */
module CodeTablesExact {
  import opened Options
  import opened Decimals
  import opened DynamicMaps
  import opened DynamicMapsTheorems
  import opened CodeTables

  function Select(entries: seq<Entry>, keep: Entry -> bool): (r: seq<Entry>)
    ensures forall i | 0 <= i < |r| :: r[i] in entries && keep(r[i])
  {
    if entries == [] then []
    else
      var e := entries[|entries| - 1];
      Select(entries[..|entries| - 1], keep) + if keep(e) then [e] else []
  }

  lemma {:induction false} SelectKeeps(entries: seq<Entry>, keep: Entry -> bool, e: Entry)
    requires e in entries && keep(e)
    ensures e in Select(entries, keep)
  {
    if e != entries[|entries| - 1] {
      SelectKeeps(entries[..|entries| - 1], keep, e);
    }
  }

  /** The protocol with a mask that lets some entries through, and no description screened. */
  function Selecting(p: Protocol, keep: Entry -> bool): Protocol {
    p.(finish := (entries: seq<Entry>) => Select(entries, keep), screened := (name: string) => false)
  }

  /** A mask for one entry. */
  function Only(e: Entry): Entry -> bool { (x: Entry) => x == e }

  /** Every name is the provider's. */
  function Everything(): string -> bool { (name: string) => true }

  lemma OnlyTheDiscovered(defaults: Anchors, discovered: Anchors)
    ensures Kept(defaults, Everything()) + discovered == discovered
  {
  }

  lemma SameFiles(p: Protocol, q: Protocol)
    requires p.files == q.files && p.codes == q.codes
    ensures TablesMatch(p) <==> TablesMatch(q)
    ensures forall w: RegType, r: nat, j: nat, name :: Brings(p, w, r, j, name) <==> Brings(q, w, r, j, name)
    ensures Settled(p) <==> Settled(q)
    ensures forall t: RegType :: IsDynamic(p, t) <==> IsDynamic(q, t)
    ensures forall w: RegType, r: nat, j: nat, name :: Introduces(p, w, r, j, name) <==> Introduces(q, w, r, j, name)
    ensures forall anchors, w: RegType, r: nat, j: nat :: Present(p, anchors, w, r, j) <==> Present(q, anchors, w, r, j)
  {
    assert forall t: RegType :: IsDynamic(p, t) <==> IsDynamic(q, t);
    assert forall w: RegType, r: nat, j: nat, name :: Introduces(p, w, r, j, name) <==> Introduces(q, w, r, j, name);
    assert forall w: RegType, r: nat, j: nat, name :: Brings(p, w, r, j, name) <==> Brings(q, w, r, j, name);
    hide Introduces, Brings, SettledAt;
    forall u: RegType, r: nat, i: nat
      ensures IsEntryRow(p, u, r, i) <==> IsEntryRow(q, u, r, i)
      ensures IsEntryRow(p, u, r, i) ==> (SettledAt(p, u, r, i) <==> SettledAt(q, u, r, i))
    {
      if IsEntryRow(p, u, r, i) {
        SameSettledAt(p, q, u, r, i);
      }
    }
  }

  lemma SameSettledAt(p: Protocol, q: Protocol, u: RegType, r: nat, i: nat)
    requires p.files == q.files && p.codes == q.codes && IsEntryRow(p, u, r, i)
    ensures IsEntryRow(q, u, r, i) && (SettledAt(p, u, r, i) <==> SettledAt(q, u, r, i))
  {
    assert forall w: RegType, x: nat, j: nat, name :: Brings(p, w, x, j, name) <==> Brings(q, w, x, j, name);
    assert forall w: RegType, x: nat, j: nat :: ComesAlong(p, u, r, i, w, x, j) <==> ComesAlong(q, u, r, i, w, x, j);
    assert IsDynamic(p, u) <==> IsDynamic(q, u);
    hide Brings, ComesAlong, IsDynamic;
    assert forall name :: Certain(p, u, r, i, name) <==> Certain(q, u, r, i, name);
    assert forall name :: Possible(p, u, name) <==> Possible(q, u, name);
  }

  // ------------------------------------------------------------------
  // What a fresh load knows
  // ------------------------------------------------------------------

  /** The tables known when the types below `k` have first been loaded. */
  function CodesBelow(p: Protocol, k: nat): Codes
    requires k <= TYPES
  {
    LoadTypes(p, Unloaded(p), p.files.Keys, k).codes
  }

  lemma FirstLoads(p: Protocol, k: nat)
    requires k <= TYPES
    ensures LoadTypes(p, Unloaded(p), p.files.Keys, k).anchors == p.defaults
    ensures Loaded(p, p.codes, CodesBelow(p, k), p.defaults, k)
  {
    hide LoadTypes, Loaded;
    assert Ready(p, Unloaded(p), p.files.Keys);
    LoadTypesAreGood(p, Unloaded(p), p.files.Keys, k);
  }

  lemma {:induction false} InitialMap(p: Protocol, u: RegType, k: nat)
    requires u < k <= TYPES && u in p.files
    ensures var s := LoadTypes(p, Unloaded(p), p.files.Keys, k);
            u in s.maps && s.maps[u] == MapWith(p, p.defaults, u, CodesBelow(p, u + 1))
  {
    hide MapWith, WithTables, LinesOf, Parked, HasTemplates;
    FirstLoads(p, k - 1);
    if u < k - 1 {
      InitialMap(p, u, k - 1);
    }
  }

  lemma {:induction false} InitialTableIsPresent(p: Protocol, k: nat, name: string) returns (w: RegType, q: nat, j: nat)
    requires k <= TYPES && name in CodesBelow(p, k) && name !in p.codes
    ensures w < k && Introduces(p, w, q, j, name) && Present(p, p.defaults, w, q, j)
  {
    hide WithTables, LinesOf, Parked, HasTemplates, MapWith;
    var t: RegType := k - 1;
    FirstLoads(p, t);
    if name in CodesBelow(p, t) {
      w, q, j := InitialTableIsPresent(p, t, name);
    } else {
      var lines := LinesOf(p.files[t], p.defaults);
      var i := TableHasLine(CodesBelow(p, t), lines, name);
      q, j := LineHasRow(p.files[t], p.defaults, lines[i]);
      w := t;
    }
  }

  /** A fresh load under the anchors knows a table for the name when it loads the type. */
  ghost predicate KnownAt(p: Protocol, anchors: Anchors, u: RegType, name: string) {
    if name in p.codes then p.codes[name] != map[]
    else exists w: RegType, q: nat, j: nat :: w <= u && Brings(p, w, q, j, name) && Present(p, anchors, w, q, j)
  }

  lemma FreshTables(p: Protocol, u: RegType, name: string)
    requires TablesMatch(p)
    ensures Tabled(CodesBelow(p, u + 1), name) <==> KnownAt(p, p.defaults, u, name)
  {
    hide CodesBelow, Introduces, Present, TablesMatch;
    FirstLoads(p, u + 1);
    var codes := CodesBelow(p, u + 1);
    if name !in p.codes && name in codes {
      var w, q, j := InitialTableIsPresent(p, u + 1, name);
      assert w <= u;
      KnownTableMatches(p, codes, name, u + 1, w, q, j);
    }
    if w: RegType, q: nat, j: nat :| w <= u && Brings(p, w, q, j, name) && Present(p, p.defaults, w, q, j) {
      assert Introduces(p, w, q, j, name);
      if name !in p.codes {
        KnownTableMatches(p, codes, name, u + 1, w, q, j);
      }
    }
  }

  lemma FreshEntry(p: Protocol, anchors: Anchors, u: RegType, e: Entry)
    requires TablesMatch(p)
    ensures HasTable(CodesBelow(p.(defaults := anchors), u + 1), e)
       <==> KnownAt(p, anchors, u, e.documented) || KnownAt(p, anchors, u, e.name)
  {
    hide CodesBelow, Brings, Present, TablesMatch, Tabled, Settled;
    var q := p.(defaults := anchors);
    SameFiles(p, q);
    SameKnown(p, q, anchors, u, e.documented);
    SameKnown(p, q, anchors, u, e.name);
    FreshTables(q, u, e.documented);
    FreshTables(q, u, e.name);
  }

  lemma SameKnown(p: Protocol, q: Protocol, anchors: Anchors, u: RegType, name: string)
    requires p.files == q.files && p.codes == q.codes
    ensures KnownAt(p, anchors, u, name) <==> KnownAt(q, anchors, u, name)
  {
    SameFiles(p, q);
    hide Brings, Present, TablesMatch, Settled;
  }

  // ------------------------------------------------------------------
  // Anchors that bring in one row alone
  // ------------------------------------------------------------------

  /** Anchors under which a row stands at an address as instance `i`, and no other instances do but those
      that come along. */
  function AnchorsFor(row: Row, i: nat): Anchors
    requires row.Row?
  {
    match row.cell
    case Literal(_) => map[]
    case Named(name, _) => map[name := Number(0)]
    case PerInstance(stem, part, _) => map[InstanceName(stem, i, part) := Number(0), CountName(stem) := Number(i)]
  }

  lemma NamesApart(stem: string, i: nat, part: string)
    ensures InstanceName(stem, i, part) != CountName(stem)
  {
    DecimalRoundTrip(i);
    assert InstanceName(stem, i, part)[|stem| + 1] == Decimal(i)[0];
    assert CountName(stem)[|stem| + 1] == 'c';
  }

  lemma CountNamesDiffer(a: string, b: string)
    requires CountName(a) == CountName(b)
    ensures a == b
  {
    assert |a| == |b|;
    assert a == CountName(a)[..|a|] == CountName(b)[..|b|] == b;
  }

  lemma OwnLine(p: Protocol, u: RegType, r: nat, i: nat)
    requires IsEntryRow(p, u, r, i)
    ensures var anchors := AnchorsFor(p.files[u][r], i);
            Present(p, anchors, u, r, i) && LineAt(p.files[u][r], i, anchors).place.Address?
  {
    var row := p.files[u][r];
    if row.cell.PerInstance? {
      NamesApart(row.cell.stem, i, row.cell.part);
    }
  }

  lemma OwnCount(row: Row, i: nat, stem: string)
    requires row.Row? && CountOf(AnchorsFor(row, i), stem) > 0
    ensures row.cell.PerInstance? && row.cell.stem == stem && CountOf(AnchorsFor(row, i), stem) <= i
  {
    if row.cell.PerInstance? {
      NamesApart(row.cell.stem, i, row.cell.part);
      if CountName(stem) == CountName(row.cell.stem) {
        CountNamesDiffer(stem, row.cell.stem);
      }
    }
  }

  lemma UncertainIsUnknown(p: Protocol, u: RegType, r: nat, i: nat, name: string)
    requires IsEntryRow(p, u, r, i) && !Certain(p, u, r, i, name)
    ensures !KnownAt(p, AnchorsFor(p.files[u][r], i), u, name)
  {
    var row := p.files[u][r];
    forall w: RegType, q: nat, j: nat | w <= u && Brings(p, w, q, j, name) && Present(p, AnchorsFor(row, i), w, q, j)
      ensures ComesAlong(p, u, r, i, w, q, j)
    {
      if j > 0 {
        OwnCount(row, i, p.files[w][q].cell.stem);
      }
    }
  }

  /** Other anchors under which row `q` of type `w` is there as instance `j`. */
  function AnchorsWith(p: Protocol, w: RegType, q: nat, j: nat, other: Anchors): Anchors
    requires w in p.files && q < |p.files[w]| && p.files[w][q].Row? && (j > 0 ==> p.files[w][q].cell.PerInstance?)
  {
    if j > 0 then map[CountName(p.files[w][q].cell.stem) := Number(j)]
    else if other == map[] then map["x" := Number(0)]
    else map[]
  }

  lemma OtherAnchors(p: Protocol, u: RegType, r: nat, i: nat, w: RegType, q: nat, j: nat, name: string)
    requires IsEntryRow(p, u, r, i) && Brings(p, w, q, j, name)
    ensures var own := AnchorsFor(p.files[u][r], i);
            var other := AnchorsWith(p, w, q, j, own);
            other != own && Present(p, other, w, q, j)
  {
    hide InstanceName, CountName;
    var row := p.files[u][r];
    var own := AnchorsFor(row, i);
    var other := AnchorsWith(p, w, q, j, own);
    if j > 0 {
      var count := CountName(p.files[w][q].cell.stem);
      assert other[count] == Number(j);
      assert CountOf(other, p.files[w][q].cell.stem) == j;
      match row.cell
      case Literal(_) => assert count !in own;
      case Named(_, _) => assert count in own ==> own[count] == Number(0);
      case PerInstance(stem, part, _) =>
        NamesApart(stem, i, part);
        assert InstanceName(stem, i, part) in own && CountName(stem) in own;
    } else if own == map[] {
      assert "x" in other;
    }
  }

  // ------------------------------------------------------------------
  // Maps that hold one entry
  // ------------------------------------------------------------------

  lemma {:induction false} LoneDescription(entries: seq<Entry>, k: nat, codes: Codes, e: Entry)
    requires k <= |entries| && !e.describes
    requires forall i | 0 <= i < |entries| :: entries[i] == e
    ensures Descriptions(entries, k, codes, (name: string) => false)
         == if k > 0 && HasTable(codes, e) then [DescriptionOf(e)] else []
  {
    if k > 0 {
      LoneDescription(entries, k - 1, codes, e);
      assert |DescName(e.name)| > |e.name|;
      assert [DescriptionOf(e)][0].name == DescName(e.name);
    }
  }

  /** A map of one entry says by its length whether the entry has a table. */
  lemma LoneMap(p: Protocol, anchors: Anchors, u: RegType, codes: Codes, e: Entry)
    requires u in p.files && !e.describes && e in EntriesOf(LinesOf(p.files[u], anchors))
    ensures var q := Selecting(p, Only(e));
            && Parsed(q, anchors, u) == Select(EntriesOf(LinesOf(p.files[u], anchors)), Only(e))
            && |MapWith(q, anchors, u, codes).entries|
               == |Parsed(q, anchors, u)| + if HasTable(codes, e) then 1 else 0
  {
    hide LinesOf, EntriesOf, HasTable, Select;
    var entries := EntriesOf(LinesOf(p.files[u], anchors));
    SelectKeeps(entries, Only(e), e);
    LoneDescription(Select(entries, Only(e)), |Select(entries, Only(e))|, codes, e);
  }

  lemma {:induction false} LineHasEntry(lines: seq<Line>, line: Line)
    requires line in lines && line.place.Address?
    ensures EntryOf(line) in EntriesOf(lines)
  {
    var n := |lines| - 1;
    if line in lines[..n] {
      LineHasEntry(lines[..n], line);
    }
  }

  // ------------------------------------------------------------------
  // It is necessary
  // ------------------------------------------------------------------

  lemma {:induction false} ReloadedMap(p: Protocol, s: State, chosen: set<RegType>, u: RegType, k: nat) returns (codes: Codes)
    requires u in chosen && u in p.files && u < k <= TYPES
    ensures var after := LoadTypes(p, s, chosen, k);
            && u in after.maps && after.maps[u] == MapWith(p, s.anchors, u, codes) && Extends(s.codes, codes)
  {
    hide MapWith, WithTables, LinesOf, Parked, HasTemplates;
    LoadingKeeps(p, s, chosen, k - 1);
    if u < k - 1 {
      codes := ReloadedMap(p, s, chosen, u, k - 1);
    } else {
      var before := LoadTypes(p, s, chosen, k - 1);
      codes := WithTables(before.codes, LinesOf(p.files[u], s.anchors));
      TablesStay(before.codes, LinesOf(p.files[u], s.anchors));
    }
  }

  lemma TablesStay(codes: Codes, lines: seq<Line>)
    ensures Extends(codes, WithTables(codes, lines))
  {
    forall name | name in codes ensures name in WithTables(codes, lines) && WithTables(codes, lines)[name] == codes[name] {
      TablesAreKept(codes, lines, name);
    }
  }

  lemma {:induction false} LoadingKeeps(p: Protocol, s: State, chosen: set<RegType>, k: nat)
    requires k <= TYPES
    ensures var after := LoadTypes(p, s, chosen, k);
            after.anchors == s.anchors && Extends(s.codes, after.codes)
  {
    hide MapWith, WithTables, LinesOf, Parked, HasTemplates;
    if k > 0 {
      LoadingKeeps(p, s, chosen, k - 1);
      var before := LoadTypes(p, s, chosen, k - 1);
      if k - 1 in chosen && k - 1 in p.files {
        TablesStay(before.codes, LinesOf(p.files[k - 1], s.anchors));
      }
    }
  }

  /** An entry of a map that is loaded again: a discovery brings a table it may have, the next takes all
      but the entry away. */
  lemma UnsettledDynamic(p: Protocol, u: RegType, r: nat, i: nat, e: Entry)
    requires TablesMatch(p) && IsEntryRow(p, u, r, i) && !SettledAt(p, u, r, i) && IsDynamic(p, u)
    requires LineAt(p.files[u][r], i, AnchorsFor(p.files[u][r], i)).place.Address?
    requires e == EntryOf(LineAt(p.files[u][r], i, AnchorsFor(p.files[u][r], i)))
    ensures !NoHistory(Selecting(p, Only(e)))
  {
    hide TablesMatch, Brings, Present, MapWith, Parsed, LoadTypes, Initial, Apply, Rebuild, After, KnownAt, Certain, ComesAlong, IsDynamic, AnchorsFor, AnchorsWith, HasTable, AsLoaded;
    var name := if Possible(p, u, e.documented) then e.documented else e.name;
    var w: RegType, x: nat, j: nat :| Brings(p, w, x, j, name) && (IsDynamic(p, u) || (w <= u && j > 0));
    BringsRow(p, w, x, j, name);
    var own := AnchorsFor(p.files[u][r], i);
    var other := AnchorsWith(p, w, x, j, own);
    OtherAnchors(p, u, r, i, w, x, j, name);
    OwnLine(p, u, r, i);
    OwnEntry(p, u, r, i, own, e);
    var q := Selecting(p, Only(e));
    var c := HistoryKnows(p, q, u, own, other, w, x, j, name);
    TabledHasTable(c, e, name);
    UncertainIsUnknown(p, u, r, i, e.documented);
    UncertainIsUnknown(p, u, r, i, e.name);
    SameFiles(p, q);
    SameKnown(p, q, own, u, e.documented);
    SameKnown(p, q, own, u, e.name);
    FreshEntry(q, own, u, e);
    FreshMap(q, own, u);
    SameMapWith(q, own, u, CodesBelow(q.(defaults := own), u + 1));
    LoneMap(p, own, u, c, e);
    LoneMap(p, own, u, CodesBelow(q.(defaults := own), u + 1), e);
    HistoryShows(q, [Discovered(other, Everything())], own, u);
  }

  lemma BringsRow(p: Protocol, w: RegType, q: nat, j: nat, name: string)
    requires Brings(p, w, q, j, name)
    ensures w in p.files && q < |p.files[w]| && p.files[w][q].Row? && (j > 0 ==> p.files[w][q].cell.PerInstance?)
  {
  }

  lemma OwnEntry(p: Protocol, u: RegType, r: nat, i: nat, anchors: Anchors, e: Entry)
    requires IsEntryRow(p, u, r, i) && Present(p, anchors, u, r, i)
    requires LineAt(p.files[u][r], i, anchors).place.Address? && e == EntryOf(LineAt(p.files[u][r], i, anchors))
    ensures e in EntriesOf(LinesOf(p.files[u], anchors)) && !e.describes
  {
    RowHasLine(p.files[u], anchors, r, i);
    LineHasEntry(LinesOf(p.files[u], anchors), LineAt(p.files[u][r], i, anchors));
  }

  lemma TabledHasTable(codes: Codes, e: Entry, name: string)
    requires Tabled(codes, name) && (name == e.documented || name == e.name)
    ensures HasTable(codes, e)
  {
  }

  lemma FreshMap(q: Protocol, anchors: Anchors, u: RegType)
    requires u in q.files
    ensures var loaded := Initial(q.(defaults := anchors));
            u in loaded.maps
            && loaded.maps[u] == MapWith(q.(defaults := anchors), anchors, u, CodesBelow(q.(defaults := anchors), u + 1))
  {
    hide MapWith, CodesBelow;
    InitialMap(q.(defaults := anchors), u, TYPES);
  }

  lemma SameMapWith(q: Protocol, anchors: Anchors, u: RegType, codes: Codes)
    requires u in q.files
    ensures MapWith(q.(defaults := anchors), anchors, u, codes) == MapWith(q, anchors, u, codes)
  {
  }

  lemma HistoryShows(q: Protocol, ops: seq<Op>, anchors: Anchors, u: RegType)
    requires var s, loaded := Apply(q, After(q, ops), anchors, Everything()), Initial(q.(defaults := anchors));
             u in s.maps && u in loaded.maps && s.maps[u] != loaded.maps[u]
    ensures !NoHistory(q)
  {
    OnlyTheDiscovered(q.defaults, anchors);
    hide Apply, Initial, After;
    assert !AsLoaded(q, ops, anchors, Everything());
  }

  lemma AfterOne(p: Protocol, discovered: Anchors)
    ensures After(p, [Discovered(discovered, Everything())]) == Apply(p, Initial(p), discovered, Everything())
  {
    hide Apply, Initial;
    var ops := [Discovered(discovered, Everything())];
    assert ops[..0] == [];
    assert After(p, ops) == Step(p, After(p, ops[..0]), ops[0]);
  }

  /** After a discovery that brings a table and one that changes the anchors again, a map loaded again
      still knows the table. */
  lemma HistoryKnows(p: Protocol, q: Protocol, u: RegType, own: Anchors, other: Anchors, w: RegType, x: nat, j: nat, name: string)
    returns (codes: Codes)
    requires TablesMatch(p) && q.files == p.files && q.codes == p.codes
    requires IsDynamic(p, u) && other != own && name !in p.codes
    requires Brings(p, w, x, j, name) && Present(p, other, w, x, j)
    ensures var s := Apply(q, After(q, [Discovered(other, Everything())]), own, Everything());
            u in q.files && u in s.maps && s.maps[u] == MapWith(q, own, u, codes)
    ensures Tabled(codes, name)
  {
    var ops := [Discovered(other, Everything())];
    var s1 := After(q, ops);
    AfterOne(q, other);
    SameFiles(p, q);
    assert Introduces(q, w, x, j, name) && Brings(q, w, x, j, name);
    hide Initial, After, MapWith, Introduces, Brings, Present, LoadTypes, TablesMatch, Settled, Apply, HasSource, LinesOf;
    OnlyTheDiscovered(q.defaults, other);
    OnlyTheDiscovered(q.defaults, own);
    InitialIsFresh(q);
    ApplyIsFresh(q, Initial(q), other, Everything());
    assert Good(q, s1, s1.anchors, u);
    assert name in s1.codes;
    KnownTableMatches(q, s1.codes, name, TYPES, w, x, j);
    codes := ReloadedMap(q, s1.(anchors := own), s1.dynamicTypes, u, TYPES);
    AppliedIsRebuilt(q, s1, own);
  }

  lemma AppliedIsRebuilt(q: Protocol, s: State, own: Anchors)
    requires s.anchors != own
    ensures Apply(q, s, own, Everything()) == LoadTypes(q, s.(anchors := own), s.dynamicTypes, TYPES)
  {
    OnlyTheDiscovered(q.defaults, own);
  }

  /** An entry of a map that is loaded once: what the defaults gave it when it was loaded stays. */
  lemma UnsettledStatic(p: Protocol, u: RegType, r: nat, i: nat, e: Entry)
    requires TablesMatch(p) && IsEntryRow(p, u, r, i) && !SettledAt(p, u, r, i) && !IsDynamic(p, u)
    requires LineAt(p.files[u][r], i, map[]).place.Address? && e == EntryOf(LineAt(p.files[u][r], i, map[]))
    ensures !NoHistory(Selecting(p, Only(e)))
  {
    var q := Selecting(p, Only(e));
    StaticRow(p, u, r, i);
    var name := if Possible(p, u, e.documented) then e.documented else e.name;
    var with := InstanceBrings(p, u, name);
    assert AnchorsFor(p.files[u][r], i) == map[];
    hide Brings, Introduces, Present, MapWith, Parsed, LoadTypes, Initial, Apply, After, KnownAt, Certain, ComesAlong, IsDynamic, AnchorsFor, HasTable, AsLoaded, TablesMatch;
    UncertainIsUnknown(p, u, r, i, e.documented);
    UncertainIsUnknown(p, u, r, i, e.name);
    var known := HasTable(CodesBelow(q, u + 1), e);
    var anchors := if known then map[] else with;
    SameFiles(p, q);
    SameKnown(p, q, anchors, u, e.documented);
    SameKnown(p, q, anchors, u, e.name);
    FreshEntry(q, anchors, u, e);
    assert HasTable(CodesBelow(q.(defaults := anchors), u + 1), e) <==> !known;
    StaticEntry(p, u, r, i, anchors, e);
    StaticEntry(p, u, r, i, q.defaults, e);
    StaticMap(q, anchors, u);
    FreshMap(q, anchors, u);
    SameMapWith(q, anchors, u, CodesBelow(q.(defaults := anchors), u + 1));
    StaticRowsIgnoreAnchors(p.files[u], anchors, q.defaults);
    LoneMap(p, anchors, u, CodesBelow(q.(defaults := anchors), u + 1), e);
    LoneMap(p, q.defaults, u, CodesBelow(q, u + 1), e);
    HistoryShows(q, [], anchors, u);
  }

  lemma InstanceBrings(p: Protocol, u: RegType, name: string) returns (with: Anchors)
    requires Possible(p, u, name) && !IsDynamic(p, u)
    ensures KnownAt(p, with, u, name)
  {
    var w: RegType, x: nat, j: nat :| Brings(p, w, x, j, name) && w <= u && j > 0;
    with := map[CountName(p.files[w][x].cell.stem) := Number(j)];
    assert Present(p, with, w, x, j);
  }

  lemma StaticRow(p: Protocol, u: RegType, r: nat, i: nat)
    requires IsEntryRow(p, u, r, i) && !IsDynamic(p, u)
    ensures i == 0 && IsPlain(p.files[u][r]) && p.files[u][r].cell.Literal? && !HasTemplates(p.files[u])
  {
    assert !IsTemplate(p.files[u][r]);
  }

  lemma StaticEntry(p: Protocol, u: RegType, r: nat, i: nat, anchors: Anchors, e: Entry)
    requires IsEntryRow(p, u, r, i) && !IsDynamic(p, u)
    requires LineAt(p.files[u][r], i, map[]).place.Address? && e == EntryOf(LineAt(p.files[u][r], i, map[]))
    ensures e in EntriesOf(LinesOf(p.files[u], anchors)) && !e.describes
  {
    StaticRow(p, u, r, i);
    assert LineAt(p.files[u][r], i, map[]) == LineAt(p.files[u][r], i, anchors);
    OwnEntry(p, u, r, i, anchors, e);
  }

  lemma StaticMap(q: Protocol, anchors: Anchors, u: RegType)
    requires u in q.files && !IsDynamic(q, u)
    ensures var s := Apply(q, After(q, []), anchors, Everything());
            u in s.maps && s.maps[u] == MapWith(q, q.defaults, u, CodesBelow(q, u + 1))
  {
    var s := Initial(q);
    InitialMap(q, u, TYPES);
    InitialIsFresh(q);
    assert Good(q, s, s.anchors, u);
    assert u !in s.dynamicTypes;
    var merged := Kept(q.defaults, Everything()) + anchors;
    RebuildIsReady(q, s, merged);
    LoadTypesAreGood(q, s.(anchors := merged), s.dynamicTypes, TYPES);
    hide MapWith, CodesBelow, Good, LoadTypes, Ready, Loaded, Fresh;
    assert SameFor(s.(anchors := merged), Rebuild(q, s.(anchors := merged)), u);
  }

  /** Whole maps have no history, whichever entries are selected, if and only if every entry the files may
      yield is settled. */
  lemma NoHistoryExactly(p: Protocol)
    requires TablesMatch(p)
    ensures (forall keep: Entry -> bool :: NoHistory(Selecting(p, keep))) <==> Settled(p)
  {
    hide NoHistory, TablesMatch, SettledAt, AnchorsFor, IsDynamic;
    if Settled(p) {
      forall keep: Entry -> bool ensures NoHistory(Selecting(p, keep)) {
        SelectingIsSettled(p, keep);
        SettledHasNoHistory(Selecting(p, keep));
      }
    } else {
      var u: RegType, r: nat, i: nat :| IsEntryRow(p, u, r, i) && !SettledAt(p, u, r, i);
      if IsDynamic(p, u) {
        OwnLine(p, u, r, i);
        var e := EntryOf(LineAt(p.files[u][r], i, AnchorsFor(p.files[u][r], i)));
        UnsettledDynamic(p, u, r, i, e);
      } else {
        StaticRow(p, u, r, i);
        var e := EntryOf(LineAt(p.files[u][r], i, map[]));
        UnsettledStatic(p, u, r, i, e);
      }
    }
  }

  lemma SelectingIsSettled(p: Protocol, keep: Entry -> bool)
    requires TablesMatch(p) && Settled(p)
    ensures var q := Selecting(p, keep);
            TablesMatch(q) && Settled(q) && OnlySelects(q.finish)
  {
    SameFiles(p, Selecting(p, keep));
  }
}
