/** What a dynamic map is read for has no history: it depends on the anchors alone, and the anchors on
    the last discovery alone. Only description entries may outlive what brought their tables. */
module DynamicMapsTheorems {
  import opened DynamicMaps
  import R = RegisterMap
  import B = Batching
  import BT = BatchingTheorems
  import D = Decoding

  // ------------------------------------------------------------------
  // One type's part of the state
  // ------------------------------------------------------------------

  function OfType(deferred: seq<Deferred>, t: RegType): seq<Deferred> {
    if deferred == [] then []
    else
      var init, d := OfType(deferred[..|deferred| - 1], t), deferred[|deferred| - 1];
      if d.registryType == t then init + [d] else init
  }

  lemma {:induction false} OfTypeWithout(deferred: seq<Deferred>, t: RegType, u: RegType)
    ensures OfType(WithoutType(deferred, t), u) == if u == t then [] else OfType(deferred, u)
  {
    if deferred != [] {
      var n := |deferred| - 1;
      OfTypeWithout(deferred[..n], t, u);
      OfTypeConcat(WithoutType(deferred[..n], t), [deferred[n]], u);
      assert [deferred[n]][..0] == [];
    }
  }

  lemma {:induction false} OfTypeConcat(a: seq<Deferred>, b: seq<Deferred>, u: RegType)
    ensures OfType(a + b, u) == OfType(a, u) + OfType(b, u)
  {
    if b == [] {
      assert a + b == a;
    } else {
      var n := |b| - 1;
      OfTypeConcat(a, b[..n], u);
      assert (a + b)[..|a + b| - 1] == a + b[..n];
    }
  }

  lemma {:induction false} OfTypeTagged(lines: seq<Line>, t: RegType, u: RegType)
    ensures OfType(Tagged(lines, t), u) == if u == t then Tagged(lines, t) else []
  {
    if lines != [] {
      var n := |lines| - 1;
      OfTypeTagged(lines[..n], t, u);
      assert Tagged(lines, t)[..n] == Tagged(lines[..n], t);
      assert Tagged(lines, t)[n] == Deferred(t, lines[n]);
      if u == t {
        assert Tagged(lines, t) == Tagged(lines[..n], t) + [Deferred(t, lines[n])];
      }
    }
  }

  // ------------------------------------------------------------------
  // Where lines and tables come from
  // ------------------------------------------------------------------

  /** Row `q` yields a line as instance `j`, or as itself if `j` is 0. */
  predicate IsLine(rows: seq<Row>, q: nat, j: nat, anchors: Anchors) {
    && q < |rows| && rows[q].Row?
    && if j == 0 then IsPlain(rows[q]) else rows[q].cell.PerInstance? && j <= CountOf(anchors, rows[q].cell.stem)
  }

  lemma {:induction false} LineHasRow(rows: seq<Row>, anchors: Anchors, line: Line) returns (q: nat, j: nat)
    requires line in LinesOf(rows, anchors)
    ensures IsLine(rows, q, j, anchors) && line == LineAt(rows[q], j, anchors)
  {
    var n := |rows| - 1;
    if line in LinesOf(rows[..n], anchors) {
      q, j := LineHasRow(rows[..n], anchors, line);
    } else {
      q := n;
      var lines := Expand(rows[n], anchors);
      assert line in lines;
      var i :| 0 <= i < |lines| && lines[i] == line;
      j := if IsPlain(rows[n]) then 0 else i + 1;
    }
  }

  lemma {:induction false} RowHasLine(rows: seq<Row>, anchors: Anchors, q: nat, j: nat)
    requires IsLine(rows, q, j, anchors)
    ensures LineAt(rows[q], j, anchors) in LinesOf(rows, anchors)
  {
    var n := |rows| - 1;
    if q < n {
      RowHasLine(rows[..n], anchors, q, j);
    } else if j > 0 {
      assert Expand(rows[n], anchors)[j - 1] == LineAt(rows[n], j, anchors);
    }
  }

  /** Row `q` of type `w`, as instance `j`, brings a table for the name. */
  predicate Introduces(p: Protocol, w: RegType, q: nat, j: nat, name: string) {
    && w in p.files && q < |p.files[w]| && p.files[w][q].Row? && p.files[w][q].table.Some?
    && NameFor(p.files[w][q].documented, j) == name
    && if j == 0 then IsPlain(p.files[w][q]) else p.files[w][q].cell.PerInstance?
  }

  /** That row is there under the anchors. */
  predicate Present(p: Protocol, anchors: Anchors, w: RegType, q: nat, j: nat) {
    w in p.files && IsLine(p.files[w], q, j, anchors)
  }

  lemma {:induction false} TablesAreKept(codes: Codes, lines: seq<Line>, name: string)
    requires name in codes
    ensures name in WithTables(codes, lines) && WithTables(codes, lines)[name] == codes[name]
  {
    if lines != [] {
      TablesAreKept(codes, lines[..|lines| - 1], name);
    }
  }

  lemma {:induction false} TablesAreAdded(codes: Codes, lines: seq<Line>, i: nat)
    requires i < |lines| && lines[i].table.Some?
    ensures lines[i].documented in WithTables(codes, lines)
  {
    if i < |lines| - 1 {
      TablesAreAdded(codes, lines[..|lines| - 1], i);
    }
  }

  lemma {:induction false} TableHasLine(codes: Codes, lines: seq<Line>, name: string) returns (i: nat)
    requires name in WithTables(codes, lines) && name !in codes
    ensures i < |lines| && lines[i].table.Some? && lines[i].documented == name
    ensures WithTables(codes, lines)[name] == lines[i].table.value
  {
    var n := |lines| - 1;
    if name in WithTables(codes, lines[..n]) {
      i := TableHasLine(codes, lines[..n], name);
    } else {
      i := n;
    }
  }

  ghost predicate Extends(codes: Codes, more: Codes) {
    forall name | name in codes :: name in more && more[name] == codes[name]
  }

  /** The table of a name comes from the protocol or from a row of a type below `k`. */
  ghost predicate Sourced(p: Protocol, codes: Codes, k: nat) {
    forall name | name in codes && name !in p.codes :: HasSource(p, name, codes[name], k)
  }

  ghost predicate HasSource(p: Protocol, name: string, table: Table, k: nat) {
    exists w: RegType, q: nat, j: nat :: w < k && Introduces(p, w, q, j, name) && table == p.files[w][q].table.value
  }

  /** All names for which rows of the types below `k` bring tables under the anchors are known. */
  ghost predicate Covers(p: Protocol, codes: Codes, anchors: Anchors, k: nat) {
    forall w: RegType, q: nat, j: nat, name | w < k && Introduces(p, w, q, j, name) && Present(p, anchors, w, q, j) :: name in codes
  }

  /** All names for which plain rows of a type bring tables are known. */
  ghost predicate CoversPlain(p: Protocol, codes: Codes, w: RegType) {
    forall q: nat, name | Introduces(p, w, q, 0, name) :: name in codes
  }

  predicate IsDynamic(p: Protocol, t: RegType) { t in p.files && HasTemplates(p.files[t]) }

  lemma StaticRowsAreStatic(p: Protocol, w: RegType, q: nat, j: nat, name: string)
    requires Introduces(p, w, q, j, name) && !IsDynamic(p, w)
    ensures j == 0
  {
    assert !IsTemplate(p.files[w][q]);
  }

  /** Loading one type keeps the tables, adds those of its rows, and no others. */
  lemma TablesOfLoad(p: Protocol, anchors: Anchors, t: RegType, codes: Codes, k: nat)
    requires t in p.files && t < k
    ensures var more := WithTables(codes, LinesOf(p.files[t], anchors));
            && Extends(codes, more)
            && (Sourced(p, codes, k) ==> Sourced(p, more, k))
            && forall q: nat, j: nat, name | Introduces(p, t, q, j, name) && Present(p, anchors, t, q, j) :: name in more
  {
    hide LinesOf, WithTables, Introduces, HasSource;
    var lines := LinesOf(p.files[t], anchors);
    var more := WithTables(codes, lines);
    forall name | name in codes ensures name in more && more[name] == codes[name] {
      TablesAreKept(codes, lines, name);
    }
    if Sourced(p, codes, k) {
      forall name | name in more && name !in p.codes ensures HasSource(p, name, more[name], k) {
        if name !in codes {
          NewTableHasSource(p, anchors, t, codes, k, name);
        }
      }
    }
    forall q: nat, j: nat, name | Introduces(p, t, q, j, name) && Present(p, anchors, t, q, j) ensures name in more {
      PresentIsAdded(p, anchors, t, codes, q, j, name);
    }
  }

  lemma NewTableHasSource(p: Protocol, anchors: Anchors, t: RegType, codes: Codes, k: nat, name: string)
    requires t in p.files && t < k && name !in codes
    requires name in WithTables(codes, LinesOf(p.files[t], anchors))
    ensures HasSource(p, name, WithTables(codes, LinesOf(p.files[t], anchors))[name], k)
  {
    hide LinesOf, WithTables;
    var i := TableHasLine(codes, LinesOf(p.files[t], anchors), name);
    var q, j := LineHasRow(p.files[t], anchors, LinesOf(p.files[t], anchors)[i]);
    assert Introduces(p, t, q, j, name);
  }

  lemma PresentIsAdded(p: Protocol, anchors: Anchors, t: RegType, codes: Codes, q: nat, j: nat, name: string)
    requires Introduces(p, t, q, j, name) && Present(p, anchors, t, q, j)
    ensures name in WithTables(codes, LinesOf(p.files[t], anchors))
  {
    hide LinesOf, WithTables;
    RowHasLine(p.files[t], anchors, q, j);
    var lines := LinesOf(p.files[t], anchors);
    var i: nat :| i < |lines| && lines[i] == LineAt(p.files[t][q], j, anchors);
    TablesAreAdded(codes, lines, i);
  }

  // ------------------------------------------------------------------
  // What a load leaves
  // ------------------------------------------------------------------

  /** The entries that stand for registers of their own. */
  function Direct(entries: seq<Entry>): seq<Entry> {
    if entries == [] then []
    else
      var e := entries[|entries| - 1];
      Direct(entries[..|entries| - 1]) + if e.describes then [] else [e]
  }

  lemma {:induction false} DirectConcat(a: seq<Entry>, b: seq<Entry>)
    ensures Direct(a + b) == Direct(a) + Direct(b)
  {
    hide Direct;
    if b == [] {
      assert a + b == a;
      DirectNone();
    } else {
      var init, e := b[..|b| - 1], b[|b| - 1];
      DirectConcat(a, init);
      DirectSnoc(init, e);
      DirectSnoc(a + init, e);
      assert b == init + [e];
      assert a + b == a + init + [e];
    }
  }

  lemma DirectNone()
    ensures Direct([]) == []
  {
  }

  lemma DirectSnoc(entries: seq<Entry>, e: Entry)
    ensures Direct(entries + [e]) == Direct(entries) + if e.describes then [] else [e]
  {
    assert (entries + [e])[..|entries|] == entries;
  }

  lemma {:induction false} DescriptionsAreIndirect(entries: seq<Entry>, k: nat, codes: Codes, screened: string -> bool)
    requires k <= |entries|
    ensures Direct(Descriptions(entries, k, codes, screened)) == []
  {
    if k > 0 {
      DescriptionsAreIndirect(entries, k - 1, codes, screened);
      var before := Descriptions(entries, k - 1, codes, screened);
      DirectConcat(before, [DescriptionOf(entries[k - 1])]);
      assert [DescriptionOf(entries[k - 1])][..0] == [];
    }
  }

  lemma DirectOfMap(p: Protocol, anchors: Anchors, t: RegType, codes: Codes)
    requires t in p.files
    ensures Direct(MapWith(p, anchors, t, codes).entries) == Direct(Parsed(p, anchors, t))
  {
    var entries := Parsed(p, anchors, t);
    DirectConcat(entries, Descriptions(entries, |entries|, codes, p.screened));
    DescriptionsAreIndirect(entries, |entries|, codes, p.screened);
  }

  /** What is left of one type's load, apart from description entries. */
  datatype Part = NoFile | Part(entries: seq<Entry>, deferred: seq<Deferred>, dynamic: bool)

  function FreshPart(p: Protocol, anchors: Anchors, t: RegType): Part {
    if t !in p.files then NoFile
    else Part(Direct(Parsed(p, anchors, t)), Tagged(Parked(LinesOf(p.files[t], anchors)), t), HasTemplates(p.files[t]))
  }

  function PartOf(s: State, t: RegType): Part {
    if t !in s.maps then NoFile else Part(Direct(s.maps[t].entries), OfType(s.deferred, t), t in s.dynamicTypes)
  }

  /** The tables a type's descriptions may have been made from: those of the protocol, and those of
      rows. All rows of this and earlier types that are there now have brought theirs; a type that
      is loaded only once knows nothing of later types. */
  ghost predicate Plausible(p: Protocol, anchors: Anchors, t: RegType, codes: Codes) {
    && Extends(p.codes, codes)
    && Sourced(p, codes, if IsDynamic(p, t) then TYPES else t + 1)
    && forall w: RegType, q: nat, j: nat, name |
         w <= t && Introduces(p, w, q, j, name) && (j == 0 || (IsDynamic(p, t) && Present(p, anchors, w, q, j))) :: name in codes
  }

  ghost predicate GoodMap(p: Protocol, anchors: Anchors, t: RegType, m: LoadedMap)
    requires t in p.files
  {
    exists codes :: m == MapWith(p, anchors, t, codes) && Plausible(p, anchors, t, codes)
  }

  /** A type's part of the state is as a load under the anchors leaves it. */
  ghost predicate Good(p: Protocol, s: State, anchors: Anchors, t: RegType) {
    if t in p.files then
      && t in s.maps && GoodMap(p, anchors, t, s.maps[t])
      && OfType(s.deferred, t) == Tagged(Parked(LinesOf(p.files[t], anchors)), t)
      && (t in s.dynamicTypes <==> HasTemplates(p.files[t]))
    else t !in s.maps && OfType(s.deferred, t) == [] && t !in s.dynamicTypes
  }

  lemma GoodIsFresh(p: Protocol, s: State, anchors: Anchors, t: RegType)
    requires Good(p, s, anchors, t)
    ensures PartOf(s, t) == FreshPart(p, anchors, t)
  {
    hide Plausible, MapWith, Parsed;
    if t in p.files {
      var codes :| s.maps[t] == MapWith(p, anchors, t, codes) && Plausible(p, anchors, t, codes);
      DirectOfMap(p, anchors, t, codes);
    }
  }

  lemma LoadIsGood(p: Protocol, s: State, t: RegType)
    requires t in p.files
    requires Plausible(p, s.anchors, t, WithTables(s.codes, LinesOf(p.files[t], s.anchors)))
    ensures Good(p, Load(p, s, t), s.anchors, t)
  {
    hide Plausible, LinesOf, WithTables, Parked, HasTemplates, MapWith;
    var lines := LinesOf(p.files[t], s.anchors);
    OfTypeWithout(s.deferred, t, t);
    OfTypeConcat(WithoutType(s.deferred, t), Tagged(Parked(lines), t), t);
    OfTypeTagged(Parked(lines), t, t);
  }

  /** Two states agree on one type. */
  ghost predicate SameFor(a: State, b: State, t: RegType) {
    && (t in a.maps <==> t in b.maps) && (t in a.maps ==> a.maps[t] == b.maps[t])
    && OfType(a.deferred, t) == OfType(b.deferred, t)
    && (t in a.dynamicTypes <==> t in b.dynamicTypes)
  }

  lemma LoadLeavesOthers(p: Protocol, s: State, t: RegType, u: RegType)
    requires u != t
    ensures SameFor(s, Load(p, s, t), u)
  {
    hide LinesOf, WithTables, Parked, HasTemplates, MapWith;
    if t in p.files {
      var lines := LinesOf(p.files[t], s.anchors);
      OfTypeWithout(s.deferred, t, u);
      OfTypeConcat(WithoutType(s.deferred, t), Tagged(Parked(lines), t), u);
      OfTypeTagged(Parked(lines), t, u);
    }
  }

  lemma SameIsGood(p: Protocol, a: State, b: State, anchors: Anchors, t: RegType)
    requires SameFor(a, b, t) && Good(p, a, anchors, t)
    ensures Good(p, b, anchors, t)
  {
    hide GoodMap, Parked, LinesOf;
  }

  lemma SourcedFurther(p: Protocol, codes: Codes, k: nat, m: nat)
    requires Sourced(p, codes, k) && k <= m
    ensures Sourced(p, codes, m)
  {
    forall name | name in codes && name !in p.codes ensures HasSource(p, name, codes[name], m) {
      var w: RegType, q: nat, j: nat :| w < k && Introduces(p, w, q, j, name) && codes[name] == p.files[w][q].table.value;
    }
  }

  /** What loading the chosen types relies on: the others are static and have been loaded, and either
      nothing has been loaded or only dynamic types are chosen. */
  ghost predicate Ready(p: Protocol, s: State, chosen: set<RegType>) {
    && chosen <= p.files.Keys
    && Extends(p.codes, s.codes)
    && (forall w: RegType | w in p.files && w !in chosen :: !IsDynamic(p, w) && CoversPlain(p, s.codes, w))
    && (s.codes == p.codes || (Sourced(p, s.codes, TYPES) && forall w: RegType | w in chosen :: IsDynamic(p, w)))
  }

  /** The tables known once the chosen types below `k` are loaded. */
  ghost predicate Loaded(p: Protocol, before: Codes, codes: Codes, anchors: Anchors, k: nat) {
    && Extends(before, codes) && Covers(p, codes, anchors, k)
    && Sourced(p, codes, if before == p.codes then k else TYPES)
  }

  lemma {:induction false} LoadTypesAreGood(p: Protocol, s: State, chosen: set<RegType>, k: nat)
    requires k <= TYPES && Ready(p, s, chosen)
    ensures var after := LoadTypes(p, s, chosen, k);
            && after.anchors == s.anchors && Loaded(p, s.codes, after.codes, s.anchors, k)
            && forall u: RegType :: if u < k && u in chosen then Good(p, after, s.anchors, u) else SameFor(s, after, u)
  {
    hide Loaded, Good, SameFor, Load, Ready;
    if k == 0 {
      NothingLoaded(p, s, chosen);
      forall u: RegType ensures SameFor(s, s, u) {
        SameAsItself(s, u);
      }
    } else {
      LoadTypesAreGood(p, s, chosen, k - 1);
      var t: RegType, before := k - 1, LoadTypes(p, s, chosen, k - 1);
      if t in chosen {
        LoadOfChosen(p, s, chosen, before, t);
        forall u: RegType ensures if u < k && u in chosen then Good(p, Load(p, before, t), s.anchors, u) else SameFor(s, Load(p, before, t), u) {
          if u != t {
            LoadLeavesOthers(p, before, t, u);
            OthersStay(p, s, before, Load(p, before, t), s.anchors, u, u < k && u in chosen);
          }
        }
      } else {
        LoadOfNone(p, s, chosen, before.codes, t);
      }
    }
  }

  lemma SameAsItself(s: State, u: RegType)
    ensures SameFor(s, s, u)
  {
  }

  lemma OthersStay(p: Protocol, s: State, before: State, after: State, anchors: Anchors, u: RegType, good: bool)
    requires SameFor(before, after, u) && if good then Good(p, before, anchors, u) else SameFor(s, before, u)
    ensures if good then Good(p, after, anchors, u) else SameFor(s, after, u)
  {
    if good {
      SameIsGood(p, before, after, anchors, u);
    }
  }

  lemma NothingLoaded(p: Protocol, s: State, chosen: set<RegType>)
    requires Ready(p, s, chosen)
    ensures Loaded(p, s.codes, s.codes, s.anchors, 0)
  {
  }

  lemma LoadOfNone(p: Protocol, s: State, chosen: set<RegType>, codes: Codes, t: RegType)
    requires Ready(p, s, chosen) && t !in chosen && Loaded(p, s.codes, codes, s.anchors, t)
    ensures Loaded(p, s.codes, codes, s.anchors, t + 1)
  {
    hide IsDynamic, HasSource;
    SourcedFurther(p, codes, if s.codes == p.codes then t else TYPES, if s.codes == p.codes then t + 1 else TYPES);
    forall w: RegType, q: nat, j: nat, name | w < t + 1 && Introduces(p, w, q, j, name) && Present(p, s.anchors, w, q, j)
      ensures name in codes
    {
      if w == t {
        StaticRowsAreStatic(p, w, q, j, name);
        assert name in s.codes;
      }
    }
  }

  /** One chosen type more: its part is good, and so are the tables. */
  lemma LoadOfChosen(p: Protocol, s: State, chosen: set<RegType>, before: State, t: RegType)
    requires Ready(p, s, chosen) && t in chosen
    requires before.anchors == s.anchors && Loaded(p, s.codes, before.codes, s.anchors, t)
    ensures var after := Load(p, before, t);
            after.anchors == s.anchors && Loaded(p, s.codes, after.codes, s.anchors, t + 1) && Good(p, after, s.anchors, t)
  {
    hide HasSource, Introduces, Present, Good, IsDynamic, LinesOf, WithTables;
    var codes := WithTables(before.codes, LinesOf(p.files[t], s.anchors));
    var k := if s.codes == p.codes then t + 1 else TYPES;
    SourcedFurther(p, before.codes, if s.codes == p.codes then t else TYPES, k);
    TablesOfLoad(p, s.anchors, t, before.codes, k);
    assert Loaded(p, s.codes, codes, s.anchors, t + 1);
    PlausibleOnceLoaded(p, s.codes, codes, s.anchors, t);
    LoadIsGood(p, before, t);
    hide Loaded;
    assert Load(p, before, t).codes == codes;
  }

  lemma PlausibleOnceLoaded(p: Protocol, before: Codes, codes: Codes, anchors: Anchors, t: RegType)
    requires t in p.files && Loaded(p, before, codes, anchors, t + 1) && Extends(p.codes, before)
    requires before == p.codes || IsDynamic(p, t)
    ensures Plausible(p, anchors, t, codes)
  {
    hide HasSource, IsDynamic;
    SourcedFurther(p, codes, if before == p.codes then t + 1 else TYPES, if IsDynamic(p, t) then TYPES else t + 1);
    forall w: RegType, q: nat, j: nat, name |
      w <= t && Introduces(p, w, q, j, name) && (j == 0 || (IsDynamic(p, t) && Present(p, anchors, w, q, j)))
      ensures name in codes
    {
      assert Present(p, anchors, w, q, j);
    }
  }

  // ------------------------------------------------------------------
  // Runs
  // ------------------------------------------------------------------

  /** Every part of the state is as a load under the current anchors leaves it, and the tables are those
      of the protocol and of rows, with all that are there now. */
  ghost predicate Fresh(p: Protocol, s: State) {
    && (forall t: RegType :: Good(p, s, s.anchors, t))
    && Extends(p.codes, s.codes) && Sourced(p, s.codes, TYPES) && Covers(p, s.codes, s.anchors, TYPES)
  }

  lemma InitialIsFresh(p: Protocol)
    ensures Fresh(p, Initial(p)) && Initial(p).anchors == p.defaults
  {
    var s := Unloaded(p);
    LoadTypesAreGood(p, s, p.files.Keys, TYPES);
    hide LoadTypes;
    forall t: RegType ensures Good(p, Initial(p), p.defaults, t) {
      if t !in p.files {
        assert SameFor(s, Initial(p), t);
      }
    }
  }

  lemma {:induction false} StaticRowsIgnoreAnchors(rows: seq<Row>, a: Anchors, b: Anchors)
    requires !HasTemplates(rows)
    ensures LinesOf(rows, a) == LinesOf(rows, b)
  {
    if rows != [] {
      var n := |rows| - 1;
      assert forall i | 0 <= i < n :: rows[..n][i] == rows[i];
      StaticRowsIgnoreAnchors(rows[..n], a, b);
      assert !IsTemplate(rows[n]);
    }
  }

  lemma StaticStaysGood(p: Protocol, s: State, a: Anchors, b: Anchors, t: RegType)
    requires !IsDynamic(p, t) && Good(p, s, a, t)
    ensures Good(p, s, b, t)
  {
    hide Parked, Introduces, Present, HasSource;
    if t in p.files {
      StaticRowsIgnoreAnchors(p.files[t], a, b);
      var codes :| s.maps[t] == MapWith(p, a, t, codes) && Plausible(p, a, t, codes);
      assert MapWith(p, a, t, codes) == MapWith(p, b, t, codes) && Plausible(p, b, t, codes);
    }
  }

  /** Reloading the dynamic types is enough: the rows of the others do not depend on anchors. */
  lemma RebuildMakesFresh(p: Protocol, s: State, anchors: Anchors)
    requires Fresh(p, s)
    ensures Fresh(p, Rebuild(p, s.(anchors := anchors))) && Rebuild(p, s.(anchors := anchors)).anchors == anchors
    ensures Extends(s.codes, Rebuild(p, s.(anchors := anchors)).codes)
  {
    var t0 := s.(anchors := anchors);
    RebuildIsReady(p, s, anchors);
    LoadTypesAreGood(p, t0, t0.dynamicTypes, TYPES);
    var after := Rebuild(p, t0);
    hide LoadTypes, Introduces, Present, HasSource;
    forall t: RegType ensures Good(p, after, anchors, t) {
      assert Good(p, s, s.anchors, t);
      if t !in t0.dynamicTypes {
        assert SameFor(t0, after, t);
        StaticStaysGood(p, s, s.anchors, anchors, t);
        SameIsGood(p, s, after, anchors, t);
      }
    }
    SourcedFurther(p, after.codes, TYPES, TYPES);
  }

  lemma RebuildIsReady(p: Protocol, s: State, anchors: Anchors)
    requires Fresh(p, s)
    ensures Ready(p, s.(anchors := anchors), s.dynamicTypes)
  {
    hide Introduces, HasSource, GoodMap, Parked, LinesOf;
    forall t: RegType ensures t in s.dynamicTypes <==> IsDynamic(p, t) {
      assert Good(p, s, s.anchors, t);
    }
    forall w: RegType | w in p.files ensures CoversPlain(p, s.codes, w) {
      PlainIsCovered(p, s.codes, s.anchors, w);
    }
  }

  lemma PlainIsCovered(p: Protocol, codes: Codes, anchors: Anchors, w: RegType)
    requires Covers(p, codes, anchors, TYPES)
    ensures CoversPlain(p, codes, w)
  {
    forall q: nat, name | Introduces(p, w, q, 0, name) ensures name in codes {
      assert Present(p, anchors, w, q, 0);
    }
  }

  datatype Op = Discovered(anchors: Anchors, owned: string -> bool) | Live(values: Anchors)

  function Step(p: Protocol, s: State, op: Op): State {
    match op
    case Discovered(anchors, owned) => Apply(p, s, anchors, owned)
    case Live(values) => ResolveLive(p, s, values)
  }

  function After(p: Protocol, ops: seq<Op>): State {
    if ops == [] then Initial(p) else Step(p, After(p, ops[..|ops| - 1]), ops[|ops| - 1])
  }

  lemma ApplyIsFresh(p: Protocol, s: State, discovered: Anchors, owned: string -> bool)
    requires Fresh(p, s)
    ensures Fresh(p, Apply(p, s, discovered, owned))
    ensures Apply(p, s, discovered, owned).anchors == Kept(p.defaults, owned) + discovered
    ensures Extends(s.codes, Apply(p, s, discovered, owned).codes)
  {
    RebuildMakesFresh(p, s, Kept(p.defaults, owned) + discovered);
    hide Fresh, Rebuild;
  }

  /** After any sequence of discoveries and live values every map is what a load under the current
      anchors gives, for tables the protocol or its rows have brought. */
  lemma {:induction false} MapsFollowAnchors(p: Protocol, ops: seq<Op>)
    ensures Fresh(p, After(p, ops))
  {
    hide Fresh, Rebuild, Initial, Apply;
    if ops == [] {
      InitialIsFresh(p);
    } else {
      var s := After(p, ops[..|ops| - 1]);
      MapsFollowAnchors(p, ops[..|ops| - 1]);
      match ops[|ops| - 1]
      case Discovered(anchors, owned) => ApplyIsFresh(p, s, anchors, owned);
      case Live(values) => RebuildMakesFresh(p, s, s.anchors + values);
    }
  }

  /** The last discovery decides everything but description entries: the anchors are the defaults it does
      not speak for overlaid with its own, and the entries that stand for registers, the deferred
      rows and the set of dynamic types are those of a protocol loaded with these anchors from
      the start. */
  lemma LastDiscoveryDecides(p: Protocol, ops: seq<Op>, discovered: Anchors, owned: string -> bool)
    ensures var s := Apply(p, After(p, ops), discovered, owned);
            var anchors := Kept(p.defaults, owned) + discovered;
            var loaded := Initial(p.(defaults := anchors));
            && s.anchors == anchors == loaded.anchors
            && (forall t: RegType :: PartOf(s, t) == PartOf(loaded, t))
            && s.dynamicTypes == loaded.dynamicTypes
  {
    var anchors := Kept(p.defaults, owned) + discovered;
    var q := p.(defaults := anchors);
    MapsFollowAnchors(p, ops);
    ApplyIsFresh(p, After(p, ops), discovered, owned);
    InitialIsFresh(q);
    SameParts(p, Apply(p, After(p, ops), discovered, owned), Initial(q));
  }

  lemma SameParts(p: Protocol, a: State, b: State)
    requires Fresh(p, a) && a.anchors == b.anchors && Fresh(p.(defaults := b.anchors), b)
    ensures (forall t: RegType :: PartOf(a, t) == PartOf(b, t)) && a.dynamicTypes == b.dynamicTypes
  {
    var q := p.(defaults := b.anchors);
    forall t: RegType ensures PartOf(a, t) == PartOf(b, t) && (t in a.dynamicTypes <==> t in b.dynamicTypes) {
      assert Good(p, a, a.anchors, t) && Good(q, b, b.anchors, t);
      GoodIsFresh(p, a, a.anchors, t);
      GoodIsFresh(q, b, b.anchors, t);
      assert FreshPart(p, a.anchors, t) == FreshPart(q, a.anchors, t);
    }
  }

  // ------------------------------------------------------------------
  // What is polled
  // ------------------------------------------------------------------

  lemma {:induction false} DescriptionHasEntry(entries: seq<Entry>, k: nat, codes: Codes, screened: string -> bool, i: nat)
    returns (j: nat)
    requires k <= |entries| && i < |Descriptions(entries, k, codes, screened)|
    ensures j < k && Descriptions(entries, k, codes, screened)[i] == DescriptionOf(entries[j])
  {
    if i < |Descriptions(entries, k - 1, codes, screened)| {
      j := DescriptionHasEntry(entries, k - 1, codes, screened, i);
    } else {
      j := k - 1;
    }
  }

  lemma {:induction false} UnselectedAddNothing(a: seq<B.Row>, b: seq<B.Row>, start: int, c: B.Call)
    requires forall i | 0 <= i < |b| :: !c.Selects(b[i])
    ensures B.WindowSpan(a + b, start, c) == B.WindowSpan(a, start, c)
  {
    if b == [] {
      assert a + b == a;
    } else {
      UnselectedAddNothing(a, b[..|b| - 1], start, c);
      assert (a + b)[..|a + b| - 1] == a + b[..|b| - 1];
    }
  }

  lemma {:induction false} UnselectedAddNoRange(a: seq<B.Row>, b: seq<B.Row>, k: nat, c: B.Call)
    requires forall i | 0 <= i < |b| :: !c.Selects(b[i])
    ensures B.RangesBelow(a + b, k, c) == B.RangesBelow(a, k, c)
  {
    if k > 0 {
      UnselectedAddNoRange(a, b, k - 1, c);
      UnselectedAddNothing(a, b, (k - 1) * c.batch, c);
    }
  }

  lemma {:induction false} LowerAddNoSize(a: seq<B.Row>, b: seq<B.Row>)
    requires forall i | 0 <= i < |b| :: B.LastRegister(b[i].field) <= B.MapSize(a)
    ensures B.MapSize(a + b) == B.MapSize(a)
  {
    if b == [] {
      assert a + b == a;
    } else {
      LowerAddNoSize(a, b[..|b| - 1]);
      assert (a + b)[..|a + b| - 1] == a + b[..|b| - 1];
    }
  }

  ghost predicate AllValid(entries: seq<Entry>) {
    forall i | 0 <= i < |entries| :: R.ValidField(AsRow(entries[i]).field)
  }

  lemma DescriptionAddsNoRegister(entries: seq<Entry>, j: nat)
    requires AllValid(entries) && j < |entries|
    ensures B.LastRegister(AsRow(DescriptionOf(entries[j])).field) <= B.MapSize(AsRows(entries))
  {
    hide B.MapSize;
    BT.MapSizeReaches(AsRows(entries), j);
  }

  /** Description entries add no register to a map and nothing to its first poll. */
  lemma DescriptionsAreNotPolled(p: Protocol, entries: seq<Entry>, codes: Codes)
    requires AllValid(entries)
    ensures var m, n := Measured(p, Described(entries, codes, p.screened)), Measured(p, entries);
            m.size == n.size && m.ranges == n.ranges
  {
    hide Descriptions, B.MapSize, B.LastRegister, B.WindowSpan;
    var more := Descriptions(entries, |entries|, codes, p.screened);
    var a, b := AsRows(entries), AsRows(more);
    assert AsRows(entries + more) == a + b;
    forall i: nat | i < |b| ensures B.LastRegister(b[i].field) <= B.MapSize(a) && b[i].writeMode.ReadDisabled? {
      var j := DescriptionHasEntry(entries, |entries|, codes, p.screened, i);
      DescriptionAddsNoRegister(entries, j);
    }
    LowerAddNoSize(a, b);
    var c := FirstPoll(p, B.MapSize(a));
    if p.batch > 0 {
      UnselectedAddNoRange(a, b, c.Windows(), c);
    }
  }

  /** So what is polled has no history either. */
  lemma LastDiscoveryDecidesThePoll(p: Protocol, ops: seq<Op>, discovered: Anchors, owned: string -> bool, t: RegType)
    requires t in p.files && AllValid(Parsed(p, Kept(p.defaults, owned) + discovered, t))
    ensures var s := Apply(p, After(p, ops), discovered, owned);
            var loaded := Initial(p.(defaults := Kept(p.defaults, owned) + discovered));
            && t in s.maps && t in loaded.maps
            && s.maps[t].size == loaded.maps[t].size && s.maps[t].ranges == loaded.maps[t].ranges
  {
    var anchors := Kept(p.defaults, owned) + discovered;
    var q := p.(defaults := anchors);
    MapsFollowAnchors(p, ops);
    ApplyIsFresh(p, After(p, ops), discovered, owned);
    InitialIsFresh(q);
    var s, loaded := Apply(p, After(p, ops), discovered, owned), Initial(q);
    assert Good(p, s, anchors, t) && Good(q, loaded, anchors, t);
    hide Plausible, Apply, Initial, After, Fresh, Parsed, Described, Measured;
    var c :| s.maps[t] == MapWith(p, anchors, t, c) && Plausible(p, anchors, t, c);
    var d :| loaded.maps[t] == MapWith(q, anchors, t, d) && Plausible(q, anchors, t, d);
    SameParsed(p, q, anchors, t);
    DescriptionsAreNotPolled(p, Parsed(p, anchors, t), c);
    DescriptionsAreNotPolled(q, Parsed(q, anchors, t), d);
    SameMeasure(p, q, Parsed(p, anchors, t));
  }

  lemma SameParsed(p: Protocol, q: Protocol, anchors: Anchors, t: RegType)
    requires t in p.files && p.files == q.files && p.finish == q.finish
    ensures Parsed(p, anchors, t) == Parsed(q, anchors, t)
  {
  }

  lemma SameMeasure(p: Protocol, q: Protocol, entries: seq<Entry>)
    requires p.batch == q.batch
    ensures Measured(p, entries) == Measured(q, entries)
  {
  }

  /** After any sequence of discoveries and live values the first poll of each map fetches what its
      readable, well-placed entries need, wherever the anchors have put them. */
  lemma FirstPollSuffices(p: Protocol, ops: seq<Op>, s: State, t: RegType, row: B.Row, registry: map<int, int>, wo: D.WordOrder)
    requires p.batch > 0 && s == After(p, ops) && t in s.maps
    requires row in AsRows(s.maps[t].entries)
    requires R.ValidField(row.field) && BT.WellPlaced(row.field) && row.field.register >= 0
    requires !row.writeMode.ReadDisabled? && !row.writeMode.WriteOnly?
    requires forall a | BT.Fetched(s.maps[t].ranges, a) :: a in registry
    ensures D.ProcessUshort(registry, row.field, wo).Ok?
  {
    hide After, BT.WellPlaced, D.ProcessUshort, R.ValidField, B.MapSize, B.AllRanges, BT.Fetched, Described, Plausible;
    MapsFollowAnchors(p, ops);
    assert Good(p, s, s.anchors, t);
    assert s.maps[t] == Measured(p, s.maps[t].entries);
    var rows := AsRows(s.maps[t].entries);
    var i: nat :| i < |rows| && rows[i] == row;
    BT.InitialPollSuffices(rows, p.batch, 0.0, i, registry, wo);
  }
}
