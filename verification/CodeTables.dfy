/** When whole register maps, description entries included, have no history: the tables that rows bring
    stay known after the rows have gone, so an entry may keep a description a fresh load would not
    give it. */
module CodeTables {
  import opened Options
  import opened Decimals
  import opened DynamicMaps
  import opened DynamicMapsTheorems

  // ------------------------------------------------------------------
  // The condition
  // ------------------------------------------------------------------

  /** Row `q` of type `w`, as instance `j`, brings a table with entries for the name. */
  predicate Brings(p: Protocol, w: RegType, q: nat, j: nat, name: string) {
    Introduces(p, w, q, j, name) && p.files[w][q].table.value != map[]
  }

  /** No two rows bring tables for one name of which only one has entries. */
  ghost predicate TablesMatch(p: Protocol) {
    forall w: RegType, q: nat, j: nat, w': RegType, q': nat, j': nat, name |
      Introduces(p, w, q, j, name) && Introduces(p, w', q', j', name) ::
      Brings(p, w, q, j, name) ==> Brings(p, w', q', j', name)
  }

  /** Row `r` of type `u` stands for an entry as instance `i`, or as itself if `i` is 0. */
  predicate IsEntryRow(p: Protocol, u: RegType, r: nat, i: nat) {
    && u in p.files && r < |p.files[u]| && p.files[u][r].Row?
    && if i == 0 then IsPlain(p.files[u][r]) else p.files[u][r].cell.PerInstance?
  }

  /** Row `q` of type `w` is there as instance `j` whenever row `r` of type `u` is there as instance `i`. */
  predicate ComesAlong(p: Protocol, u: RegType, r: nat, i: nat, w: RegType, q: nat, j: nat)
    requires IsEntryRow(p, u, r, i)
  {
    j == 0 || (&& i > 0 && j <= i && w in p.files && q < |p.files[w]| && p.files[w][q].Row? && p.files[w][q].cell.PerInstance?
               && p.files[w][q].cell.stem == p.files[u][r].cell.stem)
  }

  /** Whenever the entry is there its load knows a table for the name: the protocol has one, or a row of
      this or an earlier type that comes along brings one. */
  ghost predicate Certain(p: Protocol, u: RegType, r: nat, i: nat, name: string)
    requires IsEntryRow(p, u, r, i)
  {
    if name in p.codes then p.codes[name] != map[]
    else exists w: RegType, q: nat, j: nat :: w <= u && Brings(p, w, q, j, name) && ComesAlong(p, u, r, i, w, q, j)
  }

  /** Some row may bring a table for the name before a load of the type: any row if the type is loaded
      again and again, an instance in an earlier type if it is loaded once. */
  ghost predicate Possible(p: Protocol, u: RegType, name: string) {
    && name !in p.codes
    && exists w: RegType, q: nat, j: nat :: Brings(p, w, q, j, name) && (IsDynamic(p, u) || (w <= u && j > 0))
  }

  /** Whether the entry has a table does not depend on what was loaded when. */
  ghost predicate SettledAt(p: Protocol, u: RegType, r: nat, i: nat)
    requires IsEntryRow(p, u, r, i)
  {
    var documented, name := NameFor(p.files[u][r].documented, i), NameFor(p.files[u][r].name, i);
    || Certain(p, u, r, i, documented) || Certain(p, u, r, i, name)
    || (!Possible(p, u, documented) && !Possible(p, u, name))
  }

  /** The condition on the files of a protocol: every entry they may yield is settled. */
  ghost predicate Settled(p: Protocol) {
    forall u: RegType, r: nat, i: nat | IsEntryRow(p, u, r, i) :: SettledAt(p, u, r, i)
  }

  /** Whatever was discovered and resolved before, after a discovery the whole maps are those of a
      protocol loaded with its anchors from the start. */
  ghost predicate AsLoaded(p: Protocol, ops: seq<Op>, discovered: Anchors, owned: string -> bool) {
    Apply(p, After(p, ops), discovered, owned).maps == Initial(p.(defaults := Kept(p.defaults, owned) + discovered)).maps
  }

  ghost predicate NoHistory(p: Protocol) {
    forall ops, discovered, owned :: AsLoaded(p, ops, discovered, owned)
  }

  // ------------------------------------------------------------------
  // It suffices
  // ------------------------------------------------------------------

  lemma CertainIsTabled(p: Protocol, anchors: Anchors, u: RegType, r: nat, i: nat, name: string, codes: Codes)
    requires TablesMatch(p) && IsEntryRow(p, u, r, i) && Present(p, anchors, u, r, i)
    requires Plausible(p, anchors, u, codes) && Certain(p, u, r, i, name)
    ensures Tabled(codes, name)
  {
    if name !in p.codes {
      var w: RegType, q: nat, j: nat :| w <= u && Brings(p, w, q, j, name) && ComesAlong(p, u, r, i, w, q, j);
      if j > 0 {
        InstanceIsDynamic(p, u, r, i);
        assert Present(p, anchors, w, q, j);
      }
      assert name in codes;
      KnownTableMatches(p, codes, name, if IsDynamic(p, u) then TYPES else u + 1, w, q, j);
    }
  }

  lemma InstanceIsDynamic(p: Protocol, u: RegType, r: nat, i: nat)
    requires IsEntryRow(p, u, r, i) && i > 0
    ensures IsDynamic(p, u)
  {
    assert IsTemplate(p.files[u][r]);
  }

  lemma KnownTableMatches(p: Protocol, codes: Codes, name: string, k: nat, w: RegType, q: nat, j: nat)
    requires TablesMatch(p) && Sourced(p, codes, k) && name in codes && name !in p.codes
    requires Introduces(p, w, q, j, name)
    ensures codes[name] != map[] <==> Brings(p, w, q, j, name)
  {
    assert HasSource(p, name, codes[name], k);
    var w': RegType, q': nat, j': nat :| w' < k && Introduces(p, w', q', j', name) && codes[name] == p.files[w'][q'].table.value;
    assert codes[name] != map[] <==> Brings(p, w', q', j', name);
    hide Introduces;
  }

  lemma TabledIsCertainOrPossible(p: Protocol, anchors: Anchors, u: RegType, r: nat, i: nat, name: string, codes: Codes)
    requires IsEntryRow(p, u, r, i) && Plausible(p, anchors, u, codes) && Tabled(codes, name)
    ensures Certain(p, u, r, i, name) || Possible(p, u, name)
  {
    if name !in p.codes {
      assert HasSource(p, name, codes[name], if IsDynamic(p, u) then TYPES else u + 1);
      var w: RegType, q: nat, j: nat :| w < (if IsDynamic(p, u) then TYPES else u + 1)
                                              && Introduces(p, w, q, j, name) && codes[name] == p.files[w][q].table.value;
      assert Brings(p, w, q, j, name);
      assert j == 0 && w <= u ==> ComesAlong(p, u, r, i, w, q, j);
    }
  }

  /** In a settled protocol an entry has a table exactly when it is certain to have one. */
  lemma SettledDecides(p: Protocol, anchors: Anchors, u: RegType, e: Entry, a: Codes, b: Codes)
    requires TablesMatch(p) && Settled(p) && u in p.files
    requires Plausible(p, anchors, u, a) && Plausible(p, anchors, u, b)
    requires e in EntriesOf(LinesOf(p.files[u], anchors))
    ensures HasTable(a, e) <==> HasTable(b, e)
  {
    hide LinesOf, EntriesOf, Plausible, Certain, Possible;
    var line := EntryHasLine(LinesOf(p.files[u], anchors), e);
    var r, i := LineHasRow(p.files[u], anchors, line);
    assert IsEntryRow(p, u, r, i) && Present(p, anchors, u, r, i) && SettledAt(p, u, r, i);
    TableIsCertain(p, anchors, u, r, i, e, a);
    TableIsCertain(p, anchors, u, r, i, e, b);
  }

  lemma TableIsCertain(p: Protocol, anchors: Anchors, u: RegType, r: nat, i: nat, e: Entry, codes: Codes)
    requires TablesMatch(p) && IsEntryRow(p, u, r, i) && Present(p, anchors, u, r, i) && SettledAt(p, u, r, i)
    requires Plausible(p, anchors, u, codes)
    requires e.documented == NameFor(p.files[u][r].documented, i) && e.name == NameFor(p.files[u][r].name, i)
    ensures HasTable(codes, e) <==> Certain(p, u, r, i, e.documented) || Certain(p, u, r, i, e.name)
  {
    hide Plausible, Certain, Possible, TablesMatch, Tabled, Present;
    if Certain(p, u, r, i, e.documented) {
      CertainIsTabled(p, anchors, u, r, i, e.documented, codes);
    }
    if Certain(p, u, r, i, e.name) {
      CertainIsTabled(p, anchors, u, r, i, e.name, codes);
    }
    if Tabled(codes, e.documented) {
      TabledIsCertainOrPossible(p, anchors, u, r, i, e.documented, codes);
    }
    if Tabled(codes, e.name) {
      TabledIsCertainOrPossible(p, anchors, u, r, i, e.name, codes);
    }
  }

  lemma {:induction false} EntryHasLine(lines: seq<Line>, e: Entry) returns (line: Line)
    requires e in EntriesOf(lines)
    ensures line in lines && line.place.Address? && e == EntryOf(line)
  {
    var n := |lines| - 1;
    if e in EntriesOf(lines[..n]) {
      line := EntryHasLine(lines[..n], e);
    } else {
      line := lines[n];
    }
  }

  lemma {:induction false} SameDescriptions(entries: seq<Entry>, k: nat, a: Codes, b: Codes, screened: string -> bool)
    requires k <= |entries|
    requires forall i | 0 <= i < |entries| :: HasTable(a, entries[i]) <==> HasTable(b, entries[i])
    ensures Descriptions(entries, k, a, screened) == Descriptions(entries, k, b, screened)
  {
    hide HasTable;
    if k > 0 {
      SameDescriptions(entries, k - 1, a, b, screened);
    }
  }

  /** Finishing a map only chooses among its entries. */
  ghost predicate OnlySelects(finish: seq<Entry> -> seq<Entry>) {
    forall entries, i | 0 <= i < |finish(entries)| :: finish(entries)[i] in entries
  }

  lemma SettledMapsAgree(p: Protocol, q: Protocol, anchors: Anchors, u: RegType, a: LoadedMap, b: LoadedMap)
    requires TablesMatch(p) && Settled(p) && OnlySelects(p.finish) && u in p.files
    requires q == p.(defaults := anchors)
    requires GoodMap(p, anchors, u, a) && GoodMap(q, anchors, u, b)
    ensures a == b
  {
    hide Settled, TablesMatch, Plausible, EntriesOf, LinesOf, Measured, HasTable;
    var c :| a == MapWith(p, anchors, u, c) && Plausible(p, anchors, u, c);
    var d :| b == MapWith(q, anchors, u, d) && Plausible(q, anchors, u, d);
    SamePlausible(p, q, anchors, u, d);
    SameParsed(p, q, anchors, u);
    var entries := Parsed(p, anchors, u);
    forall i | 0 <= i < |entries| ensures HasTable(c, entries[i]) <==> HasTable(d, entries[i]) {
      assert entries[i] in EntriesOf(LinesOf(p.files[u], anchors));
      SettledDecides(p, anchors, u, entries[i], c, d);
    }
    SameDescriptions(entries, |entries|, c, d, p.screened);
    SameMeasure(p, q, Described(entries, c, p.screened));
  }

  lemma SamePlausible(p: Protocol, q: Protocol, anchors: Anchors, u: RegType, codes: Codes)
    requires p.files == q.files && p.codes == q.codes
    ensures Plausible(p, anchors, u, codes) <==> Plausible(q, anchors, u, codes)
  {
    assert forall w: RegType, r: nat, j: nat, name :: Introduces(p, w, r, j, name) <==> Introduces(q, w, r, j, name);
    assert forall w: RegType, r: nat, j: nat :: Present(p, anchors, w, r, j) <==> Present(q, anchors, w, r, j);
    assert IsDynamic(p, u) <==> IsDynamic(q, u);
    hide Introduces, Present, IsDynamic;
    var k := if IsDynamic(p, u) then TYPES else u + 1;
    assert forall name, table :: HasSource(p, name, table, k) <==> HasSource(q, name, table, k);
  }

  /** A settled protocol's whole maps have no history, whichever entries its masks let through and
      whichever descriptions it screens. */
  lemma SettledHasNoHistory(p: Protocol)
    requires TablesMatch(p) && Settled(p) && OnlySelects(p.finish)
    ensures NoHistory(p)
  {
    hide TablesMatch, Settled, Apply, Initial, After, GoodMap, OnlySelects;
    forall ops, discovered, owned: string -> bool ensures AsLoaded(p, ops, discovered, owned) {
      var anchors := Kept(p.defaults, owned) + discovered;
      var q := p.(defaults := anchors);
      var s, loaded := Apply(p, After(p, ops), discovered, owned), Initial(q);
      MapsFollowAnchors(p, ops);
      ApplyIsFresh(p, After(p, ops), discovered, owned);
      InitialIsFresh(q);
      forall u: RegType ensures (u in s.maps <==> u in loaded.maps) && (u in s.maps ==> s.maps[u] == loaded.maps[u]) {
        assert Good(p, s, anchors, u) && Good(q, loaded, anchors, u);
        if u in p.files {
          SettledMapsAgree(p, q, anchors, u, s.maps[u], loaded.maps[u]);
        }
      }
      assert s.maps == loaded.maps;
    }
  }
}
