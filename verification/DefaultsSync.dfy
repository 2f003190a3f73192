/** Merging the keys found in the transport library into the defaults file: nothing resolved changes,
    nothing removed comes back, everything found is covered, and a second merge does nothing. */
module DefaultsSync {
  import opened Options
  import opened Inheritance

  /** The keys scanned from one transport's source; a key may have no default there. */
  datatype Scan = Scan(name: string, keys: map<string, Option<string>>)

  datatype Stats = Stats(newTransports: nat, newKeys: nat)

  function DefaultOf(v: Option<string>): string {
    match v
    case None => ""
    case Some(s) => s
  }

  /** The scanned keys an existing entry neither resolves nor removes. */
  function Missing(raw: Raw, scan: Scan): set<string> {
    Lacking(EntryOf(raw, scan.name), Resolve(scan.name, raw, {}), scan)
  }

  function WithDefaults(e: Entry, scan: Scan, ks: set<string>): Entry
    requires ks <= scan.keys.Keys
  {
    e + map k | k in ks :: DefaultOf(scan.keys[k])
  }

  function MergeOne(raw: Raw, scan: Scan): Raw {
    if scan.keys == map[] then raw
    else if scan.name !in raw then raw[scan.name := WithDefaults(map[], scan, scan.keys.Keys)]
    else raw[scan.name := WithDefaults(raw[scan.name], scan, Missing(raw, scan))]
  }

  function StatsOne(raw: Raw, scan: Scan): Stats {
    if scan.keys == map[] then Stats(0, 0)
    else if scan.name !in raw then Stats(1, |scan.keys|)
    else Stats(0, |Missing(raw, scan)|)
  }

  /** All scans merged in order; later transports see what earlier ones added to their parents. */
  function Merge(raw: Raw, library: seq<Scan>): Raw {
    if library == [] then raw else MergeOne(Merge(raw, library[..|library| - 1]), library[|library| - 1])
  }

  function MergeStats(raw: Raw, library: seq<Scan>): Stats {
    if library == [] then Stats(0, 0)
    else
      var n := |library| - 1;
      var s, t := MergeStats(raw, library[..n]), StatsOne(Merge(raw, library[..n]), library[n]);
      Stats(s.newTransports + t.newTransports, s.newKeys + t.newKeys)
  }

  /** The merge step of a synchronization, without purging. */
  method SyncFromLibrary(before: Raw, library: seq<Scan>) returns (raw: Raw, stats: Stats, changed: bool)
    ensures raw == Merge(before, library) && stats == MergeStats(before, library)
    ensures changed <==> stats != Stats(0, 0)
  {
    hide MergeOne, StatsOne;
    raw, stats, changed := before, Stats(0, 0), false;
    for n := 0 to |library|
      invariant raw == Merge(before, library[..n]) && stats == MergeStats(before, library[..n])
      invariant changed <==> stats != Stats(0, 0)
    {
      assert library[..n + 1][..n] == library[..n];
      var added;
      raw, added := SyncTransport(raw, library[n]);
      stats := Stats(stats.newTransports + added.newTransports, stats.newKeys + added.newKeys);
      changed := changed || added.newKeys > 0 || added.newTransports > 0;
    }
    assert library[..|library|] == library;
  }

  method SyncTransport(before: Raw, scan: Scan) returns (raw: Raw, added: Stats)
    ensures raw == MergeOne(before, scan) && added == StatsOne(before, scan)
  {
    raw, added := before, Stats(0, 0);
    if scan.keys == map[] {
      return;
    }
    if scan.name !in raw {
      var entry := map k | k in scan.keys :: DefaultOf(scan.keys[k]);
      assert entry == WithDefaults(map[], scan, scan.keys.Keys);
      return raw[scan.name := entry], Stats(1, |scan.keys|);
    }
    var resolved := ResolveTransport(scan.name, raw, {});
    var entry, newKeys := AddMissing(raw[scan.name], resolved, scan);
    raw := raw[scan.name := entry];
    added := Stats(0, newKeys);
  }

  /** The scanned keys an entry with these resolved keys lacks. */
  function Lacking(e: Entry, resolved: Entry, scan: Scan): (r: set<string>)
    ensures r <= scan.keys.Keys
  {
    set k | k in scan.keys && !Removes(e, k) && k !in resolved
  }

  lemma LackingAt(e: Entry, resolved: Entry, scan: Scan, k: string)
    requires k in scan.keys
    ensures k in Lacking(e, resolved, scan) <==> k !in Removals(e) && k !in resolved
  {
    RemovalsAt(e, k);
  }

  method AddMissing(before: Entry, resolved: Entry, scan: Scan) returns (entry: Entry, newKeys: nat)
    ensures entry == WithDefaults(before, scan, Lacking(before, resolved, scan))
    ensures newKeys == |Lacking(before, resolved, scan)|
  {
    hide WithDefaults, Lacking, Removals, OwnKeys;
    var _, removed := SplitEntry(before);
    entry, newKeys := before, 0;
    ghost var all, missing := Lacking(before, resolved, scan), {};
    NothingAdded(before, scan);
    var todo := scan.keys.Keys;
    while todo != {}
      invariant todo <= scan.keys.Keys && missing <= scan.keys.Keys
      invariant missing == all - todo
      invariant entry == WithDefaults(before, scan, missing) && newKeys == |missing|
      decreases |todo|
    {
      var key :| key in todo;
      LackingAt(before, resolved, scan, key);
      TakeOne(all, todo, key);
      todo := todo - {key};
      if key !in removed && key !in resolved {
        AddOne(before, scan, missing, key);
        entry := entry[key := DefaultOf(scan.keys[key])];
        newKeys := newKeys + 1;
        missing := missing + {key};
      }
    }
    assert missing == all;
  }

  lemma TakeOne(all: set<string>, todo: set<string>, key: string)
    requires key in todo
    ensures all - (todo - {key}) == if key in all then (all - todo) + {key} else all - todo
    ensures key in all ==> |all - (todo - {key})| == |all - todo| + 1
  {
    if key in all {
      assert all - (todo - {key}) == (all - todo) + {key};
    }
  }

  lemma NothingAdded(e: Entry, scan: Scan)
    ensures WithDefaults(e, scan, {}) == e
  {
  }

  lemma AddOne(e: Entry, scan: Scan, ks: set<string>, key: string)
    requires ks <= scan.keys.Keys && key in scan.keys
    ensures WithDefaults(e, scan, ks + {key}) == WithDefaults(e, scan, ks)[key := DefaultOf(scan.keys[key])]
  {
  }

  // ------------------------------------------------------------------
  // What a merge keeps
  // ------------------------------------------------------------------

  /** A name that reads as a directive: another parent, or the removal of a setting. */
  predicate IsDirective(k: string) {
    k == EXTENDS || (IsRemovalKey(k) && IsSetting(RemovalTarget(k)))
  }

  ghost predicate Harmless(scan: Scan) {
    forall k | k in scan.keys :: !IsDirective(k)
  }

  /** No key resolved before has another value after. */
  ghost predicate Conserved(before: Raw, after: Raw) {
    forall name, key :: key in Resolve(name, before, {}) ==> Get(Resolve(name, after, {}), key) == Get(Resolve(name, before, {}), key)
  }

  lemma {:induction false} FewerVisitedFindMore(name: string, key: string, raw: Raw, visited: set<string>, fewer: set<string>)
    requires fewer <= visited && Lookup(name, key, raw, visited).Some?
    ensures Lookup(name, key, raw, fewer) == Lookup(name, key, raw, visited)
    decreases |raw.Keys - visited|
  {
    var e := EntryOf(raw, name);
    if !Removes(e, key) && !Defines(e, key) {
      VisitShrinks(raw, visited, name);
      FewerVisitedFindMore(ParentOf(e).value, key, raw, visited + {name}, fewer + {name});
    }
  }

  /** The entry a merge changes gains only keys it could not resolve. */
  lemma MergedEntry(raw: Raw, scan: Scan, key: string)
    requires Harmless(scan) && Lookup(scan.name, key, raw, {}).Some?
    ensures var e, f := EntryOf(raw, scan.name), EntryOf(MergeOne(raw, scan), scan.name);
            && ParentOf(e) == ParentOf(f)
            && (Removes(f, key) <==> Removes(e, key))
            && Get(f, key) == Get(e, key)
  {
    ResolveIsLookup(scan.name, key, raw, {});
    LookupIsOfSetting(scan.name, key, raw, {});
    if key != "" {
      RemovalKeyOf(key);
      assert IsDirective(REMOVAL_PREFIX + key);
    }
    assert IsDirective(EXTENDS);
  }

  lemma {:induction false} LookupIsOfSetting(name: string, key: string, raw: Raw, visited: set<string>)
    ensures Lookup(name, key, raw, visited).Some? ==> IsSetting(key)
    decreases |raw.Keys - visited|
  {
    if name !in visited && ParentOf(EntryOf(raw, name)).Some? {
      hide Removes, IsSetting;
      VisitShrinks(raw, visited, name);
      LookupIsOfSetting(ParentOf(EntryOf(raw, name)).value, key, raw, visited + {name});
    }
  }

  lemma OtherEntries(raw: Raw, scan: Scan, name: string)
    requires name != scan.name
    ensures EntryOf(MergeOne(raw, scan), name) == EntryOf(raw, name)
  {
  }

  lemma {:induction false} LookupIsConserved(name: string, key: string, raw: Raw, scan: Scan, visited: set<string>)
    requires Harmless(scan) && Lookup(name, key, raw, visited).Some?
    ensures Lookup(name, key, MergeOne(raw, scan), visited) == Lookup(name, key, raw, visited)
    decreases |raw.Keys - visited|
  {
    hide MergeOne;
    var after := MergeOne(raw, scan);
    var e := EntryOf(raw, name);
    if name == scan.name {
      FewerVisitedFindMore(name, key, raw, visited, {});
      MergedEntry(raw, scan, key);
    } else {
      OtherEntries(raw, scan, name);
    }
    if !Removes(e, key) && !Defines(e, key) {
      VisitShrinks(raw, visited, name);
      LookupIsConserved(ParentOf(e).value, key, raw, scan, visited + {name});
    }
  }

  lemma MergeOneIsConservative(raw: Raw, scan: Scan)
    requires Harmless(scan)
    ensures Conserved(raw, MergeOne(raw, scan))
  {
    hide MergeOne, Resolve, Lookup;
    forall name, key | key in Resolve(name, raw, {})
      ensures Get(Resolve(name, MergeOne(raw, scan), {}), key) == Get(Resolve(name, raw, {}), key)
    {
      ResolveIsLookup(name, key, raw, {});
      ResolveIsLookup(name, key, MergeOne(raw, scan), {});
      LookupIsConserved(name, key, raw, scan, {});
    }
  }

  /** Merging changes no resolved default of any transport, cyclic inheritance included. */
  lemma {:induction false} MergeIsConservative(raw: Raw, library: seq<Scan>)
    requires forall i | 0 <= i < |library| :: Harmless(library[i])
    ensures Conserved(raw, Merge(raw, library))
  {
    hide MergeOne, Resolve, Harmless;
    if library != [] {
      var n := |library| - 1;
      MergeIsConservative(raw, library[..n]);
      MergeOneIsConservative(Merge(raw, library[..n]), library[n]);
    }
  }

  /** A key is covered when its transport resolves it or removes it on purpose. */
  ghost predicate Covered(raw: Raw, scan: Scan) {
    forall k | k in scan.keys :: k in Resolve(scan.name, raw, {}) || Removes(EntryOf(raw, scan.name), k)
  }

  ghost predicate Settings(scan: Scan) {
    forall k | k in scan.keys :: IsSetting(k)
  }

  lemma SettingsAreHarmless(scan: Scan)
    requires Settings(scan)
    ensures Harmless(scan)
  {
    assert "$" <= EXTENDS;
  }

  lemma EntriesOnlyGrow(raw: Raw, scan: Scan, name: string)
    ensures EntryOf(raw, name).Keys <= EntryOf(MergeOne(raw, scan), name).Keys
  {
  }

  lemma MergedIsCovered(raw: Raw, scan: Scan)
    requires Settings(scan)
    ensures Covered(MergeOne(raw, scan), scan)
  {
    SettingsAreHarmless(scan);
    var after := MergeOne(raw, scan);
    forall k | k in scan.keys ensures k in Resolve(scan.name, after, {}) || Removes(EntryOf(after, scan.name), k) {
      hide Resolve, Lookup, WithDefaults;
      ResolveIsLookup(scan.name, k, after, {});
      EntriesOnlyGrow(raw, scan, scan.name);
      if k in Resolve(scan.name, raw, {}) {
        MergeOneIsConservative(raw, scan);
      } else if !Removes(EntryOf(after, scan.name), k) {
        AddedIsDefined(raw, scan, k);
        DefinedIsFound(after, scan.name, k);
      }
    }
  }

  lemma AddedIsDefined(raw: Raw, scan: Scan, k: string)
    requires k in scan.keys && k !in Resolve(scan.name, raw, {}) && !Removes(EntryOf(raw, scan.name), k)
    ensures k in EntryOf(MergeOne(raw, scan), scan.name)
  {
  }

  lemma DefinedIsFound(raw: Raw, name: string, k: string)
    requires Defines(EntryOf(raw, name), k) && !Removes(EntryOf(raw, name), k)
    ensures Lookup(name, k, raw, {}).Some?
  {
  }

  lemma CoveredStays(raw: Raw, scan: Scan, other: Scan)
    requires Covered(raw, scan) && Harmless(other)
    ensures Covered(MergeOne(raw, other), scan)
  {
    hide Resolve, MergeOne;
    MergeOneIsConservative(raw, other);
    EntriesOnlyGrow(raw, other, scan.name);
  }

  /** After a merge every scanned key is resolved or explicitly removed. */
  lemma {:induction false} MergeCoversTheLibrary(raw: Raw, library: seq<Scan>)
    requires forall i | 0 <= i < |library| :: Settings(library[i])
    ensures forall i | 0 <= i < |library| :: Covered(Merge(raw, library), library[i])
  {
    hide MergeOne, Covered, Settings, Harmless;
    if library != [] {
      var n := |library| - 1;
      var before := Merge(raw, library[..n]);
      MergeCoversTheLibrary(raw, library[..n]);
      MergedIsCovered(before, library[n]);
      SettingsAreHarmless(library[n]);
      forall i | 0 <= i < n ensures Covered(Merge(raw, library), library[i]) {
        assert library[..n][i] == library[i];
        CoveredStays(before, library[i], library[n]);
      }
    }
  }

  lemma CoveredNeedsNothing(raw: Raw, scan: Scan)
    requires Covered(raw, scan)
    ensures MergeOne(raw, scan) == raw && StatsOne(raw, scan) == Stats(0, 0)
  {
    hide Resolve, WithDefaults;
    assert Missing(raw, scan) == {};
    NothingAdded(EntryOf(raw, scan.name), scan);
    if scan.keys != map[] {
      var k :| k in scan.keys;
      UnknownResolvesNothing(raw, scan.name);
      assert scan.name in raw;
    }
  }

  lemma UnknownResolvesNothing(raw: Raw, name: string)
    ensures name !in raw ==> Resolve(name, raw, {}) == map[]
  {
  }

  lemma {:induction false} CoveredLibraryNeedsNothing(raw: Raw, library: seq<Scan>)
    requires forall i | 0 <= i < |library| :: Covered(raw, library[i])
    ensures Merge(raw, library) == raw && MergeStats(raw, library) == Stats(0, 0)
  {
    hide MergeOne, StatsOne, Covered;
    if library != [] {
      var n := |library| - 1;
      assert forall i | 0 <= i < n :: library[..n][i] == library[i];
      CoveredLibraryNeedsNothing(raw, library[..n]);
      CoveredNeedsNothing(raw, library[n]);
    }
  }

  /** A second synchronization finds nothing to add. */
  lemma SecondMergeDoesNothing(raw: Raw, library: seq<Scan>)
    requires forall i | 0 <= i < |library| :: Settings(library[i])
    ensures var once := Merge(raw, library);
            Merge(once, library) == once && MergeStats(once, library) == Stats(0, 0)
  {
    MergeCoversTheLibrary(raw, library);
    CoveredLibraryNeedsNothing(Merge(raw, library), library);
  }

  /** An explicit removal survives any merge: the key stays unresolved. */
  lemma {:induction false} RemovalsStay(raw: Raw, library: seq<Scan>, name: string, key: string)
    requires Removes(EntryOf(raw, name), key)
    ensures var after := Merge(raw, library);
            Removes(EntryOf(after, name), key) && key !in Resolve(name, after, {})
  {
    hide MergeOne, Resolve;
    if library != [] {
      var n := |library| - 1;
      RemovalsStay(raw, library[..n], name, key);
      EntriesOnlyGrow(Merge(raw, library[..n]), library[n], name);
    }
    ResolveIsLookup(name, key, Merge(raw, library), {});
  }

  // ------------------------------------------------------------------
  // When merging is not conservative
  // ------------------------------------------------------------------

  /** A transport that defines exactly the key a scanned removal would take away. */
  function RemovedByScan(scan: Scan, k: string): Raw
    requires IsRemovalKey(k)
  {
    map[scan.name := map[RemovalTarget(k) := "1"]]
  }

  lemma RemovalIsAdded(scan: Scan, k: string)
    requires k in scan.keys && IsRemovalKey(k) && IsSetting(RemovalTarget(k))
    ensures !Conserved(RemovedByScan(scan, k), MergeOne(RemovedByScan(scan, k), scan))
  {
    var raw, x := RemovedByScan(scan, k), RemovalTarget(k);
    assert k == REMOVAL_PREFIX + x;
    ResolveIsLookup(scan.name, k, raw, {});
    LookupIsOfSetting(scan.name, k, raw, {});
    var after := MergeOne(raw, scan);
    ResolveIsLookup(scan.name, x, raw, {});
    ResolveIsLookup(scan.name, x, after, {});
  }

  /** A transport that inherits a key from a parent the scan does not name. */
  function InheritedBefore(scan: Scan, parent: string): Raw {
    map[parent := map["y" := "1"], scan.name := map[EXTENDS := parent]]
  }

  lemma ParentIsOverwritten(scan: Scan, parent: string)
    requires EXTENDS in scan.keys && parent == "p" + scan.name + DefaultOf(scan.keys[EXTENDS])
    ensures !Conserved(InheritedBefore(scan, parent), MergeOne(InheritedBefore(scan, parent), scan))
  {
    var raw := InheritedBefore(scan, parent);
    var after := MergeOne(raw, scan);
    ExtendsIsPrivate();
    ResolveIsLookup(scan.name, "y", raw, {});
    ResolveIsLookup(scan.name, "y", after, {});
    InheritedIsFound(scan, parent);
    ParentIsReplaced(scan, parent);
    hide Lookup, Resolve, MergeOne, InheritedBefore;
  }

  lemma InheritedIsFound(scan: Scan, parent: string)
    requires parent != scan.name && parent != ""
    ensures Lookup(scan.name, "y", InheritedBefore(scan, parent), {}) == Some("1")
  {
    ExtendsIsPrivate();
    assert Lookup(parent, "y", InheritedBefore(scan, parent), {scan.name}) == Some("1");
  }

  lemma ParentIsReplaced(scan: Scan, parent: string)
    requires EXTENDS in scan.keys && parent == "p" + scan.name + DefaultOf(scan.keys[EXTENDS])
    ensures Lookup(scan.name, "y", MergeOne(InheritedBefore(scan, parent), scan), {}) == None
  {
    var raw := InheritedBefore(scan, parent);
    var after := MergeOne(raw, scan);
    var d := DefaultOf(scan.keys[EXTENDS]);
    assert |parent| > |scan.name| && |parent| > |d|;
    ExtendsIsPrivate();
    InheritedIsFound(scan, parent);
    ResolveIsLookup(scan.name, "y", raw, {});
    ResolveIsLookup(scan.name, EXTENDS, raw, {});
    LookupIsOfSetting(scan.name, EXTENDS, raw, {});
    hide Resolve;
    assert after[scan.name][EXTENDS] == d;
    assert Lookup(d, "y", after, {scan.name}) == None;
  }

  lemma ExtendsIsPrivate()
    ensures IsPrivate(EXTENDS) && !IsRemovalKey(EXTENDS) && IsSetting("y")
  {
    assert "$" <= EXTENDS;
    assert EXTENDS[0] == '$' != REMOVAL_PREFIX[0];
    assert "y"[0] != '$' && "y"[0] != '-';
  }

  /** Merging a scan is conservative for every defaults file exactly when no scanned name reads as
      a directive. */
  lemma ConservativeExactly(scan: Scan)
    ensures (forall raw: Raw :: Conserved(raw, MergeOne(raw, scan))) <==> Harmless(scan)
  {
    hide Conserved, MergeOne;
    if Harmless(scan) {
      forall raw: Raw ensures Conserved(raw, MergeOne(raw, scan)) {
        MergeOneIsConservative(raw, scan);
      }
    } else {
      var k :| k in scan.keys && IsDirective(k);
      if k == EXTENDS {
        ParentIsOverwritten(scan, "p" + scan.name + DefaultOf(scan.keys[EXTENDS]));
      } else {
        RemovalIsAdded(scan, k);
      }
    }
  }

  // ------------------------------------------------------------------
  // When merging covers what was scanned
  // ------------------------------------------------------------------

  /** The longest of the names that are no settings. */
  ghost predicate IsLongest(ks: set<string>, k: string) {
    k in ks && !IsSetting(k) && forall x | x in ks && !IsSetting(x) :: |x| <= |k|
  }

  lemma {:induction false} SomeIsLongest(ks: set<string>, k: string)
    requires k in ks && !IsSetting(k)
    ensures exists longest :: IsLongest(ks, longest)
    decreases |ks|
  {
    if y :| y in ks && !IsSetting(y) && |y| > |k| {
      var rest := ks - {k};
      SomeIsLongest(rest, y);
      var longest :| IsLongest(rest, longest);
      assert IsLongest(ks, longest);
    } else {
      assert IsLongest(ks, k);
    }
  }

  /** Merged into an empty file, the longest name that is no setting is neither resolved nor removed:
      the name that would remove it is longer still. */
  lemma LongestIsUncovered(scan: Scan, k: string)
    requires IsLongest(scan.keys.Keys, k)
    ensures !Covered(MergeOne(map[], scan), scan)
  {
    var after := MergeOne(map[], scan);
    ResolveIsLookup(scan.name, k, after, {});
    LookupIsOfSetting(scan.name, k, after, {});
    if k != "" {
      RemovalKeyOf(k);
      assert REMOVAL_PREFIX + k !in scan.keys;
    }
    assert EntryOf(after, scan.name).Keys == scan.keys.Keys;
    assert !Removes(EntryOf(after, scan.name), k);
  }

  /** Merging covers a scan whatever the defaults file exactly when every scanned name is a setting. */
  lemma CoversExactly(scan: Scan)
    ensures (forall raw: Raw :: Covered(MergeOne(raw, scan), scan)) <==> Settings(scan)
  {
    hide Covered, MergeOne;
    if Settings(scan) {
      forall raw: Raw ensures Covered(MergeOne(raw, scan), scan) {
        MergedIsCovered(raw, scan);
      }
    } else {
      var k :| k in scan.keys && !IsSetting(k);
      SomeIsLongest(scan.keys.Keys, k);
      var longest :| IsLongest(scan.keys.Keys, longest);
      LongestIsUncovered(scan, longest);
    }
  }

  /** A scanned name that is neither resolved nor removed is written again, and counted as new, by
      every merge. */
  lemma UncoveredIsAddedAgain(raw: Raw, scan: Scan, k: string)
    requires k in scan.keys && scan.name in raw
    requires k !in Resolve(scan.name, raw, {}) && !Removes(raw[scan.name], k)
    ensures StatsOne(raw, scan).newKeys > 0
    ensures MergeOne(raw, scan)[scan.name][k] == DefaultOf(scan.keys[k])
  {
    assert k in Missing(raw, scan);
  }

  lemma NothingNewMeansCovered(raw: Raw, scan: Scan)
    requires StatsOne(raw, scan) == Stats(0, 0)
    ensures Covered(raw, scan)
  {
    hide Resolve, Removes;
    forall k | k in scan.keys ensures k in Resolve(scan.name, raw, {}) || Removes(EntryOf(raw, scan.name), k) {
      if k !in Resolve(scan.name, raw, {}) && !Removes(EntryOf(raw, scan.name), k) {
        UncoveredIsAddedAgain(raw, scan, k);
      }
    }
  }

  /** So a second merge is without effect, whatever the defaults file, exactly for such scans. */
  lemma SecondMergeIsIdleExactly(scan: Scan)
    ensures (forall raw: Raw :: StatsOne(MergeOne(raw, scan), scan) == Stats(0, 0)) <==> Settings(scan)
  {
    hide Covered, MergeOne, StatsOne;
    CoversExactly(scan);
    if forall raw: Raw :: StatsOne(MergeOne(raw, scan), scan) == Stats(0, 0) {
      forall raw: Raw ensures Covered(MergeOne(raw, scan), scan) {
        NothingNewMeansCovered(MergeOne(raw, scan), scan);
      }
    }
    if Settings(scan) {
      forall raw: Raw ensures StatsOne(MergeOne(raw, scan), scan) == Stats(0, 0) {
        CoveredNeedsNothing(MergeOne(raw, scan), scan);
      }
    }
  }
}
