/** What a merge of scanned keys adds, value by value, and what its counts count. */
module SyncResults {
  import opened Options
  import opened Inheritance
  import opened DefaultsSync

  /** The scan offers the key to its transport: nothing resolves it, and nothing removes it on purpose. */
  predicate IsOffered(raw: Raw, scan: Scan, k: string) {
    k in scan.keys && k !in Resolve(scan.name, raw, {}) && !Removes(EntryOf(raw, scan.name), k)
  }

  /** The default the scan found, or the empty text. */
  function Scanned(scan: Scan, k: string): string
    requires k in scan.keys
  {
    if scan.keys[k].Some? then scan.keys[k].value else ""
  }

  /** One scan merged: its transport is there if it has keys, and has every key it is offered with the value
      the scan found; everything else is as it was. */
  ghost predicate IsMerged(raw: Raw, after: Raw, scan: Scan) {
    && after.Keys == raw.Keys + (if scan.keys == map[] then {} else {scan.name})
    && (forall name | name in raw && name != scan.name :: name in after && after[name] == raw[name])
    && forall k :: Get(EntryOf(after, scan.name), k)
                   == if IsOffered(raw, scan, k) then Some(Scanned(scan, k)) else Get(EntryOf(raw, scan.name), k)
  }

  lemma MergeOneExactly(raw: Raw, scan: Scan)
    ensures IsMerged(raw, MergeOne(raw, scan), scan)
  {
    var after := MergeOne(raw, scan);
    if scan.name !in raw {
      UnknownResolvesNothing(raw, scan.name);
    }
    hide Resolve, Removes;
    forall k ensures Get(EntryOf(after, scan.name), k)
                     == if IsOffered(raw, scan, k) then Some(Scanned(scan, k)) else Get(EntryOf(raw, scan.name), k)
    {
      OfferedIsLacking(raw, scan, k);
    }
  }

  lemma OfferedIsLacking(raw: Raw, scan: Scan, k: string)
    ensures IsOffered(raw, scan, k) <==> k in Missing(raw, scan)
    ensures scan.name !in raw ==> (IsOffered(raw, scan, k) <==> k in scan.keys)
  {
    if scan.name !in raw {
      UnknownResolvesNothing(raw, scan.name);
    }
    hide Resolve;
  }

  /** What a transport resolves after its scan: what it resolved before, nothing for what it removes on
      purpose, and the value found for every other key of the scan. */
  lemma MergedResolvesExactly(raw: Raw, scan: Scan, k: string)
    requires Settings(scan) && k in scan.keys
    ensures Get(Resolve(scan.name, MergeOne(raw, scan), {}), k)
         == if k in Resolve(scan.name, raw, {}) then Get(Resolve(scan.name, raw, {}), k)
            else if Removes(EntryOf(raw, scan.name), k) then None
            else Some(Scanned(scan, k))
  {
    var after := MergeOne(raw, scan);
    SettingsAreHarmless(scan);
    MergeOneExactly(raw, scan);
    ResolveIsLookup(scan.name, k, after, {});
    if k in Resolve(scan.name, raw, {}) {
      MergeOneIsConservative(raw, scan);
    } else {
      EntriesOnlyGrow(raw, scan, scan.name);
      hide Resolve, MergeOne;
      if IsOffered(raw, scan, k) {
        OfferedIsDefined(raw, scan, k);
      }
    }
  }

  lemma OfferedIsDefined(raw: Raw, scan: Scan, k: string)
    requires Settings(scan) && IsOffered(raw, scan, k) && IsMerged(raw, MergeOne(raw, scan), scan)
    ensures Lookup(scan.name, k, MergeOne(raw, scan), {}) == Some(Scanned(scan, k))
  {
    var after := MergeOne(raw, scan);
    hide Resolve, MergeOne;
    RemovalsAreKept(raw, scan, k);
    assert Get(EntryOf(after, scan.name), k) == Some(Scanned(scan, k));
  }

  /** A scan of settings adds no removal. */
  lemma RemovalsAreKept(raw: Raw, scan: Scan, k: string)
    requires Settings(scan) && IsMerged(raw, MergeOne(raw, scan), scan)
    ensures Removes(EntryOf(MergeOne(raw, scan), scan.name), k) <==> Removes(EntryOf(raw, scan.name), k)
  {
    hide Resolve, MergeOne;
    if k != "" {
      RemovalKeyOf(k);
      assert !IsOffered(raw, scan, REMOVAL_PREFIX + k);
      assert Get(EntryOf(MergeOne(raw, scan), scan.name), REMOVAL_PREFIX + k) == Get(EntryOf(raw, scan.name), REMOVAL_PREFIX + k);
    }
  }

  /** However many scans follow, a key that a scan has added keeps the value it found. */
  lemma AddedValueStays(raw: Raw, scan: Scan, k: string, later: seq<Scan>)
    requires Settings(scan) && IsOffered(raw, scan, k)
    requires forall i | 0 <= i < |later| :: Harmless(later[i])
    ensures Get(Resolve(scan.name, Merge(MergeOne(raw, scan), later), {}), k) == Some(Scanned(scan, k))
  {
    hide Resolve, MergeOne, Merge, Harmless;
    MergedResolvesExactly(raw, scan, k);
    MergeIsConservative(MergeOne(raw, scan), later);
  }

  /** How names are read: one that starts with a dollar sign is private, one that starts with two dashes and
      goes on removes the rest, every other is a setting; `$extends` names the parent. */
  lemma NamesAreRead(e: Entry, k: string)
    ensures IsSetting(k) <==> !(|k| > 0 && k[0] == '$') && !(|k| > 2 && k[0] == '-' && k[1] == '-')
    ensures Removes(e, k) <==> k != "" && "--" + k in e
    ensures Get(e, "$extends") == Some("base") ==> ParentOf(e) == Some("base")
  {
    assert "$" <= k <==> |k| > 0 && k[0] == '$';
    assert "--" <= k <==> |k| > 1 && k[0] == '-' && k[1] == '-';
  }

  // ------------------------------------------------------------------
  // What is counted
  // ------------------------------------------------------------------

  /** All keys of all transports, each with the name of its transport. */
  function Pairs(raw: Raw): set<(string, string)> {
    set name, k | name in raw && k in raw[name] :: (name, k)
  }

  function Offers(raw: Raw, scan: Scan): set<(string, string)> {
    set k | k in Missing(raw, scan) :: (scan.name, k)
  }

  lemma {:induction false} AsManyPairs(name: string, ks: set<string>)
    ensures |set k | k in ks :: (name, k)| == |ks|
  {
    var pairs := set k | k in ks :: (name, k);
    if ks != {} {
      var k :| k in ks;
      AsManyPairs(name, ks - {k});
      assert pairs == (set x | x in ks - {k} :: (name, x)) + {(name, k)};
    }
  }

  lemma MergeAddsOffers(raw: Raw, scan: Scan)
    requires Settings(scan)
    ensures Pairs(MergeOne(raw, scan)) == Pairs(raw) + Offers(raw, scan) && Pairs(raw) !! Offers(raw, scan)
    ensures StatsOne(raw, scan).newKeys == |Missing(raw, scan)|
  {
    hide *;
    MergeOneExactly(raw, scan);
    forall k ensures IsOffered(raw, scan, k) <==> k in Missing(raw, scan) {
      OfferedIsLacking(raw, scan, k);
    }
    forall k | k in Missing(raw, scan) ensures k !in EntryOf(raw, scan.name) {
      OfferedIsNew(raw, scan, k);
    }
    EntryGains(raw, MergeOne(raw, scan), scan);
    PairsGain(raw, MergeOne(raw, scan), scan);
    StatsCountMissing(raw, scan);
  }

  lemma StatsCountMissing(raw: Raw, scan: Scan)
    ensures StatsOne(raw, scan).newKeys == |Missing(raw, scan)|
  {
    forall k ensures scan.name !in raw ==> (k in Missing(raw, scan) <==> k in scan.keys) {
      OfferedIsLacking(raw, scan, k);
    }
    hide Resolve, Missing, IsOffered;
    assert scan.name !in raw ==> Missing(raw, scan) == scan.keys.Keys;
    if scan.keys == map[] {
      NothingIsMissing(raw, scan);
    }
  }

  lemma NothingIsMissing(raw: Raw, scan: Scan)
    requires scan.keys == map[]
    ensures Missing(raw, scan) == {}
  {
    hide Resolve;
  }

  lemma EntryGains(raw: Raw, after: Raw, scan: Scan)
    requires IsMerged(raw, after, scan)
    requires forall k :: IsOffered(raw, scan, k) <==> k in Missing(raw, scan)
    ensures forall k :: k in EntryOf(after, scan.name) <==> k in EntryOf(raw, scan.name) || k in Missing(raw, scan)
  {
    hide Resolve, Missing, EntryOf, Removes;
    forall k ensures k in EntryOf(after, scan.name) <==> k in EntryOf(raw, scan.name) || k in Missing(raw, scan) {
      assert Get(EntryOf(after, scan.name), k)
             == if IsOffered(raw, scan, k) then Some(Scanned(scan, k)) else Get(EntryOf(raw, scan.name), k);
    }
  }

  lemma PairsGain(raw: Raw, after: Raw, scan: Scan)
    requires IsMerged(raw, after, scan)
    requires forall k :: k in EntryOf(after, scan.name) <==> k in EntryOf(raw, scan.name) || k in Missing(raw, scan)
    requires forall k | k in Missing(raw, scan) :: k !in EntryOf(raw, scan.name)
    ensures Pairs(after) == Pairs(raw) + Offers(raw, scan) && Pairs(raw) !! Offers(raw, scan)
  {
    hide IsOffered, Missing, Resolve;
    forall name, k ensures (name, k) in Pairs(after) <==> (name, k) in Pairs(raw) || (name, k) in Offers(raw, scan) {
      if name == scan.name {
        assert k in EntryOf(after, name) <==> k in EntryOf(raw, name) || k in Missing(raw, scan);
      }
    }
  }

  /** An offered setting is not in the entry: it would be resolved. */
  lemma OfferedIsNew(raw: Raw, scan: Scan, k: string)
    requires Settings(scan) && IsOffered(raw, scan, k)
    ensures k !in EntryOf(raw, scan.name)
  {
    ResolveIsLookup(scan.name, k, raw, {});
    hide Resolve;
    if k in EntryOf(raw, scan.name) {
      DefinedIsFound(raw, scan.name, k);
    }
  }

  /** The counts are the numbers of transports and keys that were not there before. */
  lemma {:induction false} StatsCountAdditions(raw: Raw, library: seq<Scan>)
    requires forall i | 0 <= i < |library| :: Settings(library[i])
    ensures var after, stats := Merge(raw, library), MergeStats(raw, library);
            && stats.newTransports == |after.Keys| - |raw.Keys| && raw.Keys <= after.Keys
            && stats.newKeys == |Pairs(after)| - |Pairs(raw)| && Pairs(raw) <= Pairs(after)
  {
    hide MergeOne, StatsOne, Pairs, Settings, Offers;
    if library != [] {
      var n := |library| - 1;
      StatsCountAdditions(raw, library[..n]);
      var before, scan := Merge(raw, library[..n]), library[n];
      MergeAddsOffers(before, scan);
      OffersCount(before, scan);
      TransportsCount(before, scan);
    }
  }

  lemma OffersCount(raw: Raw, scan: Scan)
    ensures |Offers(raw, scan)| == |Missing(raw, scan)|
  {
    hide Missing;
    AsManyPairs(scan.name, Missing(raw, scan));
  }

  lemma TransportsCount(raw: Raw, scan: Scan)
    ensures var after := MergeOne(raw, scan);
            raw.Keys <= after.Keys && StatsOne(raw, scan).newTransports == |after.Keys| - |raw.Keys|
  {
    MergeOneExactly(raw, scan);
    hide MergeOne, Missing;
    if scan.keys != map[] && scan.name !in raw {
      assert |raw.Keys + {scan.name}| == |raw.Keys| + 1;
    } else {
      assert MergeOne(raw, scan).Keys == raw.Keys;
    }
  }
}
