/** Default settings of transports: inheritance through `$extends`, removal through `--key`, and the
    merge of keys found by scanning the transport library. */
module Inheritance {
  import opened Options

  type Entry = map<string, string>
  type Raw = map<string, Entry>

  const REMOVAL_PREFIX: string := "--"
  const EXTENDS: string := "$extends"

  predicate IsRemovalKey(key: string) { REMOVAL_PREFIX <= key && |key| > |REMOVAL_PREFIX| }

  function RemovalTarget(key: string): string
    requires IsRemovalKey(key)
  {
    key[|REMOVAL_PREFIX|..]
  }

  predicate IsPrivate(key: string) { "$" <= key }

  /** A real setting, neither a directive nor a removal. */
  predicate IsSetting(key: string) { !IsPrivate(key) && !IsRemovalKey(key) }

  function EntryOf(raw: Raw, name: string): Entry {
    if name in raw then raw[name] else map[]
  }

  /** The parent an entry names; an empty name is no parent. */
  function ParentOf(e: Entry): Option<string> {
    if EXTENDS in e && e[EXTENDS] != "" then Some(e[EXTENDS]) else None
  }

  predicate Defines(e: Entry, key: string) { key in e && IsSetting(key) }

  predicate Removes(e: Entry, key: string) { key != "" && REMOVAL_PREFIX + key in e }

  // ------------------------------------------------------------------
  // Resolution
  // ------------------------------------------------------------------

  function OwnKeys(e: Entry): Entry { map k | k in e && IsSetting(k) :: e[k] }

  function Removals(e: Entry): set<string> {
    set k | k in e && !IsPrivate(k) && IsRemovalKey(k) :: RemovalTarget(k)
  }

  function Resolve(name: string, raw: Raw, visited: set<string>): Entry
    decreases |raw.Keys - visited|
  {
    if name in visited then map[]
    else
      var e := EntryOf(raw, name);
      match ParentOf(e)
      case None => OwnKeys(e) - Removals(e)
      case Some(parent) =>
        VisitShrinks(raw, visited, name);
        (Resolve(parent, raw, visited + {name}) + OwnKeys(e)) - Removals(e)
  }

  lemma VisitShrinks(raw: Raw, visited: set<string>, name: string)
    requires name in raw && name !in visited
    ensures |raw.Keys - (visited + {name})| < |raw.Keys - visited|
  {
    assert raw.Keys - visited == (raw.Keys - (visited + {name})) + {name};
  }

  /** The recursive resolution: collect, merge over the parent's keys, remove. The visited names are
      handed on to the parent's resolution. */
  method ResolveTransport(name: string, raw: Raw, visited: set<string>) returns (resolved: Entry)
    ensures resolved == Resolve(name, raw, visited)
    decreases |raw.Keys - visited|
  {
    if name in visited {
      return map[];
    }
    var seen := visited + {name};
    var entry := EntryOf(raw, name);
    var ownKeys, removals := SplitEntry(entry);
    resolved := ownKeys;
    if EXTENDS in entry && entry[EXTENDS] != "" {
      VisitShrinks(raw, visited, name);
      var parentKeys := ResolveTransport(entry[EXTENDS], raw, seen);
      resolved := parentKeys + ownKeys;
    }
    resolved := RemoveAll(resolved, removals);
  }

  method RemoveAll(merged: Entry, removals: set<string>) returns (resolved: Entry)
    ensures resolved == merged - removals
  {
    resolved := merged;
    var todo := removals;
    while todo != {}
      invariant todo <= removals
      invariant resolved == merged - (removals - todo)
      decreases |todo|
    {
      var target :| target in todo;
      ghost var done := removals - todo;
      todo := todo - {target};
      assert removals - todo == done + {target};
      if target in resolved {
        resolved := resolved - {target};
      }
    }
    assert removals - todo == removals;
  }

  method SplitEntry(entry: Entry) returns (ownKeys: Entry, removals: set<string>)
    ensures ownKeys == OwnKeys(entry) && removals == Removals(entry)
  {
    hide OwnKeys, Removals;
    ownKeys, removals := map[], {};
    ghost var done: Entry := map[];
    EmptyEntry();
    var todo := entry.Keys;
    while todo != {}
      invariant todo <= entry.Keys
      invariant done == entry - todo
      invariant ownKeys == OwnKeys(done) && removals == Removals(done)
      decreases |todo|
    {
      var k :| k in todo;
      todo := todo - {k};
      SplitStep(done, k, entry[k]);
      done := done[k := entry[k]];
      if !IsPrivate(k) {
        if IsRemovalKey(k) {
          removals := removals + {RemovalTarget(k)};
        } else {
          ownKeys := ownKeys[k := entry[k]];
        }
      }
    }
    assert done == entry;
  }

  lemma EmptyEntry()
    ensures OwnKeys(map[]) == map[] && Removals(map[]) == {}
  {
  }

  lemma SplitStep(e: Entry, k: string, v: string)
    requires k !in e
    ensures OwnKeys(e[k := v]) == if IsSetting(k) then OwnKeys(e)[k := v] else OwnKeys(e)
    ensures Removals(e[k := v]) == if !IsPrivate(k) && IsRemovalKey(k) then Removals(e) + {RemovalTarget(k)} else Removals(e)
  {
  }

  /** One key, looked up level by level. */
  function Lookup(name: string, key: string, raw: Raw, visited: set<string>): Option<string>
    decreases |raw.Keys - visited|
  {
    if name in visited then None
    else
      var e := EntryOf(raw, name);
      if Removes(e, key) then None
      else if Defines(e, key) then Some(e[key])
      else
        match ParentOf(e)
        case None => None
        case Some(parent) =>
          VisitShrinks(raw, visited, name);
          Lookup(parent, key, raw, visited + {name})
  }

  function Get(e: Entry, key: string): Option<string> { if key in e then Some(e[key]) else None }

  lemma RemovalKeyOf(key: string)
    requires key != ""
    ensures IsRemovalKey(REMOVAL_PREFIX + key) && RemovalTarget(REMOVAL_PREFIX + key) == key
    ensures !IsPrivate(REMOVAL_PREFIX + key)
  {
    var k := REMOVAL_PREFIX + key;
    assert k[0] == '-' != "$"[0];
  }

  lemma RemovalsAt(e: Entry, key: string)
    ensures key in Removals(e) <==> Removes(e, key)
  {
    if key != "" {
      RemovalKeyOf(key);
    }
    forall k | k in e && IsRemovalKey(k) && RemovalTarget(k) == key ensures Removes(e, key) {
      assert k == REMOVAL_PREFIX + key;
    }
  }

  /** Merging whole dictionaries and looking one key up come to the same, cycles included. */
  lemma {:induction false} ResolveIsLookup(name: string, key: string, raw: Raw, visited: set<string>)
    ensures Get(Resolve(name, raw, visited), key) == Lookup(name, key, raw, visited)
    decreases |raw.Keys - visited|
  {
    if name !in visited {
      var e := EntryOf(raw, name);
      RemovalsAt(e, key);
      if ParentOf(e).Some? {
        VisitShrinks(raw, visited, name);
        ResolveIsLookup(ParentOf(e).value, key, raw, visited + {name});
      }
    }
  }

  // ------------------------------------------------------------------
  // The chain of parents
  // ------------------------------------------------------------------

  /** The names resolution goes through, up to the last parent or the first repetition. */
  function Chain(name: string, raw: Raw, visited: set<string>): seq<string>
    decreases |raw.Keys - visited|
  {
    if name in visited then []
    else
      match ParentOf(EntryOf(raw, name))
      case None => [name]
      case Some(parent) =>
        VisitShrinks(raw, visited, name);
        [name] + Chain(parent, raw, visited + {name})
  }

  /** Level `i` of a chain is where a key is found: it is the nearest that defines it, and no level
      up to it removes it. */
  ghost predicate FoundAt(chain: seq<string>, raw: Raw, key: string, i: nat) {
    && i < |chain|
    && Defines(EntryOf(raw, chain[i]), key)
    && (forall j | 0 <= j < i :: !Defines(EntryOf(raw, chain[j]), key))
    && (forall j | 0 <= j <= i :: !Removes(EntryOf(raw, chain[j]), key))
  }

  lemma {:induction false} LevelOf(name: string, key: string, raw: Raw, visited: set<string>) returns (i: nat)
    requires Lookup(name, key, raw, visited).Some?
    ensures FoundAt(Chain(name, raw, visited), raw, key, i)
    decreases |raw.Keys - visited|
  {
    var e := EntryOf(raw, name);
    if Defines(e, key) {
      i := 0;
    } else {
      VisitShrinks(raw, visited, name);
      var parent, seen := ParentOf(e).value, visited + {name};
      i := LevelOf(parent, key, raw, seen);
      FoundOneUp(name, Chain(parent, raw, seen), raw, key, i);
      i := i + 1;
    }
  }

  lemma {:induction false} LookupAtLevel(name: string, key: string, raw: Raw, visited: set<string>, i: nat)
    requires FoundAt(Chain(name, raw, visited), raw, key, i)
    ensures var level := Chain(name, raw, visited)[i];
            level in raw && key in raw[level] && Lookup(name, key, raw, visited) == Some(raw[level][key])
    decreases |raw.Keys - visited|
  {
    if i > 0 {
      var e, chain := EntryOf(raw, name), Chain(name, raw, visited);
      assert chain[0] == name;
      VisitShrinks(raw, visited, name);
      var parent, seen := ParentOf(e).value, visited + {name};
      FoundOneUp(name, Chain(parent, raw, seen), raw, key, i - 1);
      LookupAtLevel(parent, key, raw, seen, i - 1);
    }
  }

  /** The nearest definition wins; a removal hides its own level and everything above it, and a
      nearer level may define the key again. */
  lemma NearestDefinitionWins(name: string, key: string, raw: Raw)
    ensures var chain, resolved := Chain(name, raw, {}), Resolve(name, raw, {});
            && (key in resolved <==> exists i: nat :: FoundAt(chain, raw, key, i))
            && (forall i: nat | FoundAt(chain, raw, key, i) :: chain[i] in raw && key in raw[chain[i]] && resolved[key] == raw[chain[i]][key])
  {
    hide Resolve, Lookup, Chain, FoundAt;
    var chain, found := Chain(name, raw, {}), Lookup(name, key, raw, {});
    ResolveIsLookup(name, key, raw, {});
    if found.Some? {
      var i := LevelOf(name, key, raw, {});
      assert FoundAt(chain, raw, key, i);
    }
    if j: nat :| FoundAt(chain, raw, key, j) {
      FoundInside(chain, raw, key, j);
      LookupAtLevel(name, key, raw, {}, j);
      assert key in Resolve(name, raw, {});
    }
    forall i: nat | FoundAt(chain, raw, key, i)
      ensures i < |chain| && chain[i] in raw && key in raw[chain[i]] && found == Some(raw[chain[i]][key])
    {
      FoundInside(chain, raw, key, i);
      LookupAtLevel(name, key, raw, {}, i);
    }
  }

  lemma FoundInside(chain: seq<string>, raw: Raw, key: string, i: nat)
    requires FoundAt(chain, raw, key, i)
    ensures i < |chain|
  {
  }

  lemma FoundOneUp(name: string, up: seq<string>, raw: Raw, key: string, i: nat)
    requires !Defines(EntryOf(raw, name), key) && !Removes(EntryOf(raw, name), key)
    ensures FoundAt(up, raw, key, i) <==> FoundAt([name] + up, raw, key, i + 1)
  {
    var chain := [name] + up;
    assert forall j | 0 <= j < |up| :: chain[j + 1] == up[j];
    if FoundAt(chain, raw, key, i + 1) {
      forall j | 0 <= j <= i ensures !Removes(EntryOf(raw, up[j]), key) && (j < i ==> !Defines(EntryOf(raw, up[j]), key)) {
        assert chain[j + 1] == up[j];
      }
    }
  }
}
