/** From the device to the register map: after a discovery, a template row stands for exactly the
    instances the device's chain holds, at the addresses where they are. */
module DiscoveredMaps {
  import opened Options
  import opened Decimals
  import opened SunSpecChain
  import S = SunSpecAnchors
  import D = SunSpecDiscovery
  import M = DynamicMaps
  import T = DynamicMapsTheorems

  lemma NamesAreUnique()
    ensures forall a, b: S.Anchor | D.Name(a) == D.Name(b) :: a == b
  {
    forall a, b: S.Anchor | D.Name(a) == D.Name(b) ensures a == b {
      D.NameIsUnique(a, b);
    }
  }

  /** The anchors under the names they are published by. */
  function Publish(anchors: S.Anchors): M.Anchors {
    NamesAreUnique();
    map a | a in anchors :: D.Name(a) := M.Number(anchors[a])
  }

  /** The provider speaks for all of its names. */
  ghost predicate Owns(owned: string -> bool) {
    forall a: S.Anchor :: owned(D.Name(a))
  }

  /** Once applied, a provider's names hold what it found and nothing else. */
  lemma PublishedValue(anchors: S.Anchors, defaults: M.Anchors, owned: string -> bool, a: S.Anchor)
    requires Owns(owned)
    ensures var merged := M.Kept(defaults, owned) + Publish(anchors);
            if a in anchors then D.Name(a) in merged && merged[D.Name(a)] == M.Number(anchors[a]) else D.Name(a) !in merged
  {
    hide D.Name;
    NamesAreUnique();
  }

  function Shifted(starts: seq<int>, offset: Option<int>): (r: seq<int>)
    ensures |r| == |starts|
  {
    seq(|starts|, i requires 0 <= i < |starts| => starts[i] + if offset.Some? then offset.value else 0)
  }

  /** One line per start, numbered from one. */
  function Lines(row: M.Row, starts: seq<int>): (r: seq<M.Line>)
    requires row.Row?
    ensures |r| == |starts|
  {
    seq(|starts|, i requires 0 <= i < |starts| =>
      M.Line(M.NameFor(row.name, i + 1), M.NameFor(row.documented, i + 1), row.table, M.Address(starts[i]), true, row.shape))
  }

  /** The anchor of the instance at index `i` holds `start`. */
  predicate Anchored(anchors: M.Anchors, stem: string, part: string, i: nat, start: int) {
    var name := M.InstanceName(stem, i + 1, part);
    name in anchors && anchors[name] == M.Number(start)
  }

  lemma TemplateLines(row: M.Row, anchors: M.Anchors, starts: seq<int>)
    requires row.Row? && row.cell.PerInstance?
    requires M.CountOf(anchors, row.cell.stem) == |starts|
    requires forall i: nat | i < |starts| :: Anchored(anchors, row.cell.stem, row.cell.part, i, starts[i])
    ensures M.Expand(row, anchors) == Lines(row, Shifted(starts, row.cell.offset))
  {
    hide M.InstanceName, M.CountOf, M.NameFor;
    var lines, want := M.Expand(row, anchors), Lines(row, Shifted(starts, row.cell.offset));
    assert |lines| == |want|;
    forall i: nat | i < |lines| ensures lines[i] == want[i] {
      assert Anchored(anchors, row.cell.stem, row.cell.part, i, starts[i]);
      assert lines[i] == M.LineAt(row, i + 1, anchors);
    }
  }

  /** The stem template rows use for a family of models. */
  function Stem(f: S.Family): string { D.Join(D.FamilyParts(f)) }

  function Headers(models: seq<Model>): (r: seq<int>)
    ensures |r| == |models|
  {
    seq(|models|, i requires 0 <= i < |models| => models[i].header)
  }

  lemma StemNames(f: S.Family, i: nat)
    ensures M.InstanceName(Stem(f), i, "base") == D.Name(S.BaseOf(f, i))
    ensures M.CountName(Stem(f)) == D.Name(S.CountOf(f))
  {
    hide D.Join, D.FamilyParts, Decimal;
    D.JoinNumbered(f, i, "base");
    D.JoinMore(D.FamilyParts(f), "count");
  }

  lemma BlockNames(i: nat)
    ensures M.InstanceName("mppt", i, "base") == D.Name(S.BlockBase(i))
    ensures M.CountName("mppt") == D.Name(S.BlockCount)
  {
    hide D.Join, Decimal;
    D.BlockHasShape(i);
    D.JoinTwo("mppt", "count");
  }

  /** The anchors in force after a discovery. */
  function InForce(defaults: M.Anchors, owned: string -> bool, base: int, models: seq<Model>, counts: map<int, int>): M.Anchors {
    M.Kept(defaults, owned) + Publish(S.Built(base, models, counts))
  }

  /** An owned name holds what the chain makes of its anchor. */
  lemma ValueInForce(defaults: M.Anchors, owned: string -> bool, base: int, models: seq<Model>, counts: map<int, int>, a: S.Anchor)
    requires Owns(owned)
    ensures var anchors, v := InForce(defaults, owned, base, models, counts), S.Expected(a, base, models, counts);
            if v.Some? then D.Name(a) in anchors && anchors[D.Name(a)] == M.Number(v.value) else D.Name(a) !in anchors
  {
    hide S.Built, S.Expected, D.Name, Publish, M.Kept;
    var built := S.Built(base, models, counts);
    S.BuiltIsExpected(base, models, counts);
    PublishedValue(built, defaults, owned, a);
    assert S.Get(built, a) == S.Expected(a, base, models, counts);
  }

  lemma CountInForce(anchors: M.Anchors, stem: string, n: nat)
    requires var name := M.CountName(stem);
             if n > 0 then name in anchors && anchors[name] == M.Number(n) else name !in anchors
    ensures M.CountOf(anchors, stem) == n
  {
  }

  lemma InstancesInForce(defaults: M.Anchors, owned: string -> bool, base: int, models: seq<Model>, counts: map<int, int>,
                         row: M.Row, f: S.Family)
    requires Owns(owned) && row.Row? && row.cell.PerInstance? && row.cell.stem == Stem(f) && row.cell.part == "base"
    ensures M.Expand(row, InForce(defaults, owned, base, models, counts))
         == Lines(row, Shifted(Headers(S.Instances(f, models)), row.cell.offset))
  {
    hide InForce, S.Instances, Stem, D.Name, M.InstanceName, M.CountName, M.CountOf, M.Expand, Lines, Shifted;
    var anchors, starts := InForce(defaults, owned, base, models, counts), Headers(S.Instances(f, models));
    StemNames(f, 0);
    ValueInForce(defaults, owned, base, models, counts, S.CountOf(f));
    CountInForce(anchors, Stem(f), |starts|);
    forall i: nat | i < |starts| ensures Anchored(anchors, Stem(f), "base", i, starts[i]) {
      StemNames(f, i + 1);
      ValueInForce(defaults, owned, base, models, counts, S.BaseOf(f, i + 1));
    }
    TemplateLines(row, anchors, starts);
  }

  lemma BlocksInForce(defaults: M.Anchors, owned: string -> bool, base: int, models: seq<Model>, counts: map<int, int>, row: M.Row)
    requires Owns(owned) && row.Row? && row.cell.PerInstance? && row.cell.stem == "mppt" && row.cell.part == "base"
    ensures M.Expand(row, InForce(defaults, owned, base, models, counts))
         == Lines(row, Shifted(S.AllBlocks(models, counts), row.cell.offset))
  {
    hide InForce, S.AllBlocks, D.Name, M.InstanceName, M.CountName, M.CountOf, M.Expand, Lines, Shifted;
    var anchors, starts := InForce(defaults, owned, base, models, counts), S.AllBlocks(models, counts);
    BlockNames(0);
    ValueInForce(defaults, owned, base, models, counts, S.BlockCount);
    CountInForce(anchors, "mppt", |starts|);
    forall i: nat | i < |starts| ensures Anchored(anchors, "mppt", "base", i, starts[i]) {
      BlockNames(i + 1);
      ValueInForce(defaults, owned, base, models, counts, S.BlockBase(i + 1));
    }
    TemplateLines(row, anchors, starts);
  }

  lemma AnchorsInForce(p: M.Protocol, ops: seq<T.Op>, base: int, models: seq<Model>, counts: map<int, int>, owned: string -> bool)
    ensures M.Apply(p, T.After(p, ops), Publish(S.Built(base, models, counts)), owned).anchors
         == InForce(p.defaults, owned, base, models, counts)
  {
    hide S.Built, Publish, M.Apply, T.After, M.Kept;
    T.LastDiscoveryDecides(p, ops, Publish(S.Built(base, models, counts)), owned);
  }

  /** A row for a kind of equipment yields one line per instance in the chain, at that instance's
      header plus the row's offset; equipment the chain does not hold yields none, whatever was
      discovered before and whatever the defaults assume. */
  lemma RowsFollowTheChain(p: M.Protocol, ops: seq<T.Op>, base: int, models: seq<Model>, counts: map<int, int>,
                           owned: string -> bool, row: M.Row, f: S.Family)
    requires Owns(owned) && row.Row? && row.cell.PerInstance? && row.cell.stem == Stem(f) && row.cell.part == "base"
    ensures var s := M.Apply(p, T.After(p, ops), Publish(S.Built(base, models, counts)), owned);
            M.Expand(row, s.anchors) == Lines(row, Shifted(Headers(S.Instances(f, models)), row.cell.offset))
  {
    hide *;
    AnchorsInForce(p, ops, base, models, counts, owned);
    InstancesInForce(p.defaults, owned, base, models, counts, row, f);
  }

  /** And a row for repeating blocks yields one line per sub-block of the chain. */
  lemma RowsFollowTheBlocks(p: M.Protocol, ops: seq<T.Op>, base: int, models: seq<Model>, counts: map<int, int>,
                            owned: string -> bool, row: M.Row)
    requires Owns(owned) && row.Row? && row.cell.PerInstance? && row.cell.stem == "mppt" && row.cell.part == "base"
    ensures var s := M.Apply(p, T.After(p, ops), Publish(S.Built(base, models, counts)), owned);
            M.Expand(row, s.anchors) == Lines(row, Shifted(S.AllBlocks(models, counts), row.cell.offset))
  {
    hide *;
    AnchorsInForce(p, ops, base, models, counts, owned);
    BlocksInForce(p.defaults, owned, base, models, counts, row);
  }

  /** A provider whose pattern is in force speaks for all of its names. */
  lemma PatternOwnsAll(owned: string -> bool)
    requires forall name | D.Owned(name) :: owned(name)
    ensures Owns(owned)
  {
    hide D.Name, D.Owned;
    forall a: S.Anchor ensures owned(D.Name(a)) {
      D.PublishedIsOwned(a);
    }
  }

  /** The block counts and models behind what is discovered at a candidate address. */
  function ModelsAt(words: Registers, base: int): seq<Model> { ModelsFrom(words, base + 2, MAX_MODELS) }

  /** End to end: any device with a marker decides the lines of every template row, from its registers
      alone. A row for a kind of equipment has one line per instance in the device's chain. */
  lemma DeviceDecidesTheMap(words: Registers, candidates: seq<int>, i: nat,
                            p: M.Protocol, ops: seq<T.Op>, owned: string -> bool, row: M.Row, f: S.Family)
    requires i < |candidates| && D.HasMarker(words, candidates[i])
    requires forall j | 0 <= j < i :: !D.HasMarker(words, candidates[j])
    requires forall name | D.Owned(name) :: owned(name)
    requires row.Row? && row.cell.PerInstance? && row.cell.stem == Stem(f) && row.cell.part == "base"
    ensures var found := D.Discovered(words, candidates);
            && found.Some?
            && M.Expand(row, M.Apply(p, T.After(p, ops), Publish(found.value.anchors), owned).anchors)
               == Lines(row, Shifted(Headers(S.Instances(f, ModelsAt(words, candidates[i]))), row.cell.offset))
  {
    hide D.HasMarker, D.Discovered, D.Owned, Owns, S.Built, M.Apply, T.After, Publish, M.Expand, S.Instances, ModelsFrom, D.CountsRead;
    var base := candidates[i];
    D.DiscoveryDescribesTheDevice(words, candidates, i);
    PatternOwnsAll(owned);
    RowsFollowTheChain(p, ops, base, ModelsAt(words, base), D.CountsRead(words, ModelsAt(words, base)), owned, row, f);
  }

  /** And a row for repeating blocks has one line per sub-block, as many as the device's own count
      registers and the lengths of its models say. */
  lemma DeviceDecidesTheBlocks(words: Registers, candidates: seq<int>, i: nat,
                               p: M.Protocol, ops: seq<T.Op>, owned: string -> bool, row: M.Row)
    requires i < |candidates| && D.HasMarker(words, candidates[i])
    requires forall j | 0 <= j < i :: !D.HasMarker(words, candidates[j])
    requires forall name | D.Owned(name) :: owned(name)
    requires row.Row? && row.cell.PerInstance? && row.cell.stem == "mppt" && row.cell.part == "base"
    ensures var found := D.Discovered(words, candidates);
            var models := ModelsAt(words, candidates[i]);
            && found.Some?
            && M.Expand(row, M.Apply(p, T.After(p, ops), Publish(found.value.anchors), owned).anchors)
               == Lines(row, Shifted(S.AllBlocks(models, D.CountsRead(words, models)), row.cell.offset))
  {
    hide D.HasMarker, D.Discovered, D.Owned, Owns, S.Built, M.Apply, T.After, Publish, M.Expand, S.AllBlocks, ModelsFrom, D.CountsRead;
    var base := candidates[i];
    D.DiscoveryDescribesTheDevice(words, candidates, i);
    PatternOwnsAll(owned);
    RowsFollowTheBlocks(p, ops, base, ModelsAt(words, base), D.CountsRead(words, ModelsAt(words, base)), owned, row);
  }

  /** For a device that carries a known chain, with any data between its headers, these are the
      instances of that chain. */
  lemma ChainDecidesTheMap(words: Registers, specs: seq<Spec>, candidates: seq<int>, i: nat,
                           p: M.Protocol, ops: seq<T.Op>, owned: string -> bool, row: M.Row, f: S.Family)
    requires i < |candidates| && D.HasMarker(words, candidates[i])
    requires forall j | 0 <= j < i :: !D.HasMarker(words, candidates[j])
    requires Walkable(specs, candidates[i] + 2, MAX_MODELS) && Carries(words, specs, candidates[i] + 2)
    requires |specs| < MAX_MODELS ==> !HasHeader(words, EndOfChain(specs, candidates[i] + 2))
    requires forall name | D.Owned(name) :: owned(name)
    requires row.Row? && row.cell.PerInstance? && row.cell.stem == Stem(f) && row.cell.part == "base"
    ensures var found := D.Discovered(words, candidates);
            && found.Some?
            && M.Expand(row, M.Apply(p, T.After(p, ops), Publish(found.value.anchors), owned).anchors)
               == Lines(row, Shifted(Headers(S.Instances(f, Placed(specs, candidates[i] + 2))), row.cell.offset))
  {
    hide D.HasMarker, D.Discovered, D.Owned, Publish, M.Expand, M.Apply, T.After, S.Instances, ModelsFrom, Walkable, Carries, HasHeader;
    WalkFindsExactly(words, specs, candidates[i] + 2, MAX_MODELS);
    DeviceDecidesTheMap(words, candidates, i, p, ops, owned, row, f);
  }
}
