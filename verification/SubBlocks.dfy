/** How many sub-blocks a chain has and where they sit, from the registers of the device. */
module SubBlocks {
  import opened Options
  import opened SunSpecChain
  import opened SunSpecAnchors
  import opened SunSpecDiscovery

  /** Model 160 has as many sub-blocks as it counts, if they fit its declared length behind 8 registers, 20
      registers each; otherwise, or if there is no count, as many as fit. Other models have none. */
  ghost predicate HasBlocks(m: Model, count: Option<int>, n: nat) {
    if m.id != 160 then n == 0
    else if count.Some? && count.value < 0 then n == 0
    else if count.Some? && (count.value == 0 || 8 + 20 * count.value <= m.length) then n == count.value
    else (n == 0 || 8 + 20 * n <= m.length) && 8 + 20 * (n + 1) > m.length
  }

  function CountFor(counts: map<int, int>, m: Model): Option<int> {
    if m.header in counts then Some(counts[m.header]) else None
  }

  lemma BlocksExactly(m: Model, counts: map<int, int>, n: nat)
    ensures HasBlocks(m, CountFor(counts, m), n) <==> n == Blocks(m, counts)
  {
    CapacityFits(m);
    if n < Capacity(m) {
      assert 8 + 20 * (n + 1) <= m.length;
    }
  }

  lemma CapacityFits(m: Model)
    ensures var k := Capacity(m);
            (k == 0 || 8 + 20 * k <= m.length) && 8 + 20 * (k + 1) > m.length
  {
  }

  function Sum(ns: seq<nat>): nat {
    if ns == [] then 0 else Sum(ns[..|ns| - 1]) + ns[|ns| - 1]
  }

  /** The numbers of sub-blocks of the models of a chain. */
  ghost predicate AllHaveBlocks(models: seq<Model>, counts: map<int, int>, ns: seq<nat>) {
    |ns| == |models| && forall i | 0 <= i < |models| :: HasBlocks(models[i], CountFor(counts, models[i]), ns[i])
  }

  /** The sub-blocks are those of the first model, then those of the second, and so on; within a model
      they begin 10 registers behind its header, 20 apart. */
  ghost predicate AreAt(starts: seq<int>, models: seq<Model>, ns: seq<nat>)
    requires |ns| == |models|
  {
    && |starts| == Sum(ns)
    && forall i: nat, j: nat | i < |models| && j < ns[i] :: IsAt(starts, models, ns, i, j)
  }

  predicate IsAt(starts: seq<int>, models: seq<Model>, ns: seq<nat>, i: nat, j: nat)
    requires |ns| == |models| && i < |models|
  {
    var k := Sum(ns[..i]) + j;
    k < |starts| && starts[k] == models[i].header + 10 + 20 * j
  }

  lemma {:induction false} BlocksAreAt(models: seq<Model>, counts: map<int, int>, ns: seq<nat>)
    requires AllHaveBlocks(models, counts, ns)
    ensures AreAt(AllBlocks(models, counts), models, ns)
  {
    if models != [] {
      hide HasBlocks;
      var n := |models| - 1;
      BlocksAreAt(models[..n], counts, ns[..n]);
      BlocksExactly(models[n], counts, ns[n]);
      OneModelMore(AllBlocks(models[..n], counts), models, ns);
    }
  }

  lemma OneModelMore(before: seq<int>, models: seq<Model>, ns: seq<nat>)
    requires models != [] && |ns| == |models| && AreAt(before, models[..|models| - 1], ns[..|ns| - 1])
    ensures AreAt(before + BlockStarts(models[|models| - 1], ns[|ns| - 1]), models, ns)
  {
    var n := |models| - 1;
    var starts := before + BlockStarts(models[n], ns[n]);
    forall i: nat, j: nat | i < |models| && j < ns[i] ensures IsAt(starts, models, ns, i, j) {
      if i < n {
        assert ns[..n][..i] == ns[..i];
        assert IsAt(before, models[..n], ns[..n], i, j);
      } else {
        assert starts[|before| + j] == BlockStarts(models[n], ns[n])[j];
      }
    }
  }

  /** What is published about the sub-blocks of a chain. */
  ghost predicate Describes(anchors: Anchors, models: seq<Model>, ns: seq<nat>)
    requires |ns| == |models|
  {
    && Get(anchors, BlockCount) == (if Sum(ns) > 0 then Some(Sum(ns) as int) else None)
    && (forall n: nat | n == 0 || n > Sum(ns) :: Get(anchors, BlockBase(n)).None?)
    && (forall i: nat, j: nat | i < |models| && j < ns[i] :: IsPublished(anchors, models, ns, i, j))
  }

  predicate IsPublished(anchors: Anchors, models: seq<Model>, ns: seq<nat>, i: nat, j: nat)
    requires |ns| == |models| && i < |models|
  {
    Get(anchors, BlockBase(Sum(ns[..i]) + j + 1)) == Some(models[i].header + 10 + 20 * j)
  }

  lemma DescribesExactly(anchors: Anchors, models: seq<Model>, ns: seq<nat>, starts: seq<int>)
    requires |ns| == |models| && AreAt(starts, models, ns) && NumbersBlocks(anchors, starts)
    ensures Describes(anchors, models, ns)
  {
    hide Get;
    forall i: nat, j: nat | i < |models| && j < ns[i] ensures IsPublished(anchors, models, ns, i, j) {
      assert IsAt(starts, models, ns, i, j);
    }
  }

  /** Every chain and every set of counts: the sub-blocks published are as many as the counts and lengths
      say, at the places the lengths say. */
  lemma BuiltDescribesBlocks(base: int, models: seq<Model>, counts: map<int, int>, ns: seq<nat>)
    requires AllHaveBlocks(models, counts, ns)
    ensures Describes(Built(base, models, counts), models, ns)
  {
    hide Built, HasBlocks;
    BlocksAreAt(models, counts, ns);
    BuiltIsNumbered(base, models, counts);
    hide AllBlocks, AreAt, Describes, NumbersBlocks, Numbers;
    DescribesExactly(Built(base, models, counts), models, ns, AllBlocks(models, counts));
  }

  // ------------------------------------------------------------------
  // From the registers of a device
  // ------------------------------------------------------------------

  /** What the device itself says at the count register: nothing if it cannot be read or is implausible. */
  function CountOfDevice(words: Registers, m: Model): Option<int> {
    if m.header + 8 in words && 1 <= words[m.header + 8] <= 0x7FFF then Some(words[m.header + 8] as int) else None
  }

  ghost predicate DeviceHasBlocks(words: Registers, models: seq<Model>, ns: seq<nat>) {
    |ns| == |models| && forall i | 0 <= i < |models| :: HasBlocks(models[i], CountOfDevice(words, models[i]), ns[i])
  }

  /** No two models have one header. */
  ghost predicate HeadersDiffer(models: seq<Model>) {
    forall i, j | 0 <= i < j < |models| :: models[i].header != models[j].header
  }

  lemma {:induction false} CountsAreOwn(words: Registers, models: seq<Model>, i: nat)
    requires HeadersDiffer(models) && i < |models| && models[i].id == 160
    ensures CountFor(CountsRead(words, models), models[i]) == CountOfDevice(words, models[i])
  {
    var n := |models| - 1;
    if i < n {
      CountsAreOwn(words, models[..n], i);
    } else {
      NoOtherCount(words, models[..n], models[n].header);
    }
  }

  lemma {:induction false} NoOtherCount(words: Registers, models: seq<Model>, header: int)
    requires forall i | 0 <= i < |models| :: models[i].header != header
    ensures header !in CountsRead(words, models)
  {
    if models != [] {
      NoOtherCount(words, models[..|models| - 1], header);
    }
  }

  /** End to end, on any device with a marker: the sub-blocks published are as many as its own count
      registers say, if they fit, and as fit otherwise. */
  lemma DeviceDescribesBlocks(words: Registers, candidates: seq<int>, i: nat, ns: seq<nat>)
    requires i < |candidates| && HasMarker(words, candidates[i])
    requires forall j | 0 <= j < i :: !HasMarker(words, candidates[j])
    requires DeviceHasBlocks(words, ModelsFrom(words, candidates[i] + 2, MAX_MODELS), ns)
    ensures Discovered(words, candidates).Some?
    ensures Describes(Discovered(words, candidates).value.anchors, ModelsFrom(words, candidates[i] + 2, MAX_MODELS), ns)
  {
    var models := ModelsFrom(words, candidates[i] + 2, MAX_MODELS);
    hide Built, ModelsFrom, HasMarker, HasBlocks, Describes, Discovered, Get, Expected, Apart, AllBlocks;
    DiscoveryDescribesTheDevice(words, candidates, i);
    WalkedIsAscending(words, candidates[i] + 2, MAX_MODELS);
    forall k: nat | k < |models| ensures HasBlocks(models[k], CountFor(CountsRead(words, models), models[k]), ns[k]) {
      BlocksByOwnCount(words, models, k, ns[k]);
    }
    BuiltDescribesBlocks(candidates[i], models, CountsRead(words, models), ns);
  }

  lemma BlocksByOwnCount(words: Registers, models: seq<Model>, k: nat, n: nat)
    requires Ascending(models) && k < |models| && HasBlocks(models[k], CountOfDevice(words, models[k]), n)
    ensures HasBlocks(models[k], CountFor(CountsRead(words, models), models[k]), n)
  {
    if models[k].id == 160 {
      forall i, j | 0 <= i < j < |models| ensures models[i].header != models[j].header {
        assert models[i].End() <= models[j].header;
      }
      CountsAreOwn(words, models, k);
    }
  }
}
