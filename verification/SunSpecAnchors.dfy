/** The anchors a walked SunSpec chain gives: where each instance of each model, kind of equipment
    and repeating block sits. */
module SunSpecAnchors {
  import opened Options
  import opened Bytes
  import opened SunSpecChain

  datatype Alias = Inverter | InverterFloat | Meter | MeterFloat

  const ALIASES: seq<Alias> := [Inverter, InverterFloat, Meter, MeterFloat]

  function AliasIds(a: Alias): seq<nat> {
    match a
    case Inverter => [101, 102, 103]
    case InverterFloat => [111, 112, 113]
    case Meter => [201, 202, 203, 204]
    case MeterFloat => [211, 212, 213, 214]
  }

  /** What instances are numbered by: the exact model, or the kind of equipment. */
  datatype Family = OfModel(id: nat) | OfAlias(alias: Alias)

  datatype Anchor =
    | SunspecBase
    | BaseOf(family: Family, n: nat) | LengthOf(family: Family, n: nat) | ModelOf(alias: Alias, n: nat) | CountOf(family: Family)
    | BlockBase(n: nat) | BlockCount

  type Anchors = map<Anchor, int>

  /** Model 160, multiple MPPT: its sub-block count sits at +8, the blocks at +10, 20 registers each. */
  const REPEATING_ID: int := 160
  const COUNT_OFFSET: int := 8
  const FIRST_OFFSET: int := 10
  const BLOCK_LENGTH: int := 20

  predicate Belongs(f: Family, m: Model) {
    match f
    case OfModel(id) => m.id == id
    case OfAlias(alias) => m.id in AliasIds(alias)
  }

  /** How many sub-blocks a model's declared length can hold. */
  function Capacity(m: Model): nat {
    if m.length < FIRST_OFFSET - 2 then 0 else (m.length - (FIRST_OFFSET - 2)) / BLOCK_LENGTH
  }

  /** How many sub-blocks are reported: the count read, but never more than fit. */
  function Blocks(m: Model, counts: map<int, int>): (n: nat)
    ensures n <= Capacity(m)
  {
    if m.id != REPEATING_ID then 0
    else if m.header !in counts || counts[m.header] > Capacity(m) then Capacity(m)
    else if counts[m.header] < 0 then 0
    else counts[m.header]
  }

  // ------------------------------------------------------------------
  // What the anchors are
  // ------------------------------------------------------------------

  /** The instances of a family, in chain order. */
  function Instances(f: Family, models: seq<Model>): (r: seq<Model>)
    ensures |r| <= |models|
  {
    if models == [] then []
    else
      var init, m := Instances(f, models[..|models| - 1]), models[|models| - 1];
      if Belongs(f, m) then init + [m] else init
  }

  function BlockStarts(m: Model, n: nat): (r: seq<int>)
    ensures |r| == n
    ensures forall i | 0 <= i < n :: r[i] == m.header + FIRST_OFFSET + i * BLOCK_LENGTH
  {
    seq(n, i requires 0 <= i < n => m.header + FIRST_OFFSET + i * BLOCK_LENGTH)
  }

  /** The sub-blocks of all models, in chain order. */
  function AllBlocks(models: seq<Model>, counts: map<int, int>): seq<int> {
    if models == [] then []
    else
      var m := models[|models| - 1];
      AllBlocks(models[..|models| - 1], counts) + BlockStarts(m, Blocks(m, counts))
  }

  function Numbered<T>(s: seq<T>, n: nat): Option<T> {
    if 1 <= n <= |s| then Some(s[n - 1]) else None
  }

  function Counted(n: nat): Option<int> { if n > 0 then Some(n as int) else None }

  function Map<T, U>(o: Option<T>, f: T -> U): Option<U> { if o.Some? then Some(f(o.value)) else None }

  /** The value of every anchor, from the chain alone: instances are numbered densely from one. */
  function Expected(a: Anchor, base: int, models: seq<Model>, counts: map<int, int>): Option<int> {
    match a
    case SunspecBase => Some(base)
    case BaseOf(f, n) => Map(Numbered(Instances(f, models), n), (m: Model) => m.header)
    case LengthOf(f, n) => Map(Numbered(Instances(f, models), n), (m: Model) => m.length as int)
    case ModelOf(alias, n) => Map(Numbered(Instances(OfAlias(alias), models), n), (m: Model) => m.id as int)
    case CountOf(f) => Counted(|Instances(f, models)|)
    case BlockBase(n) => Numbered(AllBlocks(models, counts), n)
    case BlockCount => Counted(|AllBlocks(models, counts)|)
  }

  function Get(anchors: Anchors, a: Anchor): Option<int> { if a in anchors then Some(anchors[a]) else None }

  // ------------------------------------------------------------------
  // What the builder does
  // ------------------------------------------------------------------

  /** The anchors of one more instance of a family. */
  function AddInstance(anchors: Anchors, f: Family, n: nat, m: Model): Anchors {
    var a := anchors[BaseOf(f, n) := m.header][LengthOf(f, n) := m.length][CountOf(f) := n];
    if f.OfAlias? then a[ModelOf(f.alias, n) := m.id] else a
  }

  function AddAliases(anchors: Anchors, m: Model, before: seq<Model>, k: nat): Anchors
    requires k <= |ALIASES|
  {
    if k == 0 then anchors
    else
      var init, f := AddAliases(anchors, m, before, k - 1), OfAlias(ALIASES[k - 1]);
      if Belongs(f, m) then AddInstance(init, f, |Instances(f, before)| + 1, m) else init
  }

  /** The anchors of the first `k` sub-blocks, numbered on from `n`. */
  function AddBlocks(anchors: Anchors, m: Model, n: nat, k: nat): Anchors {
    if k == 0 then anchors
    else AddBlocks(anchors, m, n, k - 1)[BlockBase(n + k) := m.header + FIRST_OFFSET + (k - 1) * BLOCK_LENGTH][BlockCount := n + k]
  }

  function AddModel(anchors: Anchors, m: Model, before: seq<Model>, counts: map<int, int>): Anchors {
    var f := OfModel(m.id);
    var a := AddAliases(AddInstance(anchors, f, |Instances(f, before)| + 1, m), m, before, |ALIASES|);
    AddBlocks(a, m, |AllBlocks(before, counts)|, Blocks(m, counts))
  }

  function Built(base: int, models: seq<Model>, counts: map<int, int>): Anchors {
    if models == [] then map[SunspecBase := base]
    else
      var before := models[..|models| - 1];
      AddModel(Built(base, before, counts), models[|models| - 1], before, counts)
  }

  method BuildAnchors(base: int, models: seq<Model>, counts: map<int, int>) returns (anchors: Anchors)
    ensures anchors == Built(base, models, counts)
    ensures forall a :: Get(anchors, a) == Expected(a, base, models, counts)
  {
    hide *;
    anchors := map[SunspecBase := base];
    var perModel: map<nat, nat> := map[];
    var perAlias: map<Alias, nat> := map[];
    var perRepeating: nat := 0;
    NothingBuilt(base, counts);
    for i := 0 to |models|
      invariant anchors == Built(base, models[..i], counts)
      invariant ModelCounters(perModel, models[..i])
      invariant AliasCounters(perAlias, models[..i])
      invariant perRepeating == |AllBlocks(models[..i], counts)|
    {
      var m := models[i];
      ghost var before := models[..i];
      assert models[..i + 1] == before + [m];
      BuildStep(base, before, m, counts);
      CountModel(perModel, before, m);
      var id: nat := m.id;
      var instance := Or0(perModel, id) + 1;
      perModel := perModel[id := instance];
      anchors := AddInstance(anchors, OfModel(id), instance, m);
      anchors, perAlias := NumberAliases(anchors, perAlias, m, before);
      anchors, perRepeating := NumberBlocks(anchors, perRepeating, m, counts);
    }
    assert models[..|models|] == models;
    BuiltIsExpected(base, models, counts);
  }

  function Or0<K>(counters: map<K, nat>, k: K): nat { if k in counters then counters[k] else 0 }

  ghost predicate ModelCounters(counters: map<nat, nat>, models: seq<Model>) {
    forall id: nat :: Or0(counters, id) == |Instances(OfModel(id), models)|
  }

  ghost predicate AliasCounters(counters: map<Alias, nat>, models: seq<Model>) {
    forall alias :: Or0(counters, alias) == |Instances(OfAlias(alias), models)|
  }

  lemma NothingBuilt(base: int, counts: map<int, int>)
    ensures Built(base, [], counts) == map[SunspecBase := base]
    ensures ModelCounters(map[], []) && AliasCounters(map[], []) && |AllBlocks([], counts)| == 0
  {
  }

  lemma BuildStep(base: int, before: seq<Model>, m: Model, counts: map<int, int>)
    ensures Built(base, before + [m], counts) == AddModel(Built(base, before, counts), m, before, counts)
    ensures AddModel(Built(base, before, counts), m, before, counts)
         == var f := OfModel(m.id);
            var a := AddAliases(AddInstance(Built(base, before, counts), f, |Instances(f, before)| + 1, m), m, before, |ALIASES|);
            AddBlocks(a, m, |AllBlocks(before, counts)|, Blocks(m, counts))
    ensures |AllBlocks(before + [m], counts)| == |AllBlocks(before, counts)| + Blocks(m, counts)
  {
    hide AddInstance, AddAliases, AddBlocks, Blocks, Instances;
    assert (before + [m])[..|before|] == before;
  }

  lemma CountModel(counters: map<nat, nat>, before: seq<Model>, m: Model)
    requires ModelCounters(counters, before)
    ensures Or0(counters, m.id as nat) == |Instances(OfModel(m.id), before)|
    ensures ModelCounters(counters[m.id as nat := Or0(counters, m.id as nat) + 1], before + [m])
  {
    hide Instances;
    MoreInstances(before, m, map[]);
  }

  method NumberAliases(anchors: Anchors, perAlias: map<Alias, nat>, m: Model, ghost before: seq<Model>)
    returns (r: Anchors, counters: map<Alias, nat>)
    requires AliasCounters(perAlias, before)
    ensures r == AddAliases(anchors, m, before, |ALIASES|)
    ensures AliasCounters(counters, before + [m])
  {
    hide AddInstance, Instances, Belongs, AliasCounters, CountersUpto;
    r, counters := anchors, perAlias;
    CountersBefore(perAlias, before, m);
    for k := 0 to |ALIASES|
      invariant r == AddAliases(anchors, m, before, k)
      invariant CountersUpto(counters, before, m, k)
    {
      CountAlias(counters, before, m, k);
      var alias := ALIASES[k];
      if Belongs(OfAlias(alias), m) {
        var n := Or0(counters, alias) + 1;
        counters := counters[alias := n];
        r := AddInstance(r, OfAlias(alias), n, m);
      }
    }
    CountersAfter(counters, before, m);
  }

  /** Half way through the aliases. */
  ghost predicate CountersUpto(counters: map<Alias, nat>, before: seq<Model>, m: Model, k: nat) {
    forall alias :: Or0(counters, alias) == |Instances(OfAlias(alias), if Rank(alias) < k then before + [m] else before)|
  }

  lemma CountersBefore(counters: map<Alias, nat>, before: seq<Model>, m: Model)
    requires AliasCounters(counters, before)
    ensures CountersUpto(counters, before, m, 0)
  {
  }

  lemma CountersAfter(counters: map<Alias, nat>, before: seq<Model>, m: Model)
    requires CountersUpto(counters, before, m, |ALIASES|)
    ensures AliasCounters(counters, before + [m])
  {
  }

  lemma CountAlias(counters: map<Alias, nat>, before: seq<Model>, m: Model, k: nat)
    requires k < |ALIASES| && CountersUpto(counters, before, m, k)
    ensures Or0(counters, ALIASES[k]) == |Instances(OfAlias(ALIASES[k]), before)|
    ensures var f := OfAlias(ALIASES[k]);
            CountersUpto(if Belongs(f, m) then counters[ALIASES[k] := Or0(counters, ALIASES[k]) + 1] else counters, before, m, k + 1)
  {
    hide Instances, Belongs;
    RankOf(k);
    MoreInstances(before, m, map[]);
  }

  method NumberBlocks(anchors: Anchors, perRepeating: nat, m: Model, counts: map<int, int>) returns (r: Anchors, total: nat)
    ensures r == AddBlocks(anchors, m, perRepeating, Blocks(m, counts)) && total == perRepeating + Blocks(m, counts)
  {
    r, total := anchors, perRepeating;
    if m.id == REPEATING_ID {
      var room := m.length - (FIRST_OFFSET - 2);
      var capacity := (if room < 0 then 0 else room) / BLOCK_LENGTH;
      var blocks := if m.header in counts && counts[m.header] < capacity then counts[m.header] else capacity;
      var block := 0;
      while block < blocks
        invariant 0 <= block && (block <= blocks || blocks < 0 == block)
        invariant r == AddBlocks(anchors, m, perRepeating, block) && total == perRepeating + block
      {
        total := total + 1;
        r := r[BlockBase(total) := m.header + FIRST_OFFSET + block * BLOCK_LENGTH][BlockCount := total];
        block := block + 1;
      }
    }
  }

  // ------------------------------------------------------------------
  // The builder gives what is expected
  // ------------------------------------------------------------------

  lemma MoreInstances(before: seq<Model>, m: Model, counts: map<int, int>)
    ensures forall f :: Instances(f, before + [m]) == if Belongs(f, m) then Instances(f, before) + [m] else Instances(f, before)
    ensures AllBlocks(before + [m], counts) == AllBlocks(before, counts) + BlockStarts(m, Blocks(m, counts))
  {
    assert (before + [m])[..|before|] == before;
  }

  /** The anchors of family `f` are what its instances say. */
  ghost predicate Numbers(anchors: Anchors, f: Family, instances: seq<Model>) {
    && Get(anchors, CountOf(f)) == Counted(|instances|)
    && forall n: nat ::
         && Get(anchors, BaseOf(f, n)) == Map(Numbered(instances, n), (m: Model) => m.header)
         && Get(anchors, LengthOf(f, n)) == Map(Numbered(instances, n), (m: Model) => m.length as int)
         && (f.OfAlias? ==> Get(anchors, ModelOf(f.alias, n)) == Map(Numbered(instances, n), (m: Model) => m.id as int))
  }

  ghost predicate NumbersBlocks(anchors: Anchors, starts: seq<int>) {
    && Get(anchors, BlockCount) == Counted(|starts|)
    && forall n: nat :: Get(anchors, BlockBase(n)) == Numbered(starts, n)
  }

  lemma InstanceAdded(anchors: Anchors, f: Family, instances: seq<Model>, m: Model)
    requires Numbers(anchors, f, instances)
    ensures Numbers(AddInstance(anchors, f, |instances| + 1, m), f, instances + [m])
  {
  }

  lemma OthersKept(anchors: Anchors, f: Family, n: nat, m: Model, g: Family, s: seq<Model>)
    requires g != f && Numbers(anchors, g, s)
    ensures Numbers(AddInstance(anchors, f, n, m), g, s)
  {
  }

  lemma BlocksKept(anchors: Anchors, f: Family, n: nat, m: Model, s: seq<int>)
    requires NumbersBlocks(anchors, s)
    ensures NumbersBlocks(AddInstance(anchors, f, n, m), s)
    ensures Get(AddInstance(anchors, f, n, m), SunspecBase) == Get(anchors, SunspecBase)
  {
  }

  function Rank(a: Alias): (k: nat)
    ensures k < |ALIASES| && ALIASES[k] == a
  {
    match a
    case Inverter => 0
    case InverterFloat => 1
    case Meter => 2
    case MeterFloat => 3
  }

  /** While the last model of a chain is being added: the alias families from the `k`-th on are still
      those of the chain without it. */
  ghost predicate Adding(anchors: Anchors, base: int, before: seq<Model>, m: Model, k: nat, counts: map<int, int>) {
    && Get(anchors, SunspecBase) == Some(base)
    && NumbersBlocks(anchors, AllBlocks(before, counts))
    && forall f: Family :: Numbers(anchors, f, Instances(f, Stage(f, before, m, k)))
  }

  function Stage(f: Family, before: seq<Model>, m: Model, k: nat): seq<Model> {
    if f.OfAlias? && Rank(f.alias) >= k then before else before + [m]
  }

  /** Every family and the sub-blocks are numbered as the chain says. */
  ghost predicate AllNumbered(anchors: Anchors, base: int, models: seq<Model>, counts: map<int, int>) {
    && Get(anchors, SunspecBase) == Some(base)
    && NumbersBlocks(anchors, AllBlocks(models, counts))
    && forall f: Family :: Numbers(anchors, f, Instances(f, models))
  }

  lemma ModelIsAdded(anchors: Anchors, base: int, before: seq<Model>, m: Model, counts: map<int, int>)
    requires AllNumbered(anchors, base, before, counts)
    ensures var f := OfModel(m.id);
            Adding(AddInstance(anchors, f, |Instances(f, before)| + 1, m), base, before, m, 0, counts)
  {
    hide Numbers, NumbersBlocks, AddInstance, Instances, AllBlocks;
    var f := OfModel(m.id);
    var n := |Instances(f, before)| + 1;
    MoreInstances(before, m, counts);
    BlocksKept(anchors, f, n, m, AllBlocks(before, counts));
    InstanceAdded(anchors, f, Instances(f, before), m);
    forall g: Family | g != f
      ensures Numbers(AddInstance(anchors, f, n, m), g, Instances(g, Stage(g, before, m, 0)))
    {
      OthersKept(anchors, f, n, m, g, Instances(g, before));
    }
  }

  lemma AliasIsAdded(anchors: Anchors, base: int, before: seq<Model>, m: Model, k: nat, counts: map<int, int>)
    requires k < |ALIASES| && Adding(anchors, base, before, m, k, counts)
    ensures var f := OfAlias(ALIASES[k]);
            Adding(if Belongs(f, m) then AddInstance(anchors, f, |Instances(f, before)| + 1, m) else anchors,
                   base, before, m, k + 1, counts)
  {
    hide Numbers, NumbersBlocks, AddInstance, Instances, AllBlocks, Belongs;
    var f := OfAlias(ALIASES[k]);
    var n := |Instances(f, before)| + 1;
    RankOf(k);
    MoreInstances(before, m, counts);
    assert Stage(f, before, m, k) == before && Stage(f, before, m, k + 1) == before + [m];
    if Belongs(f, m) {
      BlocksKept(anchors, f, n, m, AllBlocks(before, counts));
      InstanceAdded(anchors, f, Instances(f, before), m);
    }
    var after := if Belongs(f, m) then AddInstance(anchors, f, n, m) else anchors;
    var next := k + 1;
    forall g: Family | g != f ensures Numbers(after, g, Instances(g, Stage(g, before, m, next))) {
      assert Stage(g, before, m, k) == Stage(g, before, m, next);
      if Belongs(f, m) {
        OthersKept(anchors, f, n, m, g, Instances(g, Stage(g, before, m, k)));
      }
    }
  }

  lemma RankOf(k: nat)
    requires k < |ALIASES|
    ensures forall a: Alias :: Rank(a) == k <==> a == ALIASES[k]
  {
    assert ALIASES[0] == Inverter && ALIASES[1] == InverterFloat && ALIASES[2] == Meter && ALIASES[3] == MeterFloat;
  }

  lemma {:induction false} AliasesAreAdded(anchors: Anchors, base: int, before: seq<Model>, m: Model, k: nat, counts: map<int, int>)
    requires k <= |ALIASES| && Adding(anchors, base, before, m, 0, counts)
    ensures Adding(AddAliases(anchors, m, before, k), base, before, m, k, counts)
  {
    hide Adding, AddInstance, Instances, Belongs;
    if k > 0 {
      AliasesAreAdded(anchors, base, before, m, k - 1, counts);
      AliasIsAdded(AddAliases(anchors, m, before, k - 1), base, before, m, k - 1, counts);
    }
  }

  lemma {:induction false} BlocksAreAdded(anchors: Anchors, m: Model, starts: seq<int>, k: nat, f: Family, s: seq<Model>)
    requires NumbersBlocks(anchors, starts) && Numbers(anchors, f, s)
    ensures var after := AddBlocks(anchors, m, |starts|, k);
            && NumbersBlocks(after, starts + BlockStarts(m, k)) && Numbers(after, f, s)
            && Get(after, SunspecBase) == Get(anchors, SunspecBase)
  {
    hide NumbersBlocks, Numbers, Get;
    if k > 0 {
      BlocksAreAdded(anchors, m, starts, k - 1, f, s);
      var shorter, next := starts + BlockStarts(m, k - 1), BlockStarts(m, k)[k - 1];
      assert starts + BlockStarts(m, k) == shorter + [next];
      BlockAdded(AddBlocks(anchors, m, |starts|, k - 1), shorter, next, f, s);
    } else {
      assert starts + BlockStarts(m, 0) == starts;
    }
  }

  lemma BlockAdded(anchors: Anchors, starts: seq<int>, start: int, f: Family, s: seq<Model>)
    requires NumbersBlocks(anchors, starts) && Numbers(anchors, f, s)
    ensures var after := anchors[BlockBase(|starts| + 1) := start][BlockCount := |starts| + 1];
            && NumbersBlocks(after, starts + [start]) && Numbers(after, f, s)
            && Get(after, SunspecBase) == Get(anchors, SunspecBase)
  {
  }

  lemma BlocksFinish(anchors: Anchors, base: int, before: seq<Model>, m: Model, counts: map<int, int>)
    requires Adding(anchors, base, before, m, |ALIASES|, counts)
    ensures AllNumbered(AddBlocks(anchors, m, |AllBlocks(before, counts)|, Blocks(m, counts)), base, before + [m], counts)
  {
    hide Numbers, NumbersBlocks, AddBlocks, Instances, AllBlocks, Blocks;
    var starts, models := AllBlocks(before, counts), before + [m];
    MoreInstances(before, m, counts);
    var after := AddBlocks(anchors, m, |starts|, Blocks(m, counts));
    forall f: Family ensures Numbers(after, f, Instances(f, models)) {
      assert Stage(f, before, m, |ALIASES|) == models;
      BlocksAreAdded(anchors, m, starts, Blocks(m, counts), f, Instances(f, models));
    }
    assert Stage(OfModel(0), before, m, |ALIASES|) == models;
    BlocksAreAdded(anchors, m, starts, Blocks(m, counts), OfModel(0), Instances(OfModel(0), models));
  }

  lemma ModelIsNumbered(anchors: Anchors, base: int, before: seq<Model>, m: Model, counts: map<int, int>)
    requires AllNumbered(anchors, base, before, counts)
    ensures AllNumbered(AddModel(anchors, m, before, counts), base, before + [m], counts)
  {
    hide AllNumbered, Adding, AddInstance, AddAliases, AddBlocks, AllBlocks, Instances, Blocks;
    ModelIsAdded(anchors, base, before, m, counts);
    var f := OfModel(m.id);
    var a := AddInstance(anchors, f, |Instances(f, before)| + 1, m);
    AliasesAreAdded(a, base, before, m, |ALIASES|, counts);
    BlocksFinish(AddAliases(a, m, before, |ALIASES|), base, before, m, counts);
  }

  lemma {:induction false} BuiltIsNumbered(base: int, models: seq<Model>, counts: map<int, int>)
    ensures AllNumbered(Built(base, models, counts), base, models, counts)
  {
    if models != [] {
      hide AllNumbered, AddModel;
      var before, m := models[..|models| - 1], models[|models| - 1];
      assert models == before + [m];
      BuiltIsNumbered(base, before, counts);
      ModelIsNumbered(Built(base, before, counts), base, before, m, counts);
    }
  }

  /** The builder's anchors are exactly the expected ones: nothing else is named, and every value is
      that of its instance. */
  lemma BuiltIsExpected(base: int, models: seq<Model>, counts: map<int, int>)
    ensures forall a :: Get(Built(base, models, counts), a) == Expected(a, base, models, counts)
  {
    BuiltIsNumbered(base, models, counts);
    var anchors := Built(base, models, counts);
    hide Built, Instances, AllBlocks;
    forall a ensures Get(anchors, a) == Expected(a, base, models, counts) {
      match a
      case SunspecBase =>
      case BaseOf(f, n) => assert Numbers(anchors, f, Instances(f, models));
      case LengthOf(f, n) => assert Numbers(anchors, f, Instances(f, models));
      case ModelOf(alias, n) => assert Numbers(anchors, OfAlias(alias), Instances(OfAlias(alias), models));
      case CountOf(f) => assert Numbers(anchors, f, Instances(f, models));
      case BlockBase(n) =>
      case BlockCount =>
    }
  }

  // ------------------------------------------------------------------
  // What the numbering means
  // ------------------------------------------------------------------

  /** The count of a kind of equipment is the sum over the models it stands for. */
  lemma {:induction false} AliasCountIsSum(alias: Alias, models: seq<Model>)
    ensures |Instances(OfAlias(alias), models)| == CountOfIds(AliasIds(alias), models)
  {
    if models == [] {
      NoModels(AliasIds(alias));
    } else {
      var before, m := models[..|models| - 1], models[|models| - 1];
      assert models == before + [m];
      AliasCountIsSum(alias, before);
      OneMoreModel(AliasIds(alias), before, m);
      DistinctIds(alias);
    }
  }

  /** The number of models with one of the given IDs, ID by ID. */
  function CountOfIds(ids: seq<nat>, models: seq<Model>): nat {
    if ids == [] then 0 else CountOfIds(ids[..|ids| - 1], models) + |Instances(OfModel(ids[|ids| - 1]), models)|
  }

  function Occurrences(ids: seq<nat>, id: nat): nat {
    if ids == [] then 0 else Occurrences(ids[..|ids| - 1], id) + if ids[|ids| - 1] == id then 1 else 0
  }

  lemma {:induction false} NoModels(ids: seq<nat>)
    ensures CountOfIds(ids, []) == 0
  {
    if ids != [] {
      NoModels(ids[..|ids| - 1]);
    }
  }

  lemma {:induction false} OneMoreModel(ids: seq<nat>, before: seq<Model>, m: Model)
    ensures CountOfIds(ids, before + [m]) == CountOfIds(ids, before) + Occurrences(ids, m.id)
    decreases |ids|
  {
    if ids != [] {
      OneMoreModel(ids[..|ids| - 1], before, m);
      MoreInstances(before, m, map[]);
    }
  }

  lemma DistinctIds(alias: Alias)
    ensures forall id: nat :: Occurrences(AliasIds(alias), id) == if id in AliasIds(alias) then 1 else 0
  {
    var ids := AliasIds(alias);
    assert ids[..1] == [ids[0]] && ids[..2] == [ids[0], ids[1]] && ids[..3] == [ids[0], ids[1], ids[2]];
    forall id: nat ensures Occurrences(ids, id) == if id in ids then 1 else 0 {
      var two, three := [ids[0], ids[1]], [ids[0], ids[1], ids[2]];
      assert [ids[0]][..0] == [] && two[..1] == [ids[0]] && three[..2] == two;
      assert Occurrences([ids[0]], id) == if id == ids[0] then 1 else 0;
      assert Occurrences(two, id) == Occurrences([ids[0]], id) + if id == ids[1] then 1 else 0;
      assert Occurrences(three, id) == Occurrences(two, id) + if id == ids[2] then 1 else 0;
      if |ids| == 3 {
        assert ids == three;
      } else {
        assert ids[..|ids| - 1] == three;
      }
    }
  }

  /** Every reported sub-block lies inside its model's declared span. */
  lemma BlocksLieInside(m: Model, counts: map<int, int>, i: nat)
    requires i < Blocks(m, counts)
    ensures var start := BlockStarts(m, Blocks(m, counts))[i];
            m.header + 2 <= start && start + BLOCK_LENGTH <= m.End()
  {
  }

  /** Models in address order, none reaching into the next. */
  ghost predicate Ascending(models: seq<Model>) {
    forall i, j | 0 <= i < j < |models| :: models[i].End() <= models[j].header
  }

  /** A walked chain is one. */
  lemma WalkedIsAscending(words: Registers, address: int, n: nat)
    ensures Ascending(ModelsFrom(words, address, n))
  {
    forall i, j | 0 <= i < j < |ModelsFrom(words, address, n)|
      ensures ModelsFrom(words, address, n)[i].End() <= ModelsFrom(words, address, n)[j].header
    {
      ModelsAreApart(words, address, n, i, j);
    }
  }

  /** Sub-blocks in address order, none reaching into the next or past `limit`. */
  ghost predicate Apart(starts: seq<int>, limit: int) {
    && (forall i, j | 0 <= i < j < |starts| :: starts[i] + BLOCK_LENGTH <= starts[j])
    && (forall i | 0 <= i < |starts| :: starts[i] + BLOCK_LENGTH <= limit)
  }

  function EndOf(models: seq<Model>): int {
    if models == [] then 0 else models[|models| - 1].End()
  }

  /** The sub-blocks of a walked chain do not overlap, within a model or across models. */
  lemma {:induction false} BlocksAreApart(models: seq<Model>, counts: map<int, int>)
    requires Ascending(models)
    ensures Apart(AllBlocks(models, counts), EndOf(models))
  {
    if models != [] {
      var n := |models| - 1;
      var before, m := models[..n], models[n];
      BlocksAreApart(before, counts);
      assert n > 0 ==> models[n - 1].End() <= m.header;
      assert n == 0 ==> AllBlocks(before, counts) == [];
      var starts := BlockStarts(m, Blocks(m, counts));
      forall i | 0 <= i < |starts| ensures m.header <= starts[i] && starts[i] + BLOCK_LENGTH <= m.End() {
        BlocksLieInside(m, counts, i);
      }
      JoinApart(AllBlocks(before, counts), EndOf(before), starts, m);
    }
  }

  lemma JoinApart(a: seq<int>, limit: int, b: seq<int>, m: Model)
    requires Apart(a, limit) && (a == [] || limit <= m.header)
    requires forall i, j | 0 <= i < j < |b| :: b[i] + BLOCK_LENGTH <= b[j]
    requires forall i | 0 <= i < |b| :: m.header <= b[i] && b[i] + BLOCK_LENGTH <= m.End()
    ensures Apart(a + b, m.End())
  {
  }
}
