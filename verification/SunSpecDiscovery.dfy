/** SunSpec discovery end to end, and the names its anchors are published under. */
module SunSpecDiscovery {
  import opened Options
  import opened Bytes
  import opened SunSpecChain
  import opened SunSpecAnchors
  import opened Decimals

  // ------------------------------------------------------------------
  // Discovery
  // ------------------------------------------------------------------

  predicate HasMarker(words: Registers, base: int) {
    base in words && base + 1 in words && words[base] == MARKER0 && words[base + 1] == MARKER1
  }

  /** A model's own block count, where it can be read and is plausible. */
  function CountRead(words: Registers, m: Model): Option<int> {
    var a := m.header + COUNT_OFFSET;
    if m.id == REPEATING_ID && a in words && 0 < words[a] < 0x8000 then Some(words[a] as int) else None
  }

  function CountsRead(words: Registers, models: seq<Model>): map<int, int> {
    if models == [] then map[]
    else
      var m := models[|models| - 1];
      var before, n := CountsRead(words, models[..|models| - 1]), CountRead(words, m);
      if n.Some? then before[m.header := n.value] else before
  }

  method ReadBlockCounts(reader: FakeReader, models: seq<Model>) returns (counts: map<int, int>)
    modifies reader`probes
    ensures counts == CountsRead(reader.words, models)
  {
    hide ReadWords;
    counts := map[];
    for i := 0 to |models|
      invariant counts == CountsRead(reader.words, models[..i])
    {
      var m := models[i];
      assert models[..i + 1][..i] == models[..i];
      if m.id == REPEATING_ID {
        var words := reader.ReadDiscoveryRegisters(m.header + COUNT_OFFSET, 1);
        ReadOne(reader.words, m.header + COUNT_OFFSET);
        if words.Some? && 0 < words.value[0] < 0x8000 {
          counts := counts[m.header := words.value[0]];
        }
      }
    }
    assert models[..|models|] == models;
  }

  lemma ReadOne(words: Registers, start: int)
    ensures ReadWords(words, start, 1) == if start in words then Some([words[start]]) else None
  {
    assert ReadWords(words, start, 0) == Some([]);
    if start in words {
      assert [] + [words[start]] == [words[start]];
    }
  }

  datatype Discovery = Discovery(base: int, anchors: Anchors)

  /** What the first candidate address with a marker leads to. */
  function Discovered(words: Registers, candidates: seq<int>): Option<Discovery> {
    if candidates == [] then None
    else if HasMarker(words, candidates[0]) then
      var base := candidates[0];
      var models := ModelsFrom(words, base + 2, MAX_MODELS);
      Some(Discovery(base, Built(base, models, CountsRead(words, models))))
    else Discovered(words, candidates[1..])
  }

  method Discover(reader: FakeReader, candidates: seq<int>) returns (r: Option<Discovery>)
    modifies reader`probes
    ensures r == Discovered(reader.words, candidates)
  {
    hide ReadWords, Built, ModelsFrom, CountsRead;
    for i := 0 to |candidates|
      invariant Discovered(reader.words, candidates) == Discovered(reader.words, candidates[i..])
    {
      var base := candidates[i];
      assert candidates[i..][1..] == candidates[i + 1..];
      var marker := reader.ReadDiscoveryRegisters(base, 2);
      ReadTwo(reader.words, base);
      if marker.None? || marker.value != [MARKER0, MARKER1] {
        continue;
      }
      var models := WalkChain(reader, base);
      var counts := ReadBlockCounts(reader, models);
      var anchors := BuildAnchors(base, models, counts);
      return Some(Discovery(base, anchors));
    }
    r := None;
  }

  /** Discovery succeeds on exactly the devices with a marker at some candidate address. */
  lemma {:induction false} DiscoveredIfMarked(words: Registers, candidates: seq<int>)
    ensures Discovered(words, candidates).Some? <==> exists i | 0 <= i < |candidates| :: HasMarker(words, candidates[i])
  {
    hide HasMarker;
    if candidates != [] && !HasMarker(words, candidates[0]) {
      DiscoveredIfMarked(words, candidates[1..]);
      assert forall i | 0 <= i < |candidates[1..]| :: candidates[1..][i] == candidates[i + 1];
    }
  }

  /** Any device is described exactly: at the first candidate with a marker, each anchor is that of
      the models found there and of the block counts they report, and the sub-blocks never
      overlap. */
  lemma DiscoveryDescribesTheDevice(words: Registers, candidates: seq<int>, i: nat)
    requires i < |candidates| && HasMarker(words, candidates[i])
    requires forall j | 0 <= j < i :: !HasMarker(words, candidates[j])
    ensures var r, base := Discovered(words, candidates), candidates[i];
            var models := ModelsFrom(words, base + 2, MAX_MODELS);
            && r == Some(Discovery(base, Built(base, models, CountsRead(words, models))))
            && (forall a :: Get(r.value.anchors, a) == Expected(a, base, models, CountsRead(words, models)))
            && Apart(AllBlocks(models, CountsRead(words, models)), EndOf(models))
  {
    hide Built, Expected, Get, AllBlocks, Apart, ModelsFrom, CountsRead, HasMarker;
    var base := candidates[i];
    var models := ModelsFrom(words, base + 2, MAX_MODELS);
    FirstMarker(words, candidates, i);
    BuiltIsExpected(base, models, CountsRead(words, models));
    WalkedIsAscending(words, base + 2, MAX_MODELS);
    BlocksAreApart(models, CountsRead(words, models));
  }

  /** A device that carries a walkable chain, whatever data registers it holds between the headers,
      is described as that chain. */
  lemma DiscoveryDescribesTheChain(words: Registers, specs: seq<Spec>, candidates: seq<int>, i: nat)
    requires i < |candidates| && HasMarker(words, candidates[i])
    requires forall j | 0 <= j < i :: !HasMarker(words, candidates[j])
    requires Walkable(specs, candidates[i] + 2, MAX_MODELS) && Carries(words, specs, candidates[i] + 2)
    requires |specs| < MAX_MODELS ==> !HasHeader(words, EndOfChain(specs, candidates[i] + 2))
    ensures var r, base := Discovered(words, candidates), candidates[i];
            var models := Placed(specs, base + 2);
            && r == Some(Discovery(base, Built(base, models, CountsRead(words, models))))
            && (forall a :: Get(r.value.anchors, a) == Expected(a, base, models, CountsRead(words, models)))
  {
    hide Built, Expected, Get, AllBlocks, Apart, ModelsFrom, CountsRead, HasMarker, Walkable, Carries, HasHeader;
    WalkFindsExactly(words, specs, candidates[i] + 2, MAX_MODELS);
    DiscoveryDescribesTheDevice(words, candidates, i);
  }

  /** In particular the printed image of a chain, over any data registers. */
  lemma ImageIsAMarkedChain(data: Registers, specs: seq<Spec>, base: int)
    ensures var words := data + ImageOf(specs, base, true);
            HasMarker(words, base) && Carries(words, specs, base + 2) && !HasHeader(words, EndOfChain(specs, base + 2))
  {
    hide Carries, HasHeader;
    var under := data + map[base := MARKER0, base + 1 := MARKER1];
    assert data + ImageOf(specs, base, true) == under + Printed(specs, base + 2, true);
    PrintedAbove(specs, base + 2, true);
    PrintedCarries(under, specs, base + 2, true);
  }

  lemma {:induction false} FirstMarker(words: Registers, candidates: seq<int>, i: nat)
    requires i < |candidates| && HasMarker(words, candidates[i])
    requires forall j | 0 <= j < i :: !HasMarker(words, candidates[j])
    ensures Discovered(words, candidates) == Discovered(words, [candidates[i]])
  {
    hide HasMarker;
    if i > 0 {
      FirstMarker(words, candidates[1..], i - 1);
    }
  }

  // ------------------------------------------------------------------
  // Names
  // ------------------------------------------------------------------

  function Join(parts: seq<string>): string
    requires parts != []
  {
    if |parts| == 1 then parts[0] else Join(parts[..|parts| - 1]) + "_" + parts[|parts| - 1]
  }

  ghost predicate Plain(s: string) { forall i | 0 <= i < |s| :: s[i] != '_' }

  lemma SplitAtLast(a: string, d: string, b: string, e: string)
    requires Plain(d) && Plain(e) && a + "_" + d == b + "_" + e
    ensures a == b && d == e
  {
    var s, t := a + "_" + d, b + "_" + e;
    LastUnderscore(a, d);
    LastUnderscore(b, e);
    assert |a| == |b|;
    assert a == s[..|a|] == t[..|b|] == b;
    assert d == s[|a| + 1..] == t[|b| + 1..] == e;
  }

  lemma LastUnderscore(a: string, d: string)
    requires Plain(d)
    ensures var s := a + "_" + d;
            s[|a|] == '_' && forall i | |a| < i < |s| :: s[i] != '_'
  {
  }

  lemma LongIsNotPlain(p: seq<string>)
    requires |p| > 1
    ensures !Plain(Join(p))
  {
    assert Join(p)[|Join(p[..|p| - 1])|] == '_';
  }

  lemma {:induction false} JoinIsInjective(p: seq<string>, q: seq<string>)
    requires p != [] && q != [] && Join(p) == Join(q)
    requires forall i | 0 <= i < |p| :: Plain(p[i])
    requires forall i | 0 <= i < |q| :: Plain(q[i])
    ensures p == q
  {
    hide Plain;
    if |p| > 1 {
      LongIsNotPlain(p);
    }
    if |q| > 1 {
      LongIsNotPlain(q);
    }
    if |p| > 1 && |q| > 1 {
      SplitAtLast(Join(p[..|p| - 1]), p[|p| - 1], Join(q[..|q| - 1]), q[|q| - 1]);
      JoinIsInjective(p[..|p| - 1], q[..|q| - 1]);
      assert p == p[..|p| - 1] + [p[|p| - 1]];
      assert q == q[..|q| - 1] + [q[|q| - 1]];
    }
  }

  function FamilyParts(f: Family): (parts: seq<string>)
    ensures parts != []
  {
    match f
    case OfModel(id) => ["model", Decimal(id)]
    case OfAlias(Inverter) => ["inverter"]
    case OfAlias(InverterFloat) => ["inverter", "float"]
    case OfAlias(Meter) => ["meter"]
    case OfAlias(MeterFloat) => ["meter", "float"]
  }

  function Parts(a: Anchor): (parts: seq<string>)
    ensures parts != []
  {
    match a
    case SunspecBase => ["sunspec", "base"]
    case BaseOf(f, n) => FamilyParts(f) + [Decimal(n), "base"]
    case LengthOf(f, n) => FamilyParts(f) + [Decimal(n), "length"]
    case ModelOf(alias, n) => FamilyParts(OfAlias(alias)) + [Decimal(n), "model"]
    case CountOf(f) => FamilyParts(f) + ["count"]
    case BlockBase(n) => ["mppt", Decimal(n), "base"]
    case BlockCount => ["mppt", "count"]
  }

  /** The name an anchor is published under. */
  function Name(a: Anchor): string { Join(Parts(a)) }

  lemma PartsArePlain(a: Anchor)
    ensures forall i | 0 <= i < |Parts(a)| :: Plain(Parts(a)[i])
  {
    match a
    case SunspecBase =>
    case BaseOf(f, n) => FamilyIsPlain(f); DecimalIsPlain(n);
    case LengthOf(f, n) => FamilyIsPlain(f); DecimalIsPlain(n);
    case ModelOf(alias, n) => FamilyIsPlain(OfAlias(alias)); DecimalIsPlain(n);
    case CountOf(f) => FamilyIsPlain(f);
    case BlockBase(n) => DecimalIsPlain(n);
    case BlockCount =>
  }

  lemma DecimalIsPlain(n: nat)
    ensures Plain(Decimal(n))
  {
    DecimalRoundTrip(n);
  }

  lemma FamilyIsPlain(f: Family)
    ensures forall i | 0 <= i < |FamilyParts(f)| :: Plain(FamilyParts(f)[i])
  {
    if f.OfModel? {
      DecimalIsPlain(f.id);
    }
  }

  lemma FamilyIsInjective(f: Family, g: Family)
    requires FamilyParts(f) == FamilyParts(g)
    ensures f == g
  {
    if f.OfModel? && g.OfModel? {
      assert FamilyParts(f)[1] == FamilyParts(g)[1];
      DecimalIsInjective(f.id, g.id);
    } else {
      assert FamilyParts(f)[0] == FamilyParts(g)[0];
      assert "model"[1] == 'o' && "meter"[1] == 'e' && "inverter"[1] == 'n';
    }
  }

  function Last(p: seq<string>): string
    requires p != []
  {
    p[|p| - 1]
  }

  lemma NumberedPartsAreInjective(x: seq<string>, m: nat, y: seq<string>, n: nat, kind: string)
    requires x + [Decimal(m), kind] == y + [Decimal(n), kind]
    ensures x == y && m == n
  {
    var s, t := x + [Decimal(m), kind], y + [Decimal(n), kind];
    assert |x| == |y|;
    assert x == s[..|x|] == t[..|y|] == y;
    assert Decimal(m) == s[|x|] == t[|y|] == Decimal(n);
    DecimalIsInjective(m, n);
  }

  /** No two anchors share a name. */
  lemma NameIsUnique(a: Anchor, b: Anchor)
    requires Name(a) == Name(b)
    ensures a == b
  {
    hide Join;
    PartsArePlain(a);
    PartsArePlain(b);
    JoinIsInjective(Parts(a), Parts(b));
    PartsAreUnique(a, b);
  }

  lemma FamilyFirst(f: Family)
    ensures FamilyParts(f)[0] != "mppt" && FamilyParts(f)[0] != "sunspec"
  {
    assert "model"[1] == 'o' && "meter"[1] == 'e' && "mppt"[1] == 'p';
    assert |"sunspec"| == 7 && |"inverter"| == 8;
  }

  lemma CountPartsAreUnique(a: Anchor, b: Anchor)
    requires Parts(a) == Parts(b) && (a.CountOf? || a.BlockCount?) && (b.CountOf? || b.BlockCount?)
    ensures a == b
  {
    hide FamilyParts;
    if a.CountOf? {
      FamilyFirst(a.family);
      assert Parts(a)[0] == FamilyParts(a.family)[0];
    }
    if b.CountOf? {
      FamilyFirst(b.family);
      assert Parts(b)[0] == FamilyParts(b.family)[0];
    }
    if a.CountOf? && b.CountOf? {
      assert FamilyParts(a.family) == Parts(a)[..|Parts(a)| - 1];
      assert FamilyParts(b.family) == Parts(b)[..|Parts(b)| - 1];
      FamilyIsInjective(a.family, b.family);
    }
  }

  lemma BasePartsAreUnique(a: Anchor, b: Anchor)
    requires Parts(a) == Parts(b)
    requires (a.SunspecBase? || a.BaseOf? || a.BlockBase?) && (b.SunspecBase? || b.BaseOf? || b.BlockBase?)
    ensures a == b
  {
    hide FamilyParts, Decimal;
    assert |"sunspec"| == 7 && |"mppt"| == 4;
    if a.BaseOf? {
      FamilyFirst(a.family);
      assert Parts(a)[0] == FamilyParts(a.family)[0];
    }
    if b.BaseOf? {
      FamilyFirst(b.family);
      assert Parts(b)[0] == FamilyParts(b.family)[0];
    }
    if a.BaseOf? && b.BaseOf? {
      NumberedPartsAreInjective(FamilyParts(a.family), a.n, FamilyParts(b.family), b.n, "base");
      FamilyIsInjective(a.family, b.family);
    } else if a.BlockBase? && b.BlockBase? {
      assert Parts(a)[1] == Parts(b)[1];
      DecimalIsInjective(a.n, b.n);
    }
  }

  function Kind(a: Anchor): string {
    match a
    case SunspecBase => "base"
    case BaseOf(_, _) => "base"
    case BlockBase(_) => "base"
    case LengthOf(_, _) => "length"
    case ModelOf(_, _) => "model"
    case CountOf(_) => "count"
    case BlockCount => "count"
  }

  lemma KindsDiffer()
    ensures "base" != "length" && "base" != "model" && "base" != "count"
    ensures "length" != "model" && "length" != "count" && "model" != "count"
  {
    assert "base"[0] == 'b' && "length"[0] == 'l' && "model"[0] == 'm' && "count"[0] == 'c';
  }

  /** The last part tells the kind, the parts before it the family and the number. */
  lemma PartsAreUnique(a: Anchor, b: Anchor)
    requires Parts(a) == Parts(b)
    ensures a == b
  {
    hide Decimal, FamilyParts;
    assert Last(Parts(a)) == Kind(a) && Last(Parts(b)) == Kind(b);
    KindsDiffer();
    assert Kind(a) == Kind(b);
    match a
    case LengthOf(f, m) =>
      NumberedPartsAreInjective(FamilyParts(f), m, FamilyParts(b.family), b.n, "length");
      FamilyIsInjective(f, b.family);
    case ModelOf(alias, m) =>
      NumberedPartsAreInjective(FamilyParts(OfAlias(alias)), m, FamilyParts(OfAlias(b.alias)), b.n, "model");
      FamilyIsInjective(OfAlias(alias), OfAlias(b.alias));
    case CountOf(_) => CountPartsAreUnique(a, b);
    case BlockCount => CountPartsAreUnique(a, b);
    case _ => BasePartsAreUnique(a, b);
  }

  // ------------------------------------------------------------------
  // The names the provider owns
  // ------------------------------------------------------------------

  /** The shapes of the owned-name pattern: `d` and `e` stand for runs of digits. */
  datatype Shape =
    | Sunspec | ModelCount(d: string) | ModelPart(d: string, e: string, part: string)
    | AliasCount(alias: Alias) | AliasPart(alias: Alias, d: string, part: string)
    | MpptCount | MpptBase(d: string)

  predicate InPattern(s: Shape) {
    match s
    case Sunspec => true
    case ModelCount(d) => Digits(d)
    case ModelPart(d, e, part) => Digits(d) && Digits(e) && part in ["base", "length"]
    case AliasCount(_) => true
    case AliasPart(_, d, part) => Digits(d) && part in ["base", "length", "model"]
    case MpptCount => true
    case MpptBase(d) => Digits(d)
  }

  function AliasText(a: Alias): string {
    match a
    case Inverter => "inverter"
    case InverterFloat => "inverter_float"
    case Meter => "meter"
    case MeterFloat => "meter_float"
  }

  function Text(s: Shape): string {
    match s
    case Sunspec => "sunspec_base"
    case ModelCount(d) => "model_" + d + "_count"
    case ModelPart(d, e, part) => "model_" + d + "_" + e + "_" + part
    case AliasCount(alias) => AliasText(alias) + "_count"
    case AliasPart(alias, d, part) => AliasText(alias) + "_" + d + "_" + part
    case MpptCount => "mppt_count"
    case MpptBase(d) => "mppt_" + d + "_base"
  }

  ghost predicate Owned(name: string) {
    exists s: Shape :: InPattern(s) && Text(s) == name
  }

  function ShapeOf(a: Anchor): Shape {
    match a
    case SunspecBase => Sunspec
    case BaseOf(OfModel(id), n) => ModelPart(Decimal(id), Decimal(n), "base")
    case LengthOf(OfModel(id), n) => ModelPart(Decimal(id), Decimal(n), "length")
    case BaseOf(OfAlias(alias), n) => AliasPart(alias, Decimal(n), "base")
    case LengthOf(OfAlias(alias), n) => AliasPart(alias, Decimal(n), "length")
    case ModelOf(alias, n) => AliasPart(alias, Decimal(n), "model")
    case CountOf(OfModel(id)) => ModelCount(Decimal(id))
    case CountOf(OfAlias(alias)) => AliasCount(alias)
    case BlockBase(n) => MpptBase(Decimal(n))
    case BlockCount => MpptCount
  }

  lemma JoinTwo(x: string, y: string)
    ensures Join([x, y]) == x + "_" + y
  {
    assert [x, y][..1] == [x];
  }

  lemma JoinMore(p: seq<string>, x: string)
    requires p != []
    ensures Join(p + [x]) == Join(p) + "_" + x
  {
    assert (p + [x])[..|p|] == p;
  }

  lemma JoinFamily(f: Family)
    ensures Join(FamilyParts(f)) == if f.OfModel? then "model_" + Decimal(f.id) else AliasText(f.alias)
  {
    match f
    case OfModel(id) => JoinTwo("model", Decimal(id));
    case OfAlias(InverterFloat) => JoinTwo("inverter", "float");
    case OfAlias(MeterFloat) => JoinTwo("meter", "float");
    case _ =>
  }

  lemma JoinNumbered(f: Family, n: nat, kind: string)
    ensures Join(FamilyParts(f) + [Decimal(n), kind]) == Join(FamilyParts(f)) + "_" + Decimal(n) + "_" + kind
  {
    hide Join, FamilyParts, Decimal;
    JoinMore(FamilyParts(f), Decimal(n));
    JoinMore(FamilyParts(f) + [Decimal(n)], kind);
    assert FamilyParts(f) + [Decimal(n)] + [kind] == FamilyParts(f) + [Decimal(n), kind];
  }

  lemma BlockHasShape(n: nat)
    ensures Join(["mppt", Decimal(n), "base"]) == "mppt_" + Decimal(n) + "_base"
  {
    hide Join, Decimal;
    JoinTwo("mppt", Decimal(n));
    JoinMore(["mppt", Decimal(n)], "base");
    assert ["mppt", Decimal(n)] + ["base"] == ["mppt", Decimal(n), "base"];
  }

  lemma NumberedHasShape(f: Family, n: nat, part: string)
    ensures Join(FamilyParts(f) + [Decimal(n), part])
         == Text(if f.OfModel? then ModelPart(Decimal(f.id), Decimal(n), part) else AliasPart(f.alias, Decimal(n), part))
  {
    hide Join, FamilyParts, Decimal, AliasText;
    JoinNumbered(f, n, part);
    JoinFamily(f);
  }

  lemma NameHasShape(a: Anchor)
    ensures Name(a) == Text(ShapeOf(a))
  {
    hide Join, FamilyParts, Decimal, AliasText;
    match a
    case SunspecBase => JoinTwo("sunspec", "base");
    case BaseOf(f, n) => NumberedHasShape(f, n, "base");
    case LengthOf(f, n) => NumberedHasShape(f, n, "length");
    case ModelOf(alias, n) => NumberedHasShape(OfAlias(alias), n, "model");
    case CountOf(f) => CountHasShape(f);
    case BlockBase(n) => BlockHasShape(n);
    case BlockCount => JoinTwo("mppt", "count");
  }

  lemma CountHasShape(f: Family)
    ensures Join(FamilyParts(f) + ["count"]) == Text(if f.OfModel? then ModelCount(Decimal(f.id)) else AliasCount(f.alias))
  {
    hide Join, FamilyParts, Decimal, AliasText;
    JoinMore(FamilyParts(f), "count");
    JoinFamily(f);
  }

  /** Every name a discovery publishes is one the provider owns. */
  lemma PublishedIsOwned(a: Anchor)
    ensures Owned(Name(a))
  {
    hide Decimal, Text, Name, Digits;
    NameHasShape(a);
    match a
    case BaseOf(f, n) => DecimalRoundTrip(n); DecimalRoundTrip(if f.OfModel? then f.id else 0);
    case LengthOf(f, n) => DecimalRoundTrip(n); DecimalRoundTrip(if f.OfModel? then f.id else 0);
    case ModelOf(alias, n) => DecimalRoundTrip(n);
    case CountOf(f) => DecimalRoundTrip(if f.OfModel? then f.id else 0);
    case BlockBase(n) => DecimalRoundTrip(n);
    case _ =>
  }
}
