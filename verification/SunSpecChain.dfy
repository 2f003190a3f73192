/** The SunSpec model chain: the walker that reads it and the printer it undoes. */
module SunSpecChain {
  import opened Options
  import opened Bytes

  /** A model found: its ID, the address of its header, and its declared length. */
  datatype Model = Model(id: word, header: int, length: word) {
    /** The first address after the model. */
    function End(): int { header + 2 + length }
  }

  const MARKER0: word := 0x5375
  const MARKER1: word := 0x6E53
  const END_MODEL_ID: word := 0xFFFF
  const MAX_MODELS: nat := 64

  type Registers = map<int, word>

  datatype Probe = Probe(start: int, count: nat)

  /** The registers from `start` on; none if one is missing. */
  function ReadWords(words: Registers, start: int, count: nat): (r: Option<seq<word>>)
    ensures r.Some? ==> |r.value| == count
  {
    if count == 0 then Some([])
    else
      var init := ReadWords(words, start, count - 1);
      if init.None? || start + count - 1 !in words then None else Some(init.value + [words[start + count - 1]])
  }

  lemma {:induction false} UnreadableStaysUnreadable(words: Registers, start: int, count: nat, more: nat)
    requires count <= more && ReadWords(words, start, count).None?
    ensures ReadWords(words, start, more).None?
    decreases more - count
  {
    if count < more {
      UnreadableStaysUnreadable(words, start, count, more - 1);
    }
  }

  lemma ReadTwo(words: Registers, start: int)
    ensures ReadWords(words, start, 2)
         == if start in words && start + 1 in words then Some([words[start], words[start + 1]]) else None
  {
    assert ReadWords(words, start, 0) == Some([]);
    if start in words {
      assert [] + [words[start]] == [words[start]];
      if start + 1 in words {
        assert [words[start]] + [words[start + 1]] == [words[start], words[start + 1]];
      }
    }
  }

  /** A register image; unknown addresses read as a failure. Every read is recorded. */
  class FakeReader {
    const words: Registers
    var probes: seq<Probe>

    constructor (words: Registers)
      ensures this.words == words && probes == []
    {
      this.words := words;
      probes := [];
    }

    method ReadDiscoveryRegisters(start: int, count: nat) returns (r: Option<seq<word>>)
      modifies this`probes
      ensures probes == old(probes) + [Probe(start, count)]
      ensures r == ReadWords(words, start, count)
    {
      probes := probes + [Probe(start, count)];
      var values: seq<word> := [];
      for i := 0 to count
        invariant ReadWords(words, start, i) == Some(values)
      {
        if start + i !in words {
          UnreadableStaysUnreadable(words, start, i + 1, count);
          return None;
        }
        values := values + [words[start + i]];
      }
      r := Some(values);
    }
  }

  // ------------------------------------------------------------------
  // The walker
  // ------------------------------------------------------------------

  predicate IsEnd(id: word, length: word) { id == END_MODEL_ID || (id == 0 && length == 0) }

  /** A model header can be read at `address`, inside the 16-bit address space. */
  predicate HasHeader(words: Registers, address: int) {
    address + 1 <= 0xFFFF && address in words && address + 1 in words && !IsEnd(words[address], words[address + 1])
  }

  /** The models from `address` on, at most `n`. */
  function ModelsFrom(words: Registers, address: int, n: nat): seq<Model>
    decreases n
  {
    if n == 0 || !HasHeader(words, address) then []
    else
      var m := Model(words[address], address, words[address + 1]);
      [m] + ModelsFrom(words, m.End(), n - 1)
  }

  method WalkChain(reader: FakeReader, base: int) returns (models: seq<Model>)
    modifies reader`probes
    ensures models == ModelsFrom(reader.words, base + 2, MAX_MODELS)
  {
    hide ModelsFrom, ReadWords;
    models := [];
    var address := base + 2;
    while |models| < MAX_MODELS && address + 1 <= 0xFFFF
      invariant |models| <= MAX_MODELS
      invariant ModelsFrom(reader.words, base + 2, MAX_MODELS) == models + ModelsFrom(reader.words, address, MAX_MODELS - |models|)
      decreases MAX_MODELS - |models|
    {
      var header := reader.ReadDiscoveryRegisters(address, 2);
      ReadTwo(reader.words, address);
      WalkStep(reader.words, address, MAX_MODELS - |models|);
      if header.None? {
        return;
      }
      var modelId, length := header.value[0], header.value[1];
      if modelId == END_MODEL_ID || (modelId == 0 && length == 0) {
        return;
      }
      models := models + [Model(modelId, address, length)];
      address := address + 2 + length;
    }
    WalkStep(reader.words, address, MAX_MODELS - |models|);
  }

  lemma WalkStep(words: Registers, address: int, n: nat)
    ensures ModelsFrom(words, address, n)
         == if n == 0 || !HasHeader(words, address) then []
            else [Model(words[address], address, words[address + 1])] + ModelsFrom(words, address + 2 + words[address + 1], n - 1)
  {
  }

  /** On any image the models found tile the addresses from the marker on, stop only for a reason,
      and are what the image holds there. */
  lemma {:induction false} ModelsTile(words: Registers, address: int, n: nat)
    ensures var ms := ModelsFrom(words, address, n);
            && |ms| <= n
            && (forall i | 0 <= i < |ms| :: HasHeader(words, ms[i].header)
                  && ms[i].id == words[ms[i].header] && ms[i].length == words[ms[i].header + 1])
            && (ms != [] ==> ms[0].header == address)
            && (forall i | 0 <= i < |ms| - 1 :: ms[i + 1].header == ms[i].End())
            && (|ms| < n ==> !HasHeader(words, if ms == [] then address else ms[|ms| - 1].End()))
    decreases n
  {
    if n > 0 && HasHeader(words, address) {
      var m := Model(words[address], address, words[address + 1]);
      ModelsTile(words, m.End(), n - 1);
      var rest := ModelsFrom(words, m.End(), n - 1);
      var ms := [m] + rest;
      forall i | 0 <= i < |ms| - 1 ensures ms[i + 1].header == ms[i].End() {
        if i > 0 {
          assert ms[i + 1] == rest[i] && ms[i] == rest[i - 1];
        }
      }
    }
  }

  /** So the blocks of any two models are apart. */
  lemma {:induction false} ModelsAreApart(words: Registers, address: int, n: nat, i: nat, j: nat)
    requires i < j < |ModelsFrom(words, address, n)|
    ensures ModelsFrom(words, address, n)[i].End() <= ModelsFrom(words, address, n)[j].header
    decreases j
  {
    ModelsTile(words, address, n);
    hide ModelsFrom, HasHeader;
    var ms := ModelsFrom(words, address, n);
    assert ms[j - 1 + 1].header == ms[j - 1].End();
    if i < j - 1 {
      ModelsAreApart(words, address, n, i, j - 1);
    }
  }

  // ------------------------------------------------------------------
  // The printer
  // ------------------------------------------------------------------

  /** A model to print: its ID and length. */
  datatype Spec = Spec(id: word, length: word)

  /** The headers of a chain from `address` on, and the end marker. */
  function Printed(specs: seq<Spec>, address: int, endMarker: bool): Registers {
    if specs == [] then (if endMarker then map[address := END_MODEL_ID, address + 1 := 0] else map[])
    else
      var s := specs[0];
      map[address := s.id, address + 1 := s.length] + Printed(specs[1..], address + 2 + s.length, endMarker)
  }

  function ImageOf(specs: seq<Spec>, base: int, endMarker: bool): Registers {
    map[base := MARKER0, base + 1 := MARKER1] + Printed(specs, base + 2, endMarker)
  }

  /** Where the headers of a chain sit. */
  function Placed(specs: seq<Spec>, address: int): (ms: seq<Model>)
    ensures |ms| == |specs|
  {
    if specs == [] then []
    else [Model(specs[0].id, address, specs[0].length)] + Placed(specs[1..], address + 2 + specs[0].length)
  }

  method ChainImage(specs: seq<Spec>, base: int, endMarker: bool) returns (words: Registers)
    ensures words == ImageOf(specs, base, endMarker)
  {
    hide Printed;
    words := map[base := MARKER0, base + 1 := MARKER1];
    var address := base + 2;
    assert specs[0..] == specs;
    for i := 0 to |specs|
      invariant ImageOf(specs, base, endMarker) == words + Printed(specs[i..], address, endMarker)
    {
      var s := specs[i];
      assert specs[i..][1..] == specs[i + 1..];
      PrintOne(words, specs[i..], address, endMarker);
      words := words[address := s.id][address + 1 := s.length];
      address := address + 2 + s.length;
    }
    assert specs[|specs|..] == [];
    PrintEnd(words, address, endMarker);
    if endMarker {
      words := words[address := END_MODEL_ID][address + 1 := 0];
    }
  }

  lemma PrintOne(words: Registers, specs: seq<Spec>, address: int, endMarker: bool)
    requires specs != []
    ensures var s := specs[0];
            words + Printed(specs, address, endMarker)
            == words[address := s.id][address + 1 := s.length] + Printed(specs[1..], address + 2 + s.length, endMarker)
  {
  }

  lemma PrintEnd(words: Registers, address: int, endMarker: bool)
    ensures words + Printed([], address, endMarker)
         == if endMarker then words[address := END_MODEL_ID][address + 1 := 0] else words
  {
  }

  lemma {:induction false} PrintedAbove(specs: seq<Spec>, address: int, endMarker: bool)
    ensures forall a | a in Printed(specs, address, endMarker) :: a >= address
  {
    if specs != [] {
      PrintedAbove(specs[1..], address + 2 + specs[0].length, endMarker);
    }
  }

  /** The models a walker can report: short enough a chain, no header that reads as the end, and
      every header inside the address space. */
  predicate Walkable(specs: seq<Spec>, address: int, n: nat) {
    && |specs| <= n
    && forall i | 0 <= i < |specs| :: !IsEnd(specs[i].id, specs[i].length) && Placed(specs, address)[i].header + 1 <= 0xFFFF
  }

  function Look(words: Registers, a: int): Option<word> { if a in words then Some(words[a]) else None }

  /** Where a chain ends. */
  function EndOfChain(specs: seq<Spec>, address: int): int {
    if specs == [] then address else EndOfChain(specs[1..], address + 2 + specs[0].length)
  }

  /** A device holds the headers of a chain where the chain puts them; between them it may hold
      anything. */
  predicate Carries(words: Registers, specs: seq<Spec>, address: int)
    decreases |specs|
  {
    specs == []
    || (&& Look(words, address) == Some(specs[0].id) && Look(words, address + 1) == Some(specs[0].length)
        && Carries(words, specs[1..], address + 2 + specs[0].length))
  }

  /** On any device the walk finds a given chain if and only if the chain is walkable, the device
      carries its headers, and no further header follows, unless the walk ends there anyway. */
  lemma {:induction false} WalkFindsExactly(words: Registers, specs: seq<Spec>, address: int, n: nat)
    ensures ModelsFrom(words, address, n) == Placed(specs, address)
       <==> && Walkable(specs, address, n) && Carries(words, specs, address)
            && (|specs| < n ==> !HasHeader(words, EndOfChain(specs, address)))
    decreases |specs|
  {
    if specs != [] {
      var s, next := specs[0], address + 2 + specs[0].length;
      if n > 0 {
        WalkFindsExactly(words, specs[1..], next, n - 1);
        WalkableRest(specs, address, n);
      }
      assert Carries(words, specs, address) ==>
          Look(words, address) == Some(s.id) && Look(words, address + 1) == Some(s.length) && Carries(words, specs[1..], next);
      if n > 0 && HasHeader(words, address) {
        var m := Model(words[address], address, words[address + 1]);
        OneStep(m, ModelsFrom(words, m.End(), n - 1), Model(s.id, address, s.length), Placed(specs[1..], next));
      } else {
        assert ModelsFrom(words, address, n) == [];
        if Carries(words, specs, address) {
          NotWalkable(specs, address, n);
        }
      }
    }
  }

  lemma OneStep(m: Model, ms: seq<Model>, p: Model, ps: seq<Model>)
    ensures [m] + ms == [p] + ps <==> m == p && ms == ps
  {
    if [m] + ms == [p] + ps {
      assert ([m] + ms)[0] == m && ([p] + ps)[0] == p;
      assert ([m] + ms)[1..] == ms && ([p] + ps)[1..] == ps;
    }
  }

  lemma WalkableRest(specs: seq<Spec>, address: int, n: nat)
    requires specs != [] && n > 0
    ensures Walkable(specs, address, n)
       <==> Walkable(specs[1..], address + 2 + specs[0].length, n - 1)
            && !IsEnd(specs[0].id, specs[0].length) && address + 1 <= 0xFFFF
  {
    var rest, next := specs[1..], address + 2 + specs[0].length;
    assert forall i | 0 <= i < |rest| :: specs[i + 1] == rest[i] && Placed(specs, address)[i + 1] == Placed(rest, next)[i];
    assert Placed(specs, address)[0].header == address;
    if Walkable(rest, next, n - 1) && !IsEnd(specs[0].id, specs[0].length) && address + 1 <= 0xFFFF {
      forall i | 0 <= i < |specs| ensures !IsEnd(specs[i].id, specs[i].length) && Placed(specs, address)[i].header + 1 <= 0xFFFF {
        if i > 0 {
          assert specs[i] == rest[i - 1];
        }
      }
    }
    if Walkable(specs, address, n) {
      forall i | 0 <= i < |rest| ensures !IsEnd(rest[i].id, rest[i].length) && Placed(rest, next)[i].header + 1 <= 0xFFFF {
        assert specs[i + 1] == rest[i];
      }
    }
  }

  lemma NotWalkable(specs: seq<Spec>, address: int, n: nat)
    requires specs != [] && (n == 0 || IsEnd(specs[0].id, specs[0].length) || address + 1 > 0xFFFF)
    ensures !Walkable(specs, address, n)
  {
    assert Placed(specs, address)[0].header == address;
  }

  lemma {:induction false} EndIsAfter(specs: seq<Spec>, address: int)
    ensures EndOfChain(specs, address) >= address
  {
    if specs != [] {
      EndIsAfter(specs[1..], address + 2 + specs[0].length);
    }
  }

  /** The first header of a printed chain, under the headers after it. */
  lemma FirstHeaderShows(under: Registers, rest: Registers, s: Spec, address: int)
    requires forall a | a in rest :: a >= address + 2
    ensures var words := under[address := s.id][address + 1 := s.length] + rest;
            Look(words, address) == Some(s.id) && Look(words, address + 1) == Some(s.length)
  {
  }

  /** A printed chain carries its headers and ends where it says, whatever lies under it. */
  lemma {:induction false} PrintedCarries(data: Registers, specs: seq<Spec>, address: int, endMarker: bool)
    ensures var words := data + Printed(specs, address, endMarker);
            && Carries(words, specs, address)
            && (endMarker || EndOfChain(specs, address) !in data ==> !HasHeader(words, EndOfChain(specs, address)))
    decreases |specs|
  {
    if specs != [] {
      hide Printed, Look, HasHeader;
      var s, next := specs[0], address + 2 + specs[0].length;
      var under := data[address := s.id][address + 1 := s.length];
      PrintOne(data, specs, address, endMarker);
      PrintedCarries(under, specs[1..], next, endMarker);
      PrintedAbove(specs[1..], next, endMarker);
      FirstHeaderShows(data, Printed(specs[1..], next, endMarker), s, address);
      EndIsAfter(specs[1..], next);
    }
  }

  /** A device holding a printed chain over any data registers walks to exactly its models if and only
      if the chain is walkable. */
  lemma WalkIgnoresData(data: Registers, specs: seq<Spec>, base: int)
    ensures ModelsFrom(data + ImageOf(specs, base, true), base + 2, MAX_MODELS) == Placed(specs, base + 2)
       <==> Walkable(specs, base + 2, MAX_MODELS)
  {
    hide Walkable, Carries, HasHeader, ModelsFrom, Printed;
    var under := data + map[base := MARKER0, base + 1 := MARKER1];
    assert data + ImageOf(specs, base, true) == under + Printed(specs, base + 2, true);
    PrintedCarries(under, specs, base + 2, true);
    WalkFindsExactly(under + Printed(specs, base + 2, true), specs, base + 2, MAX_MODELS);
  }

  /** The round trip: walking the image of a chain gives back exactly its models with their header
      addresses, with or without the end marker, if and only if the chain is walkable. */
  lemma WalkUndoesPrinting(specs: seq<Spec>, base: int, endMarker: bool)
    ensures ModelsFrom(ImageOf(specs, base, endMarker), base + 2, MAX_MODELS) == Placed(specs, base + 2)
       <==> Walkable(specs, base + 2, MAX_MODELS)
  {
    hide Walkable, Carries, HasHeader, ModelsFrom, Printed;
    PrintedCarries(map[base := MARKER0, base + 1 := MARKER1], specs, base + 2, endMarker);
    EndIsAfter(specs, base + 2);
    WalkFindsExactly(ImageOf(specs, base, endMarker), specs, base + 2, MAX_MODELS);
  }
}
