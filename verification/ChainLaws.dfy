/** The SunSpec chain in the specification's own numbers: its marker, its headers, where it ends, and which
    models are which equipment. */
module ChainLaws {
  import opened SunSpecChain
  import opened SunSpecAnchors
  import opened SunSpecDiscovery

  /** The marker spells SunS. */
  lemma MarkerSpellsSunS(words: Registers, base: int)
    ensures HasMarker(words, base)
       <==> base in words && base + 1 in words
            && words[base] == 'S' as int * 256 + 'u' as int && words[base + 1] == 'n' as int * 256 + 'S' as int
  {
  }

  /** Two readable registers inside the 16-bit address space, with a model ID that is not all ones and not
      zero with a length of zero. */
  predicate IsModelAt(words: Registers, address: int) {
    && address < 65535 && address in words && address + 1 in words
    && words[address] < 65535 && (words[address] > 0 || words[address + 1] > 0)
  }

  /** From a marker on the walk finds the models one behind the other, each as its header says, and stops after
      64 of them or where no model is. */
  lemma WalkExactly(words: Registers, base: int)
    ensures var ms := ModelsFrom(words, base + 2, MAX_MODELS);
            && |ms| <= 64
            && (forall i | 0 <= i < |ms| :: IsModelAt(words, ms[i].header)
                  && ms[i].id == words[ms[i].header] && ms[i].length == words[ms[i].header + 1])
            && (forall i | 0 <= i < |ms| ::
                  ms[i].header == if i == 0 then base + 2 else ms[i - 1].header + 2 + ms[i - 1].length)
            && (|ms| < 64 ==> !IsModelAt(words, if ms == [] then base + 2 else ms[|ms| - 1].header + 2 + ms[|ms| - 1].length))
  {
    ModelsTile(words, base + 2, MAX_MODELS);
    var ms := ModelsFrom(words, base + 2, MAX_MODELS);
    hide ModelsFrom;
    forall i | 0 < i < |ms| ensures ms[i].header == ms[i - 1].End() {
      assert ms[i - 1 + 1].header == ms[i - 1].End();
    }
  }

  /** The models of each kind of equipment. */
  lemma EquipmentIds(m: Model)
    ensures Belongs(OfAlias(Inverter), m) <==> 101 <= m.id <= 103
    ensures Belongs(OfAlias(InverterFloat), m) <==> 111 <= m.id <= 113
    ensures Belongs(OfAlias(Meter), m) <==> 201 <= m.id <= 204
    ensures Belongs(OfAlias(MeterFloat), m) <==> 211 <= m.id <= 214
  {
  }

  /** `at` lists the places in the chain at which `instances` stand, in order, and no model of the family
      stands anywhere else. */
  ghost predicate StandAt(f: Family, models: seq<Model>, instances: seq<Model>, at: seq<nat>) {
    && |at| == |instances|
    && (forall i, j | 0 <= i < j < |at| :: at[i] < at[j])
    && (forall i | 0 <= i < |at| :: at[i] < |models| && models[at[i]] == instances[i])
    && (forall k: nat | k < |models| :: k in at <==> Belongs(f, models[k]))
  }

  /** The instances of a family are its models in chain order: each is one, and none is left out. */
  lemma {:induction false} InstancesExactly(f: Family, models: seq<Model>) returns (at: seq<nat>)
    ensures StandAt(f, models, Instances(f, models), at)
  {
    hide *;
    if models == [] {
      at := [];
      NoInstances(f);
    } else {
      var n := |models| - 1;
      var before, m := models[..n], models[n];
      at := InstancesExactly(f, before);
      MoreInstances(before, m, map[]);
      assert models == before + [m];
      if Belongs(f, m) {
        OneInstanceMore(f, before, m, Instances(f, before), at);
        at := at + [n];
      } else {
        NoInstanceMore(f, before, m, Instances(f, before), at);
      }
    }
  }

  lemma NoInstances(f: Family)
    ensures StandAt(f, [], Instances(f, []), [])
  {
  }

  lemma OneInstanceMore(f: Family, models: seq<Model>, m: Model, instances: seq<Model>, at: seq<nat>)
    requires StandAt(f, models, instances, at) && Belongs(f, m)
    ensures StandAt(f, models + [m], instances + [m], at + [|models|])
  {
    hide Belongs;
    var all := models + [m];
    forall k: nat | k < |all| ensures k in at + [|models|] <==> Belongs(f, all[k]) {
      if k < |models| {
        assert all[k] == models[k];
      }
    }
  }

  lemma NoInstanceMore(f: Family, models: seq<Model>, m: Model, instances: seq<Model>, at: seq<nat>)
    requires StandAt(f, models, instances, at) && !Belongs(f, m)
    ensures StandAt(f, models + [m], instances, at)
  {
    hide Belongs;
    var all := models + [m];
    forall k: nat | k < |all| ensures k in at <==> Belongs(f, all[k]) {
      if k < |models| {
        assert all[k] == models[k];
      } else {
        assert forall i | 0 <= i < |at| :: at[i] < |models|;
      }
    }
  }
}
