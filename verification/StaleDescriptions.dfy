/** Two runs after which a map holds a description entry that a load with the same anchors from the start
    would not give it. */
module StaleDescriptions {
  import opened Options
  import opened Decimals
  import opened DynamicMaps
  import opened DynamicMapsTheorems
  import opened CodeTables
  import opened CodeTablesExact
  import R = RegisterMap
  import B = Batching

  const HOLDING: RegType := 3
  const INPUT: RegType := 4

  /** A register that is read whenever its map is polled. */
  function AlwaysRead(): Shape { Shape(R.Field(0, 0, 0, [], R.UShort, -1, false, []), B.Read, 0.0) }

  function Whole(name: string): NameCell { NameCell(name, false, "") }

  function OnOff(): Option<Table> { Some(map["1" := "on"]) }

  /** A protocol without masks, screens, and tables of its own. */
  function Bare(files: map<RegType, seq<Row>>, defaults: Anchors): Protocol {
    Protocol(files, map[], defaults, 40, (entries: seq<Entry>) => entries, (name: string) => false)
  }

  /** The whole map when its rows yield a single entry. */
  lemma MapOfOne(p: Protocol, anchors: Anchors, u: RegType, codes: Codes, line: Line)
    requires u in p.files && LinesOf(p.files[u], anchors) == [line] && line.place.Address?
    requires p == Bare(p.files, p.defaults)
    ensures var e := EntryOf(line);
            MapWith(p, anchors, u, codes).entries == if HasTable(codes, e) then [e, DescriptionOf(e)] else [e]
  {
    hide LinesOf, HasTable, B.MapSize, B.AllRanges, Descriptions;
    var e := EntryOf(line);
    assert EntriesOf([line]) == [e] by {
      assert [line][..0] == [];
    }
    assert Parsed(p, anchors, u) == [e];
    hide Parsed, EntriesOf;
    LoneDescription([e], 1, codes, e);
  }

  lemma OnOffHasEntries(p: Protocol)
    requires forall w: RegType, q: nat, j: nat, name | Introduces(p, w, q, j, name) :: p.files[w][q].table == OnOff()
    ensures TablesMatch(p)
    ensures forall w: RegType, q: nat, j: nat, name | Introduces(p, w, q, j, name) :: Brings(p, w, q, j, name)
  {
    assert "1" in OnOff().value;
  }

  lemma LineOfPlain(row: Row, anchors: Anchors)
    requires IsPlain(row)
    ensures LinesOf([row], anchors) == [LineAt(row, 0, anchors)]
  {
    hide LineAt;
    assert [row][..0] == [];
    assert LinesOf([row], anchors) == LinesOf([], anchors) + Expand(row, anchors);
  }

  // ------------------------------------------------------------------
  // A table outlives its row
  // ------------------------------------------------------------------

  /** A static row and a row per unit share a documented name; only the second has a table. */
  function Units(): Protocol {
    Bare(map[HOLDING := [Row(Whole("mode"), Whole("mode"), None, Literal(100), AlwaysRead()),
                         Row(NameCell("unit_", true, "_mode"), Whole("mode"), OnOff(), PerInstance("unit", "base", Some(3)), AlwaysRead())]],
         map[])
  }

  function OneUnit(): Anchors { map["unit_count" := Number(1), "unit_1_base" := Number(200)] }

  function NoUnit(): Anchors { map["unit_count" := Number(0)] }

  function Mode(): Entry { Entry("mode", "mode", 100, false, false, AlwaysRead()) }

  lemma UnitsWithout(p: Protocol, codes: Codes)
    requires p == Units().(defaults := p.defaults)
    ensures MapWith(p, NoUnit(), HOLDING, codes).entries
         == if Tabled(codes, "mode") then [Mode(), DescriptionOf(Mode())] else [Mode()]
  {
    hide MapWith, LinesOf, Tabled;
    var rows := p.files[HOLDING];
    assert CountName("unit") == "unit_count";
    var line := LineAt(rows[0], 0, NoUnit());
    assert EntryOf(line) == Mode();
    assert Expand(rows[1], NoUnit()) == [];
    assert rows == [rows[0]] + [rows[1]];
    LineOfPlain(rows[0], NoUnit());
    assert HasTable(codes, Mode()) == Tabled(codes, "mode");
    hide Units, Mode, HasTable, Expand, LineAt;
    LinesOfMore([rows[0]], rows[1], NoUnit());
    MapOfOne(p, NoUnit(), HOLDING, codes, line);
  }

  lemma LinesOfMore(rows: seq<Row>, row: Row, anchors: Anchors)
    ensures LinesOf(rows + [row], anchors) == LinesOf(rows, anchors) + Expand(row, anchors)
  {
    hide Expand;
    assert (rows + [row])[..|rows|] == rows;
  }

  /** The unit has come and gone, and the description of the other register stays: a discovery that finds
      no unit leaves two entries if an earlier one found a unit, and one if it is the first. */
  lemma DescriptionOutlivesItsRow()
    ensures var after := Apply(Units(), After(Units(), [Discovered(OneUnit(), Everything())]), NoUnit(), Everything());
            HOLDING in after.maps && after.maps[HOLDING].entries == [Mode(), DescriptionOf(Mode())]
    ensures var loaded := Initial(Units().(defaults := NoUnit()));
            HOLDING in loaded.maps && loaded.maps[HOLDING].entries == [Mode()]
  {
    var p := Units();
    var q := p.(defaults := NoUnit());
    assert CountName("unit") == "unit_count";
    assert Introduces(p, HOLDING, 1, 1, "mode") && Present(p, OneUnit(), HOLDING, 1, 1);
    assert IsTemplate(p.files[HOLDING][1]);
    assert OneUnit()["unit_count"] != NoUnit()["unit_count"];
    OnOffHasEntries(p);
    OnOffHasEntries(q);
    assert !KnownAt(q, NoUnit(), HOLDING, "mode") by {
      forall w: RegType, r: nat, j: nat | Introduces(q, w, r, j, "mode") ensures !Present(q, NoUnit(), w, r, j) {
        assert r == 1 && j > 0;
      }
    }
    hide MapWith, Initial, Apply, After, CodesBelow, KnownAt, Brings, Introduces, Present, TablesMatch, Units, OneUnit, NoUnit, Mode, Tabled;
    var codes := HistoryKnows(p, p, HOLDING, NoUnit(), OneUnit(), HOLDING, 1, 1, "mode");
    UnitsWithout(p, codes);
    FreshMap(p, NoUnit(), HOLDING);
    FreshTables(q, HOLDING, "mode");
    UnitsWithout(q, CodesBelow(q, HOLDING + 1));
  }

  // ------------------------------------------------------------------
  // A table comes too late
  // ------------------------------------------------------------------

  /** The table of a name is in the input registers, which load after the holding registers. */
  function LateTable(address: int): Protocol {
    Bare(map[HOLDING := [Row(Whole("st"), Whole("st"), None, Named("base", None), AlwaysRead())],
             INPUT := [Row(Whole("st"), Whole("st"), OnOff(), Literal(10), AlwaysRead())]],
         map["base" := Number(address)])
  }

  function St(address: int): Entry { Entry("st", "st", address, true, false, AlwaysRead()) }

  lemma HoldingOfLateTable(address: int, at: int, codes: Codes)
    ensures MapWith(LateTable(address), map["base" := Number(at)], HOLDING, codes).entries
         == if Tabled(codes, "st") then [St(at), DescriptionOf(St(at))] else [St(at)]
  {
    hide MapWith, LinesOf, Tabled;
    var p, anchors := LateTable(address), map["base" := Number(at)];
    var row := p.files[HOLDING][0];
    assert p.files[HOLDING] == [row];
    LineOfPlain(row, anchors);
    var line := LineAt(row, 0, anchors);
    assert EntryOf(line) == St(at);
    assert HasTable(codes, St(at)) == Tabled(codes, "st");
    hide LateTable, St, HasTable;
    MapOfOne(p, anchors, HOLDING, codes, line);
  }

  lemma LateTableIsLate(address: int)
    ensures var p := LateTable(address);
            && IsDynamic(p, HOLDING) && TablesMatch(p) && "st" !in p.codes
            && Brings(p, INPUT, 0, 0, "st") && Present(p, p.defaults, INPUT, 0, 0)
            && !KnownAt(p, p.defaults, HOLDING, "st")
  {
    var p := LateTable(address);
    assert IsTemplate(p.files[HOLDING][0]);
    assert Introduces(p, INPUT, 0, 0, "st");
    OnOffHasEntries(p);
    assert forall w: RegType, r: nat, j: nat | Introduces(p, w, r, j, "st") :: w == INPUT;
  }

  /** The first load of the holding registers knows no table, every later one does: moving the register
      by a discovery gives it a description that loading with the new address would not. */
  lemma RebuildAddsDescription(address: int, at: int)
    requires at != address
    ensures var p, anchors := LateTable(address), map["base" := Number(at)];
            var after, loaded := Apply(p, Initial(p), anchors, Everything()), Initial(p.(defaults := anchors));
            && HOLDING in after.maps && after.maps[HOLDING].entries == [St(at), DescriptionOf(St(at))]
            && HOLDING in loaded.maps && loaded.maps[HOLDING].entries == [St(at)]
  {
    var p, anchors := LateTable(address), map["base" := Number(at)];
    var q := LateTable(at);
    assert p.(defaults := anchors) == q;
    assert p.defaults["base"] != anchors["base"];
    LateTableIsLate(address);
    LateTableIsLate(at);
    hide MapWith, Initial, Apply, CodesBelow, KnownAt, Brings, Introduces, Present, TablesMatch, LateTable, St, LoadTypes, HasTable;
    InitialIsFresh(p);
    var s := Initial(p);
    assert Good(p, s, p.defaults, HOLDING);
    assert Introduces(p, INPUT, 0, 0, "st");
    assert "st" in s.codes;
    KnownTableMatches(p, s.codes, "st", TYPES, INPUT, 0, 0);
    var codes := ReloadedMap(p, s.(anchors := anchors), s.dynamicTypes, HOLDING, TYPES);
    AppliedIsRebuilt(p, s, anchors);
    HoldingOfLateTable(address, at, codes);
    FreshMap(p, anchors, HOLDING);
    FreshTables(q, HOLDING, "st");
    HoldingOfLateTable(at, at, CodesBelow(q, HOLDING + 1));
  }
}
