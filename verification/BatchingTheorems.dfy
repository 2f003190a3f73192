/** What one batched poll is good for: its ranges are tight, they hold what the decoder needs,
    and an entry read is not due again until its interval has passed. */
module BatchingTheorems {
  import opened RegisterMap
  import opened Decoding
  import opened Batching

  // ------------------------------------------------------------------
  // Windows
  // ------------------------------------------------------------------

  /** The window that holds an address. */
  function WindowOf(a: int, c: Call): (k: nat)
    requires c.batch > 0 && c.Reaches(a)
    ensures k < c.Windows() && k * c.batch <= a < k * c.batch + c.batch
  {
    var k := a / c.batch;
    assert k < c.Windows() by {
      MulMonotone(c.batch, c.Windows(), if c.Windows() <= k then k else c.Windows());
    }
    k
  }

  /** Every address of the map lies in a window. */
  lemma MapIsReached(a: int, c: Call)
    requires c.batch > 0 && 0 <= a <= c.maxRegister
    ensures c.Reaches(a)
  {
  }

  lemma {:induction false} SpanCovers(rows: seq<Row>, start: int, c: Call, i: nat)
    requires i < |rows| && InWindow(rows[i], start, c)
    ensures var s := WindowSpan(rows, start, c);
            s.Span? && s.lo <= rows[i].field.register && LastRegister(rows[i].field) <= s.hi
  {
    if i < |rows| - 1 {
      SpanCovers(rows[..|rows| - 1], start, c, i);
    }
  }

  /** The two entries a window's span begins and ends with. */
  lemma {:induction false} SpanIsAttained(rows: seq<Row>, start: int, c: Call) returns (i: nat, j: nat)
    requires WindowSpan(rows, start, c).Span?
    ensures i < |rows| && InWindow(rows[i], start, c) && rows[i].field.register == WindowSpan(rows, start, c).lo
    ensures j < |rows| && InWindow(rows[j], start, c) && LastRegister(rows[j].field) == WindowSpan(rows, start, c).hi
  {
    var n := |rows| - 1;
    var before := WindowSpan(rows[..n], start, c);
    if before.Span? {
      i, j := SpanIsAttained(rows[..n], start, c);
    } else {
      i, j := n, n;
    }
    if InWindow(rows[n], start, c) && before.Span? {
      var f := rows[n].field;
      i, j := if f.register < before.lo then n else i, if LastRegister(f) > before.hi then n else j;
    }
  }

  // ------------------------------------------------------------------
  // Tightness
  // ------------------------------------------------------------------

  /** `r` spans the selected entries of window `k`: it begins where one of them begins, ends where
      one of them ends, and holds them all. */
  ghost predicate Tight(r: Range, rows: seq<Row>, k: nat, c: Call) {
    && (exists i | 0 <= i < |rows| :: InWindow(rows[i], k * c.batch, c) && rows[i].field.register == r.first)
    && (exists j | 0 <= j < |rows| :: InWindow(rows[j], k * c.batch, c) && LastRegister(rows[j].field) == r.first + r.count - 1)
    && (forall i | 0 <= i < |rows| && InWindow(rows[i], k * c.batch, c) ::
          r.first <= rows[i].field.register && LastRegister(rows[i].field) < r.first + r.count)
  }

  ghost predicate HasSelected(rows: seq<Row>, k: nat, c: Call) {
    exists i | 0 <= i < |rows| :: InWindow(rows[i], k * c.batch, c)
  }

  lemma WindowIsTight(rows: seq<Row>, k: nat, c: Call)
    ensures HasSelected(rows, k, c) <==> WindowSpan(rows, k * c.batch, c).Span?
    ensures var s := WindowSpan(rows, k * c.batch, c);
            s.Span? ==> Tight(Range(s.lo, s.hi - s.lo + 1), rows, k, c)
  {
    var start := k * c.batch;
    forall i: nat | i < |rows| && InWindow(rows[i], start, c)
      ensures var s := WindowSpan(rows, start, c);
              s.Span? && s.lo <= rows[i].field.register && LastRegister(rows[i].field) <= s.hi
    {
      SpanCovers(rows, start, c, i);
    }
    if WindowSpan(rows, start, c).Span? {
      var i, j := SpanIsAttained(rows, start, c);
    }
  }

  /** The ranges are the spans of the windows in order: each is the tight span of a window, each
      window with a selected entry has its one range, and their starts strictly increase. */
  lemma RangesAreTight(rows: seq<Row>, c: Call)
    requires c.batch > 0
    ensures var rs := AllRanges(rows, c).ranges;
            && (forall r | r in rs :: exists k: nat | k < c.Windows() :: Tight(r, rows, k, c))
            && (forall k: nat | k < c.Windows() && HasSelected(rows, k, c) :: exists r | r in rs :: Tight(r, rows, k, c))
            && (forall i, j | 0 <= i < j < |rs| :: rs[i].first < rs[j].first)
  {
    hide Tight, HasSelected, RangesBelow;
    var rs := RangesBelow(rows, c.Windows(), c);
    forall r | r in rs ensures exists k: nat | k < c.Windows() :: Tight(r, rows, k, c) {
      var i :| 0 <= i < |rs| && r == rs[i];
      var k := RangeHasWindow(rows, c.Windows(), c, i);
    }
    forall k: nat | k < c.Windows() && HasSelected(rows, k, c) ensures exists r | r in rs :: Tight(r, rows, k, c) {
      var r := WindowHasRange(rows, k, c.Windows(), c);
    }
    StartsIncrease(rows, c.Windows(), c);
  }

  lemma {:induction false} RangeHasWindow(rows: seq<Row>, n: nat, c: Call, i: nat) returns (k: nat)
    requires i < |RangesBelow(rows, n, c)|
    ensures k < n && Tight(RangesBelow(rows, n, c)[i], rows, k, c)
  {
    hide Tight, HasSelected;
    if i < |RangesBelow(rows, n - 1, c)| {
      k := RangeHasWindow(rows, n - 1, c, i);
    } else {
      k := n - 1;
      WindowIsTight(rows, k, c);
    }
  }

  lemma {:induction false} WindowHasRange(rows: seq<Row>, k: nat, n: nat, c: Call) returns (r: Range)
    requires k < n && HasSelected(rows, k, c)
    ensures r in RangesBelow(rows, n, c) && Tight(r, rows, k, c)
  {
    hide Tight, HasSelected;
    if k < n - 1 {
      r := WindowHasRange(rows, k, n - 1, c);
    } else {
      WindowIsTight(rows, k, c);
      r := SpanRanges(WindowSpan(rows, k * c.batch, c))[0];
    }
  }

  /** The starts increase and stay below `limit`. */
  ghost predicate Ascending(rs: seq<Range>, limit: int) {
    && (forall i | 0 <= i < |rs| :: rs[i].first < limit)
    && (forall i, j | 0 <= i < j < |rs| :: rs[i].first < rs[j].first)
  }

  lemma AscendingAppend(rs: seq<Range>, s: Span, lo: int, hi: int)
    requires Ascending(rs, lo) && lo <= hi && (s.Span? ==> lo <= s.lo < hi)
    ensures Ascending(rs + SpanRanges(s), hi)
  {
  }

  lemma {:induction false} StartsIncrease(rows: seq<Row>, n: nat, c: Call)
    requires c.batch > 0
    ensures Ascending(RangesBelow(rows, n, c), n * c.batch)
  {
    if n > 0 {
      hide Ascending;
      StartsIncrease(rows, n - 1, c);
      var lo := (n - 1) * c.batch;
      assert n * c.batch == lo + c.batch;
      var span := WindowSpan(rows, lo, c);
      if span.Span? {
        var i, j := SpanIsAttained(rows, lo, c);
      }
      AscendingAppend(RangesBelow(rows, n - 1, c), span, lo, lo + c.batch);
    } else {
      assert RangesBelow(rows, n, c) == [];
    }
  }

  // ------------------------------------------------------------------
  // Batching suffices for decoding
  // ------------------------------------------------------------------

  ghost predicate Fetched(ranges: seq<Range>, a: int) {
    exists i | 0 <= i < |ranges| :: ranges[i].Covers(a)
  }

  /** Every word the decoder assembles lies between the entry's register and the last register the
      batcher gives it. */
  predicate WellPlaced(f: Field) {
    var n := DecoderWords(f);
    if f.registerList == [] then n <= EntryWordCount(f)
    else
      && (forall i | 0 <= i < |f.registerList| && i < n :: f.registerList[0] <= f.registerList[i])
      && (n > |f.registerList| ==> f.register + n - 1 <= MaxOf(f.registerList))
  }

  /** An explicit list with the type's word count and its smallest address first is well placed. */
  lemma SmallestFirstIsWellPlaced(f: Field)
    requires f.registerList != [] && |f.registerList| == DecoderWords(f)
    requires forall i | 0 <= i < |f.registerList| :: f.registerList[0] <= f.registerList[i]
    ensures WellPlaced(f)
  {
  }

  /** So is every entry that is neither listed nor part of a concatenated range. */
  lemma PlainIsWellPlaced(f: Field)
    requires f.registerList == [] && !f.concatenate
    ensures WellPlaced(f)
  {
  }

  lemma WellPlacedSpan(f: Field)
    requires ValidField(f)
    ensures WellPlaced(f) <==> forall i: nat | i < DecoderWords(f) :: f.register <= AddressAt(f, i) <= LastRegister(f)
  {
    var n, list := DecoderWords(f), f.registerList;
    if WellPlaced(f) {
      forall i: nat | i < n ensures f.register <= AddressAt(f, i) <= LastRegister(f) {
      }
    }
    if forall i: nat | i < n :: f.register <= AddressAt(f, i) <= LastRegister(f) {
      assert f.register <= AddressAt(f, n - 1) <= LastRegister(f);
      forall i: nat | i < |list| && i < n ensures list[0] <= list[i] {
        assert f.register <= AddressAt(f, i);
      }
    }
  }

  /** The integer decoder succeeds exactly when every word it assembles is in the snapshot. */
  lemma DecodesWhenPresent(registry: map<int, int>, f: Field, wo: WordOrder)
    requires ValidField(f)
    ensures ProcessUshort(registry, f, wo).Ok? <==> forall i: nat | i < DecoderWords(f) :: AddressAt(f, i) in registry
  {
    GatheredWhenPresent(registry, f, DecoderWords(f));
    assert AddressAt(f, 0) == f.register;
    hide GatherWords;
    if DecoderWords(f) == 1 && f.dataType.Ascii? {
    }
  }

  lemma {:induction false} GatheredWhenPresent(registry: map<int, int>, f: Field, n: nat)
    ensures GatherWords(registry, f, n).Some? <==> forall i: nat | i < n :: AddressAt(f, i) in registry
  {
    if n > 0 {
      GatheredWhenPresent(registry, f, n - 1);
    }
  }

  lemma {:induction false} WindowIsFetched(rows: seq<Row>, k: nat, n: nat, c: Call, a: int)
    requires k < n
    requires var s := WindowSpan(rows, k * c.batch, c);
             s.Span? && s.lo <= a <= s.hi
    ensures Fetched(RangesBelow(rows, n, c), a)
  {
    var rs, s := RangesBelow(rows, n - 1, c), WindowSpan(rows, (n - 1) * c.batch, c);
    if k < n - 1 {
      WindowIsFetched(rows, k, n - 1, c, a);
      var i :| 0 <= i < |rs| && rs[i].Covers(a);
      assert RangesBelow(rows, n, c)[i] == rs[i];
    } else {
      assert RangesBelow(rows, n, c)[|rs|].Covers(a);
    }
  }

  /** Every selected entry that is well placed decodes from a snapshot holding what the ranges ask
      for, whatever else is polled with it. */
  lemma BatchingSuffices(rows: seq<Row>, c: Call, i: nat, registry: map<int, int>, wo: WordOrder)
    requires c.batch > 0 && i < |rows|
    requires c.Selects(rows[i]) && c.Reaches(rows[i].field.register)
    requires ValidField(rows[i].field) && WellPlaced(rows[i].field)
    requires forall a | Fetched(AllRanges(rows, c).ranges, a) :: a in registry
    ensures ProcessUshort(registry, rows[i].field, wo).Ok?
  {
    var f := rows[i].field;
    var k := WindowOf(f.register, c);
    SpanCovers(rows, k * c.batch, c, i);
    WellPlacedSpan(f);
    forall w: nat | w < DecoderWords(f) ensures AddressAt(f, w) in registry {
      WindowIsFetched(rows, k, c.Windows(), c, AddressAt(f, w));
    }
    DecodesWhenPresent(registry, f, wo);
  }

  lemma {:induction false} MapSizeReaches(rows: seq<Row>, i: nat)
    requires i < |rows|
    ensures LastRegister(rows[i].field) <= MapSize(rows)
  {
    if i < |rows| - 1 {
      MapSizeReaches(rows[..|rows| - 1], i);
    }
  }

  lemma {:induction false} MapSizeIsAttained(rows: seq<Row>)
    ensures MapSize(rows) == 0 || exists i | 0 <= i < |rows| :: LastRegister(rows[i].field) == MapSize(rows)
  {
    if rows != [] {
      var n := |rows| - 1;
      MapSizeIsAttained(rows[..n]);
      if MapSize(rows) == MapSize(rows[..n]) != 0 {
        var i :| 0 <= i < n && LastRegister(rows[..n][i].field) == MapSize(rows);
        assert rows[i] == rows[..n][i];
      } else {
        assert MapSize(rows) == 0 || LastRegister(rows[n].field) == MapSize(rows);
      }
    }
  }

  /** The size of a map is the highest register its entries reach, 0 if none reaches further. */
  lemma MapSizeIsHighest(rows: seq<Row>, size: int)
    ensures size == MapSize(rows)
       <==> && size >= 0
            && (forall i | 0 <= i < |rows| :: LastRegister(rows[i].field) <= size)
            && (size == 0 || exists i | 0 <= i < |rows| :: LastRegister(rows[i].field) == size)
  {
    MapSizeIsAttained(rows);
    forall i: nat | i < |rows| ensures LastRegister(rows[i].field) <= MapSize(rows) {
      MapSizeReaches(rows, i);
    }
  }

  /** The first poll of a loaded map, up to its own highest register, fetches all that the readable,
      well-placed entries of the map need. */
  lemma InitialPollSuffices(rows: seq<Row>, batch: int, now: real, i: nat, registry: map<int, int>, wo: WordOrder)
    requires batch > 0 && i < |rows|
    requires !rows[i].writeMode.ReadDisabled? && !rows[i].writeMode.WriteOnly?
    requires ValidField(rows[i].field) && WellPlaced(rows[i].field) && rows[i].field.register >= 0
    requires forall a | Fetched(AllRanges(rows, Call(batch, MapSize(rows), true, now)).ranges, a) :: a in registry
    ensures ProcessUshort(registry, rows[i].field, wo).Ok?
  {
    hide AllRanges, ProcessUshort, WellPlaced;
    var c := Call(batch, MapSize(rows), true, now);
    MapSizeReaches(rows, i);
    MapIsReached(rows[i].field.register, c);
    BatchingSuffices(rows, c, i, registry, wo);
  }

  /** Entries at consecutive registers outside concatenated ranges, and full lists with their
      smallest address first. */
  predicate Ordinary(f: Field) {
    || (f.registerList == [] && !f.concatenate)
    || (|f.registerList| == DecoderWords(f) && forall i | 0 <= i < |f.registerList| :: f.registerList[0] <= f.registerList[i])
  }

  /** So after the first poll of a loaded map every ordinary readable entry decodes. */
  lemma OrdinaryEntriesDecode(rows: seq<Row>, batch: int, now: real, registry: map<int, int>, wo: WordOrder)
    requires batch > 0
    requires forall i | 0 <= i < |rows| :: ValidField(rows[i].field) && rows[i].field.register >= 0
    requires forall a | Fetched(AllRanges(rows, Call(batch, MapSize(rows), true, now)).ranges, a) :: a in registry
    ensures forall i | 0 <= i < |rows| && Ordinary(rows[i].field)
                       && !rows[i].writeMode.ReadDisabled? && !rows[i].writeMode.WriteOnly? ::
              ValidField(rows[i].field) && ProcessUshort(registry, rows[i].field, wo).Ok?
  {
    hide AllRanges, ProcessUshort, WellPlaced, MapSize;
    forall i: nat | i < |rows| && Ordinary(rows[i].field) && !rows[i].writeMode.ReadDisabled? && !rows[i].writeMode.WriteOnly?
      ensures ValidField(rows[i].field) && ProcessUshort(registry, rows[i].field, wo).Ok?
    {
      var f := rows[i].field;
      if f.registerList == [] && !f.concatenate {
        PlainIsWellPlaced(f);
      } else {
        SmallestFirstIsWellPlaced(f);
      }
      InitialPollSuffices(rows, batch, now, i, registry, wo);
    }
  }

  lemma {:induction false} LoneRange(row: Row, k: nat, n: nat, c: Call)
    requires c.batch > 0 && InWindow(row, k * c.batch, c)
    ensures var f := row.field;
            RangesBelow([row], n, c) == if n <= k then [] else [Range(f.register, LastRegister(f) - f.register + 1)]
  {
    if n > 0 {
      hide WindowSpan, InWindow, LastRegister;
      LoneRange(row, k, n - 1, c);
      LoneSpan(row, (n - 1) * c.batch, c);
      LoneWindow(row, k, n - 1, c);
    }
  }

  lemma LoneWindow(row: Row, k: nat, m: nat, c: Call)
    requires c.batch > 0 && InWindow(row, k * c.batch, c)
    ensures InWindow(row, m * c.batch, c) <==> m == k
  {
    if m != k {
      WindowsAreDisjoint(row.field.register, k, m, c.batch);
    }
  }

  lemma LoneSpan(row: Row, start: int, c: Call)
    ensures WindowSpan([row], start, c)
         == if InWindow(row, start, c) then Span(row.field.register, LastRegister(row.field)) else Nothing
  {
    assert [row][..0] == [];
    assert WindowSpan([row][..0], start, c) == Nothing;
  }

  lemma WindowsAreDisjoint(a: int, k: nat, m: nat, b: int)
    requires b > 0 && k * b <= a < k * b + b && k != m
    ensures !(m * b <= a < m * b + b)
  {
    if m < k {
      MulMonotone(b, m + 1, k);
      assert b * (m + 1) == m * b + b;
    } else {
      MulMonotone(b, k + 1, m);
      assert b * (k + 1) == k * b + b;
    }
  }

  /** The condition is exact: polled on its own, an entry decodes from precisely what was fetched
      if and only if it is well placed. */
  lemma WellPlacedIsExact(row: Row, c: Call, registry: map<int, int>, wo: WordOrder)
    requires c.batch > 0 && c.Selects(row) && c.Reaches(row.field.register) && ValidField(row.field)
    requires forall a :: a in registry <==> Fetched(AllRanges([row], c).ranges, a)
    ensures ProcessUshort(registry, row.field, wo).Ok? <==> WellPlaced(row.field)
  {
    var f := row.field;
    var k := WindowOf(f.register, c);
    LoneRange(row, k, c.Windows(), c);
    var range := Range(f.register, LastRegister(f) - f.register + 1);
    assert AllRanges([row], c).ranges == [range];
    assert forall a :: Fetched([range], a) <==> [range][0].Covers(a);
    WellPlacedSpan(f);
    DecodesWhenPresent(registry, f, wo);
  }

  /** Selected entries of window `k` lie to both sides of the address. */
  ghost predicate Enclosed(rows: seq<Row>, k: nat, c: Call, a: int) {
    exists x: nat, y: nat ::
      && x < |rows| && y < |rows| && InWindow(rows[x], k * c.batch, c) && InWindow(rows[y], k * c.batch, c)
      && rows[x].field.register <= a <= LastRegister(rows[y].field)
  }

  ghost predicate EnclosedInSome(rows: seq<Row>, c: Call, a: int)
    requires c.batch > 0
  {
    exists k: nat :: k < c.Windows() && Enclosed(rows, k, c, a)
  }

  lemma FetchedIsEnclosed(rows: seq<Row>, c: Call, a: int)
    requires c.batch > 0
    ensures Fetched(AllRanges(rows, c).ranges, a) <==> EnclosedInSome(rows, c, a)
  {
    hide RangesBelow, InWindow;
    var rs := RangesBelow(rows, c.Windows(), c);
    if Fetched(rs, a) {
      var i: nat :| i < |rs| && rs[i].Covers(a);
      var k := RangeHasWindow(rows, c.Windows(), c, i);
      assert Enclosed(rows, k, c, a);
    }
    if k: nat :| k < c.Windows() && Enclosed(rows, k, c, a) {
      var x: nat, y: nat :| x < |rows| && y < |rows| && InWindow(rows[x], k * c.batch, c) && InWindow(rows[y], k * c.batch, c)
                            && rows[x].field.register <= a <= LastRegister(rows[y].field);
      SpanCovers(rows, k * c.batch, c, x);
      SpanCovers(rows, k * c.batch, c, y);
      WindowIsFetched(rows, k, c.Windows(), c, a);
    }
  }

  /** Polled with others, an entry decodes from precisely what was fetched if and only if each of its words
      is enclosed by selected entries of some window. */
  lemma EnclosedIsExact(rows: seq<Row>, c: Call, f: Field, registry: map<int, int>, wo: WordOrder)
    requires c.batch > 0 && ValidField(f)
    requires forall a :: a in registry <==> Fetched(AllRanges(rows, c).ranges, a)
    ensures ProcessUshort(registry, f, wo).Ok?
       <==> forall w: nat | w < DecoderWords(f) :: EnclosedInSome(rows, c, AddressAt(f, w))
  {
    hide Fetched, AllRanges, EnclosedInSome, ProcessUshort;
    DecodesWhenPresent(registry, f, wo);
    forall w: nat | w < DecoderWords(f)
      ensures AddressAt(f, w) in registry <==> EnclosedInSome(rows, c, AddressAt(f, w))
    {
      FetchedIsEnclosed(rows, c, AddressAt(f, w));
    }
  }

  /** A list with an address below its first among those the decoder assembles: polled on its own,
      the entry is a partial read, and nothing is decoded. */
  lemma DescendingListIsMissed(row: Row, c: Call, registry: map<int, int>, wo: WordOrder, w: nat)
    requires c.batch > 0 && c.Selects(row) && c.Reaches(row.field.register) && ValidField(row.field)
    requires forall a :: a in registry <==> Fetched(AllRanges([row], c).ranges, a)
    requires w < |row.field.registerList| && w < DecoderWords(row.field)
    requires row.field.registerList[w] < row.field.registerList[0]
    ensures ProcessUshort(registry, row.field, wo) == PartialRead
  {
    var f := row.field;
    assert w > 0;
    WellPlacedIsExact(row, c, registry, wo);
    FailureIsPartial(registry, f, wo);
  }

  /** An entry of several words never raises: what it cannot assemble is a partial read. */
  lemma FailureIsPartial(registry: map<int, int>, f: Field, wo: WordOrder)
    requires ValidType(f.dataType) && DecoderWords(f) > 1 && !ProcessUshort(registry, f, wo).Ok?
    ensures ProcessUshort(registry, f, wo) == PartialRead
  {
    hide GatherWords;
  }

  /** The plainest case: two words listed in descending order. */
  lemma ReversedPairIsMissed()
    ensures var f := Field(41, -1, 0, [41, 40], UInt, 0, false, []);
            var row := Row(f, Read, 1000.0, 0.0);
            var c := Call(40, 41, true, 0.0);
            && ValidField(f)
            && AllRanges([row], c) == Ranges([Range(41, 1)])
            && ProcessUshort(map[41 := 7], f, WordOrder(false, false)) == PartialRead
  {
    var f := Field(41, -1, 0, [41, 40], UInt, 0, false, []);
    var row := Row(f, Read, 1000.0, 0.0);
    var c := Call(40, 41, true, 0.0);
    assert c.Windows() == 2;
    LoneRange(row, 1, 2, c);
    GatheredWhenPresent(map[41 := 7], f, 2);
    assert AddressAt(f, 1) == 40;
  }

  // ------------------------------------------------------------------
  // The schedule
  // ------------------------------------------------------------------

  /** Right after a poll nothing is due: the same call at the same time reads nothing and puts
      nothing off again. */
  lemma NothingIsDueTwice(rows: seq<Row>, c: Call)
    requires c.batch > 0 && !c.init
    requires forall i | 0 <= i < |rows| :: rows[i].readInterval >= 0.0
    ensures var after := RowsAfter(rows, c);
            AllRanges(after, c) == Ranges([]) && RowsAfter(after, c) == after
  {
    var after := RowsAfter(rows, c);
    forall i | 0 <= i < |after| ensures !c.Selects(after[i]) || !c.Reaches(after[i].field.register) {
    }
    NothingSelected(after, c.Windows(), c);
  }

  lemma {:induction false} NothingSelected(rows: seq<Row>, n: nat, c: Call)
    requires c.batch > 0
    requires forall i | 0 <= i < |rows| :: !c.Selects(rows[i]) || !(0 <= rows[i].field.register < n * c.batch)
    ensures RangesBelow(rows, n, c) == []
  {
    if n > 0 {
      assert n * c.batch == (n - 1) * c.batch + c.batch;
      assert (n - 1) * c.batch >= 0;
      NothingSelected(rows, n - 1, c);
      if WindowSpan(rows, (n - 1) * c.batch, c).Span? {
        var i, j := SpanIsAttained(rows, (n - 1) * c.batch, c);
      }
    }
  }

  predicate Reads(c: Call, row: Row) {
    c.batch > 0 && c.Selects(row) && c.Reaches(row.field.register)
  }

  /** An entry after a number of polls. */
  function RowAfter(row: Row, calls: seq<Call>): Row {
    if calls == [] then row
    else
      var before := RowAfter(row, calls[..|calls| - 1]);
      RowsAfter([before], calls[|calls| - 1])[0]
  }

  /** Over any run of polls an entry is read again only when more than its interval has passed,
      even if the clock is set back in between. */
  lemma ReadsKeepTheInterval(row: Row, calls: seq<Call>, i: nat, j: nat)
    requires row.readInterval >= 0.0 && i < j < |calls|
    requires forall k | 0 <= k < |calls| :: !calls[k].init
    requires Reads(calls[i], RowAfter(row, calls[..i])) && Reads(calls[j], RowAfter(row, calls[..j]))
    ensures calls[j].now > calls[i].now + row.readInterval
  {
    NextReadNeverFalls(row, calls, i, j);
  }

  lemma {:induction false} NextReadNeverFalls(row: Row, calls: seq<Call>, i: nat, j: nat)
    requires row.readInterval >= 0.0 && i < j <= |calls|
    requires forall k | 0 <= k < |calls| :: !calls[k].init
    requires Reads(calls[i], RowAfter(row, calls[..i]))
    ensures var after := RowAfter(row, calls[..j]);
            after == row.(nextRead := after.nextRead) && after.nextRead >= calls[i].now + row.readInterval
  {
    assert calls[..j][..j - 1] == calls[..j - 1];
    OnlyTheTimeMoves(row, calls[..i]);
    if i < j - 1 {
      NextReadNeverFalls(row, calls, i, j - 1);
    }
  }

  lemma {:induction false} OnlyTheTimeMoves(row: Row, calls: seq<Call>)
    ensures RowAfter(row, calls) == row.(nextRead := RowAfter(row, calls).nextRead)
  {
    if calls != [] {
      OnlyTheTimeMoves(row, calls[..|calls| - 1]);
    }
  }
}
