/** Register batching: which address ranges one poll reads, and when each entry is due again. */
module Batching {
  import opened RegisterMap
  import opened Decoding

  datatype WriteMode = Read | ReadDisabled | Write | WriteOnly

  /** An entry as the batcher sees it; times are in milliseconds. */
  datatype Row = Row(field: Field, writeMode: WriteMode, readInterval: real, nextRead: real)

  /** A register-map entry, whose next read time is advanced in place. */
  class Entry {
    const field: Field
    const writeMode: WriteMode
    const readInterval: real
    var nextRead: real

    constructor (row: Row)
      ensures AsRow() == row
    {
      field, writeMode, readInterval, nextRead := row.field, row.writeMode, row.readInterval, row.nextRead;
    }

    function AsRow(): Row
      reads this
    {
      Row(field, writeMode, readInterval, nextRead)
    }
  }

  /** `count` registers from `first` on. */
  datatype Range = Range(first: int, count: int) {
    predicate Covers(a: int) { first <= a < first + count }
  }

  datatype Batched = Ranges(ranges: seq<Range>) | ZeroStep

  /** The settings of one call: the window length, the highest register, whether every entry
      is read regardless of its schedule, and the time in milliseconds. */
  datatype Call = Call(batch: int, maxRegister: int, init: bool, now: real) {
    predicate Selects(row: Row) {
      !row.writeMode.ReadDisabled? && !row.writeMode.WriteOnly? && (init || row.nextRead < now)
    }

    function Advance(row: Row): Row {
      if init then row else row.(nextRead := now + row.readInterval)
    }

    /** The number of windows: one per multiple of the window length up to the last register. */
    function Windows(): (n: nat)
      requires batch > 0
    {
      if maxRegister < 0 then 0 else maxRegister / batch + 1
    }

    /** Some window holds the address. */
    predicate Reaches(a: int)
      requires batch > 0
    {
      0 <= a < Windows() * batch
    }
  }

  function MaxOf(s: seq<int>): (m: int)
    requires s != []
    ensures m in s && forall i | 0 <= i < |s| :: s[i] <= m
  {
    if |s| == 1 then s[0]
    else
      var m := MaxOf(s[..|s| - 1]);
      var last := s[|s| - 1];
      assert s == s[..|s| - 1] + [last];
      if last > m then last else m
  }

  /** The last address an entry's words are taken to reach. */
  function LastRegister(f: Field): (r: int)
    ensures ValidField(f) ==> f.register <= r
  {
    if f.registerList != [] then MaxOf(f.registerList) else f.register + EntryWordCount(f) - 1
  }

  // ------------------------------------------------------------------
  // What a call computes
  // ------------------------------------------------------------------

  datatype Span = Nothing | Span(lo: int, hi: int)

  function Widen(s: Span, f: Field): Span {
    match s
    case Nothing => Span(f.register, LastRegister(f))
    case Span(lo, hi) => Span(if f.register < lo then f.register else lo, if LastRegister(f) > hi then LastRegister(f) else hi)
  }

  predicate InWindow(row: Row, start: int, c: Call) {
    start <= row.field.register < start + c.batch && c.Selects(row)
  }

  /** The tightest span over the selected entries of one window. */
  function WindowSpan(rows: seq<Row>, start: int, c: Call): Span {
    if rows == [] then Nothing
    else
      var init, row := WindowSpan(rows[..|rows| - 1], start, c), rows[|rows| - 1];
      if InWindow(row, start, c) then Widen(init, row.field) else init
  }

  function SpanRanges(s: Span): seq<Range> {
    if s.Nothing? then [] else [Range(s.lo, s.hi - s.lo + 1)]
  }

  /** The ranges of the first `k` windows. */
  function RangesBelow(rows: seq<Row>, k: nat, c: Call): seq<Range> {
    if k == 0 then [] else RangesBelow(rows, k - 1, c) + SpanRanges(WindowSpan(rows, (k - 1) * c.batch, c))
  }

  /** The ranges one call returns; windows of negative length hold no address. */
  function AllRanges(rows: seq<Row>, c: Call): Batched {
    if c.batch == 0 then ZeroStep
    else if c.batch < 0 then Ranges([])
    else Ranges(RangesBelow(rows, c.Windows(), c))
  }

  /** The selected rows whose register lies below `limit` put off by their interval. */
  function Advanced(row: Row, limit: int, c: Call): Row {
    if 0 <= row.field.register < limit && c.Selects(row) then c.Advance(row) else row
  }

  function AllAdvanced(rows: seq<Row>, limit: int, c: Call): (r: seq<Row>)
    ensures |r| == |rows|
    ensures forall i | 0 <= i < |rows| :: r[i] == Advanced(rows[i], limit, c)
  {
    seq(|rows|, i requires 0 <= i < |rows| => Advanced(rows[i], limit, c))
  }

  function RowsAfter(rows: seq<Row>, c: Call): (r: seq<Row>)
    ensures |r| == |rows|
  {
    if c.batch <= 0 then rows else AllAdvanced(rows, c.Windows() * c.batch, c)
  }

  function Rows(entries: seq<Entry>): (r: seq<Row>)
    reads entries
    ensures |r| == |entries|
    ensures forall i | 0 <= i < |entries| :: r[i] == entries[i].AsRow()
  {
    seq(|entries|, i requires 0 <= i < |entries| reads entries => entries[i].AsRow())
  }

  ghost predicate Distinct(entries: seq<Entry>) {
    forall i, j | 0 <= i < j < |entries| :: entries[i] != entries[j]
  }

  /** The address is not below 0 and not beyond the window that holds the highest register. */
  predicate InReach(a: int, maxRegister: int, batch: int)
    requires batch > 0
  {
    0 <= a && 0 <= maxRegister && a < maxRegister - maxRegister % batch + batch
  }

  /** A call asks for an entry that may be read, lies in reach, and is due, or else is loaded first. */
  predicate IsPolled(row: Row, c: Call)
    requires c.batch > 0
  {
    && (row.writeMode.Read? || row.writeMode.Write?)
    && InReach(row.field.register, c.maxRegister, c.batch)
    && (c.init || row.nextRead < c.now)
  }

  /** The entry's next read is one interval after the call that polls it, unless that is the first load. */
  predicate PutsOff(row: Row, row': Row, c: Call)
    requires c.batch > 0
  {
    row' == if IsPolled(row, c) && !c.init then row.(nextRead := c.now + row.readInterval) else row
  }

  lemma LastWindowEnds(c: Call)
    requires c.batch > 0 && c.maxRegister >= 0
    ensures c.Windows() * c.batch == c.maxRegister - c.maxRegister % c.batch + c.batch
  {
  }

  lemma PutsOffExactly(rows: seq<Row>, c: Call, i: nat)
    requires c.batch > 0 && i < |rows|
    ensures PutsOff(rows[i], RowsAfter(rows, c)[i], c)
  {
    if c.maxRegister >= 0 {
      LastWindowEnds(c);
    }
  }

  /** One poll's ranges; the entries they are read for are put off. */
  method CalculateRegistryRanges(entries: seq<Entry>, c: Call) returns (r: Batched)
    requires Distinct(entries)
    modifies entries
    ensures r == AllRanges(old(Rows(entries)), c)
    ensures Rows(entries) == RowsAfter(old(Rows(entries)), c)
    ensures c.batch > 0 ==> forall i | 0 <= i < |entries| :: PutsOff(old(entries[i].AsRow()), entries[i].AsRow(), c)
  {
    ghost var rows := Rows(entries);
    if c.batch > 0 {
      forall i: nat | i < |rows| ensures PutsOff(rows[i], RowsAfter(rows, c)[i], c) {
        PutsOffExactly(rows, c, i);
      }
    }
    hide PutsOff, AllAdvanced;
    if c.batch == 0 {
      return ZeroStep;
    }
    if c.batch < 0 {
      return Ranges([]);
    }
    var ranges := ScanWindows(entries, c);
    r := Ranges(ranges);
  }

  /** The windows one after the other. */
  method ScanWindows(entries: seq<Entry>, c: Call) returns (ranges: seq<Range>)
    requires Distinct(entries) && c.batch > 0
    modifies entries
    ensures ranges == RangesBelow(old(Rows(entries)), c.Windows(), c)
    ensures Rows(entries) == AllAdvanced(old(Rows(entries)), c.Windows() * c.batch, c)
  {
    hide WindowSpan, Advanced, InWindow;
    ghost var rows := Rows(entries);
    NothingAdvanced(rows, c);
    ranges := [];
    var start := 0;
    ghost var k: nat := 0;
    while start <= c.maxRegister
      invariant start == k * c.batch
      invariant k <= c.Windows()
      invariant ranges == RangesBelow(rows, k, c)
      invariant Rows(entries) == AllAdvanced(rows, start, c)
      decreases c.maxRegister - start
    {
      var span := ScanWindow(entries, start, c, rows);
      if span.Span? {
        ranges := ranges + [Range(span.lo, span.hi - span.lo + 1)];
      }
      WindowStep(c, k);
      k, start := k + 1, start + c.batch;
    }
    LastWindow(c, k);
  }

  /** One window: the span of its selected entries, each of them put off. */
  method ScanWindow(entries: seq<Entry>, start: int, c: Call, ghost rows: seq<Row>) returns (span: Span)
    requires Distinct(entries) && start >= 0 && c.batch > 0
    requires |rows| == |entries| && Rows(entries) == AllAdvanced(rows, start, c)
    modifies entries
    ensures span == WindowSpan(rows, start, c)
    ensures Rows(entries) == AllAdvanced(rows, start + c.batch, c)
  {
    span := Nothing;
    for i := 0 to |entries|
      invariant span == WindowSpan(rows[..i], start, c)
      invariant forall j | 0 <= j < i :: entries[j].AsRow() == Advanced(rows[j], start + c.batch, c)
      invariant forall j | i <= j < |entries| :: entries[j].AsRow() == Advanced(rows[j], start, c)
    {
      var e := entries[i];
      assert rows[..i + 1][..i] == rows[..i];
      if start <= e.field.register < start + c.batch {
        if !e.writeMode.ReadDisabled? && !e.writeMode.WriteOnly? && (c.init || e.nextRead < c.now) {
          if !c.init {
            e.nextRead := c.now + e.readInterval;
          }
          span := Widen(span, e.field);
        }
      }
    }
    assert rows[..|entries|] == rows;
  }

  /** The highest register of a loaded map. */
  function MapSize(rows: seq<Row>): (size: int)
    ensures size >= 0
  {
    if rows == [] then 0
    else
      var size, last := MapSize(rows[..|rows| - 1]), LastRegister(rows[|rows| - 1].field);
      if last > size then last else size
  }

  method RegistryMapSize(entries: seq<Entry>) returns (size: int)
    ensures size == MapSize(Rows(entries))
  {
    size := 0;
    ghost var rows := Rows(entries);
    for i := 0 to |entries|
      invariant size == MapSize(rows[..i])
    {
      assert rows[..i + 1][..i] == rows[..i];
      var f := entries[i].field;
      var last := if f.registerList != [] then MaxOf(f.registerList) else f.register + EntryWordCount(f) - 1;
      if last > size {
        size := last;
      }
    }
    assert rows[..|entries|] == rows;
  }

  lemma NothingAdvanced(rows: seq<Row>, c: Call)
    ensures AllAdvanced(rows, 0, c) == rows
  {
  }

  lemma WindowStep(c: Call, k: nat)
    requires c.batch > 0 && k * c.batch <= c.maxRegister
    ensures k + 1 <= c.Windows()
  {
    var q, r := c.maxRegister / c.batch, c.maxRegister % c.batch;
    if k > q {
      MulMonotone(c.batch, q + 1, k);
    }
  }

  lemma LastWindow(c: Call, k: nat)
    requires c.batch > 0 && k <= c.Windows() && k * c.batch > c.maxRegister
    ensures k == c.Windows()
  {
    if k < c.Windows() {
      MulMonotone(c.batch, k, c.maxRegister / c.batch);
    }
  }
}
