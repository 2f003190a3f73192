/** Turning a register snapshot into named values, with ranges of registers joined into one text. */
module Concatenation {
  import opened Texts

  /** A register-map row; `members` lists a concatenated range in reading order, and `describes`
      marks rows that only describe another value. */
  datatype Row = Row(name: string, register: int, concatenate: bool, members: seq<int>, ascii: bool, describes: bool)

  /** What decoding a row's register gives: nothing there, a partial read, or a value. */
  datatype Reading<+V> = Absent | Partial | Value(value: V)

  datatype Output<+V> = Single(value: V) | Joined(text: string)

  /** Fragments waiting for the rest of their range, and the values named so far. */
  datatype State<V> = State(pending: map<int, V>, info: map<string, Output<V>>)

  function NulsToSpaces(s: string): string {
    seq(|s|, i requires 0 <= i < |s| => if s[i] == 0 as char then ' ' else s[i])
  }

  function Tidy(text: string, ascii: bool): string {
    if ascii then StripRight(StripLeft(NulsToSpaces(text))) else text
  }

  predicate AllExist<V>(values: map<int, V>, members: seq<int>) {
    forall i | 0 <= i < |members| :: members[i] in values
  }

  /** The fragments of a range side by side, in the order of `members`. */
  function Join<V>(values: map<int, V>, members: seq<int>, show: V -> string): string
    requires AllExist(values, members)
  {
    if members == [] then ""
    else Join(values, members[..|members| - 1], show) + show(values[members[|members| - 1]])
  }

  function Without<V>(values: map<int, V>, members: seq<int>): map<int, V> {
    values - (set i | 0 <= i < |members| :: members[i])
  }

  function Step<V>(s: State<V>, row: Row, reading: Reading<V>, show: V -> string): State<V> {
    if row.describes || !reading.Value? then s
    else if !row.concatenate then s.(info := s.info[row.name := Single(reading.value)])
    else
      var pending := s.pending[row.register := reading.value];
      if AllExist(pending, row.members) then
        State(Without(pending, row.members),
              s.info[row.name := Joined(Tidy(Join(pending, row.members, show), row.ascii))])
      else s.(pending := pending)
  }

  function Process<V>(rows: seq<Row>, read: Row -> Reading<V>, show: V -> string): State<V> {
    if rows == [] then State(map[], map[])
    else
      var row := rows[|rows| - 1];
      Step(Process(rows[..|rows| - 1], read, show), row, read(row), show)
  }

  ghost predicate DistinctMembers(row: Row) {
    forall i, j | 0 <= i < j < |row.members| :: row.members[i] != row.members[j]
  }

  /** The decoding loop; removing a joined fragment needs the members of a range to be distinct. */
  method ProcessRegistery<V(==)>(rows: seq<Row>, read: Row -> Reading<V>, show: V -> string)
    returns (info: map<string, Output<V>>)
    requires forall i | 0 <= i < |rows| :: DistinctMembers(rows[i])
    ensures info == Process(rows, read, show).info
  {
    var pending: map<int, V> := map[];
    info := map[];
    for n := 0 to |rows|
      invariant State(pending, info) == Process(rows[..n], read, show)
    {
      var row := rows[n];
      assert rows[..n + 1][..n] == rows[..n];
      if row.describes {
        continue;
      }
      var reading := read(row);
      if !reading.Value? {
        continue;
      }
      if row.concatenate {
        pending := pending[row.register := reading.value];
        var allExist := CheckAll(pending, row.members);
        if allExist {
          var text;
          text, pending := TakeAll(pending, row.members, show);
          info := info[row.name := Joined(Tidy(text, row.ascii))];
        }
      } else {
        info := info[row.name := Single(reading.value)];
      }
    }
    assert rows[..|rows|] == rows;
  }

  method CheckAll<V>(pending: map<int, V>, members: seq<int>) returns (allExist: bool)
    ensures allExist <==> AllExist(pending, members)
  {
    for i := 0 to |members|
      invariant AllExist(pending, members[..i])
    {
      if members[i] !in pending {
        return false;
      }
    }
    allExist := true;
  }

  /** Join the fragments of a range and remove them. */
  method TakeAll<V>(before: map<int, V>, members: seq<int>, show: V -> string) returns (text: string, pending: map<int, V>)
    requires AllExist(before, members)
    requires forall i, j | 0 <= i < j < |members| :: members[i] != members[j]
    ensures text == Join(before, members, show) && pending == Without(before, members)
  {
    text, pending := "", before;
    for i := 0 to |members|
      invariant text == Join(before, members[..i], show)
      invariant pending == Without(before, members[..i])
    {
      assert members[i] in pending;
      assert members[..i + 1][..i] == members[..i];
      text := text + show(pending[members[i]]);
      pending := pending - {members[i]};
    }
    assert members[..|members|] == members;
  }

  // ------------------------------------------------------------------
  // One range among other rows
  // ------------------------------------------------------------------

  predicate InRange(row: Row, members: seq<int>) {
    row.concatenate && !row.describes && row.register in members
  }

  /** The rows of one range: they carry its name and its members, each register once, and no other
      row uses the name or waits for its registers. */
  ghost predicate OneRange(rows: seq<Row>, name: string, members: seq<int>, ascii: bool) {
    && members != []
    && (forall i | 0 <= i < |rows| && InRange(rows[i], members) ::
          rows[i].name == name && rows[i].members == members && rows[i].ascii == ascii)
    && (forall i, j | 0 <= i < j < |rows| && InRange(rows[i], members) && InRange(rows[j], members) ::
          rows[i].register != rows[j].register)
    && (forall i | 0 <= i < |rows| && !InRange(rows[i], members) && !rows[i].describes ::
          rows[i].name != name && Apart(rows[i], members))
  }

  ghost predicate Apart(row: Row, members: seq<int>) {
    row.concatenate ==> forall m | m in row.members :: m !in members
  }

  /** The fragments the rows of a range yield, whatever order the rows come in. */
  function Fragments<V>(rows: seq<Row>, read: Row -> Reading<V>, members: seq<int>): map<int, V> {
    if rows == [] then map[]
    else
      var before, row := Fragments(rows[..|rows| - 1], read, members), rows[|rows| - 1];
      if InRange(row, members) && read(row).Value? then before[row.register := read(row).value] else before
  }

  /** A fragment is there exactly when its row was read. */
  lemma {:induction false} FragmentsAt<V>(rows: seq<Row>, read: Row -> Reading<V>, name: string, members: seq<int>, ascii: bool, m: int)
    requires OneRange(rows, name, members, ascii)
    ensures var f := Fragments(rows, read, members);
            && (m in f <==> exists i | 0 <= i < |rows| :: InRange(rows[i], members) && rows[i].register == m && read(rows[i]).Value?)
            && (forall i | 0 <= i < |rows| && InRange(rows[i], members) && rows[i].register == m && read(rows[i]).Value? ::
                  m in f && f[m] == read(rows[i]).value)
  {
    if rows != [] {
      var n := |rows| - 1;
      FragmentsAt(rows[..n], read, name, members, ascii, m);
      assert forall i | 0 <= i < n :: rows[..n][i] == rows[i];
    }
  }

  /** While a range is incomplete its fragments wait; once complete it is in the output and none of
      its fragments remain. */
  ghost predicate Tracks<V>(s: State<V>, f: map<int, V>, name: string, members: seq<int>, ascii: bool, show: V -> string) {
    if AllExist(f, members) then
      && name in s.info && s.info[name] == Joined(Tidy(Join(f, members, show), ascii))
      && forall k | 0 <= k < |members| :: members[k] !in s.pending
    else
      && name !in s.info
      && forall k | 0 <= k < |members| ::
           && (members[k] in s.pending <==> members[k] in f)
           && (members[k] in f ==> s.pending[members[k]] == f[members[k]])
  }

  lemma {:induction false} JoinDependsOnMembers<V>(a: map<int, V>, b: map<int, V>, members: seq<int>, show: V -> string)
    requires AllExist(a, members) && AllExist(b, members)
    requires forall k | 0 <= k < |members| :: a[members[k]] == b[members[k]]
    ensures Join(a, members, show) == Join(b, members, show)
  {
    if members != [] {
      JoinDependsOnMembers(a, b, members[..|members| - 1], show);
    }
  }

  lemma OtherRowsKeepTrack<V>(s: State<V>, row: Row, reading: Reading<V>, f: map<int, V>,
                              name: string, members: seq<int>, ascii: bool, show: V -> string)
    requires Tracks(s, f, name, members, ascii, show)
    requires !InRange(row, members) && (!row.describes ==> row.name != name && Apart(row, members))
    ensures Tracks(Step(s, row, reading, show), f, name, members, ascii, show)
  {
    hide AllExist, Join, Tidy;
    var after := Step(s, row, reading, show).pending;
    forall k | 0 <= k < |members|
      ensures members[k] in after <==> members[k] in s.pending
      ensures members[k] in after ==> after[members[k]] == s.pending[members[k]]
    {
      assert members[k] in members;
      if row.concatenate && !row.describes {
        assert forall i | 0 <= i < |row.members| :: row.members[i] in row.members && row.members[i] != members[k];
      }
    }
  }

  lemma RangeRowKeepsTrack<V>(s: State<V>, row: Row, value: V, f: map<int, V>,
                              name: string, members: seq<int>, ascii: bool, show: V -> string)
    requires Tracks(s, f, name, members, ascii, show) && InRange(row, members)
    requires row.register !in f && row.name == name && row.members == members && row.ascii == ascii
    ensures Tracks(Step(s, row, Value(value), show), f[row.register := value], name, members, ascii, show)
  {
    hide Join, Tidy;
    var pending, g := s.pending[row.register := value], f[row.register := value];
    var k :| 0 <= k < |members| && members[k] == row.register;
    assert !AllExist(f, members);
    assert AllExist(pending, members) <==> AllExist(g, members);
    if AllExist(g, members) {
      JoinDependsOnMembers(pending, g, members, show);
    }
  }

  lemma {:induction false} RangeIsTracked<V>(rows: seq<Row>, read: Row -> Reading<V>, show: V -> string,
                                             name: string, members: seq<int>, ascii: bool)
    requires OneRange(rows, name, members, ascii)
    ensures Tracks(Process(rows, read, show), Fragments(rows, read, members), name, members, ascii, show)
  {
    if rows == [] {
      assert members[0] !in Fragments(rows, read, members);
    } else {
      hide Tracks;
      var n := |rows| - 1;
      var row := rows[n];
      RangeIsTracked(rows[..n], read, show, name, members, ascii);
      if InRange(row, members) && read(row).Value? {
        FragmentsAt(rows[..n], read, name, members, ascii, row.register);
        RangeRowKeepsTrack(Process(rows[..n], read, show), row, read(row).value,
                           Fragments(rows[..n], read, members), name, members, ascii, show);
      } else if !InRange(row, members) {
        OtherRowsKeepTrack(Process(rows[..n], read, show), row, read(row),
                           Fragments(rows[..n], read, members), name, members, ascii, show);
      }
    }
  }

  /** A range is in the output exactly when every one of its registers was read, and then as its
      fragments in the order its registers are listed, however the rows are ordered or mixed with
      other ranges. */
  lemma RangeIsJoined<V>(rows: seq<Row>, read: Row -> Reading<V>, show: V -> string,
                         name: string, members: seq<int>, ascii: bool)
    requires OneRange(rows, name, members, ascii)
    ensures var info, f := Process(rows, read, show).info, Fragments(rows, read, members);
            && (name in info <==> AllExist(f, members))
            && (name in info ==> info[name] == Joined(Tidy(Join(f, members, show), ascii)))
  {
    RangeIsTracked(rows, read, show, name, members, ascii);
  }

  /** Processing row `n` puts the range into the output. */
  ghost predicate Emits<V>(rows: seq<Row>, n: nat, read: Row -> Reading<V>, show: V -> string, name: string)
    requires n < |rows|
  {
    var s, row := Process(rows[..n], read, show), rows[n];
    && row.concatenate && !row.describes && read(row).Value? && row.name == name
    && AllExist(s.pending[row.register := read(row).value], row.members)
  }

  /** No range is put out twice. */
  lemma RangeIsEmittedOnce<V>(rows: seq<Row>, read: Row -> Reading<V>, show: V -> string,
                              name: string, members: seq<int>, ascii: bool, i: nat, j: nat)
    requires OneRange(rows, name, members, ascii) && i < j < |rows|
    requires Emits(rows, i, read, show, name)
    ensures !Emits(rows, j, read, show, name)
  {
    hide Join, Tidy, Without, OneRange, Tracks;
    EmittedIsOfRange(rows, read, show, name, members, ascii, i);
    TrackedAt(rows, read, show, name, members, ascii, i);
    EmittedIsComplete(rows, read, show, name, members, ascii, i);
    FragmentsOnlyGrow(rows, read, members, i + 1, j);
    if Emits(rows, j, read, show, name) {
      EmittedIsOfRange(rows, read, show, name, members, ascii, j);
      PrefixIsRange(rows, name, members, ascii, j);
      FragmentsAt(rows[..j], read, name, members, ascii, rows[j].register);
      OtherRegister(rows, name, members, ascii, j);
    }
  }

  lemma PrefixIsRange(rows: seq<Row>, name: string, members: seq<int>, ascii: bool, n: nat)
    requires OneRange(rows, name, members, ascii) && n <= |rows|
    ensures OneRange(rows[..n], name, members, ascii)
  {
  }

  /** Only a row of the range puts it out. */
  lemma EmittedIsOfRange<V>(rows: seq<Row>, read: Row -> Reading<V>, show: V -> string,
                            name: string, members: seq<int>, ascii: bool, n: nat)
    requires OneRange(rows, name, members, ascii) && n < |rows| && Emits(rows, n, read, show, name)
    ensures InRange(rows[n], members) && rows[n].members == members
  {
    hide Process;
  }

  lemma TrackedAt<V>(rows: seq<Row>, read: Row -> Reading<V>, show: V -> string,
                     name: string, members: seq<int>, ascii: bool, n: nat)
    requires OneRange(rows, name, members, ascii) && n < |rows|
    ensures Tracks(Process(rows[..n], read, show), Fragments(rows[..n], read, members), name, members, ascii, show)
  {
    PrefixIsRange(rows, name, members, ascii, n);
    RangeIsTracked(rows[..n], read, show, name, members, ascii);
  }

  /** When a range is put out all of its fragments have been read. */
  lemma EmittedIsComplete<V>(rows: seq<Row>, read: Row -> Reading<V>, show: V -> string,
                             name: string, members: seq<int>, ascii: bool, n: nat)
    requires OneRange(rows, name, members, ascii) && n < |rows| && Emits(rows, n, read, show, name)
    requires InRange(rows[n], members) && rows[n].members == members
    requires Tracks(Process(rows[..n], read, show), Fragments(rows[..n], read, members), name, members, ascii, show)
    ensures AllExist(Fragments(rows[..n + 1], read, members), members)
  {
    hide Process, OneRange, Join, Tidy;
    assert rows[..n + 1][..n] == rows[..n];
  }

  lemma OtherRegister(rows: seq<Row>, name: string, members: seq<int>, ascii: bool, j: nat)
    requires OneRange(rows, name, members, ascii) && j < |rows| && InRange(rows[j], members)
    ensures forall i | 0 <= i < j && InRange(rows[..j][i], members) :: rows[..j][i].register != rows[j].register
  {
  }

  lemma {:induction false} FragmentsOnlyGrow<V>(rows: seq<Row>, read: Row -> Reading<V>, members: seq<int>, i: nat, j: nat)
    requires i <= j <= |rows|
    ensures forall m | m in Fragments(rows[..i], read, members) :: m in Fragments(rows[..j], read, members)
    decreases j - i
  {
    if i < j {
      FragmentsOnlyGrow(rows, read, members, i, j - 1);
      assert rows[..j][..j - 1] == rows[..j - 1];
    }
  }

  // ------------------------------------------------------------------
  // The rows a range cell loads as
  // ------------------------------------------------------------------

  /** The registers `start` to `end` in reading order. */
  function Members(start: int, end: int, reversed: bool): (r: seq<int>)
    requires start <= end
    ensures |r| == end - start + 1
    ensures forall i | 0 <= i < |r| :: r[i] == if reversed then end - i else start + i
  {
    seq(end - start + 1, i requires 0 <= i < end - start + 1 => if reversed then end - i else start + i)
  }

  /** The rows of a range cell: one per register in address order, all listing the whole range. */
  method LoadRange(name: string, start: int, end: int, reversed: bool, ascii: bool) returns (rows: seq<Row>)
    requires start < end
    ensures |rows| == end - start + 1
    ensures forall i | 0 <= i < |rows| :: rows[i] == Row(name, start + i, true, Members(start, end, reversed), ascii, false)
  {
    var members: seq<int> := [];
    var i := if reversed then end else start;
    while if reversed then i >= start else i <= end
      invariant start - 1 <= i <= end + 1
      invariant |members| == if reversed then end - i else i - start
      invariant forall k | 0 <= k < |members| :: members[k] == if reversed then end - k else start + k
      decreases if reversed then i - start else end - i
    {
      members := members + [i];
      i := if reversed then i - 1 else i + 1;
    }
    assert members == Members(start, end, reversed);
    rows := [];
    var register := start;
    for k := 0 to |members|
      invariant |rows| == k && register == start + k
      invariant forall j | 0 <= j < k :: rows[j] == Row(name, start + j, true, members, ascii, false)
    {
      rows := rows + [Row(name, register, true, members, ascii, false)];
      register := register + 1;
    }
  }

  lemma InMembers(start: int, end: int, reversed: bool, m: int)
    requires start <= end
    ensures m in Members(start, end, reversed) <==> start <= m <= end
  {
    if start <= m <= end {
      assert Members(start, end, reversed)[if reversed then end - m else m - start] == m;
    }
  }

  /** Placed anywhere among rows of other names and other registers, the rows of a range cell form
      one range: so it is joined in reading order exactly when all of it was read. */
  lemma LoadedRangeIsOne(rows: seq<Row>, name: string, start: int, end: int, reversed: bool, ascii: bool)
    requires start < end
    requires forall i | 0 <= i < |rows| && !rows[i].describes ::
               || (rows[i].name != name && (rows[i].concatenate ==> (rows[i].register < start || rows[i].register > end))
                   && Apart(rows[i], Members(start, end, reversed)))
               || (start <= rows[i].register <= end
                   && rows[i] == Row(name, rows[i].register, true, Members(start, end, reversed), ascii, false))
    requires forall i, j | 0 <= i < j < |rows| && InRange(rows[i], Members(start, end, reversed))
                           && InRange(rows[j], Members(start, end, reversed)) :: rows[i].register != rows[j].register
    ensures OneRange(rows, name, Members(start, end, reversed), ascii)
  {
    var members := Members(start, end, reversed);
    forall i | 0 <= i < |rows| ensures rows[i].register in members <==> start <= rows[i].register <= end {
      InMembers(start, end, reversed, rows[i].register);
    }
  }
}
