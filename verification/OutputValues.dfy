/** What the decoding loop puts out, row by row and character by character. */
module OutputValues {
  import opened Texts
  import opened Concatenation

  // ------------------------------------------------------------------
  // Rows that stand for themselves
  // ------------------------------------------------------------------

  /** The row can put its name out. */
  predicate Speaks(row: Row, name: string) { !row.describes && row.name == name }

  /** All rows that use the name stand for themselves. */
  ghost predicate IsPlainName(rows: seq<Row>, name: string) {
    forall i | 0 <= i < |rows| && Speaks(rows[i], name) :: !rows[i].concatenate
  }

  /** Row `i` is the last with the name that has been read. */
  ghost predicate IsLastRead<V>(rows: seq<Row>, read: Row -> Reading<V>, name: string, i: nat) {
    && i < |rows| && Speaks(rows[i], name) && read(rows[i]).Value?
    && forall j | i < j < |rows| && Speaks(rows[j], name) :: !read(rows[j]).Value?
  }

  ghost predicate IsEverRead<V>(rows: seq<Row>, read: Row -> Reading<V>, name: string) {
    exists i: nat :: i < |rows| && Speaks(rows[i], name) && read(rows[i]).Value?
  }

  lemma OneRowMore<V>(rows: seq<Row>, read: Row -> Reading<V>, name: string)
    requires rows != []
    ensures var n := |rows| - 1;
            IsEverRead(rows, read, name)
            <==> IsEverRead(rows[..n], read, name) || (Speaks(rows[n], name) && read(rows[n]).Value?)
  {
    hide Speaks;
    var n := |rows| - 1;
    if IsEverRead(rows[..n], read, name) {
      var i: nat :| i < n && Speaks(rows[..n][i], name) && read(rows[..n][i]).Value?;
      assert rows[i] == rows[..n][i];
    }
    if i: nat :| i < n && Speaks(rows[i], name) && read(rows[i]).Value? {
      assert rows[..n][i] == rows[i];
    }
  }

  /** A name that stands for single registers is put out exactly if one of its rows has been read, with
      the value of the last of them. */
  lemma {:induction false} PlainRowsExactly<V>(rows: seq<Row>, read: Row -> Reading<V>, show: V -> string, name: string)
    requires IsPlainName(rows, name)
    ensures var info := Process(rows, read, show).info;
            && (name in info <==> IsEverRead(rows, read, name))
            && forall i: nat | IsLastRead(rows, read, name, i) :: name in info && info[name] == Single(read(rows[i]).value)
  {
    hide AllExist, Join, Tidy, Without, IsEverRead;
    if rows != [] {
      var n := |rows| - 1;
      assert forall i | 0 <= i < n :: rows[..n][i] == rows[i];
      PlainRowsExactly(rows[..n], read, show, name);
      OneRowMore(rows, read, name);
      forall i: nat | IsLastRead(rows, read, name, i)
        ensures var info := Process(rows, read, show).info; name in info && info[name] == Single(read(rows[i]).value)
      {
        if i < n {
          assert IsLastRead(rows[..n], read, name, i);
        }
      }
    } else {
      NothingIsRead(read, name);
    }
  }

  lemma NothingIsRead<V>(read: Row -> Reading<V>, name: string)
    ensures !IsEverRead([], read, name)
  {
  }

  /** In particular a row alone in using its name is put out exactly when it was read. */
  lemma PlainRowExactly<V>(rows: seq<Row>, read: Row -> Reading<V>, show: V -> string, n: nat)
    requires n < |rows| && !rows[n].concatenate && !rows[n].describes
    requires forall i | 0 <= i < |rows| && i != n :: !Speaks(rows[i], rows[n].name)
    ensures var info, name := Process(rows, read, show).info, rows[n].name;
            && (name in info <==> read(rows[n]).Value?)
            && (name in info ==> info[name] == Single(read(rows[n]).value))
  {
    PlainRowsExactly(rows, read, show, rows[n].name);
    hide Process;
    assert Speaks(rows[n], rows[n].name);
    if read(rows[n]).Value? {
      assert IsLastRead(rows, read, rows[n].name, n);
    }
  }

  /** Nothing is put out under a name that no row read has. */
  lemma {:induction false} NamesAreOfRows<V>(rows: seq<Row>, read: Row -> Reading<V>, show: V -> string, name: string)
    requires name in Process(rows, read, show).info
    ensures IsEverRead(rows, read, name)
  {
    hide AllExist, Join, Tidy, Without, IsEverRead;
    var n := |rows| - 1;
    OneRowMore(rows, read, name);
    if name in Process(rows[..n], read, show).info {
      NamesAreOfRows(rows[..n], read, show, name);
    }
  }

  // ------------------------------------------------------------------
  // The text of a range
  // ------------------------------------------------------------------

  /** Where the `k`-th fragment begins: behind all before it. */
  function Offset<V>(values: map<int, V>, members: seq<int>, show: V -> string, k: nat): nat
    requires k <= |members| && forall i | 0 <= i < |members| :: members[i] in values
  {
    if k == 0 then 0 else Offset(values, members, show, k - 1) + |show(values[members[k - 1]])|
  }

  /** Each fragment stands in its place, in listed order, and there is nothing else. */
  ghost predicate SideBySide<V>(values: map<int, V>, members: seq<int>, show: V -> string, text: string) {
    && (forall i | 0 <= i < |members| :: members[i] in values)
    && |text| == Offset(values, members, show, |members|)
    && forall k: nat | k < |members| :: StandsAt(text, Offset(values, members, show, k), show(values[members[k]]))
  }

  predicate StandsAt(text: string, at: nat, part: string) { at + |part| <= |text| && text[at..at + |part|] == part }

  lemma {:induction false} OffsetOfPrefix<V>(values: map<int, V>, members: seq<int>, show: V -> string, n: nat, k: nat)
    requires k <= n <= |members| && forall i | 0 <= i < |members| :: members[i] in values
    ensures Offset(values, members[..n], show, k) == Offset(values, members, show, k)
  {
    if k > 0 {
      OffsetOfPrefix(values, members, show, n, k - 1);
    }
  }

  lemma {:induction false} JoinIsSideBySide<V>(values: map<int, V>, members: seq<int>, show: V -> string)
    requires AllExist(values, members)
    ensures SideBySide(values, members, show, Join(values, members, show))
  {
    if members != [] {
      var n := |members| - 1;
      JoinIsSideBySide(values, members[..n], show);
      hide SideBySide, Offset;
      OneFragmentMore(values, members, show, Join(values, members[..n], show));
    }
  }

  lemma OneFragmentMore<V>(values: map<int, V>, members: seq<int>, show: V -> string, before: string)
    requires members != [] && AllExist(values, members) && SideBySide(values, members[..|members| - 1], show, before)
    ensures SideBySide(values, members, show, before + show(values[members[|members| - 1]]))
  {
    var n := |members| - 1;
    var init, part := members[..n], show(values[members[n]]);
    OffsetOfPrefix(values, members, show, n, n);
    assert Offset(values, members, show, |members|) == Offset(values, members, show, n) + |part|;
    hide Offset, StandsAt;
    forall k: nat | k < |members| ensures StandsAt(before + part, Offset(values, members, show, k), show(values[members[k]])) {
      if k < n {
        OffsetOfPrefix(values, members, show, n, k);
        assert StandsAt(before, Offset(values, init, show, k), show(values[init[k]]));
        StandsInLonger(before, part, Offset(values, members, show, k), show(values[members[k]]));
      } else {
        StandsLast(before, part);
      }
    }
  }

  lemma StandsInLonger(before: string, part: string, at: nat, piece: string)
    requires StandsAt(before, at, piece)
    ensures StandsAt(before + part, at, piece)
  {
    assert (before + part)[at..at + |piece|] == before[at..at + |piece|];
  }

  lemma StandsLast(before: string, part: string)
    ensures StandsAt(before + part, |before|, part)
  {
  }

  /** White space, or a NUL. */
  predicate IsBlank(c: char) { c == 0 as char || IsSpace(c) }

  /** `t` is the text without the blanks at its ends, with a space for every NUL inside. */
  ghost predicate IsTidied(text: string, t: string) {
    exists at: nat :: IsInside(text, t, at)
  }

  predicate IsInside(text: string, t: string, at: nat) {
    && at + |t| <= |text|
    && (forall i | 0 <= i < |t| :: t[i] == if text[at + i] == 0 as char then ' ' else text[at + i])
    && (forall i | 0 <= i < |text| && !(at <= i < at + |t|) :: IsBlank(text[i]))
    && (t != "" ==> !IsSpace(t[0]) && !IsSpace(t[|t| - 1]))
  }

  /** Only white space has been dropped before `r` and behind it. */
  predicate Stripped(s: string, r: string, at: nat) {
    at + |r| <= |s| && r == s[at..at + |r|] && forall i | 0 <= i < |s| && !(at <= i < at + |r|) :: IsSpace(s[i])
  }

  lemma {:induction false} StripLeftAt(s: string) returns (at: nat)
    ensures Stripped(s, StripLeft(s), at) && at + |StripLeft(s)| == |s|
    ensures StripLeft(s) != "" ==> !IsSpace(StripLeft(s)[0])
  {
    at := 0;
    if s != "" && IsSpace(s[0]) {
      at := StripLeftAt(s[1..]);
      assert forall i | 0 < i < |s| :: s[i] == s[1..][i - 1];
      at := at + 1;
    }
  }

  lemma {:induction false} StripRightAt(s: string)
    ensures Stripped(s, StripRight(s), 0)
    ensures StripRight(s) != "" ==> !IsSpace(StripRight(s)[|StripRight(s)| - 1])
  {
    if s != "" && IsSpace(s[|s| - 1]) {
      StripRightAt(s[..|s| - 1]);
    }
  }

  /** The white space of seven-bit text: space, the five from tab to carriage return, and the four
      separators. */
  lemma WhiteSpaceExactly(c: char)
    requires c as int < 128
    ensures IsSpace(c) <==> c as int in {32, 9, 10, 11, 12, 13, 28, 29, 30, 31}
  {
    assert c as int in {9, 10, 11, 12, 13} <==> 9 <= c as int <= 13;
    assert c as int in {28, 29, 30, 31} <==> 28 <= c as int <= 31;
  }

  lemma TidyIsTidied(text: string)
    ensures IsTidied(text, Tidy(text, true))
  {
    var s := NulsToSpaces(text);
    var left := StripLeft(s);
    var at := StripLeftAt(s);
    StripRightAt(left);
    hide StripLeft, StripRight, NulsToSpaces;
    StrippedTwice(s, left, StripRight(left), at);
    TidiedInside(text, s, StripRight(left), at);
  }

  lemma StrippedTwice(s: string, left: string, t: string, at: nat)
    requires Stripped(s, left, at) && at + |left| == |s| && Stripped(left, t, 0)
    requires left != "" ==> !IsSpace(left[0])
    ensures Stripped(s, t, at)
    ensures t != "" ==> t[0] == left[0] && !IsSpace(t[0])
  {
    hide IsSpace;
    assert t == s[at..at + |t|];
    forall i | 0 <= i < |s| && !(at <= i < at + |t|) ensures IsSpace(s[i]) {
      if i >= at {
        assert s[i] == left[i - at];
      }
    }
  }

  lemma TidiedInside(text: string, s: string, t: string, at: nat)
    requires s == NulsToSpaces(text) && Stripped(s, t, at)
    requires t != "" ==> !IsSpace(t[0]) && !IsSpace(t[|t| - 1])
    ensures IsTidied(text, t)
  {
    forall i | 0 <= i < |text| && !(at <= i < at + |t|) ensures IsBlank(text[i]) {
      assert IsSpace(s[i]);
    }
    assert IsInside(text, t, at);
  }

  /** A range whose registers have all been read is put out as its fragments side by side in listed order;
      an ASCII range without the blanks around them. */
  lemma RangeText<V>(rows: seq<Row>, read: Row -> Reading<V>, show: V -> string, name: string, members: seq<int>, ascii: bool)
    requires OneRange(rows, name, members, ascii) && name in Process(rows, read, show).info
    ensures var f, out := Fragments(rows, read, members), Process(rows, read, show).info[name];
            out.Joined? && if ascii then exists text :: SideBySide(f, members, show, text) && IsTidied(text, out.text)
                           else SideBySide(f, members, show, out.text)
  {
    RangeIsJoined(rows, read, show, name, members, ascii);
    var f := Fragments(rows, read, members);
    var text := Join(f, members, show);
    JoinIsSideBySide(f, members, show);
    TidyIsTidied(text);
    hide Process, Fragments, OneRange, SideBySide, IsTidied, Join;
  }
}
