/** When an entry is read: exactly when it is due, and it is due again exactly when more than its interval
    has passed. */
module PollSchedule {
  import opened RegisterMap
  import opened Decoding
  import opened Batching
  import opened BatchingTheorems

  /** Only a window length of zero makes a call raise; a negative one reads nothing and moves nothing. */
  lemma OddWindows(rows: seq<Row>, c: Call)
    ensures AllRanges(rows, c) == ZeroStep <==> c.batch == 0
    ensures c.batch < 0 ==> AllRanges(rows, c) == Ranges([])
    ensures c.batch <= 0 ==> RowsAfter(rows, c) == rows
  {
  }

  lemma PolledIsSelected(row: Row, c: Call)
    requires c.batch > 0
    ensures IsPolled(row, c) <==> c.Selects(row) && c.Reaches(row.field.register)
  {
    if c.maxRegister >= 0 {
      LastWindowEnds(c);
    }
  }

  /** Whatever else is polled, an entry that is polled has all its registers in the ranges. */
  lemma PolledIsFetched(rows: seq<Row>, c: Call, i: nat, a: int)
    requires c.batch > 0 && i < |rows| && IsPolled(rows[i], c)
    requires rows[i].field.register <= a <= LastRegister(rows[i].field)
    ensures Fetched(AllRanges(rows, c).ranges, a)
  {
    PolledIsSelected(rows[i], c);
    var k := WindowOf(rows[i].field.register, c);
    SpanCovers(rows, k * c.batch, c, i);
    WindowIsFetched(rows, k, c.Windows(), c, a);
  }

  /** On its own an entry gets one range when it is polled, its own registers, and none otherwise. */
  lemma AloneExactly(row: Row, c: Call)
    requires c.batch > 0
    ensures AllRanges([row], c).ranges
         == if IsPolled(row, c) then [Range(row.field.register, LastRegister(row.field) - row.field.register + 1)] else []
  {
    PolledIsSelected(row, c);
    if IsPolled(row, c) {
      LoneRange(row, WindowOf(row.field.register, c), c.Windows(), c);
    } else {
      hide IsPolled;
      NothingSelected([row], c.Windows(), c);
    }
  }

  /** A call reads the entry: one of its ranges covers the entry's register. */
  ghost predicate IsRead(row: Row, c: Call) {
    c.batch > 0 && Fetched(AllRanges([row], c).ranges, row.field.register)
  }

  lemma ReadIsPolled(row: Row, c: Call)
    requires ValidField(row.field)
    ensures IsRead(row, c) <==> c.batch > 0 && IsPolled(row, c)
  {
    if c.batch > 0 {
      AloneExactly(row, c);
      var range := Range(row.field.register, LastRegister(row.field) - row.field.register + 1);
      assert [range][0].Covers(row.field.register);
      hide AllRanges;
    }
  }

  /** A call that is no first load moves an entry's schedule exactly when it reads it; a first load never
      does. */
  lemma CallMoves(row: Row, c: Call)
    requires ValidField(row.field)
    ensures RowsAfter([row], c)[0]
         == if IsRead(row, c) && !c.init then row.(nextRead := c.now + row.readInterval) else row
  {
    ReadIsPolled(row, c);
    if c.batch > 0 {
      PutsOffExactly([row], c, 0);
    }
    hide IsRead;
  }

  /** The schedule stands from one read to the next. */
  lemma {:induction false} ScheduleStands(row: Row, calls: seq<Call>, i: nat, j: nat)
    requires ValidField(row.field) && i < j <= |calls| && !calls[i].init
    requires IsRead(RowAfter(row, calls[..i]), calls[i])
    requires forall k: nat | i < k < j && !calls[k].init :: !IsRead(RowAfter(row, calls[..k]), calls[k])
    ensures RowAfter(row, calls[..j]) == row.(nextRead := calls[i].now + row.readInterval)
  {
    hide *;
    OneCallMore(row, calls, j);
    OnlyTheTimeMoves(row, calls[..j - 1]);
    if i < j - 1 {
      ScheduleStands(row, calls, i, j - 1);
    }
    var before := RowAfter(row, calls[..j - 1]);
    ValidByField(row, before);
    CallMoves(before, calls[j - 1]);
  }

  lemma OneCallMore(row: Row, calls: seq<Call>, j: nat)
    requires 0 < j <= |calls|
    ensures RowAfter(row, calls[..j]) == RowsAfter([RowAfter(row, calls[..j - 1])], calls[j - 1])[0]
  {
    hide RowsAfter;
    assert calls[..j][..j - 1] == calls[..j - 1];
  }

  lemma ValidByField(row: Row, other: Row)
    requires ValidField(row.field) && other.field == row.field
    ensures ValidField(other.field)
  {
  }

  /** After a read, and until it is read again, an entry that may be read and lies in reach is read by a call
      exactly if more than its interval has passed, or the call is a first load. */
  lemma ReadAgainExactly(row: Row, calls: seq<Call>, i: nat, j: nat)
    requires ValidField(row.field) && i < j < |calls| && !calls[i].init
    requires IsRead(RowAfter(row, calls[..i]), calls[i])
    requires forall k: nat | i < k < j && !calls[k].init :: !IsRead(RowAfter(row, calls[..k]), calls[k])
    requires calls[j].batch > 0 && InReach(row.field.register, calls[j].maxRegister, calls[j].batch)
    ensures IsRead(RowAfter(row, calls[..j]), calls[j])
       <==> calls[j].init || calls[j].now > calls[i].now + row.readInterval
  {
    ScheduleStands(row, calls, i, j);
    OnlyTheTimeMoves(row, calls[..i]);
    ReadIsPolled(RowAfter(row, calls[..i]), calls[i]);
    ReadIsPolled(RowAfter(row, calls[..j]), calls[j]);
    hide IsRead, InReach;
  }
}
