/** What the EG4 lookups find out and keep: a result is replaced by a better one, a good one stays, and the
    device is asked whenever it is time. */
module Eg4Results {
  import opened Bytes
  import opened Eg4Cache

  // ------------------------------------------------------------------
  // When the device is asked
  // ------------------------------------------------------------------

  /** The wait before the next attempt: a minute, doubled up to half an hour and more, and an hour from the
      seventh attempt on. */
  function Wait(attempts: nat): real {
    match attempts
    case 0 => 0.0
    case 1 => 60.0
    case 2 => 120.0
    case 3 => 240.0
    case 4 => 480.0
    case 5 => 960.0
    case 6 => 1920.0
    case _ => 3600.0
  }

  lemma WaitIsDelay(attempts: nat)
    ensures RetryDelay(attempts) == Wait(attempts)
  {
    FirstDelays();
    if attempts >= 7 {
      DelayIsCapped(attempts);
    } else if attempts > 0 {
      hide RetryDelay;
    }
  }

  /** A lookup asks for the identification exactly if it is incomplete and has never been tried, or was
      tried at most 1024 times, the last time long enough ago. */
  lemma AskedExactly(c: Cache, now: real)
    ensures Retries(c, now)
       <==> !Complete(c.metadata) && (c.attempts == 0 || (c.attempts <= 1024 && now - c.lastAttempt >= Wait(c.attempts)))
  {
    WaitIsDelay(c.attempts);
    hide RetryDelay, Wait, Complete;
  }

  /** And for the battery serials exactly if the last pass was not complete, in the same rhythm. */
  lemma SerialsAskedExactly(c: Cache, now: real)
    ensures ReadsSerials(c, now)
       <==> !c.serialsLoaded
            && (c.serialsAttempts == 0 || (c.serialsAttempts <= 1024 && now - c.serialsLastAttempt >= Wait(c.serialsAttempts)))
  {
    WaitIsDelay(c.serialsAttempts);
    hide RetryDelay, Wait;
  }

  /** A reconnect asks exactly if it is an inverter's and no attempt was made in the last five minutes. */
  lemma RefreshedExactly(c: Cache, now: real, inverter: bool)
    ensures Refreshes(c, now, inverter) <==> inverter && (c.lastAttempt == 0.0 || now - c.lastAttempt >= 300.0)
  {
  }

  // ------------------------------------------------------------------
  // What comes of it
  // ------------------------------------------------------------------

  /** Nothing, something, or all there is to know. */
  function Grade(m: Metadata): nat {
    match m
    case Unknown => 0
    case Device(serial, _) => if serial == "" then 1 else 2
    case Battery(_) => 2
  }

  function Brought(found: Identified): Metadata { if found.Found? then found.metadata else Unknown }

  /** A retry that is made replaces what is known by what it finds if that is better, and counts. */
  lemma RetryTakesTheBetter(c: Cache, now: real, found: Identified)
    requires Retries(c, now)
    ensures AfterGet(c, now, found)
         == c.(attempts := c.attempts + 1, lastAttempt := now,
               metadata := if Grade(Brought(found)) > Grade(c.metadata) then Brought(found) else c.metadata)
    ensures GetAnswer(c, now, found) == Answer(AfterGet(c, now, found).metadata)
  {
  }

  /** A refresh that is made replaces it by anything not worse, and has the battery serials read again. */
  lemma RefreshTakesTheNewer(c: Cache, now: real, inverter: bool, found: Identified)
    requires Refreshes(c, now, inverter)
    ensures AfterRefresh(c, now, inverter, found)
         == c.(lastAttempt := now, serialsLoaded := false, serialsAttempts := 0,
               metadata := if Grade(Brought(found)) >= Grade(c.metadata) then Brought(found) else c.metadata)
    ensures forall t :: ReadsSerials(AfterRefresh(c, now, inverter, found), t)
  {
  }

  /** A lookup that does not ask answers from the cache and leaves it alone. */
  lemma IdleLookup(c: Cache, now: real, found: Identified)
    requires !Retries(c, now) && (Complete(c.metadata) || c.attempts <= 1024)
    ensures AfterGet(c, now, found) == c && GetAnswer(c, now, found) == Answer(c.metadata)
  {
  }

  ghost predicate NoRefresh(events: seq<Event>) {
    forall i | 0 <= i < |events| :: !events[i].Refresh?
  }

  /** A device once found is kept: until a refresh every later lookup answers it, and asks no more. */
  lemma {:induction false} FoundIsKept(c: Cache, now: real, found: Metadata, events: seq<Event>, later: real, other: Identified)
    requires Retries(c, now) && Grade(found) == 2 && NoRefresh(events)
    ensures var d := After(AfterGet(c, now, Found(found)), events);
            d.metadata == found && !Retries(d, later) && GetAnswer(d, later, other) == Answer(found)
  {
    RetryTakesTheBetter(c, now, Found(found));
    if events != [] {
      FoundIsKept(c, now, found, events[..|events| - 1], later, other);
      hide RetryDue;
    }
  }

  // ------------------------------------------------------------------
  // Battery serials
  // ------------------------------------------------------------------

  /** The new fields over the old ones. */
  ghost predicate Overlaid(before: map<string, string>, fields: map<string, string>, after: map<string, string>) {
    && (forall name :: name in after <==> name in before || name in fields)
    && (forall name | name in after :: after[name] == if name in fields then fields[name] else before[name])
  }

  /** A pass that is made adds what it reads and counts; it is final exactly if it was complete, and is
      repeated after the wait otherwise. */
  lemma PassAddsWhatItReads(c: Cache, now: real, fields: map<string, string>, complete: bool)
    requires ReadsSerials(c, now) && c.serialsAttempts < 1024
    ensures var d := AfterSerials(c, now, ReadSerials(fields, complete));
            && Overlaid(c.serials, fields, d.serials) && SerialsAnswer(c, now, ReadSerials(fields, complete)) == Answer(d.serials)
            && d == c.(serials := d.serials, serialsLoaded := complete, serialsAttempts := c.serialsAttempts + 1, serialsLastAttempt := now)
            && (complete ==> forall t :: !ReadsSerials(d, t))
            && (!complete ==> forall t :: ReadsSerials(d, t) <==> t - now >= Wait(c.serialsAttempts + 1))
  {
    var d := AfterSerials(c, now, ReadSerials(fields, complete));
    forall t ensures complete ==> !ReadsSerials(d, t)
             ensures !complete ==> (ReadsSerials(d, t) <==> t - now >= Wait(c.serialsAttempts + 1))
    {
      SerialsAskedExactly(d, t);
    }
    hide RetryDelay, Wait;
  }

  /** A pass that fails adds nothing and counts. */
  lemma FailedPassCounts(c: Cache, now: real)
    requires ReadsSerials(c, now)
    ensures AfterSerials(c, now, ReadFailed) == c.(serialsAttempts := c.serialsAttempts + 1, serialsLastAttempt := now)
    ensures SerialsAnswer(c, now, ReadFailed) == Answer(c.serials)
  {
  }

  /** What a complete pass has read is answered until the next refresh. */
  lemma CompletePassIsKept(c: Cache, now: real, fields: map<string, string>, events: seq<Event>, later: real, other: SerialsRead)
    requires ReadsSerials(c, now) && c.serialsAttempts < 1024 && NoRefresh(events)
    ensures var d := AfterSerials(c, now, ReadSerials(fields, true));
            SerialsAnswer(After(d, events), later, other) == Answer(d.serials) && Overlaid(c.serials, fields, d.serials)
  {
    PassAddsWhatItReads(c, now, fields, true);
    LoadedSerialsAreKept(AfterSerials(c, now, ReadSerials(fields, true)), events);
    hide After;
  }
}
