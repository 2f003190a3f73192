/** The EG4 identification cache: retries with exponential back-off, a refresh after a reconnect,
    and the battery module serials. Times are monotonic-clock seconds. */
module Eg4Cache {
  import opened Bytes

  /** What was identified; everything but the serial number is opaque. */
  datatype Metadata = Unknown | Device(serial: string, details: int) | Battery(details: int)

  /** What one pass over the device gives: metadata, or an exception. */
  datatype Identified = Failed | Found(metadata: Metadata)

  datatype SerialsRead = ReadFailed | ReadSerials(fields: map<string, string>, complete: bool)

  datatype Cache = Cache(metadata: Metadata, attempts: nat, lastAttempt: real,
                         serials: map<string, string>, serialsLoaded: bool,
                         serialsAttempts: nat, serialsLastAttempt: real)

  const RETRY_BASE: real := 60.0
  const RETRY_MAX: real := 3600.0
  const REFRESH_MIN_INTERVAL: real := 300.0

  /** An inverter is identified once its serial number is known, a battery once it was probed. */
  predicate Complete(m: Metadata) {
    match m
    case Unknown => false
    case Device(serial, _) => serial != ""
    case Battery(_) => true
  }

  /** Two to the power 1024 has no floating-point value: from there on the delay cannot be computed. */
  const FIRST_OVERFLOW: nat := 1025

  /** The wait after a number of attempts: 60, 120, 240 ... seconds, an hour at most. */
  function RetryDelay(attempts: nat): (d: real)
    ensures attempts > 0 ==> RETRY_BASE <= d <= RETRY_MAX
  {
    if attempts == 0 then 0.0
    else
      PowerIsPositive(attempts - 1);
      if RETRY_BASE * Pow2(attempts - 1) as real < RETRY_MAX then RETRY_BASE * Pow2(attempts - 1) as real else RETRY_MAX
  }

  lemma PowerIsPositive(n: nat)
    ensures RETRY_BASE * Pow2(n) as real >= RETRY_BASE
  {
  }

  datatype Answer<T> = Answer(value: T) | OverflowError

  /** Whether a retry is due; `None` when the delay cannot be computed. */
  function RetryDue(attempts: nat, last: real, now: real): Answer<bool> {
    if attempts == 0 then Answer(true)
    else if attempts >= FIRST_OVERFLOW then OverflowError
    else Answer(now - last >= RetryDelay(attempts))
  }

  // ------------------------------------------------------------------
  // The three operations
  // ------------------------------------------------------------------

  /** A retry replaces the cached value only by something better. */
  function Improved(cached: Metadata, found: Identified): Metadata {
    if found.Found? && found.metadata != Unknown && (Complete(found.metadata) || cached == Unknown) then found.metadata else cached
  }

  function Retries(c: Cache, now: real): bool {
    !Complete(c.metadata) && RetryDue(c.attempts, c.lastAttempt, now) == Answer(true)
  }

  function AfterGet(c: Cache, now: real, found: Identified): Cache {
    if Retries(c, now) then c.(attempts := c.attempts + 1, lastAttempt := now, metadata := Improved(c.metadata, found)) else c
  }

  function GetAnswer(c: Cache, now: real, found: Identified): Answer<Metadata> {
    if !Complete(c.metadata) && RetryDue(c.attempts, c.lastAttempt, now).OverflowError? then OverflowError
    else Answer(AfterGet(c, now, found).metadata)
  }

  function Refreshes(c: Cache, now: real, inverter: bool): bool {
    inverter && (c.lastAttempt == 0.0 || now - c.lastAttempt >= REFRESH_MIN_INTERVAL)
  }

  function AfterRefresh(c: Cache, now: real, inverter: bool, found: Identified): Cache {
    if !Refreshes(c, now, inverter) then c
    else c.(lastAttempt := now, serialsLoaded := false, serialsAttempts := 0,
            metadata := if found.Found? && found.metadata != Unknown && (Complete(found.metadata) || !Complete(c.metadata))
                        then found.metadata else c.metadata)
  }

  function ReadsSerials(c: Cache, now: real): bool {
    !c.serialsLoaded && RetryDue(c.serialsAttempts, c.serialsLastAttempt, now) == Answer(true)
  }

  function AfterSerials(c: Cache, now: real, read: SerialsRead): Cache {
    if !ReadsSerials(c, now) then c
    else
      var tried := c.(serialsAttempts := c.serialsAttempts + 1, serialsLastAttempt := now);
      if read.ReadFailed? then tried
      else tried.(serials := c.serials + read.fields, serialsLoaded := read.complete)
  }

  function SerialsAnswer(c: Cache, now: real, read: SerialsRead): Answer<map<string, string>> {
    if !c.serialsLoaded && RetryDue(c.serialsAttempts, c.serialsLastAttempt, now).OverflowError? then OverflowError
    else Answer(AfterSerials(c, now, read).serials)
  }

  /** One transport's cache. What the device would answer and the clock are parameters. */
  class Eg4Transport {
    var deviceMetadata: Metadata
    var identifyAttempts: nat
    var identifyLastAttempt: real
    var batterySerials: map<string, string>
    var batterySerialsLoaded: bool
    var batterySerialsAttempts: nat
    var batterySerialsLastAttempt: real

    constructor ()
      ensures View() == FRESH
    {
      deviceMetadata, identifyAttempts, identifyLastAttempt := Unknown, 0, 0.0;
      batterySerials, batterySerialsLoaded, batterySerialsAttempts, batterySerialsLastAttempt := map[], false, 0, 0.0;
    }

    function View(): Cache
      reads this
    {
      Cache(deviceMetadata, identifyAttempts, identifyLastAttempt,
            batterySerials, batterySerialsLoaded, batterySerialsAttempts, batterySerialsLastAttempt)
    }

    /** The identified metadata; `asked` tells whether the device was read. */
    method GetCachedMetadata(now: real, found: Identified) returns (r: Answer<Metadata>, asked: bool)
      modifies this
      ensures View() == AfterGet(old(View()), now, found)
      ensures r == GetAnswer(old(View()), now, found)
      ensures asked == Retries(old(View()), now)
    {
      if Complete(deviceMetadata) {
        return Answer(deviceMetadata), false;
      }
      if identifyAttempts > 0 {
        var delay := Delay(identifyAttempts);
        if delay.OverflowError? {
          return OverflowError, false;
        }
        if now - identifyLastAttempt < delay.value {
          return Answer(deviceMetadata), false;
        }
      }
      identifyAttempts := identifyAttempts + 1;
      identifyLastAttempt := now;
      asked := true;
      if found.Found? && found.metadata != Unknown && (Complete(found.metadata) || deviceMetadata == Unknown) {
        deviceMetadata := found.metadata;
      }
      r := Answer(deviceMetadata);
    }

    /** After a reconnect; `inverter` is false for other protocols and for batteries. */
    method RefreshIdentification(now: real, inverter: bool, found: Identified) returns (asked: bool)
      modifies this
      ensures View() == AfterRefresh(old(View()), now, inverter, found)
      ensures asked == Refreshes(old(View()), now, inverter)
    {
      if !inverter {
        return false;
      }
      if identifyLastAttempt != 0.0 && now - identifyLastAttempt < REFRESH_MIN_INTERVAL {
        return false;
      }
      identifyLastAttempt := now;
      batterySerialsLoaded := false;
      batterySerialsAttempts := 0;
      asked := true;
      if found.Failed? || found.metadata == Unknown {
        return;
      }
      if Complete(found.metadata) || !Complete(deviceMetadata) {
        deviceMetadata := found.metadata;
      }
    }

    method GetCachedBatterySerials(now: real, read: SerialsRead) returns (r: Answer<map<string, string>>, asked: bool)
      modifies this
      ensures View() == AfterSerials(old(View()), now, read)
      ensures r == SerialsAnswer(old(View()), now, read)
      ensures asked == ReadsSerials(old(View()), now)
    {
      if batterySerialsLoaded {
        return Answer(batterySerials), false;
      }
      if batterySerialsAttempts > 0 {
        var delay := Delay(batterySerialsAttempts);
        if delay.OverflowError? {
          return OverflowError, false;
        }
        if now - batterySerialsLastAttempt < delay.value {
          return Answer(batterySerials), false;
        }
      }
      batterySerialsAttempts := batterySerialsAttempts + 1;
      batterySerialsLastAttempt := now;
      asked := true;
      if read.ReadSerials? {
        batterySerials := batterySerials + read.fields;
        batterySerialsLoaded := read.complete;
      }
      r := Answer(batterySerials);
    }
  }

  function Delay(attempts: nat): Answer<real> {
    if attempts >= FIRST_OVERFLOW then OverflowError else Answer(RetryDelay(attempts))
  }

  const FRESH: Cache := Cache(Unknown, 0, 0.0, map[], false, 0, 0.0)

  /** The cache after connecting, which sets what it could identify and touches nothing else. */
  function Connected(m: Metadata): Cache { FRESH.(metadata := m) }

  // ------------------------------------------------------------------
  // Runs
  // ------------------------------------------------------------------

  datatype Event =
    | Get(now: real, found: Identified)
    | Refresh(now: real, inverter: bool, found: Identified)
    | Serials(now: real, read: SerialsRead)

  function Step(c: Cache, e: Event): Cache {
    match e
    case Get(now, found) => AfterGet(c, now, found)
    case Refresh(now, inverter, found) => AfterRefresh(c, now, inverter, found)
    case Serials(now, read) => AfterSerials(c, now, read)
  }

  function After(c: Cache, events: seq<Event>): Cache {
    if events == [] then c else Step(After(c, events[..|events| - 1]), events[|events| - 1])
  }

  /** The clock never runs backwards. */
  ghost predicate Ordered(events: seq<Event>) {
    forall i, j | 0 <= i < j < |events| :: events[i].now <= events[j].now
  }

  /** The times at which identification was retried. */
  function RetryTimes(c: Cache, events: seq<Event>): seq<real> {
    if events == [] then []
    else
      var n := |events| - 1;
      Logged(RetryTimes(c, events[..n]), After(c, events[..n]), events[n])
  }

  function Logged(times: seq<real>, c: Cache, e: Event): seq<real> {
    if e.Get? && Retries(c, e.now) then times + [e.now] else times
  }

  /** The sum of `n` delays from the `i`-th on. */
  function DelaySum(i: nat, n: nat): real {
    if n == 0 then 0.0 else DelaySum(i, n - 1) + RetryDelay(i + n - 1)
  }

  /** Times that keep the back-off: attempt `i + 1` waits the delay that follows attempt `i`. */
  ghost predicate BackedOff(times: seq<real>) {
    forall i | 1 <= i < |times| :: times[i] - times[i - 1] >= RetryDelay(i)
  }

  /** The attempt counter counts the retries, and the last attempt, unless it is unset, is no
      earlier than the last of them and no later than `latest`. */
  ghost predicate Counted(c: Cache, times: seq<real>, latest: real) {
    && c.attempts == |times| && BackedOff(times)
    && (times != [] ==> times[|times| - 1] <= c.lastAttempt && times[|times| - 1] <= latest)
    && (c.lastAttempt != 0.0 ==> c.lastAttempt <= latest)
  }

  lemma RetryIsCounted(c: Cache, times: seq<real>, latest: real, now: real, found: Identified)
    requires Counted(c, times, latest) && latest <= now && Retries(c, now)
    ensures Counted(AfterGet(c, now, found), times + [now], now)
  {
    hide RetryDelay, Improved, Complete;
  }

  lemma RefreshIsCounted(c: Cache, times: seq<real>, latest: real, now: real, inverter: bool, found: Identified)
    requires Counted(c, times, latest) && latest <= now
    ensures Counted(AfterRefresh(c, now, inverter, found), times, now)
  {
    hide BackedOff;
  }

  function Latest(events: seq<Event>): real {
    if events == [] then 0.0 else events[|events| - 1].now
  }

  lemma StepIsCounted(c: Cache, times: seq<real>, latest: real, e: Event)
    requires Counted(c, times, latest) && latest <= e.now
    ensures Counted(Step(c, e), Logged(times, c, e), e.now)
  {
    CountedLater(c, times, latest, e.now);
    hide Counted, Retries, AfterRefresh, AfterSerials;
    match e
    case Get(now, found) =>
      if Retries(c, now) {
        RetryIsCounted(c, times, latest, now, found);
      }
    case Refresh(now, inverter, found) => RefreshIsCounted(c, times, latest, now, inverter, found);
    case Serials(now, read) => SerialsLeaveTheCount(c, times, now, read);
  }

  /** Whatever refreshes come in between, retries keep the back-off. */
  lemma {:induction false} RetriesAreBackedOff(m: Metadata, events: seq<Event>)
    requires Ordered(events)
    ensures Counted(After(Connected(m), events), RetryTimes(Connected(m), events), Latest(events))
  {
    if events != [] {
      hide Step, Logged, Retries, BackedOff;
      var n := |events| - 1;
      RetriesAreBackedOff(m, events[..n]);
      StepIsCounted(After(Connected(m), events[..n]), RetryTimes(Connected(m), events[..n]),
                    if n == 0 then events[n].now else Latest(events[..n]), events[n]);
    }
  }

  lemma CountedLater(c: Cache, times: seq<real>, latest: real, now: real)
    requires Counted(c, times, latest) && latest <= now
    ensures Counted(c, times, now)
  {
    hide BackedOff;
  }

  lemma SerialsLeaveTheCount(c: Cache, times: seq<real>, now: real, read: SerialsRead)
    requires Counted(c, times, now)
    ensures Counted(AfterSerials(c, now, read), times, now)
  {
  }

  lemma {:induction false} SpanOfTimes(times: seq<real>, i: nat, n: nat)
    requires BackedOff(times) && i + n < |times|
    ensures times[i + n] - times[i] >= DelaySum(i + 1, n)
  {
    hide RetryDelay;
    if n > 0 {
      SpanOfTimes(times, i, n - 1);
    }
  }

  /** Any `n + 1` successive retries span at least the sum of the delays between them, even with
      reconnect refreshes in between. */
  lemma RetriesSpanTheDelays(m: Metadata, events: seq<Event>, i: nat, n: nat)
    requires Ordered(events) && i + n < |RetryTimes(Connected(m), events)|
    ensures var times := RetryTimes(Connected(m), events);
            times[i + n] - times[i] >= DelaySum(i + 1, n)
  {
    RetriesAreBackedOff(m, events);
    SpanOfTimes(RetryTimes(Connected(m), events), i, n);
  }

  lemma FirstDelays()
    ensures RetryDelay(1) == 60.0 && RetryDelay(2) == 120.0 && RetryDelay(3) == 240.0 && RetryDelay(4) == 480.0
    ensures RetryDelay(5) == 960.0 && RetryDelay(6) == 1920.0
  {
    assert Pow2(0) == 1 && Pow2(1) == 2 && Pow2(2) == 4;
    assert Pow2(3) == 8 && Pow2(4) == 16 && Pow2(5) == 32;
  }

  lemma {:induction false} DelayIsCapped(n: nat)
    requires n >= 7
    ensures RetryDelay(n) == RETRY_MAX && Pow2(n - 1) >= 64
  {
    if n > 7 {
      DelayIsCapped(n - 1);
    } else {
      FirstDelays();
      assert Pow2(6) == 2 * Pow2(5) && Pow2(5) == 2 * Pow2(4) && Pow2(4) == 2 * Pow2(3);
    }
  }

  /** The delay doubles from one minute and stays at an hour from the seventh attempt on. */
  lemma DelaysGrow(i: nat, j: nat)
    requires 1 <= i <= j
    ensures RetryDelay(i) <= RetryDelay(j)
  {
    FirstDelays();
    hide RetryDelay;
    if j >= 7 {
      DelayIsCapped(j);
    }
  }

  lemma {:induction false} LaterSumsAreLarger(i: nat, n: nat)
    requires i >= 1
    ensures DelaySum(1, n) <= DelaySum(i, n)
  {
    if n > 0 {
      LaterSumsAreLarger(i, n - 1);
      DelaysGrow(n, i + n - 1);
    }
  }

  /** A device that stays unidentified is retried at most six times in any hour. */
  lemma AtMostSixAnHour(m: Metadata, events: seq<Event>, i: nat, j: nat)
    requires Ordered(events) && i <= j < |RetryTimes(Connected(m), events)|
    requires RetryTimes(Connected(m), events)[j] - RetryTimes(Connected(m), events)[i] <= RETRY_MAX
    ensures j - i < 6
  {
    hide RetryTimes, RetryDelay;
    if j - i >= 6 {
      RetriesSpanTheDelays(m, events, i, 6);
      LaterSumsAreLarger(i + 1, 6);
      FirstDelays();
      assert DelaySum(1, 2) == 180.0;
      assert DelaySum(1, 4) == 900.0;
      assert DelaySum(1, 6) == 3780.0;
      TimesAreOrdered(m, events, i + 6, j);
    }
  }

  lemma {:induction false} TimesAreOrdered(m: Metadata, events: seq<Event>, i: nat, j: nat)
    requires Ordered(events) && i <= j < |RetryTimes(Connected(m), events)|
    ensures RetryTimes(Connected(m), events)[i] <= RetryTimes(Connected(m), events)[j]
    decreases j - i
  {
    RetriesAreBackedOff(m, events);
    hide RetryTimes, RetryDelay;
    if i < j {
      TimesAreOrdered(m, events, i, j - 1);
    }
  }

  /** After some number of retries, `n >= 6`, the last of them is this much after the first. */
  lemma {:induction false} LongRunSum(n: nat)
    requires n >= 6
    ensures DelaySum(1, n) == 3780.0 + 3600.0 * (n - 6) as real
  {
    if n > 6 {
      LongRunSum(n - 1);
      DelayIsCapped(n);
    } else {
      FirstDelays();
      hide RetryDelay;
      assert DelaySum(1, 2) == 180.0;
      assert DelaySum(1, 4) == 900.0;
    }
  }

  // ------------------------------------------------------------------
  // What is cached only gets better
  // ------------------------------------------------------------------

  /** Over any run, whatever the clock and the device do, a complete identification stays complete,
      and the name of a battery serial once read stays. */
  lemma {:induction false} CacheOnlyImproves(c: Cache, events: seq<Event>)
    ensures var d := After(c, events);
            && (Complete(c.metadata) ==> Complete(d.metadata))
            && (c.metadata != Unknown ==> d.metadata != Unknown)
            && (forall name | name in c.serials :: name in d.serials)
            && d.attempts >= c.attempts
  {
    if events != [] {
      CacheOnlyImproves(c, events[..|events| - 1]);
    }
  }

  /** A complete identification changes only on a refresh, to another complete one. */
  lemma {:induction false} CompleteIsNotRetried(c: Cache, events: seq<Event>)
    requires Complete(c.metadata)
    ensures RetryTimes(c, events) == [] && After(c, events).attempts == c.attempts
  {
    if events != [] {
      CompleteIsNotRetried(c, events[..|events| - 1]);
      CacheOnlyImproves(c, events[..|events| - 1]);
    }
  }

  /** Battery serials once loaded are not read again until a reconnect refresh. */
  lemma {:induction false} LoadedSerialsAreKept(c: Cache, events: seq<Event>)
    requires c.serialsLoaded
    requires forall i | 0 <= i < |events| :: !events[i].Refresh?
    ensures var d := After(c, events);
            d.serialsLoaded && d.serials == c.serials && d.serialsAttempts == c.serialsAttempts
  {
    if events != [] {
      LoadedSerialsAreKept(c, events[..|events| - 1]);
    }
  }

  /** The times at which a reconnect refresh asked the device. */
  function RefreshTimes(c: Cache, events: seq<Event>): seq<real> {
    if events == [] then []
    else
      var n := |events| - 1;
      var e := events[n];
      LoggedRefresh(RefreshTimes(c, events[..n]), After(c, events[..n]), e)
  }

  function LoggedRefresh(times: seq<real>, c: Cache, e: Event): seq<real> {
    if e.Refresh? && Refreshes(c, e.now, e.inverter) then times + [e.now] else times
  }

  /** The refreshes so far are spaced, and the last attempt of any kind is no earlier than the last of
      them and no later than `latest`. */
  ghost predicate Spaced(times: seq<real>, last: real, latest: real) {
    && (forall i | 1 <= i < |times| :: times[i] - times[i - 1] >= REFRESH_MIN_INTERVAL)
    && (times != [] ==> 0.0 < times[|times| - 1] <= last)
    && (last != 0.0 ==> 0.0 < last <= latest)
  }

  lemma SpacedLater(times: seq<real>, last: real, latest: real, now: real)
    requires Spaced(times, last, latest) && 0.0 < now && latest <= now
    ensures Spaced(times, last, now) && Spaced(times, now, now)
    ensures last == 0.0 || now - last >= REFRESH_MIN_INTERVAL ==> Spaced(times + [now], now, now)
  {
  }

  lemma StepIsSpaced(c: Cache, times: seq<real>, latest: real, e: Event)
    requires Spaced(times, c.lastAttempt, latest) && 0.0 < e.now && latest <= e.now
    ensures Spaced(LoggedRefresh(times, c, e), Step(c, e).lastAttempt, e.now)
  {
    SpacedLater(times, c.lastAttempt, latest, e.now);
    hide Spaced, Improved, RetryDue, Complete;
  }

  /** Refreshes never come closer than five minutes: a flapping link cannot cause a burst. */
  lemma {:induction false} RefreshesAreSpaced(m: Metadata, events: seq<Event>)
    requires Ordered(events) && forall i | 0 <= i < |events| :: events[i].now > 0.0
    ensures Spaced(RefreshTimes(Connected(m), events), After(Connected(m), events).lastAttempt, Latest(events))
  {
    if events != [] {
      hide Spaced, Step, LoggedRefresh;
      var n := |events| - 1;
      RefreshesAreSpaced(m, events[..n]);
      assert Latest(events[..n]) <= events[n].now;
      StepIsSpaced(After(Connected(m), events[..n]), RefreshTimes(Connected(m), events[..n]), Latest(events[..n]), events[n]);
    } else {
      NothingSpaced();
    }
  }

  lemma NothingSpaced()
    ensures Spaced([], 0.0, 0.0)
  {
  }

  // ------------------------------------------------------------------
  // The one error
  // ------------------------------------------------------------------

  /** The lookup fails exactly when the device is still unidentified after `FIRST_OVERFLOW` retries:
      the next delay is too large a power of two to compute. */
  lemma GetFailsExactly(c: Cache, now: real, found: Identified)
    ensures GetAnswer(c, now, found).OverflowError? <==> !Complete(c.metadata) && c.attempts >= FIRST_OVERFLOW
  {
  }

  /** So there is never one retry more, however the run goes and even when the device would answer
      by then. */
  lemma RetriesEnd(m: Metadata, events: seq<Event>)
    ensures |RetryTimes(Connected(m), events)| <= FIRST_OVERFLOW
  {
    RetriesAreCounted(m, events);
  }

  lemma {:induction false} RetriesAreCounted(m: Metadata, events: seq<Event>)
    ensures After(Connected(m), events).attempts == |RetryTimes(Connected(m), events)| <= FIRST_OVERFLOW
  {
    if events != [] {
      RetriesAreCounted(m, events[..|events| - 1]);
    }
  }

  function HourlyFailures(n: nat): (events: seq<Event>)
    ensures |events| == n
  {
    seq(n, i requires 0 <= i < n => Get((i + 1) as real * RETRY_MAX, Failed))
  }

  /** And it is reached: a device that fails every hour. */
  lemma {:induction false} FailuresAddUp(m: Metadata, n: nat)
    requires !Complete(m) && n <= FIRST_OVERFLOW
    ensures After(Connected(m), HourlyFailures(n)) == Connected(m).(attempts := n, lastAttempt := n as real * RETRY_MAX)
  {
    if n > 0 {
      FailuresAddUp(m, n - 1);
      assert HourlyFailures(n)[..n - 1] == HourlyFailures(n - 1);
      assert n as real * RETRY_MAX - (n - 1) as real * RETRY_MAX == RETRY_MAX;
      assert n > 1 ==> RetryDelay(n - 1) <= RETRY_MAX;
      hide RetryDelay;
    }
  }

  lemma UnidentifiedForGood(m: Metadata, now: real, found: Identified)
    requires !Complete(m)
    ensures var c := After(Connected(m), HourlyFailures(FIRST_OVERFLOW));
            GetAnswer(c, now, found) == OverflowError && AfterGet(c, now, found) == c
  {
    FailuresAddUp(m, FIRST_OVERFLOW);
    hide After, HourlyFailures;
  }

  /** The battery serials fail in the same way: exactly when they are not loaded after as many
      attempts. */
  lemma SerialsFailExactly(c: Cache, now: real, read: SerialsRead)
    ensures SerialsAnswer(c, now, read).OverflowError? <==> !c.serialsLoaded && c.serialsAttempts >= FIRST_OVERFLOW
  {
  }

  function HourlyReadFailures(n: nat): (events: seq<Event>)
    ensures |events| == n
  {
    seq(n, i requires 0 <= i < n => Serials((i + 1) as real * RETRY_MAX, ReadFailed))
  }

  lemma {:induction false} ReadFailuresAddUp(n: nat)
    requires n <= FIRST_OVERFLOW
    ensures After(FRESH, HourlyReadFailures(n))
         == FRESH.(serialsAttempts := n, serialsLastAttempt := n as real * RETRY_MAX)
  {
    if n > 0 {
      ReadFailuresAddUp(n - 1);
      assert HourlyReadFailures(n)[..n - 1] == HourlyReadFailures(n - 1);
      assert n as real * RETRY_MAX - (n - 1) as real * RETRY_MAX == RETRY_MAX;
      assert n > 1 ==> RetryDelay(n - 1) <= RETRY_MAX;
      hide RetryDelay;
    }
  }

  /** Serials that fail to read every hour get there, and are then read no more until a refresh. */
  lemma SerialsUnreadForGood(now: real, read: SerialsRead)
    ensures var c := After(FRESH, HourlyReadFailures(FIRST_OVERFLOW));
            SerialsAnswer(c, now, read) == OverflowError && AfterSerials(c, now, read) == c
  {
    ReadFailuresAddUp(FIRST_OVERFLOW);
    hide After, HourlyReadFailures;
  }
}
