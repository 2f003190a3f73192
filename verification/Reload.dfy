/** Replacing the running gateway: stop the old one, build the new one, fall back to the
    last configuration known to work. */
module Reload {
  import opened Options

  /** One constructed gateway.  `entered` and `exited` follow its polling thread, `asked` is
      the stop request, `cleaned` that its transports have been released. */
  datatype Gateway = Gateway(entered: bool, asked: bool, exited: bool, cleaned: bool) {
    predicate Running() { entered && !exited }
    /** Released, and its thread will never poll again. */
    predicate Dead() { cleaned && entered && exited }
  }

  const NEW_GATEWAY := Gateway(false, false, false, false)

  datatype Ending = Started | Reloaded | Disabled | Unchanged | StopTimedOut | FellBack | Offline

  /** What the web interface shows. */
  datatype Status = Status(ok: bool, fatal: bool, usingFallback: bool, ending: Ending)

  function StatusOf(e: Ending): Status {
    match e
    case StopTimedOut => Status(false, false, false, e)
    case FellBack => Status(false, false, true, e)
    case Offline => Status(false, true, false, e)
    case _ => Status(true, false, false, e)
  }

  /** The most recent stored backup, as the fallback finds it. */
  datatype Backup = NoBackup | MissingFile | Stored(hash: Option<string>, builds: bool)

  /** The circumstances of one reload: the setting and the hash read from disk (None when the
      file cannot be read), whether a running loop stops within the timeout, whether the
      configuration builds, and the backup. */
  datatype Attempt = Attempt(enabled: bool, hash: Option<string>, stopsInTime: bool, builds: bool, backup: Backup)

  /** `gateways` lists every gateway ever constructed, oldest first.  `lastTry` is how the
      last start or reload that got past both guards ended. */
  datatype State = State(gateways: seq<Gateway>, current: Option<nat>, loadedHash: Option<string>,
                         status: Option<Status>, lastTry: Option<Ending>)

  const EMPTY := State([], None, None, None, None)

  /** Asking a gateway to stop: its transports are released unless its loop is executing and
      does not leave in time. */
  function StopGateway(g: Gateway, stopsInTime: bool): (Gateway, bool) {
    if g.Running() && !stopsInTime then (g.(asked := true), false)
    else (g.(asked := true, exited := g.entered, cleaned := true), true)
  }

  function Finish(s: State, e: Ending): State {
    s.(status := Some(StatusOf(e)), lastTry := Some(e))
  }

  function Construct(s: State, hash: Option<string>): State {
    s.(gateways := s.gateways + [NEW_GATEWAY], current := Some(|s.gateways|), loadedHash := hash)
  }

  predicate Skips(s: State, a: Attempt) {
    s.current.Some? && a.hash.Some? && a.hash == s.loadedHash
  }

  function Rebuild(s: State, a: Attempt): State {
    if a.builds then Finish(Construct(s, a.hash), Reloaded)
    else match a.backup
      case Stored(hash, true) => Finish(Construct(s, hash), FellBack)
      case _ => Finish(s, Offline)
  }

  ghost predicate CurrentExists(s: State) {
    s.current.Some? ==> s.current.value < |s.gateways|
  }

  function ReloadStep(s: State, a: Attempt): State
    requires CurrentExists(s)
  {
    if !a.enabled then s.(status := Some(StatusOf(Disabled)))
    else if Skips(s, a) then s.(status := Some(StatusOf(Unchanged)))
    else match s.current
      case None => Rebuild(s, a)
      case Some(i) =>
        var (g, stopped) := StopGateway(s.gateways[i], a.stopsInTime);
        var s1 := s.(gateways := s.gateways[i := g]);
        if stopped then Rebuild(s1, a) else Finish(s1, StopTimedOut)
  }

  /** Starting happens once, before anything else. */
  function StartStep(s: State, hash: Option<string>): State {
    if s.gateways != [] then s else Finish(Construct(s, hash), Started)
  }

  // ------------------------------------------------------------------
  // Runs
  // ------------------------------------------------------------------

  datatype Event =
    | Start(hash: Option<string>)
    | ReloadCall(attempt: Attempt)
    | ThreadEnters(i: nat)   // a started thread reaches its loop, which arms it
    | LoopLeaves(i: nat)     // a loop that was asked to stop gets round to leaving

  function Step(s: State, e: Event): State
    requires CurrentExists(s)
  {
    match e
    case Start(hash) => StartStep(s, hash)
    case ReloadCall(a) => ReloadStep(s, a)
    case ThreadEnters(i) =>
      if i < |s.gateways| && !s.gateways[i].entered then
        s.(gateways := s.gateways[i := s.gateways[i].(entered := true, asked := false)])
      else s
    case LoopLeaves(i) =>
      if i < |s.gateways| && s.gateways[i].Running() && s.gateways[i].asked then
        s.(gateways := s.gateways[i := s.gateways[i].(exited := true)])
      else s
  }

  /** The thread of the current gateway has reached its loop before the next reload. */
  predicate Entered(s: State) {
    s.current.Some? && s.current.value < |s.gateways| ==> s.gateways[s.current.value].entered
  }

  /** A gateway is current and nobody has told it to stop. */
  ghost predicate Serving(s: State) {
    s.current.Some? && s.current.value < |s.gateways| && !s.gateways[s.current.value].asked
  }

  ghost predicate Sane(g: Gateway) {
    && (g.exited ==> g.entered && g.asked)
    && (!g.entered ==> g == NEW_GATEWAY)
  }

  /** Every gateway but the newest is dead, the newest is current, and it serves exactly if
      the last start or reload that was carried out brought a gateway up. */
  ghost predicate Inv(s: State) {
    && (s.current == if s.gateways == [] then None else Some(|s.gateways| - 1))
    && (forall i | 0 <= i < |s.gateways| - 1 :: s.gateways[i].Dead())
    && (forall i | 0 <= i < |s.gateways| :: Sane(s.gateways[i]))
    && (Serving(s) <==> BroughtUp(s.lastTry))
  }

  /** The last start or reload that was carried out, if there was one, brought a gateway up. */
  predicate BroughtUp(lastTry: Option<Ending>) {
    lastTry.Some? && (lastTry.value.Started? || lastTry.value.Reloaded? || lastTry.value.FellBack?)
  }

  lemma StepKeepsInv(s: State, e: Event)
    requires Inv(s) && (e.ReloadCall? ==> Entered(s))
    ensures Inv(Step(s, e))
  {
    if e.ReloadCall? {
      ReloadKeepsInv(s, e.attempt);
    } else {
      hide ReloadStep;
    }
  }

  lemma ReloadKeepsInv(s: State, a: Attempt)
    requires Inv(s) && Entered(s)
    ensures Inv(ReloadStep(s, a))
  {
    hide Rebuild;
    if s.current.Some? {
      var i := s.current.value;
      var (g, stopped) := StopGateway(s.gateways[i], a.stopsInTime);
      var s1 := s.(gateways := s.gateways[i := g]);
      if stopped {
        RebuildKeepsInv(s1, a);
      }
    } else {
      RebuildKeepsInv(s, a);
    }
  }

  /** Building is safe once every gateway is dead. */
  lemma RebuildKeepsInv(s: State, a: Attempt)
    requires s.current == if s.gateways == [] then None else Some(|s.gateways| - 1)
    requires forall i | 0 <= i < |s.gateways| :: s.gateways[i].Dead() && s.gateways[i].asked
    ensures Inv(Rebuild(s, a))
  {
  }

  /** The state after the events `es`, in order. */
  function Run(s: State, es: seq<Event>): (s': State)
    requires CurrentExists(s)
    ensures CurrentExists(s') && |s'.gateways| >= |s.gateways|
  {
    if es == [] then s else Step(Run(s, es[..|es| - 1]), es[|es| - 1])
  }

  /** Every reload of the run finds the current gateway's thread in its loop already. */
  ghost predicate Orderly(es: seq<Event>) {
    forall i | 0 <= i < |es| && es[i].ReloadCall? :: Entered(Run(EMPTY, es[..i]))
  }

  /** Whatever starts, stops, builds and fallbacks do, an orderly run never leaves two gateways
      with live transports or running loops: all but the current one are dead. */
  lemma {:induction false} OneGatewayAtATime(es: seq<Event>)
    requires Orderly(es)
    ensures Inv(Run(EMPTY, es))
    ensures forall i | 0 <= i < |Run(EMPTY, es).gateways| - 1 :: Run(EMPTY, es).gateways[i].Dead()
  {
    if es != [] {
      var init, last := es[..|es| - 1], es[|es| - 1];
      forall i | 0 <= i < |init| && init[i].ReloadCall? ensures Entered(Run(EMPTY, init[..i])) {
        assert init[..i] == es[..i];
      }
      OneGatewayAtATime(init);
      StepKeepsInv(Run(EMPTY, init), last);
    }
  }

  /** However the run goes on, gateway `i` is never in its loop again. */
  ghost predicate NeverRuns(s: State, i: nat)
    requires CurrentExists(s) && i < |s.gateways|
  {
    forall es :: !Run(s, es).gateways[i].Running()
  }

  lemma RunsAgain(s: State, es: seq<Event>, i: nat)
    requires CurrentExists(s) && i < |s.gateways| && Run(s, es).gateways[i].Running()
    ensures !NeverRuns(s, i)
  {
  }

  /** A gateway that a reload has stopped and released stays dead however the run goes on,
      exactly if its thread had entered the loop before the reload. */
  lemma ReleasedForGood(s: State, a: Attempt, i: nat)
    requires i < |s.gateways| && s.current == Some(i) && Sane(s.gateways[i])
    requires !s.gateways[i].cleaned && ReloadStep(s, a).gateways[i].cleaned
    ensures NeverRuns(ReloadStep(s, a), i) <==> s.gateways[i].entered
  {
    var s1 := ReloadStep(s, a);
    if s.gateways[i].entered {
      forall es ensures !Run(s1, es).gateways[i].Running() {
        DeadStaysDead(s1, es, i);
      }
    } else {
      var es := [ThreadEnters(i)];
      assert es[..0] == [] && es[0] == ThreadEnters(i);
      assert Run(s1, es) == Step(s1, ThreadEnters(i));
      assert !s1.gateways[i].entered && !s1.gateways[i].exited;
      RunsAgain(s1, es, i);
    }
  }

  /** A gateway released before its thread had entered the loop, and replaced, polls for ever once the thread
      gets there: nobody asks it to stop again. */
  lemma {:induction false} EarlyReleasePollsOn(s: State, i: nat, es: seq<Event>)
    requires CurrentExists(s) && i < |s.gateways| && s.current != Some(i) && !s.gateways[i].entered && !s.gateways[i].exited
    ensures var t := Run(Step(s, ThreadEnters(i)), es);
            t.gateways[i].Running() && !t.gateways[i].asked && t.current != Some(i)
  {
    if es != [] {
      hide Step;
      EarlyReleasePollsOn(s, i, es[..|es| - 1]);
      UnaskedGoesOn(Run(Step(s, ThreadEnters(i)), es[..|es| - 1]), es[|es| - 1], i);
    }
  }

  lemma UnaskedGoesOn(s: State, e: Event, i: nat)
    requires CurrentExists(s) && i < |s.gateways| && s.current != Some(i) && s.gateways[i].Running() && !s.gateways[i].asked
    ensures var s' := Step(s, e);
            i < |s'.gateways| && s'.gateways[i].Running() && !s'.gateways[i].asked && s'.current != Some(i)
  {
  }

  lemma {:induction false} DeadStaysDead(s: State, es: seq<Event>, i: nat)
    requires CurrentExists(s) && i < |s.gateways| && s.gateways[i].Dead()
    ensures i < |Run(s, es).gateways| && Run(s, es).gateways[i].Dead()
  {
    if es != [] {
      hide Step;
      DeadStaysDead(s, es[..|es| - 1], i);
      DeadAfterStep(Run(s, es[..|es| - 1]), es[|es| - 1], i);
    }
  }

  lemma DeadAfterStep(s: State, e: Event, i: nat)
    requires CurrentExists(s) && i < |s.gateways| && s.gateways[i].Dead()
    ensures i < |Step(s, e).gateways| && Step(s, e).gateways[i].Dead()
  {
  }

  // ------------------------------------------------------------------
  // What a reload reports
  // ------------------------------------------------------------------

  predicate CarriedOut(e: Ending) { !e.Disabled? && !e.Unchanged? }

  /** The last status shown on the run that is not about a disabled or skipped reload. */
  function LastShown(es: seq<Event>): Option<Ending> {
    if es == [] then None
    else
      var status := Run(EMPTY, es).status;
      if status.Some? && CarriedOut(status.value.ending) then Some(status.value.ending)
      else LastShown(es[..|es| - 1])
  }

  ghost predicate ShowsLastTry(s: State) {
    if s.status.None? then s.lastTry.None?
    else CarriedOut(s.status.value.ending) ==> s.lastTry == Some(s.status.value.ending)
  }

  /** How the last carried-out start or reload ended can be read off the statuses. */
  lemma {:induction false} LastTryIsShown(es: seq<Event>)
    ensures Run(EMPTY, es).lastTry == LastShown(es) && ShowsLastTry(Run(EMPTY, es))
  {
    if es != [] {
      LastTryIsShown(es[..|es| - 1]);
      StepShowsLastTry(Run(EMPTY, es[..|es| - 1]), es[|es| - 1]);
      hide Step, ShowsLastTry;
    }
  }

  lemma StepShowsLastTry(s: State, e: Event)
    requires CurrentExists(s) && ShowsLastTry(s)
    ensures var s' := Step(s, e);
            && ShowsLastTry(s')
            && ((s'.status.Some? && CarriedOut(s'.status.value.ending)) || s'.lastTry == s.lastTry)
  {
  }

  /** A reload that reports success leaves a gateway serving, except exactly when it is disabled or skips
      an unchanged file although the last status of a reload that was carried out says that it brought
      nothing up. */
  lemma ReloadIsHonest(es: seq<Event>, a: Attempt)
    requires Orderly(es) && Entered(Run(EMPTY, es))
    ensures var s := Run(EMPTY, es);
            var s' := ReloadStep(s, a);
            s'.status.Some? && ((s'.status.value.ok ==> Serving(s'))
                                <==> !((!a.enabled || Skips(s, a)) && !BroughtUp(LastShown(es))))
  {
    hide Run, Inv, Entered, Orderly, ReloadStep, LastShown, Serving;
    OneGatewayAtATime(es);
    LastTryIsShown(es);
    StepIsHonest(Run(EMPTY, es), a);
  }

  /** What a reload comes to, seen from outside: the gateway now current is a new one, and its
      configuration has the content `hash`. */
  predicate Brings(s: State, s': State, hash: Option<string>) {
    && |s'.gateways| == |s.gateways| + 1 && s'.gateways[|s.gateways|] == NEW_GATEWAY
    && s'.current == Some(|s.gateways|) && s'.loadedHash == hash
  }

  /** No gateway has been built, and none is served by what is left. */
  ghost predicate BringsNothing(s: State, s': State) {
    |s'.gateways| == |s.gateways| && s'.current == s.current && s'.loadedHash == s.loadedHash && !Serving(s')
  }

  predicate Shows(s: State, ok: bool, fatal: bool, usingFallback: bool) {
    s.status.Some? && s.status.value.ok == ok && s.status.value.fatal == fatal && s.status.value.usingFallback == usingFallback
  }

  /** The current gateway's loop does not leave in time. */
  predicate Hangs(s: State, a: Attempt) {
    s.current.Some? && s.current.value < |s.gateways| && s.gateways[s.current.value].Running() && !a.stopsInTime
  }

  /** The three flags of a status tell the truth about a reload that was carried out: success means that
      the new configuration runs, fallback that the stored one does, fatal that nothing does; and with
      none of them the old gateway has been told to stop. */
  lemma StatusIsTrue(s: State, a: Attempt)
    requires Inv(s) && Entered(s) && a.enabled
    requires !(s.current.Some? && s.loadedHash.Some? && a.hash == s.loadedHash)
    ensures var s' := ReloadStep(s, a);
            if Hangs(s, a) then Shows(s', false, false, false) && BringsNothing(s, s')
            else if a.builds then Shows(s', true, false, false) && Brings(s, s', a.hash)
            else if a.backup.Stored? && a.backup.builds then Shows(s', false, false, true) && Brings(s, s', a.backup.hash)
            else Shows(s', false, true, false) && BringsNothing(s, s')
  {
  }

  /** A reload that is disabled, or skipped because the file is the one loaded, changes nothing but the
      status, which reports success. */
  lemma IdleReload(s: State, a: Attempt)
    requires CurrentExists(s)
    requires !a.enabled || (s.current.Some? && s.loadedHash.Some? && a.hash == s.loadedHash)
    ensures var s' := ReloadStep(s, a);
            Shows(s', true, false, false) && s' == s.(status := s'.status)
  {
  }

  lemma StepIsHonest(s: State, a: Attempt)
    requires Inv(s) && Entered(s)
    ensures var s' := ReloadStep(s, a);
            s'.status.Some? && ((s'.status.value.ok ==> Serving(s'))
                                <==> !((!a.enabled || Skips(s, a)) && !BroughtUp(s.lastTry)))
  {
  }

  /** Both exceptions happen. An edit that does not build, with no backup, takes the gateway
      offline, and undoing the edit reports success without bringing it back. */
  lemma UndoneEditStaysOffline(good: string, bad: string)
    requires good != bad
    ensures var es := [Start(Some(good)), ThreadEnters(0),
                       ReloadCall(Attempt(true, Some(bad), true, false, NoBackup)),
                       ReloadCall(Attempt(true, Some(good), true, true, NoBackup))];
            var s := Run(EMPTY, es);
            Orderly(es) && s.status == Some(StatusOf(Unchanged)) && s.status.value.ok && !Serving(s)
            && |s.gateways| == 1 && s.gateways[0].Dead()
  {
    var e0, e1 := Start(Some(good)), ThreadEnters(0);
    var e2 := ReloadCall(Attempt(true, Some(bad), true, false, NoBackup));
    var e3 := ReloadCall(Attempt(true, Some(good), true, true, NoBackup));
    RunOfFour(e0, e1, e2, e3);
    hide Run;
  }

  /** And a reload that has been disabled since reports success as well. */
  lemma DisabledReloadStaysOffline(good: string, bad: string, a: Attempt)
    requires good != bad && !a.enabled
    ensures var es := [Start(Some(good)), ThreadEnters(0),
                       ReloadCall(Attempt(true, Some(bad), true, false, NoBackup)), ReloadCall(a)];
            var s := Run(EMPTY, es);
            Orderly(es) && s.status == Some(StatusOf(Disabled)) && s.status.value.ok && !Serving(s)
            && |s.gateways| == 1 && s.gateways[0].Dead()
  {
    var e0, e1 := Start(Some(good)), ThreadEnters(0);
    var e2 := ReloadCall(Attempt(true, Some(bad), true, false, NoBackup));
    RunOfFour(e0, e1, e2, ReloadCall(a));
    hide Run;
  }

  /** A run of four events and its beginnings. */
  lemma RunOfFour(a: Event, b: Event, c: Event, d: Event)
    ensures var es := [a, b, c, d];
            && Run(EMPTY, es[..0]) == EMPTY
            && Run(EMPTY, es[..1]) == Step(EMPTY, a)
            && Run(EMPTY, es[..2]) == Step(Step(EMPTY, a), b)
            && Run(EMPTY, es[..3]) == Step(Step(Step(EMPTY, a), b), c)
            && Run(EMPTY, es) == Step(Step(Step(Step(EMPTY, a), b), c), d)
  {
    hide Step;
    var es := [a, b, c, d];
    assert es[..1] == [a] && es[..2] == [a, b] && es[..3] == [a, b, c];
    assert [a][..0] == [] && [a, b][..1] == [a] && [a, b, c][..2] == [a, b];
    assert Run(EMPTY, [a]) == Step(EMPTY, a);
    assert Run(EMPTY, [a, b]) == Step(Run(EMPTY, [a]), b);
    assert Run(EMPTY, [a, b, c]) == Step(Run(EMPTY, [a, b]), c);
  }

  /** Threads getting on, and triggers that are disabled or find the content `hash` again. */
  ghost predicate SameContent(es: seq<Event>, hash: Option<string>) {
    forall i | 0 <= i < |es| ::
      es[i].ThreadEnters? || es[i].LoopLeaves?
      || (es[i].ReloadCall? && (!es[i].attempt.enabled || es[i].attempt.hash == hash))
  }

  /** After a successful reload any number of further triggers for the same content build nothing,
      whatever the threads do in between, and one more changes nothing but the status. */
  lemma RepeatedTriggerIsSkipped(s: State, a: Attempt, es: seq<Event>, again: Attempt)
    requires CurrentExists(s) && a.enabled && again.enabled && a.hash.Some? && again.hash == a.hash
    requires ReloadStep(s, a).status == Some(StatusOf(Reloaded))
    requires !Skips(s, a)
    requires SameContent(es, a.hash)
    ensures var s1, t := ReloadStep(s, a), Run(ReloadStep(s, a), es);
            && |t.gateways| == |s1.gateways| && t.current == s1.current && t.loadedHash == s1.loadedHash
            && t.lastTry == s1.lastTry
            && ReloadStep(t, again) == t.(status := Some(StatusOf(Unchanged)))
  {
    SameContentBuildsNothing(ReloadStep(s, a), es, a.hash);
  }

  lemma {:induction false} SameContentBuildsNothing(s: State, es: seq<Event>, hash: Option<string>)
    requires CurrentExists(s) && s.current.Some? && hash.Some? && s.loadedHash == hash && SameContent(es, hash)
    ensures var t := Run(s, es);
            && |t.gateways| == |s.gateways| && t.current == s.current && t.loadedHash == s.loadedHash
            && t.lastTry == s.lastTry
  {
    if es != [] {
      SameContentBuildsNothing(s, es[..|es| - 1], hash);
    }
  }

  // ------------------------------------------------------------------
  // The manager object
  // ------------------------------------------------------------------

  /** With the current gateway stopped nothing holds a transport or polls any more. */
  lemma AllReleased(s: State, a: Attempt)
    requires Inv(s) && Entered(s)
    ensures CurrentExists(s) && (s.current.None? ==> s.gateways == [])
    ensures s.current.Some? ==>
              var (g, stopped) := StopGateway(s.gateways[s.current.value], a.stopsInTime);
              stopped ==> forall h | h in s.gateways[s.current.value := g] :: h.cleaned && !h.Running()
  {
  }

  class GatewayManager {
    var gateways: seq<Gateway>
    var current: Option<nat>
    var loadedConfigHash: Option<string>
    var status: Option<Status>
    ghost var lastTry: Option<Ending>

    ghost function View(): State
      reads this
    {
      State(gateways, current, loadedConfigHash, status, lastTry)
    }

    constructor ()
      ensures View() == EMPTY
    {
      gateways, current, loadedConfigHash, status, lastTry := [], None, None, None, None;
    }

    /** Constructing a gateway opens its transports, so no other may still hold any. */
    method Build() returns (i: nat)
      requires forall g | g in gateways :: g.cleaned && !g.Running()
      modifies this`gateways
      ensures i == |old(gateways)| && gateways == old(gateways) + [NEW_GATEWAY]
    {
      i := |gateways|;
      gateways := gateways + [NEW_GATEWAY];
    }

    method Report(e: Ending)
      modifies this`status
      ensures status == Some(StatusOf(e))
    {
      status := Some(StatusOf(e));
    }

    method Start(hash: Option<string>)
      requires gateways == []
      modifies this
      ensures View() == StartStep(old(View()), hash)
    {
      var i := Build();
      current := Some(i);
      loadedConfigHash := hash;
      Report(Started);
      lastTry := Some(Started);
    }

    method Fallback(backup: Backup)
      requires forall g | g in gateways :: g.cleaned && !g.Running()
      modifies this
      ensures View() == match backup
                        case Stored(hash, true) => Finish(Construct(old(View()), hash), FellBack)
                        case _ => Finish(old(View()), Offline)
    {
      if backup.NoBackup? || backup.MissingFile? || !backup.builds {
        Report(Offline);
        lastTry := Some(Offline);
        return;
      }
      var i := Build();
      current := Some(i);
      loadedConfigHash := backup.hash;
      Report(FellBack);
      lastTry := Some(FellBack);
    }

    method ReloadConfig(a: Attempt)
      requires Inv(View()) && Entered(View())
      modifies this
      ensures Inv(View()) && View() == ReloadStep(old(View()), a)
    {
      ghost var s := View();
      StepKeepsInv(s, ReloadCall(a));
      AllReleased(s, a);
      assert Step(s, ReloadCall(a)) == ReloadStep(s, a);
      hide Inv, Step, Entered;
      if !a.enabled {
        Report(Disabled);
        return;
      }
      if current.Some? && a.hash.Some? && a.hash == loadedConfigHash {
        Report(Unchanged);
        return;
      }
      if current.Some? {
        var (g, stopped) := StopGateway(gateways[current.value], a.stopsInTime);
        gateways := gateways[current.value := g];
        if !stopped {
          Report(StopTimedOut);
          lastTry := Some(StopTimedOut);
          return;
        }
      }
      if !a.builds {
        Fallback(a.backup);
        return;
      }
      var i := Build();
      current := Some(i);
      loadedConfigHash := a.hash;
      Report(Reloaded);
      lastTry := Some(Reloaded);
    }
  }
}
