/** The launcher's spawn, wait and restart loop, outside the Windows uninstall branch. */
module Supervisor {
  import opened Wrappers

  const EXIT_RESTART: int := 75
  const MAX_CRASH_RESTARTS: nat := 3
  const CRASH_COUNT_RESET_UPTIME: nat := 60

  datatype RestartReason = ExitCode75 | RestartMarker

  function DecideRestart(exitCode: int, markerExists: bool): Option<RestartReason> {
    if markerExists then Some(RestartMarker)
    else if exitCode == EXIT_RESTART then Some(ExitCode75)
    else None
  }

  datatype CrashDecision = CleanExit | LeaveToServiceManager | Restart(attempt: nat) | GiveUp

  function DecideCrashRestart(exitCode: int, runningAsService: bool, restartsSoFar: nat, uptime: nat): CrashDecision {
    if exitCode == 0 then CleanExit
    else if runningAsService then LeaveToServiceManager
    else
      var prior := if uptime >= CRASH_COUNT_RESET_UPTIME then 0 else restartsSoFar;
      if prior >= MAX_CRASH_RESTARTS then GiveUp else Restart(prior + 1)
  }

  /** One life of the server as the launcher sees it: whether it could be started and waited for, its
      exit code and uptime in seconds, a stop request meanwhile, a restart marker written meanwhile, and
      whether the marker can be deleted. */
  datatype Life = Life(spawnOk: bool, waitOk: bool, code: int, uptime: nat, stop: bool, markerWritten: bool,
                       removeOk: bool) {
    /** It exited by itself, with neither marker nor exit code asking for a restart. */
    predicate Unclaimed(marker: bool) {
      !stop && DecideRestart(code, marker || markerWritten) == None
    }

    predicate Crashes(marker: bool) {
      Unclaimed(marker) && code != 0
    }
  }

  datatype End = Running | Exited(code: int) | Failed

  /** The loop's variables, and a ledger of what happened: the browser flag of each spawn, the restarts
      asked for, the restarts after crashes, and the crashes after a healthy uptime. */
  datatype State = State(crashRestarts: nat, marker: bool, end: End,
                         spawns: seq<bool>, requested: nat, afterCrash: nat, healthyCrashes: nat)

  function Started(marker: bool): State {
    State(0, marker, Running, [], 0, 0, 0)
  }

  function Next(s: State, l: Life, service: bool): State {
    if s.end != Running then s
    else if !l.spawnOk then s.(end := Failed)
    else
      var s := s.(spawns := s.spawns + [s.spawns == []]);
      if !l.waitOk then s.(end := Failed)
      else if l.stop then s.(end := Exited(l.code))
      else
        var marker := s.marker || l.markerWritten;
        match DecideRestart(l.code, marker)
        case Some(RestartMarker) => s.(marker := !l.removeOk, requested := s.requested + 1)
        case Some(ExitCode75) => s.(marker := marker, requested := s.requested + 1)
        case None =>
          var healthy := s.healthyCrashes + if l.code != 0 && l.uptime >= CRASH_COUNT_RESET_UPTIME then 1 else 0;
          match DecideCrashRestart(l.code, service, s.crashRestarts, l.uptime)
          case Restart(attempt) =>
            s.(marker := marker, crashRestarts := attempt, afterCrash := s.afterCrash + 1, healthyCrashes := healthy)
          case _ => s.(marker := marker, end := Exited(l.code), healthyCrashes := healthy)
  }

  function After(marker: bool, lives: seq<Life>, service: bool): State {
    if lives == [] then Started(marker)
    else Next(After(marker, lives[..|lives| - 1], service), lives[|lives| - 1], service)
  }

  lemma OneMore(marker: bool, lives: seq<Life>, l: Life, service: bool)
    ensures After(marker, lives + [l], service) == Next(After(marker, lives, service), l, service)
  {
    assert (lives + [l])[..|lives|] == lives;
  }

  lemma {:induction false} StaysEnded(marker: bool, lives: seq<Life>, service: bool, i: nat)
    requires i <= |lives| && After(marker, lives[..i], service).end != Running
    ensures After(marker, lives, service) == After(marker, lives[..i], service)
    decreases |lives| - i
  {
    if i == |lives| {
      assert lives[..i] == lives;
    } else {
      assert lives[..i + 1][..i] == lives[..i];
      StaysEnded(marker, lives, service, i + 1);
    }
  }

  /** The states of a run, one after another; the first at which the launcher has exited is the last. */
  lemma Trace(marker: bool, lives: seq<Life>, service: bool) returns (run: seq<State>)
    ensures |run| == |lives| + 1 && run[0] == Started(marker)
    ensures forall i :: 0 <= i < |lives| ==> run[i + 1] == Next(run[i], lives[i], service)
    ensures forall i :: 0 <= i <= |lives| && (i == |lives| || run[i].end != Running) ==>
              run[i] == After(marker, lives, service)
  {
    run := seq(|lives| + 1, i requires 0 <= i <= |lives| => After(marker, lives[..i], service));
    assert lives[..|lives|] == lives;
    hide After, Next;
    forall i | 0 <= i < |lives|
      ensures run[i + 1] == Next(run[i], lives[i], service)
    {
      assert lives[..i + 1] == lives[..i] + [lives[i]];
      OneMore(marker, lives[..i], lives[i], service);
    }
    forall i | 0 <= i <= |lives| && run[i].end != Running
      ensures run[i] == After(marker, lives, service)
    {
      StaysEnded(marker, lives, service, i);
    }
  }

  /** The loop, for as many lives as it is given or until the launcher exits. */
  method Run(staleMarker: bool, cleanupOk: bool, service: bool, lives: seq<Life>)
    returns (spawns: seq<bool>, crashRestarts: nat, end: End)
    ensures var s := After(staleMarker && !cleanupOk, lives, service);
            spawns == s.spawns && crashRestarts == s.crashRestarts && end == s.end
  {
    var marker := staleMarker && !cleanupOk;
    ghost var run := Trace(marker, lives, service);
    var firstSpawn := true;
    spawns, crashRestarts, end := [], 0, Running;
    for i := 0 to |lives|
      invariant spawns == run[i].spawns && crashRestarts == run[i].crashRestarts && end == run[i].end
      invariant end == Running && marker == run[i].marker
      invariant firstSpawn <==> spawns == []
    {
      var l := lives[i];
      assert run[i + 1] == Next(run[i], l, service);
      if !l.spawnOk {
        end := Failed;
        return;
      }
      spawns := spawns + [firstSpawn];
      firstSpawn := false;
      if !l.waitOk {
        end := Failed;
        return;
      }
      if l.stop {
        end := Exited(l.code);
        return;
      }
      marker := marker || l.markerWritten;
      match DecideRestart(l.code, marker) {
        case Some(RestartMarker) => marker := !l.removeOk;
        case Some(ExitCode75) =>
        case None =>
          match DecideCrashRestart(l.code, service, crashRestarts, l.uptime) {
            case Restart(attempt) => crashRestarts := attempt;
            case _ =>
              end := Exited(l.code);
              return;
          }
      }
    }
  }

  // ---- Whole runs ----

  predicate Invariant(s: State, service: bool) {
    && s.crashRestarts <= MAX_CRASH_RESTARTS
    && (forall i :: 0 <= i < |s.spawns| ==> (s.spawns[i] <==> i == 0))
    && |s.spawns| <= s.requested + s.afterCrash + 1
    && (s.end == Running ==> |s.spawns| == s.requested + s.afterCrash)
    // Each healthy crash buys at most three more restarts.
    && s.afterCrash + (MAX_CRASH_RESTARTS - s.crashRestarts) <= MAX_CRASH_RESTARTS * (1 + s.healthyCrashes)
    && (service ==> s.afterCrash == 0)
  }

  lemma LifeKeepsInvariant(s: State, l: Life, service: bool)
    requires Invariant(s, service)
    ensures Invariant(Next(s, l, service), service)
  {
  }

  lemma {:induction false} RunKeepsInvariant(marker: bool, lives: seq<Life>, service: bool)
    ensures Invariant(After(marker, lives, service), service)
  {
    if lives != [] {
      var before := lives[..|lives| - 1];
      RunKeepsInvariant(marker, before, service);
      hide Invariant, Next;
      LifeKeepsInvariant(After(marker, before, service), lives[|lives| - 1], service);
    }
  }

  /** In every run the server is started at most once, plus once per requested restart, plus three times per healthy
      stretch; the service never restarts a crash itself, and only the first start may open a browser. */
  lemma SpawnsAreBounded(marker: bool, lives: seq<Life>, service: bool)
    ensures var s := After(marker, lives, service);
            && |s.spawns| <= 1 + s.requested + (if service then 0 else MAX_CRASH_RESTARTS * (1 + s.healthyCrashes))
            && s.crashRestarts <= MAX_CRASH_RESTARTS
            && forall i :: 0 <= i < |s.spawns| && s.spawns[i] ==> i == 0
  {
    RunKeepsInvariant(marker, lives, service);
  }

  lemma CrashEndsExactly(s: State, l: Life)
    requires s.end == Running && l.spawnOk && l.waitOk && l.Crashes(s.marker)
    requires s.crashRestarts <= MAX_CRASH_RESTARTS
    ensures Next(s, l, false).end == Exited(l.code)
            <==> l.uptime < CRASH_COUNT_RESET_UPTIME && s.crashRestarts == MAX_CRASH_RESTARTS
  {
  }

  /** The launcher gives up on a crash exactly when it came quickly and three restarts in a row are used up. */
  lemma GivesUpExactly(marker: bool, lives: seq<Life>, l: Life)
    requires After(marker, lives, false).end == Running && l.spawnOk && l.waitOk
    requires l.Crashes(After(marker, lives, false).marker)
    ensures After(marker, lives + [l], false).end == Exited(l.code)
            <==> l.uptime < CRASH_COUNT_RESET_UPTIME && After(marker, lives, false).crashRestarts == MAX_CRASH_RESTARTS
  {
    hide After, Next;
    assert After(marker, lives, false).crashRestarts <= MAX_CRASH_RESTARTS by {
      RunKeepsInvariant(marker, lives, false);
    }
    OneMore(marker, lives, l, false);
    CrashEndsExactly(After(marker, lives, false), l);
  }

  // ---- Restarts asked for ----

  function Asked(lives: seq<Life>): nat {
    if lives == [] then 0
    else
      var last := lives[|lives| - 1];
      Asked(lives[..|lives| - 1]) + if last.markerWritten || last.code == EXIT_RESTART then 1 else 0
  }

  /** While the marker can be deleted, every request is served once: by its life's end, and no marker is left to ask
      again. */
  lemma {:induction false} EachRequestIsServedOnce(lives: seq<Life>, service: bool)
    requires forall i :: 0 <= i < |lives| ==> lives[i].removeOk
    requires After(false, lives, service).end == Running
    ensures After(false, lives, service).requested == Asked(lives) && !After(false, lives, service).marker
  {
    if lives != [] {
      EachRequestIsServedOnce(lives[..|lives| - 1], service);
    }
  }

  /** A marker that cannot be deleted restarts the server for ever, clean exits included, until a stop request or a
      failure. */
  lemma {:induction false} StuckMarkerNeverExits(lives: seq<Life>, service: bool)
    requires forall i :: 0 <= i < |lives| ==>
           lives[i].spawnOk && lives[i].waitOk && !lives[i].stop && !lives[i].removeOk
    ensures var s := After(true, lives, service); s.end == Running && s.marker && s.requested == |lives|
  {
    if lives != [] {
      StuckMarkerNeverExits(lives[..|lives| - 1], service);
    }
  }

  // ---- The bound is attained ----

  const QUICK_CRASH: Life := Life(true, true, 1, 0, false, false, true)
  const LATE_CRASH: Life := Life(true, true, 1, CRASH_COUNT_RESET_UPTIME, false, false, true)

  /** Three quick crashes, then `n` times a late one and two quick ones. */
  function WorstLives(n: nat): seq<Life> {
    if n == 0 then [QUICK_CRASH, QUICK_CRASH, QUICK_CRASH]
    else WorstLives(n - 1) + [LATE_CRASH, QUICK_CRASH, QUICK_CRASH]
  }

  lemma ThreeMore(lives: seq<Life>, a: Life, b: Life, c: Life)
    ensures After(false, lives + [a, b, c], false) ==
            Next(Next(Next(After(false, lives, false), a, false), b, false), c, false)
  {
    hide After;
    OneMore(false, lives, a, false);
    OneMore(false, lives + [a], b, false);
    OneMore(false, lives + [a] + [b], c, false);
    assert lives + [a] + [b] + [c] == lives + [a, b, c];
  }

  predicate BudgetUsed(s: State, n: nat) {
    && s.end == Running && !s.marker && s.requested == 0 && s.healthyCrashes == n
    && s.crashRestarts == MAX_CRASH_RESTARTS && s.afterCrash == MAX_CRASH_RESTARTS * (1 + n)
  }

  lemma FirstRound()
    ensures BudgetUsed(Next(Next(Next(Started(false), QUICK_CRASH, false), QUICK_CRASH, false), QUICK_CRASH, false), 0)
  {
  }

  lemma OneRound(s: State, n: nat)
    requires BudgetUsed(s, n)
    ensures BudgetUsed(Next(Next(Next(s, LATE_CRASH, false), QUICK_CRASH, false), QUICK_CRASH, false), n + 1)
  {
  }

  lemma {:induction false} WorstLivesUseTheBudget(n: nat)
    ensures BudgetUsed(After(false, WorstLives(n), false), n)
  {
    if n == 0 {
      assert WorstLives(0) == [] + [QUICK_CRASH, QUICK_CRASH, QUICK_CRASH];
      ThreeMore([], QUICK_CRASH, QUICK_CRASH, QUICK_CRASH);
      FirstRound();
    } else {
      WorstLivesUseTheBudget(n - 1);
      ThreeMore(WorstLives(n - 1), LATE_CRASH, QUICK_CRASH, QUICK_CRASH);
      hide After, Next, BudgetUsed;
      OneRound(After(false, WorstLives(n - 1), false), n - 1);
    }
  }

  /** For any number of healthy stretches some run spawns exactly as often as the bound allows, and then gives up. */
  lemma BoundIsAttained(n: nat)
    ensures var s := After(false, WorstLives(n) + [QUICK_CRASH], false);
            && s.healthyCrashes == n && s.end == Exited(1)
            && |s.spawns| == 1 + s.requested + MAX_CRASH_RESTARTS * (1 + s.healthyCrashes)
  {
    hide After, WorstLives;
    WorstLivesUseTheBudget(n);
    RunKeepsInvariant(false, WorstLives(n), false);
    OneMore(false, WorstLives(n), QUICK_CRASH, false);
  }
}
