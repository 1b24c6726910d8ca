/** One tray per logged-on session: how a spawn that fails because a logon is still in progress is
    counted across polls, what is logged about it, and the outcome each poll reports. */
module TraySupervisor {
  import opened Wrappers

  type Session = int

  const ERROR_NO_TOKEN_HRESULT: int := 0x800703F0 - 0x1_0000_0000
  const NO_TOKEN_RETRY_BUDGET: nat := 30
  const U32_MAX: nat := 0xffff_ffff

  datatype Level = Info | Warn | Error
  datatype Verdict = WaitingForLogon | StillWaiting | Failure

  function JudgeSpawnFailure(code: Option<int>, priorNoToken: nat): Verdict {
    if code != Some(ERROR_NO_TOKEN_HRESULT) then Failure
    else if priorNoToken == 0 then WaitingForLogon
    else if priorNoToken < NO_TOKEN_RETRY_BUDGET then StillWaiting
    else Failure
  }

  function SaturatingAdd(n: nat): nat {
    if n >= U32_MAX then U32_MAX else n + 1
  }

  /** What a poll finds in one session: a tray, a successful spawn, or a failed one. */
  datatype Found = Present | Spawns(pid: int) | Fails(code: Option<int>, msg: string) {
    predicate NoToken() {
      Fails? && code == Some(ERROR_NO_TOKEN_HRESULT)
    }
  }

  datatype Visit = Visit(session: Session, found: Found)
  datatype Line = Line(level: Level, session: Session)
  type Counts = map<Session, nat>

  function Count(m: Counts, s: Session): nat {
    if s in m then m[s] else 0
  }

  // ---- Specification of one poll ----

  function Visited(m: Counts, v: Visit): Counts {
    match v.found
    case Present => m - {v.session}
    case Spawns(_) => m - {v.session}
    case Fails(code, _) => if v.found.NoToken() then m[v.session := SaturatingAdd(Count(m, v.session))] else m
  }

  function LinesFor(m: Counts, v: Visit): seq<Line> {
    match v.found
    case Present => []
    case Spawns(_) => [Line(Info, v.session)]
    case Fails(code, _) =>
      match JudgeSpawnFailure(code, Count(m, v.session))
      case WaitingForLogon => [Line(Warn, v.session)]
      case StillWaiting => []
      case Failure => [Line(Error, v.session)]
  }

  function CountsAfter(m: Counts, vs: seq<Visit>): Counts {
    if vs == [] then m else Visited(CountsAfter(m, vs[..|vs| - 1]), vs[|vs| - 1])
  }

  function LinesAfter(m: Counts, vs: seq<Visit>): seq<Line> {
    if vs == [] then []
    else LinesAfter(m, vs[..|vs| - 1]) + LinesFor(CountsAfter(m, vs[..|vs| - 1]), vs[|vs| - 1])
  }

  /** The verdict on the failure at position `i` of a poll. */
  function VerdictAt(m: Counts, vs: seq<Visit>, i: nat): Verdict
    requires i < |vs| && vs[i].found.Fails?
  {
    JudgeSpawnFailure(vs[i].found.code, Count(CountsAfter(m, vs[..i]), vs[i].session))
  }

  predicate SpawnsAt(vs: seq<Visit>, i: nat) {
    i < |vs| && vs[i].found.Spawns?
  }

  predicate PresentAt(vs: seq<Visit>, i: nat) {
    i < |vs| && vs[i].found.Present?
  }

  predicate FailsAt(m: Counts, vs: seq<Visit>, i: nat) {
    i < |vs| && vs[i].found.Fails? && VerdictAt(m, vs, i) == Failure
  }

  predicate WaitsAt(m: Counts, vs: seq<Visit>, i: nat) {
    i < |vs| && vs[i].found.Fails? && VerdictAt(m, vs, i) != Failure
  }

  /** Position `i` holds the last real error of the poll. */
  ghost predicate LastFailure(m: Counts, vs: seq<Visit>, i: nat) {
    FailsAt(m, vs, i) && forall j :: i < j < |vs| ==> !FailsAt(m, vs, j)
  }

  datatype Outcome = AlreadyRunning | NoActiveSession | Spawned(pid: int, session: Session) | LogonPending
    | SpawnFailed(msg: string)

  /** The ranking: the first spawn, else the last real error, else a pending logon, else trays that were there
      already. */
  ghost predicate Reports(m: Counts, vs: seq<Visit>, o: Outcome) {
    if exists i: nat :: SpawnsAt(vs, i) then
      exists i: nat :: SpawnsAt(vs, i) && (forall j :: 0 <= j < i ==> !SpawnsAt(vs, j))
        && o == Spawned(vs[i].found.pid, vs[i].session)
    else if exists i: nat :: FailsAt(m, vs, i) then
      exists i: nat :: LastFailure(m, vs, i) && o == SpawnFailed(vs[i].found.msg)
    else if exists i: nat :: WaitsAt(m, vs, i) then o == LogonPending
    else if exists i: nat :: PresentAt(vs, i) then o == AlreadyRunning
    else o == NoActiveSession
  }

  function CombineSessionOutcomes(spawned: Option<Outcome>, lastError: Option<string>, waiting: bool,
                                  already: nat): Outcome {
    match (spawned, lastError)
    case (Some(o), _) => o
    case (None, Some(err)) => SpawnFailed(err)
    case (None, None) => if waiting then LogonPending else if already > 0 then AlreadyRunning else NoActiveSession
  }

  // ---- The variables of the loop, as functions of the visits so far ----

  function FirstSpawn(vs: seq<Visit>): Option<Outcome> {
    if vs == [] then None
    else
      var before, v := FirstSpawn(vs[..|vs| - 1]), vs[|vs| - 1];
      if before == None && v.found.Spawns? then Some(Spawned(v.found.pid, v.session)) else before
  }

  function LastError(m: Counts, vs: seq<Visit>): Option<string> {
    if vs == [] then None
    else
      var n := |vs| - 1;
      if FailsAt(m, vs, n) then Some(vs[n].found.msg) else LastError(m, vs[..n])
  }

  function Waiting(m: Counts, vs: seq<Visit>): bool {
    vs != [] && (WaitsAt(m, vs, |vs| - 1) || Waiting(m, vs[..|vs| - 1]))
  }

  function Already(vs: seq<Visit>): nat {
    if vs == [] then 0 else Already(vs[..|vs| - 1]) + if vs[|vs| - 1].found.Present? then 1 else 0
  }

  function OutcomeOf(m: Counts, vs: seq<Visit>): Outcome {
    CombineSessionOutcomes(FirstSpawn(vs), LastError(m, vs), Waiting(m, vs), Already(vs))
  }

  lemma {:induction false} FirstSpawnMeans(vs: seq<Visit>)
    ensures FirstSpawn(vs) == None ==> forall i: nat :: !SpawnsAt(vs, i)
    ensures FirstSpawn(vs).Some? ==> exists i: nat :: SpawnsAt(vs, i) && (forall j: nat :: j < i ==> !SpawnsAt(vs, j))
                                                      && FirstSpawn(vs).value == Spawned(vs[i].found.pid, vs[i].session)
  {
    if vs != [] {
      var n := |vs| - 1;
      var before := vs[..n];
      FirstSpawnMeans(before);
      assert forall i: nat :: i < n ==> SpawnsAt(vs, i) == SpawnsAt(before, i);
      if FirstSpawn(before).Some? {
        var i: nat :| SpawnsAt(before, i) && (forall j: nat :: j < i ==> !SpawnsAt(before, j))
                      && FirstSpawn(before).value == Spawned(before[i].found.pid, before[i].session);
        assert SpawnsAt(vs, i);
      } else if vs[n].found.Spawns? {
        assert SpawnsAt(vs, n);
      }
    }
  }

  lemma VerdictInPrefix(m: Counts, vs: seq<Visit>, i: nat)
    requires i < |vs| - 1
    ensures FailsAt(m, vs, i) == FailsAt(m, vs[..|vs| - 1], i)
    ensures WaitsAt(m, vs, i) == WaitsAt(m, vs[..|vs| - 1], i)
  {
    assert vs[..|vs| - 1][..i] == vs[..i];
  }

  lemma FailsInPrefix(m: Counts, vs: seq<Visit>)
    requires vs != []
    ensures forall i: nat :: i < |vs| - 1 ==> FailsAt(m, vs, i) == FailsAt(m, vs[..|vs| - 1], i)
  {
    forall i: nat | i < |vs| - 1
      ensures FailsAt(m, vs, i) == FailsAt(m, vs[..|vs| - 1], i)
    {
      VerdictInPrefix(m, vs, i);
    }
  }

  lemma LastErrorStep(m: Counts, vs: seq<Visit>)
    requires vs != []
    ensures var n := |vs| - 1;
            LastError(m, vs) == if FailsAt(m, vs, n) then Some(vs[n].found.msg) else LastError(m, vs[..n])
  {
  }

  lemma {:induction false} LastErrorMeans(m: Counts, vs: seq<Visit>)
    ensures LastError(m, vs) == None ==> forall i: nat :: !FailsAt(m, vs, i)
    ensures LastError(m, vs).Some? ==>
              exists i: nat :: LastFailure(m, vs, i) && LastError(m, vs).value == vs[i].found.msg
  {
    if vs != [] {
      var n := |vs| - 1;
      LastErrorMeans(m, vs[..n]);
      LastErrorStep(m, vs);
      FailsInPrefix(m, vs);
      hide LastError, VerdictAt;
      if FailsAt(m, vs, n) {
        assert LastFailure(m, vs, n);
      } else if LastError(m, vs[..n]).Some? {
        var i: nat :| LastFailure(m, vs[..n], i) && LastError(m, vs[..n]).value == vs[..n][i].found.msg;
        assert LastFailure(m, vs, i);
      }
    }
  }

  lemma {:induction false} WaitingMeans(m: Counts, vs: seq<Visit>)
    ensures Waiting(m, vs) <==> exists i: nat :: WaitsAt(m, vs, i)
  {
    if vs != [] {
      var n := |vs| - 1;
      WaitingMeans(m, vs[..n]);
      forall i: nat | i < n
        ensures WaitsAt(m, vs, i) == WaitsAt(m, vs[..n], i)
      {
        VerdictInPrefix(m, vs, i);
      }
    }
  }

  lemma {:induction false} AlreadyMeans(vs: seq<Visit>)
    ensures Already(vs) > 0 <==> exists i: nat :: PresentAt(vs, i)
  {
    if vs != [] {
      var n := |vs| - 1;
      AlreadyMeans(vs[..n]);
      assert forall i: nat :: i < n ==> PresentAt(vs, i) == PresentAt(vs[..n], i);
      if vs[n].found.Present? {
        assert PresentAt(vs, n);
      }
    }
  }

  /** The outcome a poll reports follows the ranking. */
  lemma OutcomeFollowsRanking(m: Counts, vs: seq<Visit>)
    ensures Reports(m, vs, OutcomeOf(m, vs))
  {
    hide FirstSpawn, LastError, Waiting, Already, SpawnsAt, FailsAt, WaitsAt, PresentAt;
    FirstSpawnMeans(vs);
    LastErrorMeans(m, vs);
    WaitingMeans(m, vs);
    AlreadyMeans(vs);
  }

  // ---- The supervisor ----

  lemma NoVisits(m: Counts, vs: seq<Visit>)
    ensures CountsAfter(m, vs[..0]) == m && LinesAfter(m, vs[..0]) == []
    ensures FirstSpawn(vs[..0]) == None && LastError(m, vs[..0]) == None && !Waiting(m, vs[..0])
            && Already(vs[..0]) == 0
  {
  }

  /** One visit more. */
  lemma NextVisit(m: Counts, vs: seq<Visit>, i: nat)
    requires i < |vs|
    ensures var v, upTo, counts := vs[i], vs[..i + 1], CountsAfter(m, vs[..i]);
            var fails := v.found.Fails? && JudgeSpawnFailure(v.found.code, Count(counts, v.session)) == Failure;
            && CountsAfter(m, upTo) == Visited(counts, v)
            && LinesAfter(m, upTo) == LinesAfter(m, vs[..i]) + LinesFor(counts, v)
            && FirstSpawn(upTo) == (if FirstSpawn(vs[..i]) == None && v.found.Spawns?
                                    then Some(Spawned(v.found.pid, v.session))
                                    else FirstSpawn(vs[..i]))
            && LastError(m, upTo) == (if fails then Some(v.found.msg) else LastError(m, vs[..i]))
            && Waiting(m, upTo) == ((v.found.Fails? && !fails) || Waiting(m, vs[..i]))
            && Already(upTo) == Already(vs[..i]) + if v.found.Present? then 1 else 0
  {
    hide Visited, LinesFor, JudgeSpawnFailure, Count;
    assert vs[..i + 1][..i] == vs[..i];
  }

  datatype Poll = Poll(visits: seq<Visit>, pathOk: bool) {
    predicate Sees(s: Session) {
      exists i :: 0 <= i < |visits| && visits[i].session == s
    }

    predicate Distinct() {
      forall i, j :: 0 <= i < j < |visits| ==> visits[i].session != visits[j].session
    }
  }

  function Retained(m: Counts, p: Poll): Counts {
    map s | s in m && p.Sees(s) :: m[s]
  }

  function PollCounts(m: Counts, p: Poll): Counts {
    if p.pathOk then CountsAfter(Retained(m, p), p.visits) else Retained(m, p)
  }

  function PollLines(m: Counts, p: Poll): seq<Line> {
    if p.pathOk then LinesAfter(Retained(m, p), p.visits) else []
  }

  class Supervisor {
    var noToken: Counts
    var log: seq<Line>

    constructor ()
      ensures noToken == map[] && log == []
    {
      noToken, log := map[], [];
    }

    method EnsureTrayInSessions(vs: seq<Visit>) returns (o: Outcome)
      modifies this
      ensures noToken == CountsAfter(old(noToken), vs)
      ensures log == old(log) + LinesAfter(old(noToken), vs)
      ensures o == OutcomeOf(old(noToken), vs)
    {
      ghost var m := noToken;
      NoVisits(m, vs);
      hide CountsAfter, LinesAfter, FirstSpawn, LastError, Waiting, Already, JudgeSpawnFailure, SaturatingAdd, Count;
      hide CombineSessionOutcomes;
      var spawned: Option<Outcome> := None;
      var lastError: Option<string> := None;
      var waiting := false;
      var already := 0;
      for i := 0 to |vs|
        invariant noToken == CountsAfter(m, vs[..i]) && log == old(log) + LinesAfter(m, vs[..i])
        invariant spawned == FirstSpawn(vs[..i]) && lastError == LastError(m, vs[..i])
        invariant waiting == Waiting(m, vs[..i]) && already == Already(vs[..i])
      {
        var v := vs[i];
        NextVisit(m, vs, i);
        match v.found {
          case Present =>
            noToken := noToken - {v.session};
            already := already + 1;
          case Spawns(pid) =>
            noToken := noToken - {v.session};
            log := log + [Line(Info, v.session)];
            if spawned == None {
              spawned := Some(Spawned(pid, v.session));
            }
          case Fails(code, msg) =>
            var prior := Count(noToken, v.session);
            if code == Some(ERROR_NO_TOKEN_HRESULT) {
              noToken := noToken[v.session := SaturatingAdd(prior)];
            }
            match JudgeSpawnFailure(code, prior) {
              case WaitingForLogon =>
                log := log + [Line(Warn, v.session)];
                waiting := true;
              case StillWaiting => waiting := true;
              case Failure =>
                log := log + [Line(Error, v.session)];
                lastError := Some(msg);
            }
        }
      }
      assert vs[..|vs|] == vs;
      o := CombineSessionOutcomes(spawned, lastError, waiting, already);
    }

    /** The `retain` step and the early exits around one poll. `pathOk`: the tray's path is valid UTF-8. */
    method EnsureTrayInActiveSession(p: Poll) returns (o: Outcome)
      modifies this
      ensures noToken == PollCounts(old(noToken), p)
      ensures log == old(log) + PollLines(old(noToken), p)
      ensures p.visits != [] && p.pathOk ==> o == OutcomeOf(Retained(old(noToken), p), p.visits)
      ensures p.visits == [] ==> o == NoActiveSession
    {
      noToken := Retained(noToken, p);
      if p.visits == [] {
        return NoActiveSession;
      }
      if !p.pathOk {
        return SpawnFailed("tray path not valid UTF-8");
      }
      o := EnsureTrayInSessions(p.visits);
    }
  }

  // ---- Runs of polls ----

  function CountsOver(polls: seq<Poll>): Counts {
    if polls == [] then map[] else PollCounts(CountsOver(polls[..|polls| - 1]), polls[|polls| - 1])
  }

  /** What a poll says about one session, and nothing else. */
  datatype Sight = Gone | NotTried | Saw(found: Found)

  function SightOf(vs: seq<Visit>, s: Session): Option<Found> {
    if vs == [] then None
    else if vs[|vs| - 1].session == s then Some(vs[|vs| - 1].found)
    else SightOf(vs[..|vs| - 1], s)
  }

  function Seen(p: Poll, s: Session): Sight {
    match SightOf(p.visits, s)
    case None => Gone
    case Some(f) => if p.pathOk then Saw(f) else NotTried
  }

  function NextStreak(before: nat, sight: Sight): nat {
    match sight
    case Gone => 0
    case NotTried => before
    case Saw(f) => if f.NoToken() then before + 1 else if f.Fails? then before else 0
  }

  /** The streak of missing-token failures of one session, from what the polls say about that session alone:
      only a tray, a spawn or the session going away ends it. */
  function Streak(sights: seq<Sight>): nat {
    if sights == [] then 0
    else NextStreak(Streak(sights[..|sights| - 1]), sights[|sights| - 1])
  }

  function Sights(polls: seq<Poll>, s: Session): (r: seq<Sight>)
    ensures |r| == |polls|
  {
    if polls == [] then [] else Sights(polls[..|polls| - 1], s) + [Seen(polls[|polls| - 1], s)]
  }

  /** The lines about one session. */
  function About(lines: seq<Line>, s: Session): seq<Level> {
    if lines == [] then []
    else About(lines[..|lines| - 1], s) + (if lines[|lines| - 1].session == s then [lines[|lines| - 1].level] else [])
  }

  /** What one poll should log about a session whose streak so far is `before`. */
  function ExpectedLevels(before: nat, sight: Sight): seq<Level> {
    match sight
    case Gone => []
    case NotTried => []
    case Saw(f) =>
      match f
      case Present => []
      case Spawns(_) => [Info]
      case Fails(_, _) =>
        if !f.NoToken() then [Error]
        else if before == 0 then [Warn]
        else if before < 30 then []
        else [Error]
  }

  function CountedAs(streak: nat): nat {
    if streak <= U32_MAX then streak else U32_MAX
  }

  lemma {:induction false} SeesIsSight(vs: seq<Visit>, pathOk: bool, s: Session)
    ensures Poll(vs, pathOk).Sees(s) <==> SightOf(vs, s).Some?
  {
    if vs != [] {
      var n := |vs| - 1;
      SeesIsSight(vs[..n], pathOk, s);
      if vs[n].session != s && Poll(vs, pathOk).Sees(s) {
        var i :| 0 <= i < |vs| && vs[i].session == s;
        assert vs[..n][i].session == s;
      }
      if Poll(vs[..n], pathOk).Sees(s) {
        var i :| 0 <= i < n && vs[..n][i].session == s;
        assert vs[i].session == s;
      }
    }
  }

  lemma AboutOthers(lines: seq<Line>, s: Session)
    requires |lines| <= 1 && forall i :: 0 <= i < |lines| ==> lines[i].session != s
    ensures About(lines, s) == []
  {
    if |lines| == 1 {
      assert lines[..0] == [];
    }
  }

  lemma OtherVisit(m: Counts, v: Visit, s: Session)
    requires v.session != s
    ensures Count(Visited(m, v), s) == Count(m, s)
    ensures About(LinesFor(m, v), s) == []
  {
    AboutOthers(LinesFor(m, v), s);
  }

  lemma {:induction false} AboutConcat(a: seq<Line>, b: seq<Line>, s: Session)
    ensures About(a + b, s) == About(a, s) + About(b, s)
  {
    if b == [] {
      assert a + b == a;
    } else {
      assert (a + b)[..|a + b| - 1] == a + b[..|b| - 1];
      AboutConcat(a, b[..|b| - 1], s);
    }
  }

  lemma {:induction false} NotVisited(m: Counts, vs: seq<Visit>, s: Session)
    requires SightOf(vs, s) == None
    ensures Count(CountsAfter(m, vs), s) == Count(m, s)
    ensures About(LinesAfter(m, vs), s) == []
  {
    if vs != [] {
      hide Visited, LinesFor, Count;
      var before, v := vs[..|vs| - 1], vs[|vs| - 1];
      NotVisited(m, before, s);
      OtherVisit(CountsAfter(m, before), v, s);
      AboutConcat(LinesAfter(m, before), LinesFor(CountsAfter(m, before), v), s);
    }
  }

  lemma LinesDependOnCount(m: Counts, m': Counts, v: Visit)
    requires Count(m, v.session) == Count(m', v.session)
    ensures LinesFor(m, v) == LinesFor(m', v)
    ensures Count(Visited(m, v), v.session) == Count(Visited(m', v), v.session)
  {
  }

  /** Within one poll a session's count and lines depend only on its own visit. */
  lemma {:induction false} OneVisitEach(m: Counts, vs: seq<Visit>, s: Session)
    requires Poll(vs, true).Distinct() && SightOf(vs, s).Some?
    ensures Count(CountsAfter(m, vs), s) == Count(Visited(m, Visit(s, SightOf(vs, s).value)), s)
    ensures About(LinesAfter(m, vs), s) == About(LinesFor(m, Visit(s, SightOf(vs, s).value)), s)
  {
    hide Visited, LinesFor, Count, About;
    var n := |vs| - 1;
    var before, v := vs[..n], vs[n];
    AboutConcat(LinesAfter(m, before), LinesFor(CountsAfter(m, before), v), s);
    if v.session == s {
      SeesIsSight(before, true, s);
      forall i | 0 <= i < n
        ensures before[i].session != s
      {
        assert vs[i].session != vs[n].session;
      }
      NotVisited(m, before, s);
      LinesDependOnCount(CountsAfter(m, before), m, v);
      assert [] + About(LinesFor(m, v), s) == About(LinesFor(m, v), s);
    } else {
      OneVisitEach(m, before, s);
      OtherVisit(CountsAfter(m, before), v, s);
      assert About(LinesAfter(m, before), s) + [] == About(LinesAfter(m, before), s);
    }
  }

  predicate AllDistinct(polls: seq<Poll>) {
    forall i :: 0 <= i < |polls| ==> polls[i].Distinct()
  }

  lemma RetainedCount(m: Counts, p: Poll, s: Session)
    ensures SightOf(p.visits, s) == None ==> Count(Retained(m, p), s) == 0
    ensures SightOf(p.visits, s).Some? ==> Count(Retained(m, p), s) == Count(m, s)
  {
    SeesIsSight(p.visits, p.pathOk, s);
  }

  /** What one poll does to the count of one session and logs about it. */
  lemma PollForOne(m: Counts, p: Poll, s: Session)
    requires p.Distinct()
    ensures Count(PollCounts(m, p), s) ==
            match Seen(p, s)
            case Gone => 0
            case NotTried => Count(m, s)
            case Saw(f) => Count(Visited(m, Visit(s, f)), s)
    ensures About(PollLines(m, p), s) ==
            match Seen(p, s)
            case Gone => []
            case NotTried => []
            case Saw(f) => About(LinesFor(m, Visit(s, f)), s)
  {
    hide Visited, LinesFor, Count, CountsAfter, LinesAfter, SightOf;
    RetainedCount(m, p, s);
    match SightOf(p.visits, s)
    case None => NotVisited(Retained(m, p), p.visits, s);
    case Some(f) =>
      OneVisitEach(Retained(m, p), p.visits, s);
      LinesDependOnCount(Retained(m, p), m, Visit(s, f));
  }

  lemma CountStep(m: Counts, p: Poll, s: Session, streak: nat)
    requires p.Distinct() && Count(m, s) == CountedAs(streak)
    ensures Count(PollCounts(m, p), s) == CountedAs(NextStreak(streak, Seen(p, s)))
  {
    PollForOne(m, p, s);
    hide PollCounts, PollLines, Seen;
  }

  /** The counter is the session's own streak, however the other sessions fare. */
  lemma {:induction false} CountIsStreak(polls: seq<Poll>, s: Session)
    requires AllDistinct(polls)
    ensures Count(CountsOver(polls), s) == CountedAs(Streak(Sights(polls, s)))
  {
    if polls != [] {
      var before, p := polls[..|polls| - 1], polls[|polls| - 1];
      CountIsStreak(before, s);
      assert Sights(polls, s)[..|polls| - 1] == Sights(before, s);
      hide PollCounts, Seen, Count, CountedAs, NextStreak;
      CountStep(CountsOver(before), p, s, Streak(Sights(before, s)));
    }
  }

  lemma AboutOne(lines: seq<Line>, s: Session)
    requires |lines| <= 1 && forall i :: 0 <= i < |lines| ==> lines[i].session == s
    ensures About(lines, s) == if lines == [] then [] else [lines[0].level]
  {
    if |lines| == 1 {
      assert lines[..0] == [];
    }
  }

  lemma LevelsOfVisit(m: Counts, s: Session, f: Found, streak: nat)
    requires Count(m, s) == CountedAs(streak)
    ensures About(LinesFor(m, Visit(s, f)), s) == ExpectedLevels(streak, Saw(f))
  {
    hide About, Count;
    AboutOne(LinesFor(m, Visit(s, f)), s);
  }

  /** In any run, each poll logs about a session what its streak calls for: a warning for the first missing token,
      nothing for the next 29, an error from the 31st on. */
  lemma LoggedByStreak(before: seq<Poll>, p: Poll, s: Session)
    requires AllDistinct(before) && p.Distinct()
    ensures About(PollLines(CountsOver(before), p), s) == ExpectedLevels(Streak(Sights(before, s)), Seen(p, s))
  {
    hide PollCounts, PollLines, Seen, CountsOver, Streak, Count, About, LinesFor, CountedAs;
    var m := CountsOver(before);
    CountIsStreak(before, s);
    PollForOne(m, p, s);
    match Seen(p, s)
    case Saw(f) => LevelsOfVisit(m, s, f, Streak(Sights(before, s)));
    case _ =>
  }
}
