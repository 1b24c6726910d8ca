/** A complete uninstall as a run: the helper, the elevated child it may start, their log lines, and
    what is left on disk at the end. Any command may fail unless a result says otherwise. */
module UninstallRun {
  import opened Wrappers
  import opened Paths
  import opened Prefixes
  import opened UninstallPlan

  /** How far one log line gets: how many of the directories down to the logs directory can be made, and whether the
      file opens. */
  datatype LogAnswer = LogAnswer(dirsMade: nat, openOk: bool)

  /** How one command ends; a failed removal may leave anything it was to remove. */
  datatype CommandAnswer = Succeeds | FailsLeaving(survivors: set<Place>)

  datatype PrivMode = Skip | Direct | Pkexec

  function PrivilegedMode(isRoot: bool, privilegedEmpty: bool): PrivMode {
    if privilegedEmpty then Skip else if isRoot then Direct else Pkexec
  }

  /** `logs_inside`: a log root that cannot be resolved counts as inside. */
  predicate LogsInside(logRoot: Option<Place>, dataRoot: Place) {
    logRoot == None || dataRoot <= logRoot.value
  }

  predicate NothingUnder(files: set<Place>, root: Place) {
    forall p :: p in files ==> !(root <= p)
  }

  function Ancestors(p: Place, upTo: nat): set<Place> {
    set k | 0 <= k <= |p| && k <= upTo :: p[..k]
  }

  /** The places one enabled file-log line may bring into being. */
  predicate MayCreate(files: set<Place>, logRoot: Place, exeDir: Place, p: Place) {
    var logs := logRoot + ["logs"];
    p <= logs || p == logs + ["launcher.log"] || (p == exeDir + ["launcher.log"] && (exeDir in files || exeDir <= logs))
  }

  /** The disk and the answers it still has in store. */
  class Machine {
    var files: set<Place>
    var tick: nat
    /** The commands that did not exit with success. */
    var failed: set<Argv>
    const logAnswers: nat -> LogAnswer
    const commandAnswers: nat -> CommandAnswer

    constructor (files: set<Place>, logAnswers: nat -> LogAnswer, commandAnswers: nat -> CommandAnswer)
      ensures this.files == files && this.logAnswers == logAnswers && this.commandAnswers == commandAnswers
              && failed == {}
    {
      this.files, this.logAnswers, this.commandAnswers := files, logAnswers, commandAnswers;
      tick, failed := 0, {};
    }

    /** Runs one command: a removal takes what it names, everything else leaves the files alone. */
    method RunArgv(argv: Argv) returns (ok: bool)
      modifies this
      ensures files <= old(files)
      ensures forall p :: p in old(files) && p !in files ==> RemovalOf(argv).Takes(p)
      ensures ok ==> forall p :: p in files ==> !RemovalOf(argv).Takes(p)
      ensures ok <==> commandAnswers(old(tick)).Succeeds?
      ensures failed == if ok then old(failed) else old(failed) + {argv}
      ensures tick == old(tick) + 1
    {
      var answer := commandAnswers(tick);
      tick := tick + 1;
      var removal := RemovalOf(argv);
      ok := answer.Succeeds?;
      if !ok {
        failed := failed + {argv};
      }
      if ok {
        files := set p | p in files && !removal.Takes(p);
      } else {
        files := set p | p in files && (!removal.Takes(p) || p in answer.survivors);
      }
    }

    method Write(p: Place)
      modifies this`files
      ensures files == old(files) + {p}
    {
      files := files + {p};
    }
  }

  /** No command ever fails. */
  ghost predicate AlwaysSucceeds(m: Machine) {
    forall k :: m.commandAnswers(k).Succeeds?
  }

  /** One process: where its log goes, where its binary is, and whether it logs to stderr only. */
  class Process {
    /** `None`: nothing in the environment names one; such a process ends at its first file-log line, so it writes
        none. */
    const logRoot: Option<Place>
    const exeDir: Place
    const stderrOnly: bool
    var disabled: bool

    constructor (logRoot: Option<Place>, exeDir: Place, stderrOnly: bool)
      ensures this.logRoot == logRoot && this.exeDir == exeDir && this.stderrOnly == stderrOnly && !disabled
    {
      this.logRoot, this.exeDir, this.stderrOnly := logRoot, exeDir, stderrOnly;
      disabled := false;
    }

    /** One log line: unless disabled it makes the logs directory again, and falls back to the binary's directory. */
    method Log(m: Machine)
      modifies m
      ensures old(m.files) <= m.files && m.failed == old(m.failed)
      ensures disabled || stderrOnly || logRoot == None ==> m.files == old(m.files)
      ensures forall p :: p in m.files && p !in old(m.files) ==>
                !disabled && !stderrOnly && logRoot.Some? && MayCreate(old(m.files), logRoot.value, exeDir, p)
      // When the directories can be made it does bring them back.
      ensures !disabled && !stderrOnly && logRoot.Some? && m.logAnswers(old(m.tick)).dirsMade > |logRoot.value| ==>
                logRoot.value + ["logs"] in m.files
    {
      var answer := m.logAnswers(m.tick);
      m.tick := m.tick + 1;
      if disabled || stderrOnly || logRoot == None {
        return;
      }
      var logs := logRoot.value + ["logs"];
      m.files := m.files + Ancestors(logs, answer.dirsMade);
      if answer.dirsMade > |logRoot.value| {
        assert logs[..|logs|] == logs;
        assert logs in Ancestors(logs, answer.dirsMade);
      }
      var dir := if logs in m.files then logs else exeDir;
      if answer.openOk && dir in m.files {
        assert dir == exeDir && exeDir in Ancestors(logs, answer.dirsMade) ==> exeDir <= logs;
        m.Write(dir + ["launcher.log"]);
      }
    }
  }

  // ---- Where log lines cannot reach ----

  /** No log line of this process creates anything under `root`. */
  ghost predicate LogsElsewhere(disabled: bool, p: Process, root: Place) {
    disabled || p.stderrOnly || p.logRoot == None || !(root <= p.logRoot.value)
  }

  /** The places a file-log line of this process may bring into being: its logs directory, what is above it, and its
      log file. */
  ghost predicate LogPlace(p: Process, q: Place) {
    && p.logRoot.Some? && !p.stderrOnly
    && var logs := p.logRoot.value + ["logs"];
       q <= logs || q == logs + ["launcher.log"] || q == p.exeDir + ["launcher.log"]
  }

  ghost predicate Logged(p: Process, relay: Process?, q: Place) {
    LogPlace(p, q) || (relay != null && LogPlace(relay, q))
  }

  ghost predicate OnlyLogsAdded(before: set<Place>, after: set<Place>, p: Process, relay: Process?) {
    forall q :: q in after && q !in before ==> Logged(p, relay, q)
  }

  predicate LogsIntoAFile(disabled: bool, p: Process) {
    !disabled && !p.stderrOnly && p.logRoot.Some?
  }

  /** No directory on the way to this process's log is ever refused. */
  ghost predicate DirectoriesCanBeMade(m: Machine, p: Process)
    requires p.logRoot.Some?
  {
    forall k :: m.logAnswers(k).dirsMade > |p.logRoot.value|
  }

  /** A place no log line can be mistaken for. */
  predicate DataRootName(root: Place) {
    root != [] && root[|root| - 1] != "logs" && root[|root| - 1] != "launcher.log"
  }

  lemma ValidRootName(s: string)
    requires IsValidDataRoot(s)
    ensures DataRootName(Components(s))
  {
    hide Components, IsValidDataRoot;
    DataRootFacts(s);
    var above := DataRootShape(s);
    assert "WsScrcpyWeb"[0] != "launcher.log"[0] && "ws-scrcpy-web"[0] != "launcher.log"[0];
  }

  lemma PrefixOfExtended(root: Place, base: Place, name: string)
    requires root != [] && root[|root| - 1] != name
    ensures root <= base + [name] ==> root <= base
  {
    if root <= base + [name] && |root| <= |base| {
      assert (base + [name])[..|root|] == base[..|root|];
    }
  }

  lemma CreatedOutside(files: set<Place>, logRoot: Place, exeDir: Place, root: Place, p: Place)
    requires DataRootName(root) && !(root <= logRoot) && NothingUnder(files, root)
    requires MayCreate(files, logRoot, exeDir, p)
    ensures !(root <= p)
  {
    var logs := logRoot + ["logs"];
    PrefixOfExtended(root, logRoot, "logs");
    PrefixOfExtended(root, logs, "launcher.log");
    PrefixOfExtended(root, exeDir, "launcher.log");
    PrefixTransitive(root, p, logs);
    PrefixTransitive(root, exeDir, logs);
  }

  method LogOutside(m: Machine, p: Process, ghost root: Place)
    requires DataRootName(root)
    modifies m
    ensures old(m.files) <= m.files && m.failed == old(m.failed)
    ensures LogsElsewhere(p.disabled, p, root) && NothingUnder(old(m.files), root) ==> NothingUnder(m.files, root)
    ensures LogsIntoAFile(p.disabled, p) && DirectoriesCanBeMade(m, p) ==> p.logRoot.value + ["logs"] in m.files
    ensures OnlyLogsAdded(old(m.files), m.files, p, null)
  {
    p.Log(m);
    if LogsElsewhere(p.disabled, p, root) && NothingUnder(old(m.files), root) {
      forall q | q in m.files
        ensures !(root <= q)
      {
        if q !in old(m.files) {
          CreatedOutside(old(m.files), p.logRoot.value, p.exeDir, root, q);
        }
      }
    }
  }

  /** Neither a process nor the one its lines are relayed to logs under `root`. */
  ghost predicate Quiet(p: Process, relay: Process?, root: Place)
    reads p, relay
  {
    LogsElsewhere(p.disabled, p, root) && (relay == null || LogsElsewhere(relay.disabled, relay, root))
  }

  /** A log line of `p`; the child's lines are relayed into its parent's log. */
  method LogLine(m: Machine, p: Process, relay: Process?, ghost root: Place)
    requires DataRootName(root)
    modifies m
    ensures old(m.files) <= m.files && m.failed == old(m.failed)
    ensures Quiet(p, relay, root) && NothingUnder(old(m.files), root) ==> NothingUnder(m.files, root)
    ensures OnlyLogsAdded(old(m.files), m.files, p, relay)
  {
    LogOutside(m, p, root);
    if relay != null && !p.disabled {
      LogOutside(m, relay, root);
    }
  }

  // ---- Running groups of commands ----

  method RunBestEffort(m: Machine, p: Process, relay: Process?, group: seq<Argv>, ghost root: Place)
    requires DataRootName(root)
    modifies m
    ensures forall q :: q in old(m.files) && Spares(group, q) ==> q in m.files
    ensures Quiet(p, relay, root) && NothingUnder(old(m.files), root) ==> NothingUnder(m.files, root)
    ensures old(m.failed) <= m.failed
    ensures OnlyLogsAdded(old(m.files), m.files, p, relay)
    ensures m.failed == {} ==> forall q :: q in m.files && !Logged(p, relay, q) ==> Spares(group, q)
    ensures AlwaysSucceeds(m) ==> m.failed == old(m.failed)
  {
    hide RemovalOf, LogPlace, DataRootName;
    for i := 0 to |group|
      invariant old(m.failed) <= m.failed
      invariant AlwaysSucceeds(m) ==> m.failed == old(m.failed)
      invariant OnlyLogsAdded(old(m.files), m.files, p, relay)
      invariant m.failed == {} ==>
                  forall q, k :: q in m.files && !Logged(p, relay, q) && 0 <= k < i ==> !RemovalOf(group[k]).Takes(q)
      invariant forall q :: q in old(m.files) && Spares(group, q) ==> q in m.files
      invariant Quiet(p, relay, root) && NothingUnder(old(m.files), root) ==> NothingUnder(m.files, root)
    {
      var ok := m.RunArgv(group[i]);
      LogLine(m, p, relay, root);
    }
  }

  /** Beside the data root, never inside it. */
  function ResidueReport(root: Place): Place {
    if root == [] then [] else root[..|root| - 1] + [root[|root| - 1] + "-uninstall-report.txt"]
  }

  lemma ReportIsOutside(root: Place)
    requires root != []
    ensures !(root <= ResidueReport(root))
  {
    var last := root[|root| - 1];
    assert |last + "-uninstall-report.txt"| > |last|;
    assert ResidueReport(root)[|root| - 1] != root[|root| - 1];
  }

  lemma WholeRootTakes(argv: Argv, dataRoot: string)
    requires IsWholeRoot(argv, dataRoot)
    ensures RemovalOf(argv) == Subtree(Components(dataRoot))
  {
  }

  /** The whole-root removal, as the last step of the process. When it logs inside the root it stops logging first,
      and a report beside the root says when the removal fell short. */
  method RunDataRootWipe(m: Machine, p: Process, relay: Process?, argv: Argv, dataRoot: string, reportOk: bool)
    returns (removed: bool, reported: bool)
    requires IsValidDataRoot(dataRoot) && IsWholeRoot(argv, dataRoot) && p != relay
    modifies m, p`disabled
    ensures p.disabled == (old(p.disabled) || LogsInside(p.logRoot, Components(dataRoot)))
    ensures removed && (relay == null || LogsElsewhere(relay.disabled, relay, Components(dataRoot)))
            ==> NothingUnder(m.files, Components(dataRoot))
    ensures forall q :: q in old(m.files) && !RemovalOf(argv).Takes(q) ==> q in m.files
    // The report appears exactly when logging had to stop and the root is not cleanly gone.
    ensures reportOk ==> (reported <==>
                          LogsInside(p.logRoot, Components(dataRoot)) && (!removed || Components(dataRoot) in m.files))
    ensures reported ==> ResidueReport(Components(dataRoot)) in m.files
    ensures m.failed == if removed then old(m.failed) else old(m.failed) + {argv}
    ensures AlwaysSucceeds(m) ==> removed
    ensures removed ==> OnlyLogsAdded(old(m.files), m.files, p, relay)
    ensures removed ==> forall q :: q in m.files && !Logged(p, relay, q) ==> !RemovalOf(argv).Takes(q)
  {
    hide Components, IsValidDataRoot, RemovalOf, IsWholeRoot, LogPlace;
    var root := Components(dataRoot);
    ValidRootName(dataRoot);
    WholeRootTakes(argv, dataRoot);
    reported := false;
    if !LogsInside(p.logRoot, root) {
      removed := m.RunArgv(argv);
      LogLine(m, p, relay, root);
      return;
    }
    LogLine(m, p, relay, root);
    p.disabled := true;
    removed := m.RunArgv(argv);
    var remaining := root in m.files;
    if (!removed || remaining) && reportOk {
      ReportIsOutside(root);
      m.Write(ResidueReport(root));
      reported := true;
    }
  }

  // ---- The two entries ----

  /** How the elevated half ends: to its end, refused at the prompt, never started, or cut short after some steps. */
  datatype Elevation = Completed | Declined | NotStarted | CutShort(steps: nat)

  /** What a run meets besides the disk: who runs it, how elevation ends, the child's environment, how many lines the
      parts outside this model log, and whether the reports can be written. */
  datatype Surroundings = Surroundings(isRoot: bool, elevation: Elevation, childLogRoot: Option<Place>,
                                       childExeDir: Place, childHome: string, childRuntimeDir: Option<string>,
                                       pkexecLines: nat, relaunchLines: nat, serverLines: nat, strayLines: nat,
                                       reportOk: bool)

  predicate RootRemovalsSucceeded(failed: set<Argv>, dataRoot: string) {
    forall argv :: argv in failed ==> !IsWholeRoot(argv, dataRoot)
  }

  lemma SparesPart(part: seq<Argv>, group: seq<Argv>, p: Place)
    requires forall argv :: argv in part ==> argv in group
    ensures Spares(group, p) ==> Spares(part, p)
  {
    if Spares(group, p) {
      forall i | 0 <= i < |part|
        ensures !RemovalOf(part[i]).Takes(p)
      {
        assert part[i] in group;
        var j :| 0 <= j < |group| && group[j] == part[i];
      }
    }
  }

  lemma SparesMember(argv: Argv, group: seq<Argv>, p: Place)
    requires argv in group
    ensures Spares(group, p) ==> !RemovalOf(argv).Takes(p)
  {
    var j :| 0 <= j < |group| && group[j] == argv;
  }

  /** Spared by every step but the one lifted out. */
  predicate SparesBut(group: seq<Argv>, wipe: Option<Argv>, p: Place) {
    forall i :: 0 <= i < |group| && wipe != Some(group[i]) ==> !RemovalOf(group[i]).Takes(p)
  }

  lemma SparesWhole(steps: seq<Argv>, wipe: Option<Argv>, group: seq<Argv>, p: Place)
    requires forall argv :: argv in group ==> argv in steps || wipe == Some(argv)
    ensures Spares(steps, p) ==> SparesBut(group, wipe, p)
  {
    if Spares(steps, p) {
      forall i | 0 <= i < |group| && wipe != Some(group[i])
        ensures !RemovalOf(group[i]).Takes(p)
      {
        assert group[i] in group;
        var j :| 0 <= j < |steps| && steps[j] == group[i];
      }
    }
  }

  method LogLines(m: Machine, p: Process, relay: Process?, n: nat, ghost root: Place)
    requires DataRootName(root)
    modifies m
    ensures old(m.files) <= m.files && m.failed == old(m.failed)
    ensures Quiet(p, relay, root) && NothingUnder(old(m.files), root) ==> NothingUnder(m.files, root)
    ensures OnlyLogsAdded(old(m.files), m.files, p, relay)
  {
    for i := 0 to n
      invariant old(m.files) <= m.files && m.failed == old(m.failed)
      invariant OnlyLogsAdded(old(m.files), m.files, p, relay)
      invariant Quiet(p, relay, root) && NothingUnder(old(m.files), root) ==> NothingUnder(m.files, root)
    {
      LogLine(m, p, relay, root);
    }
  }

  /** A run cut short after `upTo` steps, if at all, got through every step but the whole-root removal. */
  predicate InFull(group: seq<Argv>, dataRoot: string, upTo: Option<nat>) {
    upTo == None || upTo.value > |Lifted(group, dataRoot)|
  }

  /** The steps it carried out, the whole-root removal apart. */
  function Ran(group: seq<Argv>, dataRoot: string, upTo: Option<nat>): seq<Argv> {
    if InFull(group, dataRoot, upTo) then Lifted(group, dataRoot) else Lifted(group, dataRoot)[..upTo.value]
  }

  /** Runs a group without its whole-root removal, which comes back for later. */
  method RunGroup(m: Machine, p: Process, relay: Process?, group: seq<Argv>, dataRoot: string, upTo: Option<nat>)
    returns (wipe: Option<Argv>)
    requires IsValidDataRoot(dataRoot)
    modifies m
    ensures forall q :: q in old(m.files) && Spares(group, q) ==> q in m.files
    ensures Quiet(p, relay, Components(dataRoot)) && NothingUnder(old(m.files), Components(dataRoot)) ==>
            NothingUnder(m.files, Components(dataRoot))
    ensures old(m.failed) <= m.failed
    ensures wipe.Some? ==> wipe.value in group && IsWholeRoot(wipe.value, dataRoot)
    ensures wipe.Some? <==> InFull(group, dataRoot, upTo) && WholeRootSteps(group, dataRoot) > 0
    ensures OnlyLogsAdded(old(m.files), m.files, p, relay)
    ensures InFull(group, dataRoot, upTo) && m.failed == {} ==>
              forall q :: q in m.files && !Logged(p, relay, q) ==> SparesBut(group, wipe, q)
    // Exactly the steps carried out count, however far the run got.
    ensures forall q :: q in old(m.files) && Spares(Ran(group, dataRoot, upTo), q) ==> q in m.files
    ensures m.failed == {} ==>
              forall q :: q in m.files && !Logged(p, relay, q) ==> Spares(Ran(group, dataRoot, upTo), q)
    ensures AlwaysSucceeds(m) ==> m.failed == old(m.failed)
  {
    ValidRootName(dataRoot);
    var steps;
    steps, wipe := SplitDataRootWipe(group, dataRoot);
    if upTo.Some? && upTo.value <= |steps| {
      steps, wipe := steps[..upTo.value], None;
    }
    RunBestEffort(m, p, relay, steps, Components(dataRoot));
    forall q | q in old(m.files) && Spares(group, q)
      ensures q in m.files
    {
      SparesPart(steps, group, q);
    }
    if InFull(group, dataRoot, upTo) {
      forall q | q in m.files && Spares(steps, q)
        ensures SparesBut(group, wipe, q)
      {
        SparesWhole(steps, wipe, group, q);
      }
    }
  }

  /** What an elevated half that is cut short after `upTo` steps, if at all, has carried out: a beginning of the
      privileged group, its whole-root removal coming last. */
  function ChildSteps(q: Request, upTo: Option<nat>): seq<Argv> {
    if InFull(Privileged(q), q.dataRoot, upTo) then Privileged(q) else Ran(Privileged(q), q.dataRoot, upTo)
  }

  lemma {:induction false} LiftedPart(group: seq<Argv>, dataRoot: string)
    ensures forall argv :: argv in Lifted(group, dataRoot) ==> argv in group
  {
    if group != [] && !IsWholeRoot(group[0], dataRoot) {
      LiftedPart(group[1..], dataRoot);
    }
  }

  lemma ChildStepsPart(q: Request, upTo: Option<nat>, p: Place)
    ensures Spares(Privileged(q), p) ==> Spares(ChildSteps(q, upTo), p)
  {
    hide Privileged, Spares;
    LiftedPart(Privileged(q), q.dataRoot);
    SparesPart(ChildSteps(q, upTo), Privileged(q), p);
  }

  /** The elevated half: the privileged group only, and its whole-root removal last. */
  method RunElevated(m: Machine, child: Process, parent: Process, q: Request, upTo: Option<nat>, reportOk: bool)
    requires IsValidDataRoot(q.dataRoot) && child != parent && child.stderrOnly
    modifies m, child`disabled
    ensures forall place :: place in old(m.files) && Spares(ChildSteps(q, upTo), place) ==> place in m.files
    ensures old(m.failed) <= m.failed
    ensures AlwaysSucceeds(m) ==> m.failed == old(m.failed)
    // Whatever the parent has still to relay, the root stays gone.
    ensures upTo == None && !q.keep && q.svcScope == Some(System) ==>
              LogsElsewhere(parent.disabled, parent, Components(q.dataRoot)) ==>
              RootRemovalsSucceeded(m.failed, q.dataRoot) ==>
              NothingUnder(m.files, Components(q.dataRoot))
    // With every command carried out, nothing is left of what those steps name but what the log itself writes.
    ensures m.failed == {} ==> OnlyLogsAdded(old(m.files), m.files, child, parent)
    ensures m.failed == {} ==>
              forall place :: place in m.files && !Logged(child, parent, place) ==> Spares(ChildSteps(q, upTo), place)
  {
    hide Privileged, IsValidDataRoot, Components, LogPlace;
    ghost var root := Components(q.dataRoot);
    ValidRootName(q.dataRoot);
    LogLines(m, child, parent, 3, root);
    var plan := AppUninstallCommands(q);
    var wipe := RunGroup(m, child, parent, plan.privileged, q.dataRoot, upTo);
    if wipe.Some? {
      label BeforeWipe:
      var removed, reported := RunDataRootWipe(m, child, parent, wipe.value, q.dataRoot, reportOk);
      forall place | place in old@BeforeWipe(m.files) && Spares(Privileged(q), place)
        ensures place in m.files
      {
        SparesMember(wipe.value, Privileged(q), place);
      }
    } else if !q.keep {
      WipeRemovesTheRootOnce(q);
    }
    if upTo == None {
      LogLines(m, child, parent, 1, root);
    }
  }

  function ModeOf(q: Request, e: Surroundings): PrivMode {
    PrivilegedMode(e.isRoot, Privileged(q) == [])
  }

  /** Elevation was not needed, or the elevated half ran to its end. */
  predicate Proceeds(q: Request, e: Surroundings) {
    ModeOf(q, e) == Pkexec ==> e.elevation == Completed
  }

  lemma PrivilegedIgnoresHomeAndRuntimeDir(q: Request, home: string, dir: Option<string>)
    ensures Privileged(q) == Privileged(q.(home := home, xdgRuntimeDir := dir))
  {
  }

  lemma ChildLogsNowhere(child: Process, p: Process)
    requires child.stderrOnly
    ensures forall q :: Logged(child, p, q) <==> LogPlace(p, q)
    ensures forall q :: Logged(p, null, q) <==> LogPlace(p, q)
  {
  }

  lemma LoggedAlone(p: Process)
    ensures forall q :: Logged(p, null, q) <==> LogPlace(p, q)
  {
  }

  lemma ChildStepsIgnoreHomeAndRuntimeDir(q: Request, home: string, dir: Option<string>, upTo: Option<nat>)
    ensures ChildSteps(q.(home := home, xdgRuntimeDir := dir), upTo) == ChildSteps(q, upTo)
  {
    hide Privileged;
    PrivilegedIgnoresHomeAndRuntimeDir(q, home, dir);
  }

  /** What came of the privileged group under `pkexec`. */
  function ElevatedSteps(q: Request, elevation: Elevation): seq<Argv> {
    match elevation
    case Completed => Privileged(q)
    case CutShort(n) => ChildSteps(q, Some(n))
    case _ => []
  }

  lemma StepsOfElevation(q: Request, elevation: Elevation)
    ensures elevation.Completed? ==> ElevatedSteps(q, elevation) == ChildSteps(q, None)
    ensures elevation.CutShort? ==> ElevatedSteps(q, elevation) == ChildSteps(q, Some(elevation.steps))
    ensures elevation.Declined? || elevation.NotStarted? ==> forall p :: Spares(ElevatedSteps(q, elevation), p)
  {
    hide Privileged;
  }

  /** The second process, with its own environment: what it does is what it was asked, and it logs through its
      parent. */
  method RunChild(m: Machine, p: Process, q: Request, e: Surroundings, upTo: Option<nat>)
    requires IsValidDataRoot(q.dataRoot)
    modifies m
    ensures forall place :: place in old(m.files) && Spares(ChildSteps(q, upTo), place) ==> place in m.files
    ensures old(m.failed) <= m.failed
    ensures AlwaysSucceeds(m) ==> m.failed == old(m.failed)
    ensures upTo == None && !q.keep && q.svcScope == Some(System) ==>
              LogsElsewhere(p.disabled, p, Components(q.dataRoot)) && RootRemovalsSucceeded(m.failed, q.dataRoot) ==>
              NothingUnder(m.files, Components(q.dataRoot))
    ensures m.failed == {} ==> OnlyLogsAdded(old(m.files), m.files, p, null)
    ensures m.failed == {} ==>
              forall place :: place in m.files && !LogPlace(p, place) ==> Spares(ChildSteps(q, upTo), place)
  {
    hide Privileged, IsValidDataRoot, Components, LogPlace, Spares, ChildSteps, Logged;
    var child := new Process(e.childLogRoot, e.childExeDir, true);
    ChildStepsIgnoreHomeAndRuntimeDir(q, e.childHome, e.childRuntimeDir, upTo);
    ChildLogsNowhere(child, p);
    RunElevated(m, child, p, q.(home := e.childHome, xdgRuntimeDir := e.childRuntimeDir), upTo, e.reportOk);
  }

  /** The elevated half under `pkexec`: a second process with its own environment, its lines relayed into the parent's
      log. */
  method Elevate(m: Machine, p: Process, q: Request, e: Surroundings) returns (completed: bool)
    requires IsValidDataRoot(q.dataRoot)
    modifies m
    ensures completed <==> e.elevation == Completed
    ensures forall place :: place in old(m.files) && Spares(ElevatedSteps(q, e.elevation), place) ==> place in m.files
    ensures old(m.failed) <= m.failed
    ensures AlwaysSucceeds(m) ==> m.failed == old(m.failed)
    ensures e.elevation.Declined? || e.elevation.NotStarted? ==> old(m.files) <= m.files
    ensures completed && !q.keep && q.svcScope == Some(System) ==>
              LogsElsewhere(p.disabled, p, Components(q.dataRoot)) && RootRemovalsSucceeded(m.failed, q.dataRoot) ==>
              NothingUnder(m.files, Components(q.dataRoot))
    ensures m.failed == {} ==> OnlyLogsAdded(old(m.files), m.files, p, null)
    ensures m.failed == {} ==>
              forall place :: place in m.files && !LogPlace(p, place) ==> Spares(ElevatedSteps(q, e.elevation), place)
  {
    ghost var root := Components(q.dataRoot);
    ValidRootName(q.dataRoot);
    StepsOfElevation(q, e.elevation);
    LoggedAlone(p);
    hide Privileged, IsValidDataRoot, Components, LogPlace, Spares, ChildSteps, ElevatedSteps, Logged;
    if e.elevation != NotStarted {
      LogLines(m, p, null, e.pkexecLines, root);
    }
    if e.elevation == Completed || e.elevation.CutShort? {
      RunChild(m, p, q, e, if e.elevation.CutShort? then Some(e.elevation.steps) else None);
    }
    LogLines(m, p, null, 1, root);
    completed := e.elevation == Completed;
    if !completed {
      LogLines(m, p, null, e.relaunchLines, root);
    }
  }

  predicate KeepsTheSpared(before: set<Place>, after: set<Place>, q: Request) {
    forall place :: place in before && Spares(Privileged(q), place) && Spares(UserOwned(q), place) ==> place in after
  }

  /** The root belongs to the elevated child: its removal, unlike every other, is not this process's last step. */
  predicate ChildOwnsTheRoot(q: Request, e: Surroundings) {
    ModeOf(q, e) == Pkexec && q.svcScope == Some(System)
  }

  /** The whole-root removals that were held back, each with nothing to follow it but silence. */
  method RunWipes(m: Machine, p: Process, wipes: seq<Argv>, q: Request, reportOk: bool)
    requires IsValidDataRoot(q.dataRoot) && !p.disabled
    requires forall argv :: argv in wipes ==>
           IsWholeRoot(argv, q.dataRoot) && (argv in Privileged(q) || argv in UserOwned(q))
    modifies m, p`disabled
    ensures KeepsTheSpared(old(m.files), m.files, q)
    ensures old(m.failed) <= m.failed
    ensures AlwaysSucceeds(m) ==> m.failed == old(m.failed)
    ensures wipes == [] ==> !p.disabled && m.files == old(m.files)
    ensures m.failed == {} ==> OnlyLogsAdded(old(m.files), m.files, p, null)
    ensures m.failed == {} ==>
              forall q, argv :: q in m.files && !LogPlace(p, q) && argv in wipes ==> !RemovalOf(argv).Takes(q)
    ensures wipes != [] ==> (p.disabled <==> LogsInside(p.logRoot, Components(q.dataRoot)))
    ensures wipes != [] && RootRemovalsSucceeded(m.failed, q.dataRoot) ==> NothingUnder(m.files, Components(q.dataRoot))
    ensures |wipes| == 1 && p.disabled && reportOk ==>
              NothingUnder(m.files, Components(q.dataRoot)) || ResidueReport(Components(q.dataRoot)) in m.files
  {
    hide Privileged, UserOwned, IsValidDataRoot, Components;
    for i := 0 to |wipes|
      invariant KeepsTheSpared(old(m.files), m.files, q)
      invariant old(m.failed) <= m.failed
      invariant AlwaysSucceeds(m) ==> m.failed == old(m.failed)
      invariant i == 0 ==> !p.disabled && m.files == old(m.files)
      invariant m.failed == {} ==> OnlyLogsAdded(old(m.files), m.files, p, null)
      invariant m.failed == {} ==>
                  forall q, k :: q in m.files && !LogPlace(p, q) && 0 <= k < i ==> !RemovalOf(wipes[k]).Takes(q)
      invariant i > 0 ==> (p.disabled <==> LogsInside(p.logRoot, Components(q.dataRoot)))
      invariant i > 0 && RootRemovalsSucceeded(m.failed, q.dataRoot) ==> NothingUnder(m.files, Components(q.dataRoot))
      invariant i == 1 && p.disabled && reportOk ==>
                  NothingUnder(m.files, Components(q.dataRoot)) || ResidueReport(Components(q.dataRoot)) in m.files
    {
      label Before:
      var removed, reported := RunDataRootWipe(m, p, null, wipes[i], q.dataRoot, reportOk);
      forall place | place in old@Before(m.files) && Spares(Privileged(q), place) && Spares(UserOwned(q), place)
        ensures place in m.files
      {
        if wipes[i] in Privileged(q) {
          SparesMember(wipes[i], Privileged(q), place);
        } else {
          SparesMember(wipes[i], UserOwned(q), place);
        }
      }
    }
  }

  /** The privileged group, first of all, in the mode that fits. Its whole-root removal comes back unless a child has
      run it. */
  method RunPrivileged(m: Machine, p: Process, q: Request, e: Surroundings, group: seq<Argv>)
    returns (proceeded: bool, held: Option<Argv>)
    requires IsValidDataRoot(q.dataRoot) && group == Privileged(q)
    modifies m
    ensures proceeded <==> Proceeds(q, e)
    ensures old(m.failed) <= m.failed
    ensures AlwaysSucceeds(m) ==> m.failed == old(m.failed)
    ensures forall place :: place in old(m.files) && Spares(group, place) ==> place in m.files
    ensures !proceeded ==>
              forall place :: place in old(m.files) && Spares(ElevatedSteps(q, e.elevation), place) ==> place in m.files
    ensures !proceeded && m.failed == {} ==>
              forall place :: place in m.files && !LogPlace(p, place) ==> Spares(ElevatedSteps(q, e.elevation), place)
    ensures held.Some? ==> held.value in group && IsWholeRoot(held.value, q.dataRoot)
    ensures held.Some? <==> ModeOf(q, e) == Direct && WholeRootSteps(group, q.dataRoot) > 0
    ensures ModeOf(q, e) == Pkexec && (e.elevation.Declined? || e.elevation.NotStarted?) ==> old(m.files) <= m.files
    ensures !q.keep && proceeded && ChildOwnsTheRoot(q, e) ==>
              LogsElsewhere(p.disabled, p, Components(q.dataRoot)) && RootRemovalsSucceeded(m.failed, q.dataRoot) ==>
              NothingUnder(m.files, Components(q.dataRoot))
    ensures proceeded && m.failed == {} ==>
              forall place :: place in m.files && !LogPlace(p, place) ==> SparesBut(group, held, place)
  {
    hide Privileged, IsValidDataRoot, Components, LogPlace, WholeRootSteps;
    ValidRootName(q.dataRoot);
    proceeded, held := true, None;
    match PrivilegedMode(e.isRoot, group == []) {
      case Skip =>
      case Direct =>
        LogLines(m, p, null, 1, Components(q.dataRoot));
        held := RunGroup(m, p, null, group, q.dataRoot, None);
      case Pkexec =>
        proceeded := Elevate(m, p, q, e);
        forall place | Spares(group, place)
          ensures Spares(ElevatedSteps(q, e.elevation), place)
        {
          if e.elevation.CutShort? {
            ChildStepsPart(q, Some(e.elevation.steps), place);
          }
        }
    }
  }

  lemma NothingLeft(q: Request, a: Option<Argv>, b: Option<Argv>, wipes: seq<Argv>, place: Place)
    requires SparesBut(Privileged(q), a, place) && SparesBut(UserOwned(q), b, place)
    requires forall argv :: a == Some(argv) || b == Some(argv) ==> argv in wipes
    requires forall argv :: argv in wipes ==> !RemovalOf(argv).Takes(place)
    ensures !RootFootprint(q, place) && !UserFootprint(q, place)
  {
    hide Privileged, UserOwned, RootFootprint, UserFootprint, RemovalOf;
    PrivilegedRemovesExactly(q, place);
    UserOwnedRemovesExactly(q, place);
  }

  lemma KeptSurvive(q: Request)
    requires IsValidDataRoot(q.dataRoot)
    ensures q.keep && !RootInDoomedTree(q) ==>
              forall place :: IsKept(q, place) && !IsDeletedFile(q, place) ==>
                Spares(Privileged(q), place) && Spares(UserOwned(q), place)
  {
    hide *;
    if q.keep && !RootInDoomedTree(q) {
      forall place | IsKept(q, place) && !IsDeletedFile(q, place)
        ensures Spares(Privileged(q), place) && Spares(UserOwned(q), place)
      {
        KeepSparesExactly(q, place);
      }
    }
  }

  /** The whole uninstall, from the helper's first log line to its exit line. */
  method RunUnelevated(m: Machine, p: Process, q: Request, e: Surroundings) returns (proceeded: bool)
    requires IsValidDataRoot(q.dataRoot) && !p.disabled && !p.stderrOnly
    modifies m, p`disabled
    ensures proceeded <==> Proceeds(q, e)
    // A wipe that could delete the root leaves nothing under it, though log lines keep re-creating directories until
    // the end.
    ensures !q.keep && proceeded && RootRemovalsSucceeded(m.failed, q.dataRoot) ==>
              (ChildOwnsTheRoot(q, e) ==> LogsElsewhere(false, p, Components(q.dataRoot))) ==>
              NothingUnder(m.files, Components(q.dataRoot))
    // The condition is needed: a parent that logs inside a root its child deleted brings it back with its exit line.
    ensures !q.keep && proceeded && ChildOwnsTheRoot(q, e) ==>
              !LogsElsewhere(false, p, Components(q.dataRoot)) && DirectoriesCanBeMade(m, p) ==>
              !NothingUnder(m.files, Components(q.dataRoot))
    // A wipe that fell short says so beside the root.
    ensures !q.keep && proceeded && !ChildOwnsTheRoot(q, e) ==>
              LogsInside(p.logRoot, Components(q.dataRoot)) && e.reportOk ==>
              NothingUnder(m.files, Components(q.dataRoot)) || ResidueReport(Components(q.dataRoot)) in m.files
    // With every command carried out, nothing is left of the app's footprint but what the helper's own log writes.
    ensures proceeded && m.failed == {} ==>
              forall place :: place in m.files && (RootFootprint(q, place) || UserFootprint(q, place)) ==>
                LogPlace(p, place)
    // Keeping keeps the configuration and the logs, whatever fails.
    ensures q.keep && !RootInDoomedTree(q) ==>
              forall place :: place in old(m.files) && IsKept(q, place) && !IsDeletedFile(q, place) ==> place in m.files
    // A refused prompt removes nothing; a child cut short has removed what the steps it got to name, and nothing else.
    ensures ModeOf(q, e) == Pkexec && (e.elevation.Declined? || e.elevation.NotStarted?) ==> old(m.files) <= m.files
    ensures !proceeded ==>
              forall place :: place in old(m.files) && Spares(ElevatedSteps(q, e.elevation), place) ==> place in m.files
    ensures !proceeded && m.failed == {} ==>
              forall place :: place in m.files && !LogPlace(p, place) ==> Spares(ElevatedSteps(q, e.elevation), place)
    ensures old(m.failed) <= m.failed && (AlwaysSucceeds(m) ==> m.failed == old(m.failed))
  {
    hide Privileged, UserOwned, IsValidDataRoot, Components, RootInDoomedTree, IsDeletedFile, IsKept, RootFootprint;
    hide UserFootprint, LogPlace, ElevatedSteps, RemovalOf, IsWholeRoot;
    ghost var root := Components(q.dataRoot);
    ValidRootName(q.dataRoot);
    KeptSurvive(q);
    if !q.keep {
      WipeRemovesTheRootOnce(q);
    }
    LogLines(m, p, null, 3, root);
    var plan := AppUninstallCommands(q);
    var held;
    proceeded, held := RunPrivileged(m, p, q, e, plan.privileged);
    if !proceeded {
      LogLines(m, p, null, 1, root);
      return;
    }
    var wipes := if held.Some? then [held.value] else [];
    LogLines(m, p, null, e.serverLines, root);
    LogLines(m, p, null, e.strayLines, root);
    var wipe := RunGroup(m, p, null, plan.userOwned, q.dataRoot, None);
    if wipe.Some? {
      wipes := wipes + [wipe.value];
    }
    RunWipes(m, p, wipes, q, e.reportOk);
    LogOutside(m, p, root);
    if m.failed == {} {
      forall place | place in m.files && !LogPlace(p, place)
        ensures !RootFootprint(q, place) && !UserFootprint(q, place)
      {
        assert SparesBut(Privileged(q), held, place) && SparesBut(UserOwned(q), wipe, place);
        NothingLeft(q, held, wipe, wipes, place);
      }
    }
  }

  // ---- A child cut short ----

  lemma {:induction false} LiftedBegins(group: seq<Argv>, dataRoot: string, k: nat)
    requires k <= |group| && forall i :: 0 <= i < k ==> !IsWholeRoot(group[i], dataRoot)
    ensures |Lifted(group, dataRoot)| >= k && Lifted(group, dataRoot)[..k] == group[..k]
  {
    if k > 0 {
      LiftedBegins(group[1..], dataRoot, k - 1);
      assert Lifted(group, dataRoot)[..k] == [group[0]] + group[1..][..k - 1] == group[..k];
    }
  }

  /** Where in the privileged group the machine-wide install is removed: after the teardown of a system service. */
  function OptStep(q: Request): nat {
    if q.svcScope == Some(System) then 5 else 0
  }

  lemma PrivilegedBegins(q: Request)
    requires HasRootFootprint(q)
    ensures var teardown := if q.svcScope == Some(System) then ServiceTeardown(System, q) else [];
            |Privileged(q)| > OptStep(q)
              && Privileged(q)[..OptStep(q) + 1] == teardown + [[q.bindir + "/rm", "-rf", OPT_DIR]]
  {
    hide DataRootCommands, UnitPath, Absolute, SbindirFrom;
  }

  lemma TeardownKeepsTheRoot(q: Request)
    ensures forall i :: 0 <= i < 5 ==> !IsWholeRoot(ServiceTeardown(System, q)[i], q.dataRoot)
  {
    NotRecursive();
    hide UnitPath;
  }

  lemma OptIsNotTheRoot(s: string)
    requires IsValidDataRoot(s)
    ensures s != OPT_DIR
  {
    hide *;
    DataRootFacts(s);
  }

  lemma BeforeOptStep(q: Request)
    requires IsValidDataRoot(q.dataRoot) && HasRootFootprint(q)
    ensures |Privileged(q)| > OptStep(q) && Privileged(q)[OptStep(q)] == [q.bindir + "/rm", "-rf", OPT_DIR]
    ensures forall i :: 0 <= i < OptStep(q) ==> Privileged(q)[i] == ServiceTeardown(System, q)[i]
    ensures forall i :: 0 <= i <= OptStep(q) ==> !IsWholeRoot(Privileged(q)[i], q.dataRoot)
  {
    OptIsNotTheRoot(q.dataRoot);
    PrivilegedBegins(q);
    TeardownKeepsTheRoot(q);
    var opt := [q.bindir + "/rm", "-rf", OPT_DIR];
    assert |ServiceTeardown(System, q)| == 5 && !IsWholeRoot(opt, q.dataRoot);
    hide IsValidDataRoot, Privileged, ServiceTeardown, Absolute, IsWholeRoot, HasRootFootprint;
    var k, group := OptStep(q), Privileged(q);
    var teardown := if q.svcScope == Some(System) then ServiceTeardown(System, q) else [];
    assert |teardown| == k;
    forall i | 0 <= i <= k
      ensures group[i] == if i < k then teardown[i] else opt
    {
      assert group[i] == group[..k + 1][i];
    }
  }

  lemma ChildStepsBegin(q: Request, n: nat)
    requires IsValidDataRoot(q.dataRoot) && HasRootFootprint(q)
    ensures n <= OptStep(q) ==> |Privileged(q)| > n && ChildSteps(q, Some(n)) == Privileged(q)[..n]
    ensures n > OptStep(q) ==>
            |ChildSteps(q, Some(n))| > OptStep(q)
            && ChildSteps(q, Some(n))[OptStep(q)] == [q.bindir + "/rm", "-rf", OPT_DIR]
  {
    BeforeOptStep(q);
    hide Privileged, IsValidDataRoot, Lifted, IsWholeRoot, Absolute, ServiceTeardown;
    var group, k := Privileged(q), OptStep(q);
    LiftedBegins(group, q.dataRoot, k + 1);
    var lifted := Lifted(group, q.dataRoot);
    if n <= k {
      assert lifted[..n] == lifted[..k + 1][..n] == group[..k + 1][..n] == group[..n];
    } else {
      assert lifted[k] == lifted[..k + 1][k] == group[..k + 1][k] == group[k];
    }
  }

  lemma TeardownRemovals(q: Request)
    ensures |ServiceTeardown(System, q)| == 5
    ensures forall i :: 0 <= i < 5 && i != 3 ==> RemovalOf(ServiceTeardown(System, q)[i]) == Nothing
    ensures RemovalOf(ServiceTeardown(System, q)[3]) == OneFile(["etc", "systemd", "system", UNIT])
  {
    hide Components, UnitPath;
    NotRecursive();
    RemovalOfRm(q.bindir, UnitPath(System, q.home));
    PlaceOfSystemUnit(q.home);
  }

  lemma OptIsStillThere(q: Request, n: nat)
    requires IsValidDataRoot(q.dataRoot) && HasRootFootprint(q) && n <= OptStep(q)
    ensures Spares(ChildSteps(q, Some(n)), ["opt", "ws-scrcpy-web"])
  {
    ChildStepsBegin(q, n);
    BeforeOptStep(q);
    TeardownRemovals(q);
    hide Privileged, IsValidDataRoot, Components, ServiceTeardown, ChildSteps, RemovalOf, Absolute, IsWholeRoot;
    hide HasRootFootprint;
    var opt, steps := ["opt", "ws-scrcpy-web"], ChildSteps(q, Some(n));
    assert opt[0] == "opt" && ["etc", "systemd", "system", UNIT][0] == "etc" && "etc"[0] != "opt"[0];
    forall i | 0 <= i < |steps|
      ensures !RemovalOf(steps[i]).Takes(opt)
    {
      assert steps[i] == Privileged(q)[i] == ServiceTeardown(System, q)[i];
    }
  }

  lemma RemovalOfOptStep(bindir: string)
    ensures RemovalOf([bindir + "/rm", "-rf", OPT_DIR]) == Subtree(["opt", "ws-scrcpy-web"])
    ensures Subtree(["opt", "ws-scrcpy-web"]).Takes(["opt", "ws-scrcpy-web"])
  {
    hide Components, Absolute, RemovalOf;
    PlacesOfConstants();
    RemovalOfRm(bindir, OPT_DIR);
  }

  lemma OptIsGone(q: Request, n: nat)
    requires IsValidDataRoot(q.dataRoot) && HasRootFootprint(q) && n > OptStep(q)
    ensures !Spares(ChildSteps(q, Some(n)), ["opt", "ws-scrcpy-web"])
  {
    ChildStepsBegin(q, n);
    RemovalOfOptStep(q.bindir);
    hide *;
    var opt, argv, steps := ["opt", "ws-scrcpy-web"], [q.bindir + "/rm", "-rf", OPT_DIR], ChildSteps(q, Some(n));
    assert steps[OptStep(q)] == argv;
    SparesMember(argv, steps, opt);
  }

  /** A child cut short after `n` steps, with every command carried out, has removed the machine-wide install exactly
      when it got that far. */
  lemma OptIsGoneExactly(q: Request, n: nat)
    requires IsValidDataRoot(q.dataRoot) && HasRootFootprint(q)
    ensures Spares(ChildSteps(q, Some(n)), ["opt", "ws-scrcpy-web"]) <==> n <= OptStep(q)
  {
    hide *;
    if n <= OptStep(q) {
      OptIsStillThere(q, n);
    } else {
      OptIsGone(q, n);
    }
  }

  /** How many steps of the privileged group remove no file: those before the unit file of a system service. */
  function HarmlessSteps(q: Request): nat {
    if q.svcScope == Some(System) then 3 else 0
  }

  lemma HarmlessStepsSpareAll(q: Request, n: nat, p: Place)
    requires IsValidDataRoot(q.dataRoot) && HasRootFootprint(q) && n <= HarmlessSteps(q)
    ensures Spares(ChildSteps(q, Some(n)), p)
  {
    ChildStepsBegin(q, n);
    BeforeOptStep(q);
    TeardownRemovals(q);
    hide Privileged, IsValidDataRoot, Components, ServiceTeardown, ChildSteps, RemovalOf, Absolute, IsWholeRoot;
    hide HasRootFootprint;
    var steps := ChildSteps(q, Some(n));
    forall i | 0 <= i < |steps|
      ensures !RemovalOf(steps[i]).Takes(p)
    {
      assert steps[i] == Privileged(q)[i] == ServiceTeardown(System, q)[i];
    }
  }

  lemma UnitIsGone(q: Request, n: nat)
    requires IsValidDataRoot(q.dataRoot) && q.svcScope == Some(System) && 3 < n <= 5
    ensures !Spares(ChildSteps(q, Some(n)), ["etc", "systemd", "system", UNIT])
  {
    ChildStepsBegin(q, n);
    BeforeOptStep(q);
    TeardownRemovals(q);
    hide Privileged, IsValidDataRoot, Components, ServiceTeardown, ChildSteps, RemovalOf, Absolute, IsWholeRoot, Spares;
    var steps := ChildSteps(q, Some(n));
    assert steps[3] == Privileged(q)[3] == ServiceTeardown(System, q)[3] && steps[3] in steps;
    SparesMember(steps[3], steps, ["etc", "systemd", "system", UNIT]);
  }

  /** The privileged group is all or nothing for a child cut short after `n` steps, in that it has removed nothing,
      exactly when it got no further than the steps that remove no file. */
  lemma NothingIsGoneExactly(q: Request, n: nat)
    requires IsValidDataRoot(q.dataRoot) && HasRootFootprint(q)
    ensures (forall p :: Spares(ChildSteps(q, Some(n)), p)) <==> n <= HarmlessSteps(q)
  {
    hide IsValidDataRoot, HasRootFootprint, ChildSteps, Spares;
    if n <= HarmlessSteps(q) {
      forall p
        ensures Spares(ChildSteps(q, Some(n)), p)
      {
        HarmlessStepsSpareAll(q, n, p);
      }
    } else if n > OptStep(q) {
      OptIsGone(q, n);
    } else {
      UnitIsGone(q, n);
    }
  }

  lemma MachineWideIsRoots(q: Request)
    requires q.machineWide
    ensures HasRootFootprint(q)
  {
  }

  lemma SlashFirst(s: string)
    ensures Split(s)[0] == "" && |Split(s)| > 1 ==> s != "" && s[0] == '/'
  {
  }

  lemma VarLibIsValid()
    ensures IsValidDataRoot(VAR_LIB)
  {
    hide Split, Absolute;
    SplitAbsolute(["var", "lib", "ws-scrcpy-web"]);
    SlashFirst(VAR_LIB);
    assert "var"[0] != '.' && "lib"[0] != '.' && "ws-scrcpy-web"[0] != '.';
  }

  lemma FirstStep(q: Request)
    requires IsValidDataRoot(q.dataRoot) && q.machineWide && q.svcScope == None
    ensures ChildSteps(q, Some(1)) == [[q.bindir + "/rm", "-rf", OPT_DIR]]
  {
    MachineWideIsRoots(q);
    BeforeOptStep(q);
    LiftedBegins(Privileged(q), q.dataRoot, 1);
    hide Privileged, IsValidDataRoot, IsWholeRoot, HasRootFootprint, Lifted, Absolute;
    assert ChildSteps(q, Some(1)) == Privileged(q)[..1] == [Privileged(q)[0]];
  }

  lemma FirstStepSparesTheMenu(q: Request)
    requires IsValidDataRoot(q.dataRoot) && q.machineWide && q.svcScope == None
    ensures Spares(ChildSteps(q, Some(1)), ["usr", "share", "applications", "ws-scrcpy-web.desktop"])
  {
    FirstStep(q);
    RemovalOfOptStep(q.bindir);
    hide IsValidDataRoot, Components, Absolute, RemovalOf, ChildSteps;
    var menu := ["usr", "share", "applications", "ws-scrcpy-web.desktop"];
    assert menu[0] == "usr" && ["opt", "ws-scrcpy-web"][0] == "opt" && "usr"[0] != "opt"[0];
    SparesOne([q.bindir + "/rm", "-rf", OPT_DIR], menu);
  }

  lemma OptIsNoLogPlace(p: Process)
    requires p.logRoot == Some(["home", "u"]) && p.exeDir == ["tmp"]
    ensures !LogPlace(p, ["opt", "ws-scrcpy-web"])
  {
    var opt, logs := ["opt", "ws-scrcpy-web"], ["home", "u"] + ["logs"];
    assert opt[0] == "opt" && logs[0] == "home" && (p.exeDir + ["launcher.log"])[0] == "tmp"
           && (logs + ["launcher.log"])[0] == "home";
    assert "home"[0] != "opt"[0] && "tmp"[0] != "opt"[0];
  }

  /** A run whose child dies after its first step: the machine-wide install is gone, and it alone, although the
      uninstall was called off. */
  method CutShortRun() returns (proceeded: bool, before: set<Place>, left: set<Place>)
    ensures !proceeded && before - left == {["opt", "ws-scrcpy-web"]}
    ensures ["usr", "share", "applications", "ws-scrcpy-web.desktop"] in before
  {
    hide IsValidDataRoot, Privileged, UserOwned, ChildSteps, Components, Spares, HasRootFootprint, LogPlace;
    var opt, menu := ["opt", "ws-scrcpy-web"], ["usr", "share", "applications", "ws-scrcpy-web.desktop"];
    var q := Request(None, true, false, VAR_LIB, "/bin", "/home/u", None);
    VarLibIsValid();
    MachineWideIsRoots(q);
    before := {opt, menu};
    var m := new Machine(before, _ => LogAnswer(0, false), _ => Succeeds);
    var p := new Process(Some(["home", "u"]), ["tmp"], false);
    var e := Surroundings(false, CutShort(1), None, [], "/root", None, 0, 0, 0, 0, true);
    BeforeOptStep(q);
    OptIsGone(q, 1);
    FirstStepSparesTheMenu(q);
    OptIsNoLogPlace(p);
    assert AlwaysSucceeds(m);
    proceeded := RunUnelevated(m, p, q, e);
    left := m.files;
  }
}
