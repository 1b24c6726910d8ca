/** Turning crash recovery on in the service manager's configuration at service start, and restarting
    the service at most once for it. */
module ServyRecovery {
  import opened Wrappers

  datatype Json = JNull | JBool(b: bool) | JInt(n: int) | JReal(r: real) | JStr(s: string) | JArr(items: seq<Json>)
    | JObj(fields: map<string, Json>)

  type Config = map<string, Json>

  const HEARTBEAT_SECS: int := 30
  const MAX_FAILED_CHECKS: int := 1
  const RECOVERY_RESTART_PROCESS: int := 2

  // ---- The configuration patch ----

  function AsI64(c: Config, key: string): Option<int> {
    if key in c && c[key].JInt? && -0x8000_0000_0000_0000 <= c[key].n <= 0x7fff_ffff_ffff_ffff then Some(c[key].n)
      else None
  }

  predicate Positive(c: Config, key: string) {
    AsI64(c, key).Some? && AsI64(c, key).value > 0
  }

  predicate NamesService(c: Config) {
    "Name" in c && c["Name"].JStr? && c["Name"].s != ""
  }

  predicate RecoveryOn(c: Config) {
    && "EnableHealthMonitoring" in c && c["EnableHealthMonitoring"] == JBool(true)
    && Positive(c, "HeartbeatInterval") && Positive(c, "MaxFailedChecks")
    && AsI64(c, "RecoveryAction") == Some(RECOVERY_RESTART_PROCESS)
  }

  const PATCHED_KEYS: set<string> := {"EnableHealthMonitoring", "HeartbeatInterval", "MaxFailedChecks",
                                      "RecoveryAction"}

  datatype PatchError = NotJson | NotAnObject | NamesNoService

  function WithRecovery(c: Config): Config {
    c + map["EnableHealthMonitoring" := JBool(true), "HeartbeatInterval" := JInt(HEARTBEAT_SECS),
            "MaxFailedChecks" := JInt(MAX_FAILED_CHECKS), "RecoveryAction" := JInt(RECOVERY_RESTART_PROCESS)]
  }

  function Patch(exported: Option<Json>): Result<Option<Config>, PatchError> {
    match exported
    case None => Err(NotJson)
    case Some(doc) =>
      if !doc.JObj? then Err(NotAnObject)
      else if !NamesService(doc.fields) then Err(NamesNoService)
      else if RecoveryOn(doc.fields) then Ok(None)
      else Ok(Some(WithRecovery(doc.fields)))
  }

  /** `patch_exported_config` on the parsed export; `None` stands for text that is not JSON. */
  method PatchExportedConfig(exported: Option<Json>) returns (r: Result<Option<Config>, PatchError>)
    ensures r == Patch(exported)
    // A document is accepted exactly when it names a service, and left alone exactly when its recovery is on as well.
    ensures r.Ok? <==> exported.Some? && exported.value.JObj? && NamesService(exported.value.fields)
    ensures r == Ok(None) <==> r.Ok? && RecoveryOn(exported.value.fields)
  {
    if exported == None {
      return Err(NotJson);
    }
    if !exported.value.JObj? {
      return Err(NotAnObject);
    }
    var obj := exported.value.fields;
    if !NamesService(obj) {
      return Err(NamesNoService);
    }
    if RecoveryOn(obj) {
      return Ok(None);
    }
    obj := obj["EnableHealthMonitoring" := JBool(true)];
    obj := obj["HeartbeatInterval" := JInt(HEARTBEAT_SECS)];
    obj := obj["MaxFailedChecks" := JInt(MAX_FAILED_CHECKS)];
    obj := obj["RecoveryAction" := JInt(RECOVERY_RESTART_PROCESS)];
    assert obj == WithRecovery(exported.value.fields);
    return Ok(Some(obj));
  }

  /** A patched document has recovery on, so patching it again does nothing, and every other key is as it was. */
  lemma PatchOnceIsEnough(c: Config)
    requires Patch(Some(JObj(c))).Ok? && Patch(Some(JObj(c))).value.Some?
    ensures var d := Patch(Some(JObj(c))).value.value;
            && RecoveryOn(d) && Patch(Some(JObj(d))) == Ok(None)
            && (forall key :: key !in PATCHED_KEYS ==> (key in d <==> key in c) && (key in c ==> d[key] == c[key]))
            && PATCHED_KEYS <= d.Keys
  {
    var d := Patch(Some(JObj(c))).value.value;
    assert "Name" !in PATCHED_KEYS;
    assert d["HeartbeatInterval"] == JInt(HEARTBEAT_SECS) && d["MaxFailedChecks"] == JInt(MAX_FAILED_CHECKS);
  }

  // ---- One repair ----

  datatype RepairOutcome = AlreadyEnabled | Repaired | RepairFailed

  datatype StartupAction = Nothing | Restart | GiveUp

  function DecideStartupAction(o: RepairOutcome, restartedBefore: bool): StartupAction {
    if o != Repaired then Nothing else if restartedBefore then GiveUp else Restart
  }

  /** How a file write ends: done, or refused with the file absent or present afterwards. */
  datatype WriteAnswer = Wrote | LeftAbsent | LeftPresent

  /** What the machine answers during one start. `sticks`: a successful import really changes the service's
      configuration. */
  datatype Answers = Answers(servyPresent: bool, programData: bool, scratchOk: bool, exportOk: bool, readOk: bool,
                             writeOk: bool, importOk: bool, sticks: bool, serverAnswers: bool, unmark: bool,
                             stamp: WriteAnswer, mark: WriteAnswer, scheduleOk: bool, withdraw: bool, dropFile: bool)

  /** The two marker files, the configuration the service manager holds, and the exported copy on disk. */
  datatype State = State(marker: bool, stamp: bool, config: Config, scratch: Option<Config>)

  function Repair(s: State, a: Answers): (State, RepairOutcome) {
    if !a.scratchOk then (s, RepairFailed)
    else if !a.exportOk || !a.readOk then
      var left := if a.dropFile then None else if a.exportOk then Some(s.config) else s.scratch;
      (s.(scratch := left), RepairFailed)
    else
      var s := s.(scratch := if a.dropFile then None else Some(s.config));
      match Patch(Some(JObj(s.config)))
      case Err(_) => (s, RepairFailed)
      case Ok(None) => (s, AlreadyEnabled)
      case Ok(Some(d)) =>
        if !a.writeOk then (s, RepairFailed)
        else
          var s := s.(scratch := if a.dropFile then None else Some(d));
          if a.importOk then (s.(config := if a.sticks then d else s.config), Repaired) else (s, RepairFailed)
  }

  /** What one start did, seen from outside. */
  datatype Report = Report(foundOn: bool, scheduled: bool)

  function Written(before: bool, w: WriteAnswer): bool {
    match w
    case Wrote => true
    case LeftAbsent => before
    case LeftPresent => true
  }

  function Start(s: State, a: Answers): (State, Report) {
    if !a.servyPresent || s.stamp || !a.programData then (s, Report(false, false))
    else
      var (s, outcome) := Repair(s, a);
      var s := if outcome == AlreadyEnabled then s.(marker := s.marker && !a.unmark, stamp := Written(s.stamp, a.stamp))
               else s;
      if DecideStartupAction(outcome, s.marker) != Restart || !a.serverAnswers then
        (s, Report(outcome == AlreadyEnabled, false))
      else
        var s := s.(marker := Written(s.marker, a.mark));
        if !a.mark.Wrote? then (s, Report(false, false))
        else if a.scheduleOk then (s, Report(false, true))
        else (s.(marker := !a.withdraw), Report(false, false))
  }

  // ---- The routine ----

  class Machine {
    var marker: bool
    var stamp: bool
    var config: Config
    var scratch: Option<Config>

    ghost function Now(): State
      reads this
    {
      State(marker, stamp, config, scratch)
    }

    constructor (config: Config)
      ensures Now() == State(false, false, config, None)
    {
      marker, stamp, this.config, scratch := false, false, config, None;
    }

    method RemoveExport(ok: bool)
      modifies this`scratch
      ensures scratch == if ok then None else old(scratch)
    {
      if ok {
        scratch := None;
      }
    }

    method ExportPatchImport(a: Answers) returns (o: RepairOutcome)
      modifies this
      ensures marker == old(marker) && stamp == old(stamp)
      ensures var after := Repair(old(Now()), a.(scratchOk := true, dropFile := false)); (Now(), o) == after
    {
      if !a.exportOk {
        return RepairFailed;
      }
      scratch := Some(config);
      if !a.readOk {
        return RepairFailed;
      }
      var patched := PatchExportedConfig(Some(JObj(scratch.value)));
      if patched.Err? {
        return RepairFailed;
      }
      if patched.value == None {
        return AlreadyEnabled;
      }
      if !a.writeOk {
        return RepairFailed;
      }
      scratch := patched.value;
      if !a.importOk {
        return RepairFailed;
      }
      if a.sticks {
        config := scratch.value;
      }
      return Repaired;
    }

    /** The exported file is dropped on every path that made it. */
    method RepairExistingService(a: Answers) returns (o: RepairOutcome)
      modifies this
      ensures (Now(), o) == Repair(old(Now()), a)
      ensures a.dropFile && a.scratchOk ==> scratch == None
    {
      if !a.scratchOk {
        return RepairFailed;
      }
      RemoveExport(a.dropFile);
      o := ExportPatchImport(a);
      RemoveExport(a.dropFile);
    }

    method StartupRepair(a: Answers) returns (report: Report)
      modifies this
      ensures (Now(), report) == Start(old(Now()), a)
    {
      report := Report(false, false);
      if !a.servyPresent || stamp || !a.programData {
        return;
      }
      var outcome := RepairExistingService(a);
      if outcome == AlreadyEnabled {
        report := Report(true, false);
        if a.unmark {
          marker := false;
        }
        stamp := Written(stamp, a.stamp);
      }
      if DecideStartupAction(outcome, marker) == Restart {
        if !a.serverAnswers {
          return;
        }
        marker := Written(marker, a.mark);
        if !a.mark.Wrote? {
          return;
        }
        if a.scheduleOk {
          report := Report(false, true);
        } else if a.withdraw {
          marker := false;
        }
      }
    }
  }

  // ---- Runs of service starts ----

  /** One start, after whatever happened to the configuration since the last one. */
  datatype Boot = Boot(answers: Answers, changed: Option<Config>)

  function Booted(s: State, b: Boot): (State, Report) {
    Start(if b.changed.Some? then s.(config := b.changed.value) else s, b.answers)
  }

  function After(s: State, boots: seq<Boot>): State {
    if boots == [] then s else Booted(After(s, boots[..|boots| - 1]), boots[|boots| - 1]).0
  }

  function ReportOf(s: State, boots: seq<Boot>, i: nat): Report
    requires i < |boots|
  {
    Booted(After(s, boots[..i]), boots[i]).1
  }

  lemma StepFacts(s: State, b: Boot)
    ensures var (t, r) := Booted(s, b);
            && (r.scheduled ==> !s.marker && !s.stamp && t.marker)
            && (s.marker && !r.foundOn ==> t.marker)
            && (s.stamp ==> r == Report(false, false))
            && (s.stamp ==> t == (if b.changed.Some? then s.(config := b.changed.value) else s))
            && (s.stamp ==> t.stamp)
  {
  }

  lemma {:induction false} MarkedUntilFoundOn(s: State, boots: seq<Boot>, i: nat, j: nat)
    requires i < j <= |boots| && ReportOf(s, boots, i).scheduled
    requires forall k :: i < k < j ==> !ReportOf(s, boots, k).foundOn
    ensures After(s, boots[..j]).marker
    decreases j
  {
    hide Booted;
    assert boots[..j][..j - 1] == boots[..j - 1];
    StepFacts(After(s, boots[..j - 1]), boots[j - 1]);
    if i < j - 1 {
      MarkedUntilFoundOn(s, boots, i, j - 1);
      assert !ReportOf(s, boots, j - 1).foundOn;
    }
  }

  /** Between two scheduled restarts some start found recovery on, whatever failed or changed on the way. */
  lemma AtMostOneRestartBetweenFindings(s: State, boots: seq<Boot>, i: nat, j: nat)
    requires i < j < |boots| && ReportOf(s, boots, i).scheduled && ReportOf(s, boots, j).scheduled
    ensures exists k :: i < k < j && ReportOf(s, boots, k).foundOn
  {
    hide Booted;
    if forall k :: i < k < j ==> !ReportOf(s, boots, k).foundOn {
      MarkedUntilFoundOn(s, boots, i, j);
      StepFacts(After(s, boots[..j]), boots[j]);
    }
  }

  /** Once the stamp exists no start checks, changes or restarts anything again. */
  lemma {:induction false} NothingAfterTheStamp(s: State, boots: seq<Boot>, i: nat, j: nat)
    requires i <= j < |boots| && After(s, boots[..i]).stamp
    ensures After(s, boots[..j]).stamp
    ensures ReportOf(s, boots, j) == Report(false, false)
    decreases j
  {
    hide Booted;
    StepFacts(After(s, boots[..j]), boots[j]);
    if i < j {
      NothingAfterTheStamp(s, boots, i, j - 1);
      assert boots[..j][..j - 1] == boots[..j - 1];
      StepFacts(After(s, boots[..j - 1]), boots[j - 1]);
    }
  }

  /** Every step of the start is carried out. */
  predicate Willing(a: Answers) {
    && a.servyPresent && a.programData && a.scratchOk && a.exportOk && a.readOk && a.writeOk && a.importOk && a.sticks
    && a.serverAnswers && a.unmark && a.stamp == Wrote && a.mark == Wrote && a.scheduleOk
  }

  /** On a willing machine a service with recovery off needs one restart: the next start finds it on and leaves the
      stamp. */
  lemma OneRestartSuffices(config: Config, a: Answers, b: Answers)
    requires Willing(a) && Willing(b) && NamesService(config) && !RecoveryOn(config)
    ensures var (s, first) := Start(State(false, false, config, None), a);
            var (t, second) := Start(s, b);
            && first == Report(false, true) && second == Report(true, false)
            && RecoveryOn(t.config) && t.stamp && !t.marker
  {
    PatchOnceIsEnough(config);
  }
}
