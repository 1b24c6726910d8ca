/** The teardown plan of a complete uninstall: which commands run, in which of the two privilege groups,
    what keeping or wiping the data means for the files, and how the step that deletes the whole data
    root is lifted out to run last. */
module UninstallPlan {
  import opened Wrappers
  import opened Paths
  import opened Prefixes

  type Argv = seq<string>

  datatype Scope = User | System

  /** The parsed request, with what the plan reads from the environment: the tool directory, HOME and the runtime
      directory. */
  datatype Request = Request(svcScope: Option<Scope>, machineWide: bool, keep: bool, dataRoot: string,
                             bindir: string, home: string, xdgRuntimeDir: Option<string>)

  datatype Plan = Plan(privileged: seq<Argv>, userOwned: seq<Argv>)

  const UNIT: string := "WsScrcpyWeb.service"
  /** `/var/lib/ws-scrcpy-web` */
  const VAR_LIB: string := Absolute(["var", "lib", "ws-scrcpy-web"])
  /** `/.local/share/WsScrcpyWeb` */
  const USER_DATA: string := Absolute([".local", "share", "WsScrcpyWeb"])
  /** `/opt/ws-scrcpy-web` */
  const OPT_DIR: string := Absolute(["opt", "ws-scrcpy-web"])
  /** `/root/.local/share/WsScrcpyWeb` */
  const ROOT_STRAY_DATA_ROOT: string := Absolute(["root", ".local", "share", "WsScrcpyWeb"])
  const SYSTEMD_SYSTEM: string := Absolute(["etc", "systemd", "system"])
  const APPLICATIONS: string := Absolute(["usr", "share", "applications"])
  const SYS_DESKTOP: string := Absolute(["usr", "share", "applications", "ws-scrcpy-web.desktop"])
  const SYS_ICON: string := Absolute(["usr", "share", "icons", "hicolor", "256x256", "apps", "ws-scrcpy-web.png"])
  const FCONTEXT_SPECS: seq<string> := ["/opt/ws-scrcpy-web(/.*)?", "/opt/ws-scrcpy-web/data(/.*)?"]

  /** The only data roots a run accepts. */
  predicate IsValidDataRoot(s: string) {
    && s != "" && s[0] == '/'
    && (forall k :: 0 <= k < |Split(s)| ==> Split(s)[k] != ".." && Split(s)[k] != ".")
    && (s == VAR_LIB || EndsWith(s, USER_DATA))
  }

  // ---- The builder ----

  function ScopePrefix(scope: Scope): seq<string> {
    if scope == User then ["--user"] else []
  }

  /** `PathBuf::join` with a relative name. */
  function Join(base: string, name: string): string {
    if base == "" then name
    else if base[|base| - 1] == '/' then base + name
    else base + "/" + name
  }

  function UnitPath(scope: Scope, home: string): string {
    if scope == User then Join(Join(home, ".config/systemd/user"), UNIT) else Join(SYSTEMD_SYSTEM, UNIT)
  }

  function SbindirFrom(bindir: string): string {
    if EndsWith(bindir, "/bin") then bindir[..|bindir| - 4] + "/sbin" else bindir
  }

  function ServiceTeardown(scope: Scope, q: Request): seq<Argv> {
    var systemctl := [q.bindir + "/systemctl"] + ScopePrefix(scope);
    [systemctl + ["stop", UNIT],
     systemctl + ["disable", UNIT],
     systemctl + ["reset-failed", UNIT],
     [q.bindir + "/rm", "-f", UnitPath(scope, q.home)],
     systemctl + ["daemon-reload"]]
  }

  function DataRootCommands(q: Request): seq<Argv> {
    var rm := q.bindir + "/rm";
    if q.keep then
      [[rm, "-rf", q.dataRoot + "/" + "dependencies"],
       [rm, "-rf", q.dataRoot + "/" + "bin"],
       [rm, "-rf", q.dataRoot + "/" + "control"]]
    else [[rm, "-rf", q.dataRoot]]
  }

  function AutostartEntry(q: Request): string {
    q.home + Absolute([".config", "autostart", "ws-scrcpy-web-tray.desktop"])
  }

  function LockFile(dir: string): string {
    dir + "/" + "ws-scrcpy-web.lock"
  }

  function UserOwned(q: Request): seq<Argv> {
    [[q.bindir + "/pkill", "-KILL", "-x", "adb"]]
    + (if q.svcScope == Some(User) then ServiceTeardown(User, q) else [])
    + [[q.bindir + "/rm", "-f", AutostartEntry(q)]]
    + (if q.xdgRuntimeDir.Some? then [[q.bindir + "/rm", "-f", LockFile(q.xdgRuntimeDir.value)]] else [])
    + (if q.svcScope != Some(System) then DataRootCommands(q) else [])
  }

  predicate HasRootFootprint(q: Request) {
    q.machineWide || q.svcScope == Some(System)
  }

  /** The menu entry, its cache and icon, and the labelling rules. */
  function MenuSteps(q: Request): seq<Argv> {
    [[q.bindir + "/rm", "-f", SYS_DESKTOP],
     [q.bindir + "/update-desktop-database", APPLICATIONS],
     [q.bindir + "/rm", "-f", SYS_ICON],
     [SbindirFrom(q.bindir) + "/semanage", "fcontext", "-d", FCONTEXT_SPECS[0]],
     [SbindirFrom(q.bindir) + "/semanage", "fcontext", "-d", FCONTEXT_SPECS[1]]]
  }

  function Privileged(q: Request): seq<Argv> {
    if !HasRootFootprint(q) then []
    else
      (if q.svcScope == Some(System) then ServiceTeardown(System, q) else [])
      + [[q.bindir + "/rm", "-rf", OPT_DIR]]
      + (if q.svcScope == Some(System) then DataRootCommands(q) else [])
      + MenuSteps(q)
      + (if q.dataRoot != ROOT_STRAY_DATA_ROOT then [[q.bindir + "/rm", "-rf", ROOT_STRAY_DATA_ROOT]] else [])
  }

  lemma FirstThree(before: seq<Argv>, steps: seq<Argv>)
    requires |steps| >= 3
    ensures before + [steps[0]] + [steps[1]] + [steps[2]] == before + steps[..3]
  {
  }

  lemma OneMore(before: seq<Argv>, steps: seq<Argv>, i: nat)
    requires i < |steps|
    ensures before + steps[..i] + [steps[i]] == before + steps[..i + 1]
  {
  }

  method PushUserOwned(q: Request) returns (userOwned: seq<Argv>)
    ensures userOwned == UserOwned(q)
  {
    hide ServiceTeardown, DataRootCommands, AutostartEntry, LockFile;
    var rm := q.bindir + "/rm";
    userOwned := [[q.bindir + "/pkill", "-KILL", "-x", "adb"]];
    if q.svcScope == Some(User) {
      userOwned := userOwned + ServiceTeardown(User, q);
    }
    userOwned := userOwned + [[rm, "-f", AutostartEntry(q)]];
    if q.xdgRuntimeDir.Some? {
      userOwned := userOwned + [[rm, "-f", LockFile(q.xdgRuntimeDir.value)]];
    }
    if q.svcScope != Some(System) {
      userOwned := userOwned + DataRootCommands(q);
    }
  }

  method PushMenuSteps(q: Request, before: seq<Argv>) returns (privileged: seq<Argv>)
    ensures privileged == before + MenuSteps(q)
  {
    hide SbindirFrom, Absolute;
    var rm := q.bindir + "/rm";
    privileged := before + [[rm, "-f", SYS_DESKTOP]];
    privileged := privileged + [[q.bindir + "/update-desktop-database", APPLICATIONS]];
    privileged := privileged + [[rm, "-f", SYS_ICON]];
    var semanage := SbindirFrom(q.bindir) + "/semanage";
    ghost var steps := MenuSteps(q);
    FirstThree(before, steps);
    for i := 0 to |FCONTEXT_SPECS|
      invariant privileged == before + steps[..3 + i]
    {
      privileged := privileged + [[semanage, "fcontext", "-d", FCONTEXT_SPECS[i]]];
      OneMore(before, steps, 3 + i);
    }
    assert steps[..5] == steps;
  }

  method PushPrivileged(q: Request) returns (privileged: seq<Argv>)
    ensures privileged == Privileged(q)
  {
    hide ServiceTeardown, DataRootCommands, MenuSteps, Absolute;
    var rm := q.bindir + "/rm";
    privileged := [];
    if q.machineWide || q.svcScope == Some(System) {
      if q.svcScope == Some(System) {
        privileged := privileged + ServiceTeardown(System, q);
      }
      privileged := privileged + [[rm, "-rf", OPT_DIR]];
      if q.svcScope == Some(System) {
        privileged := privileged + DataRootCommands(q);
      }
      privileged := PushMenuSteps(q, privileged);
      if q.dataRoot != ROOT_STRAY_DATA_ROOT {
        privileged := privileged + [[rm, "-rf", ROOT_STRAY_DATA_ROOT]];
      }
    }
  }

  /** `app_uninstall_commands`, pushing step after step into its two vectors. */
  method AppUninstallCommands(q: Request) returns (plan: Plan)
    ensures plan == Plan(Privileged(q), UserOwned(q))
  {
    var userOwned := PushUserOwned(q);
    var privileged := PushPrivileged(q);
    plan := Plan(privileged, userOwned);
  }

  // ---- What a command removes ----

  /** `rm -rf` takes a place and everything under it, `rm -f` one file; no other command of the plan removes files. */
  datatype Removal = Nothing | Subtree(place: Place) | OneFile(place: Place) {
    predicate Takes(p: Place) {
      match this
      case Nothing => false
      case Subtree(t) => t <= p
      case OneFile(t) => t == p
    }
  }

  function RemovalOf(argv: Argv): Removal {
    if |argv| != 3 || !EndsWith(argv[0], "/rm") then Nothing
    else if argv[1] == "-rf" then Subtree(Components(argv[2]))
    else if argv[1] == "-f" then OneFile(Components(argv[2]))
    else Nothing
  }

  predicate Spares(group: seq<Argv>, p: Place) {
    forall i :: 0 <= i < |group| ==> !RemovalOf(group[i]).Takes(p)
  }

  // ---- The whole-root step ----

  predicate IsWholeRoot(argv: Argv, dataRoot: string) {
    |argv| == 3 && EndsWith(argv[0], "/rm") && argv[1] == "-rf" && argv[2] == dataRoot
  }

  function WholeRootSteps(group: seq<Argv>, dataRoot: string): nat {
    if group == [] then 0
    else WholeRootSteps(group[..|group| - 1], dataRoot) + if IsWholeRoot(group[|group| - 1], dataRoot) then 1 else 0
  }

  /** A group without the first step that deletes the whole data root. */
  function Lifted(group: seq<Argv>, dataRoot: string): seq<Argv> {
    if group == [] then []
    else if IsWholeRoot(group[0], dataRoot) then group[1..]
    else [group[0]] + Lifted(group[1..], dataRoot)
  }

  lemma RemovedAt(group: seq<Argv>, k: nat)
    requires 0 < k < |group|
    ensures [group[0]] + (group[1..][..k - 1] + group[1..][k..]) == group[..k] + group[k + 1..]
  {
  }

  lemma LiftedStep(group: seq<Argv>, dataRoot: string)
    requires group != [] && !IsWholeRoot(group[0], dataRoot)
    ensures Lifted(group, dataRoot) == [group[0]] + Lifted(group[1..], dataRoot)
  {
    hide IsWholeRoot;
  }

  lemma {:induction false} LiftedAt(group: seq<Argv>, dataRoot: string, k: nat)
    requires k <= |group| && forall i :: 0 <= i < k ==> !IsWholeRoot(group[i], dataRoot)
    requires k < |group| ==> IsWholeRoot(group[k], dataRoot)
    ensures Lifted(group, dataRoot) == if k < |group| then group[..k] + group[k + 1..] else group
  {
    hide IsWholeRoot;
    if k > 0 {
      LiftedStep(group, dataRoot);
      hide Lifted;
      LiftedAt(group[1..], dataRoot, k - 1);
      if k < |group| {
        RemovedAt(group, k);
      } else {
        assert [group[0]] + group[1..] == group;
      }
    }
  }

  lemma {:induction false} WholeRootStepsConcat(a: seq<Argv>, b: seq<Argv>, dataRoot: string)
    ensures WholeRootSteps(a + b, dataRoot) == WholeRootSteps(a, dataRoot) + WholeRootSteps(b, dataRoot)
  {
    if b == [] {
      assert a + b == a;
    } else {
      assert (a + b)[..|a + b| - 1] == a + b[..|b| - 1];
      WholeRootStepsConcat(a, b[..|b| - 1], dataRoot);
    }
  }

  lemma OneWholeRoot(argv: Argv, dataRoot: string)
    requires IsWholeRoot(argv, dataRoot)
    ensures WholeRootSteps([argv], dataRoot) == 1
  {
    assert [argv][..0] == [];
  }

  lemma OneStepLess(group: seq<Argv>, dataRoot: string, k: nat)
    requires k < |group| && IsWholeRoot(group[k], dataRoot)
    ensures WholeRootSteps(group[..k] + group[k + 1..], dataRoot) == WholeRootSteps(group, dataRoot) - 1
    ensures forall argv :: argv in group[..k] + group[k + 1..] || argv == group[k] <==> argv in group
  {
    assert group == group[..k] + ([group[k]] + group[k + 1..]);
    OneWholeRoot(group[k], dataRoot);
    hide WholeRootSteps, IsWholeRoot;
    WholeRootStepsConcat(group[..k], [group[k]] + group[k + 1..], dataRoot);
    WholeRootStepsConcat([group[k]], group[k + 1..], dataRoot);
    WholeRootStepsConcat(group[..k], group[k + 1..], dataRoot);
  }

  lemma {:induction false} NoWholeRoot(group: seq<Argv>, dataRoot: string)
    requires forall i :: 0 <= i < |group| ==> !IsWholeRoot(group[i], dataRoot)
    ensures WholeRootSteps(group, dataRoot) == 0
  {
    if group != [] {
      NoWholeRoot(group[..|group| - 1], dataRoot);
    }
  }

  /** Lifts out the first step that deletes the whole data root and keeps all the others in order. */
  method SplitDataRootWipe(group: seq<Argv>, dataRoot: string) returns (steps: seq<Argv>, wipe: Option<Argv>)
    ensures wipe == None ==> steps == group && WholeRootSteps(group, dataRoot) == 0
    ensures wipe.Some? ==> IsWholeRoot(wipe.value, dataRoot)
    ensures wipe.Some? ==>
              exists k ::
                && 0 <= k < |group| && group[k] == wipe.value && steps == group[..k] + group[k + 1..]
                && forall i :: 0 <= i < k ==> !IsWholeRoot(group[i], dataRoot)
    ensures WholeRootSteps(steps, dataRoot) == WholeRootSteps(group, dataRoot) - (if wipe.Some? then 1 else 0)
    ensures forall argv :: argv in steps || wipe == Some(argv) <==> argv in group
    ensures steps == Lifted(group, dataRoot)
  {
    hide WholeRootSteps, IsWholeRoot, Lifted;
    wipe := None;
    steps := [];
    ghost var k := 0;
    for i := 0 to |group|
      invariant wipe == None ==> steps == group[..i]
      invariant wipe == None ==> forall j :: 0 <= j < i ==> !IsWholeRoot(group[j], dataRoot)
      invariant wipe.Some? ==>
                  && k < i && group[k] == wipe.value && IsWholeRoot(wipe.value, dataRoot)
                  && steps == group[..k] + group[k + 1..i]
                  && forall j :: 0 <= j < k ==> !IsWholeRoot(group[j], dataRoot)
    {
      if IsWholeRoot(group[i], dataRoot) && wipe == None {
        wipe := Some(group[i]);
        k := i;
      } else {
        steps := steps + [group[i]];
      }
    }
    assert group[..|group|] == group;
    if wipe == None {
      NoWholeRoot(group, dataRoot);
      LiftedAt(group, dataRoot, |group|);
    } else {
      LiftedAt(group, dataRoot, k);
      OneStepLess(group, dataRoot, k);
    }
  }

  // ---- The places of the plan's constants ----

  lemma PlacesOfConstants()
    ensures Components(OPT_DIR) == ["opt", "ws-scrcpy-web"]
    ensures Components(VAR_LIB) == ["var", "lib", "ws-scrcpy-web"]
    ensures Components(ROOT_STRAY_DATA_ROOT) == ["root", ".local", "share", "WsScrcpyWeb"]
    ensures Components(SYS_DESKTOP) == ["usr", "share", "applications", "ws-scrcpy-web.desktop"]
    ensures Components(SYS_ICON) == ["usr", "share", "icons", "hicolor", "256x256", "apps", "ws-scrcpy-web.png"]
  {
    hide Components, Absolute;
    ComponentsOfAbsolute(["opt", "ws-scrcpy-web"]);
    ComponentsOfAbsolute(["var", "lib", "ws-scrcpy-web"]);
    ComponentsOfAbsolute(["root", ".local", "share", "WsScrcpyWeb"]);
    ComponentsOfAbsolute(["usr", "share", "applications", "ws-scrcpy-web.desktop"]);
    ComponentsOfAbsolute(["usr", "share", "icons", "hicolor", "256x256", "apps", "ws-scrcpy-web.png"]);
  }

  lemma SystemdSystemHasNoTrailingSlash()
    ensures SYSTEMD_SYSTEM != "" && SYSTEMD_SYSTEM[|SYSTEMD_SYSTEM| - 1] != '/'
  {
    var names := ["etc", "systemd", "system"];
    assert names[2] == "system" && SYSTEMD_SYSTEM == Absolute(names[..2]) + "/" + "system";
  }

  lemma PlaceOfSystemUnit(home: string)
    ensures Components(UnitPath(System, home)) == ["etc", "systemd", "system", UNIT]
  {
    var names := ["etc", "systemd", "system", UNIT];
    assert names[..3] == ["etc", "systemd", "system"];
    assert Absolute(names) == SYSTEMD_SYSTEM + "/" + UNIT;
    SystemdSystemHasNoTrailingSlash();
    hide Components, Absolute;
    ComponentsOfAbsolute(names);
  }

  /** A valid data root is `/var/lib/ws-scrcpy-web` or ends in `.local/share/WsScrcpyWeb`. */
  lemma DataRootShape(s: string) returns (above: Place)
    requires IsValidDataRoot(s)
    ensures Components(s) == ["var", "lib", "ws-scrcpy-web"]
            || Components(s) == above + [".local", "share", "WsScrcpyWeb"]
  {
    hide Components, Split, Absolute;
    above := [];
    PlacesOfConstants();
    if s != VAR_LIB {
      var pre := s[..|s| - |USER_DATA|];
      above := Components(pre);
      assert s == pre + USER_DATA;
      ComponentsUnder(pre, [".local", "share", "WsScrcpyWeb"]);
    }
  }

  /** The last component of a valid data root is neither `logs` nor the name of the machine-wide directory's parent. */
  lemma DataRootFacts(s: string)
    requires IsValidDataRoot(s)
    ensures |Components(s)| >= 3
    ensures Components(s)[|Components(s)| - 1] != "logs"
    ensures s != OPT_DIR
    ensures |Components(s)| == 3 ==> Components(s)[2] != "share"
  {
    hide Components;
    var above := DataRootShape(s);
    PlacesOfConstants();
    assert "WsScrcpyWeb"[0] != "logs"[0] && "ws-scrcpy-web"[0] != "logs"[0];
    assert "WsScrcpyWeb"[0] != "share"[0] && "ws-scrcpy-web"[0] != "share"[0];
  }

  // ---- Exactly one whole-root removal in a wipe ----

  lemma RmEnds(bindir: string)
    ensures EndsWith(bindir + "/rm", "/rm")
  {
  }

  lemma NotRecursive()
    ensures "-f" != "-rf" && "stop" != "-rf" && "disable" != "-rf" && "reset-failed" != "-rf"
            && "daemon-reload" != "-rf" && "--user" != "-rf"
    ensures "stop" != "-f" && "disable" != "-f" && "reset-failed" != "-f" && "daemon-reload" != "-f" && "--user" != "-f"
  {
    assert "-f"[1] != "-rf"[1];
    assert "stop"[0] != "-rf"[0] && "disable"[0] != "-rf"[0] && "reset-failed"[0] != "-rf"[0]
           && "daemon-reload"[0] != "-rf"[0];
    assert "--user"[1] != "-rf"[1];
    assert "stop"[0] != "-f"[0] && "disable"[0] != "-f"[0] && "reset-failed"[0] != "-f"[0]
           && "daemon-reload"[0] != "-f"[0];
    assert "--user"[1] != "-f"[1];
  }

  lemma OtherStepsAreNotWholeRoot(q: Request)
    requires IsValidDataRoot(q.dataRoot)
    ensures forall scope :: WholeRootSteps(ServiceTeardown(scope, q), q.dataRoot) == 0
  {
    forall scope
      ensures WholeRootSteps(ServiceTeardown(scope, q), q.dataRoot) == 0
    {
      NotRecursive();
      NoWholeRoot(ServiceTeardown(scope, q), q.dataRoot);
    }
  }

  /** A wipe plan deletes the whole data root exactly once, in the group that owns it. */
  lemma WipeRemovesTheRootOnce(q: Request)
    requires IsValidDataRoot(q.dataRoot) && !q.keep
    ensures WholeRootSteps(Privileged(q), q.dataRoot) == if q.svcScope == Some(System) then 1 else 0
    ensures WholeRootSteps(UserOwned(q), q.dataRoot) == if q.svcScope == Some(System) then 0 else 1
  {
    hide ServiceTeardown, WholeRootSteps, AutostartEntry, LockFile, SbindirFrom, IsValidDataRoot;
    var d, rm := q.dataRoot, q.bindir + "/rm";
    NotRecursive();
    DataRootFacts(d);
    OtherStepsAreNotWholeRoot(q);
    RmEnds(q.bindir);
    OneWholeRoot([rm, "-rf", d], d);
    NoWholeRoot([], d);
    var teardown := if q.svcScope == Some(System) then ServiceTeardown(System, q) else [];
    var opt := [[rm, "-rf", OPT_DIR]];
    var root := if q.svcScope == Some(System) then DataRootCommands(q) else [];
    var menu := MenuSteps(q);
    var stray := if d != ROOT_STRAY_DATA_ROOT then [[rm, "-rf", ROOT_STRAY_DATA_ROOT]] else [];
    NoWholeRoot(opt, d);
    NoWholeRoot(menu, d);
    NoWholeRoot(stray, d);
    WholeRootStepsConcat(teardown + opt + root + menu, stray, d);
    WholeRootStepsConcat(teardown + opt + root, menu, d);
    WholeRootStepsConcat(teardown + opt, root, d);
    WholeRootStepsConcat(teardown, opt, d);

    var adb := [[q.bindir + "/pkill", "-KILL", "-x", "adb"]];
    var service := if q.svcScope == Some(User) then ServiceTeardown(User, q) else [];
    var autostart := [[rm, "-f", AutostartEntry(q)]];
    var lock := if q.xdgRuntimeDir.Some? then [[rm, "-f", LockFile(q.xdgRuntimeDir.value)]] else [];
    var userRoot := if q.svcScope != Some(System) then DataRootCommands(q) else [];
    NoWholeRoot(adb, d);
    NoWholeRoot(autostart, d);
    NoWholeRoot(lock, d);
    WholeRootStepsConcat(adb + service + autostart + lock, userRoot, d);
    WholeRootStepsConcat(adb + service + autostart, lock, d);
    WholeRootStepsConcat(adb + service, autostart, d);
    WholeRootStepsConcat(adb, service, d);
  }

  // ---- Exactly what a keep plan spares ----

  lemma SparesConcat(a: seq<Argv>, b: seq<Argv>, p: Place)
    ensures Spares(a + b, p) <==> Spares(a, p) && Spares(b, p)
  {
    forall i | 0 <= i < |a|
      ensures (a + b)[i] == a[i]
    {
    }
    forall i | 0 <= i < |b|
      ensures (a + b)[|a| + i] == b[i]
    {
    }
    if Spares(a + b, p) {
      forall i | 0 <= i < |a|
        ensures !RemovalOf(a[i]).Takes(p)
      {
        assert !RemovalOf((a + b)[i]).Takes(p);
      }
      forall i | 0 <= i < |b|
        ensures !RemovalOf(b[i]).Takes(p)
      {
        assert !RemovalOf((a + b)[|a| + i]).Takes(p);
      }
    }
  }

  lemma SparesOne(argv: Argv, p: Place)
    ensures Spares([argv], p) <==> !RemovalOf(argv).Takes(p)
  {
    assert [argv][0] == argv;
  }

  lemma RemovalOfRm(bindir: string, target: string)
    ensures RemovalOf([bindir + "/rm", "-rf", target]) == Subtree(Components(target))
    ensures RemovalOf([bindir + "/rm", "-f", target]) == OneFile(Components(target))
  {
    NotRecursive();
    RmEnds(bindir);
  }

  lemma TeardownSpares(scope: Scope, q: Request, p: Place)
    ensures Spares(ServiceTeardown(scope, q), p) <==> Components(UnitPath(scope, q.home)) != p
  {
    hide Components, UnitPath;
    NotRecursive();
    RemovalOfRm(q.bindir, UnitPath(scope, q.home));
    var steps := ServiceTeardown(scope, q);
    assert RemovalOf(steps[0]) == Nothing && RemovalOf(steps[1]) == Nothing && RemovalOf(steps[2]) == Nothing
           && RemovalOf(steps[4]) == Nothing;
    assert RemovalOf(steps[3]) == OneFile(Components(UnitPath(scope, q.home)));
  }

  lemma ComponentsOfJoin(base: string, name: string)
    ensures Components(Join(base, name)) == Components(base) + Components(name)
  {
    NothingNamed();
    hide Components;
    if base != "" && base[|base| - 1] == '/' {
      var above := base[..|base| - 1];
      ComponentsJoin(above, "");
      ComponentsJoin(above, name);
      assert above + "/" + "" == base && above + "/" + name == base + name;
      assert Components(above) + [] == Components(above);
    } else if base != "" {
      ComponentsJoin(base, name);
    } else {
      assert [] + Components(name) == Components(name);
    }
  }

  const USER_UNITS: Place := [".config", "systemd", "user"]

  lemma PlaceOfUserUnit(home: string)
    ensures Components(UnitPath(User, home)) == Components(home) + USER_UNITS + [UNIT]
  {
    hide Components, Join;
    ComponentsOfJoin(Join(home, ".config/systemd/user"), UNIT);
    ComponentsOfJoin(home, ".config/systemd/user");
    ComponentsOfName(".config");
    ComponentsBelow(".config", "systemd");
    ComponentsBelow(".config/systemd", "user");
    assert ".config" + "/" + "systemd" == ".config/systemd"
           && ".config/systemd" + "/" + "user" == ".config/systemd/user";
    assert [".config"] + ["systemd"] + ["user"] == USER_UNITS;
    ComponentsOfName(UNIT);
    assert Components(Join(home, ".config/systemd/user")) == Components(home) + USER_UNITS;
  }

  const AUTOSTART: Place := [".config", "autostart", "ws-scrcpy-web-tray.desktop"]

  lemma PlacesOfUserFiles(q: Request)
    ensures Components(AutostartEntry(q)) == Components(q.home) + AUTOSTART
    ensures q.xdgRuntimeDir.Some? ==>
            Components(LockFile(q.xdgRuntimeDir.value)) == Components(q.xdgRuntimeDir.value) + ["ws-scrcpy-web.lock"]
  {
    hide Components, Absolute;
    ComponentsUnder(q.home, AUTOSTART);
    if q.xdgRuntimeDir.Some? {
      ComponentsBelow(q.xdgRuntimeDir.value, "ws-scrcpy-web.lock");
    }
  }

  // ---- Exactly what a plan removes ----

  /** Removed from the data root: its regenerable directories when it is kept, all of it otherwise. */
  predicate DataGone(q: Request, p: Place) {
    var root := Components(q.dataRoot);
    if q.keep then root + ["dependencies"] <= p || root + ["bin"] <= p || root + ["control"] <= p else root <= p
  }

  /** The data root lies in, or this place lies in, a tree the privileged group deletes whole: the machine-wide
      install, or root's stray tree unless it is spelled like the data root. */
  predicate InDoomedTree(q: Request, p: Place) {
    && HasRootFootprint(q)
    && (["opt", "ws-scrcpy-web"] <= p
        || (q.dataRoot != ROOT_STRAY_DATA_ROOT && ["root", ".local", "share", "WsScrcpyWeb"] <= p))
  }

  predicate RootFootprint(q: Request, p: Place) {
    || InDoomedTree(q, p)
    || (HasRootFootprint(q) && p == ["usr", "share", "applications", "ws-scrcpy-web.desktop"])
    || (HasRootFootprint(q) && p == ["usr", "share", "icons", "hicolor", "256x256", "apps", "ws-scrcpy-web.png"])
    || (q.svcScope == Some(System) && (p == ["etc", "systemd", "system", UNIT] || DataGone(q, p)))
  }

  /** One of the single files of the user's the plan deletes: the autostart entry, the instance lock, the user unit. */
  predicate IsDeletedFile(q: Request, p: Place) {
    || p == Components(q.home) + AUTOSTART
    || (q.xdgRuntimeDir.Some? && p == Components(q.xdgRuntimeDir.value) + ["ws-scrcpy-web.lock"])
    || (q.svcScope == Some(User) && p == Components(q.home) + USER_UNITS + [UNIT])
  }

  predicate UserFootprint(q: Request, p: Place) {
    IsDeletedFile(q, p) || (q.svcScope != Some(System) && DataGone(q, p))
  }

  lemma RegenerableNames()
    ensures IsName("dependencies") && IsName("bin") && IsName("control")
  {
    assert |"dependencies"| == 12 && |"bin"| == 3 && |"control"| == 7 && |"."| == 1;
  }

  lemma DataRootCommandsExactly(q: Request, p: Place)
    ensures Spares(DataRootCommands(q), p) <==> !DataGone(q, p)
  {
    hide Components, RemovalOf;
    RegenerableNames();
    var rm, d := q.bindir + "/rm", q.dataRoot;
    RemovalOfRm(q.bindir, d);
    RemovalOfRm(q.bindir, d + "/" + "dependencies");
    RemovalOfRm(q.bindir, d + "/" + "bin");
    RemovalOfRm(q.bindir, d + "/" + "control");
    ComponentsBelow(d, "dependencies");
    ComponentsBelow(d, "bin");
    ComponentsBelow(d, "control");
    var group := DataRootCommands(q);
    if q.keep {
      assert group[0] == [rm, "-rf", d + "/" + "dependencies"];
      assert group[1] == [rm, "-rf", d + "/" + "bin"];
      assert group[2] == [rm, "-rf", d + "/" + "control"];
    } else {
      assert group[0] == [rm, "-rf", d];
    }
  }

  lemma SparesNone(p: Place)
    ensures Spares([], p)
  {
  }

  lemma MenuSpares(q: Request, p: Place)
    ensures Spares(MenuSteps(q), p)
            <==> p != Components(SYS_DESKTOP) && p != Components(SYS_ICON)
  {
    hide Components, SbindirFrom;
    RemovalOfRm(q.bindir, SYS_DESKTOP);
    RemovalOfRm(q.bindir, SYS_ICON);
    var menu := MenuSteps(q);
    assert RemovalOf(menu[0]) == OneFile(Components(SYS_DESKTOP))
           && RemovalOf(menu[2]) == OneFile(Components(SYS_ICON));
    assert RemovalOf(menu[1]) == Nothing && RemovalOf(menu[3]) == Nothing && RemovalOf(menu[4]) == Nothing;
  }

  /** For every scope and flag the privileged group removes root's footprint and nothing else. */
  lemma PrivilegedRemovesExactly(q: Request, p: Place)
    ensures Spares(Privileged(q), p) <==> !RootFootprint(q, p)
  {
    hide Components, ServiceTeardown, DataRootCommands, SbindirFrom, Spares, DataGone, UnitPath, RemovalOf;
    SparesNone(p);
    if HasRootFootprint(q) {
      var rm := q.bindir + "/rm";
      var teardown := if q.svcScope == Some(System) then ServiceTeardown(System, q) else [];
      var opt := [[rm, "-rf", OPT_DIR]];
      var root := if q.svcScope == Some(System) then DataRootCommands(q) else [];
      var menu := MenuSteps(q);
      var stray := if q.dataRoot != ROOT_STRAY_DATA_ROOT then [[rm, "-rf", ROOT_STRAY_DATA_ROOT]] else [];
      SparesConcat(teardown + opt + root + menu, stray, p);
      SparesConcat(teardown + opt + root, menu, p);
      SparesConcat(teardown + opt, root, p);
      SparesConcat(teardown, opt, p);
      TeardownSpares(System, q, p);
      DataRootCommandsExactly(q, p);
      MenuSpares(q, p);
      PlacesOfConstants();
      PlaceOfSystemUnit(q.home);
      RemovalOfRm(q.bindir, OPT_DIR);
      RemovalOfRm(q.bindir, ROOT_STRAY_DATA_ROOT);
      SparesOne([rm, "-rf", OPT_DIR], p);
      SparesOne([rm, "-rf", ROOT_STRAY_DATA_ROOT], p);
    }
  }

  lemma NoRemoval(bindir: string)
    ensures RemovalOf([bindir + "/pkill", "-KILL", "-x", "adb"]) == Nothing
  {
  }

  /** For every scope and flag the other group removes the user's footprint and nothing else. */
  lemma UserOwnedRemovesExactly(q: Request, p: Place)
    ensures Spares(UserOwned(q), p) <==> !UserFootprint(q, p)
  {
    hide Components, ServiceTeardown, DataRootCommands, Spares, DataGone, UnitPath, AutostartEntry, LockFile, RemovalOf;
    var rm := q.bindir + "/rm";
    var adb := [[q.bindir + "/pkill", "-KILL", "-x", "adb"]];
    var service := if q.svcScope == Some(User) then ServiceTeardown(User, q) else [];
    var autostart := [[rm, "-f", AutostartEntry(q)]];
    var lock := if q.xdgRuntimeDir.Some? then [[rm, "-f", LockFile(q.xdgRuntimeDir.value)]] else [];
    var userRoot := if q.svcScope != Some(System) then DataRootCommands(q) else [];
    SparesNone(p);
    SparesConcat(adb + service + autostart + lock, userRoot, p);
    SparesConcat(adb + service + autostart, lock, p);
    SparesConcat(adb + service, autostart, p);
    SparesConcat(adb, service, p);
    NoRemoval(q.bindir);
    SparesOne([q.bindir + "/pkill", "-KILL", "-x", "adb"], p);
    TeardownSpares(User, q, p);
    PlaceOfUserUnit(q.home);
    PlacesOfUserFiles(q);
    RemovalOfRm(q.bindir, AutostartEntry(q));
    SparesOne([rm, "-f", AutostartEntry(q)], p);
    if q.xdgRuntimeDir.Some? {
      RemovalOfRm(q.bindir, LockFile(q.xdgRuntimeDir.value));
      SparesOne([rm, "-f", LockFile(q.xdgRuntimeDir.value)], p);
    }
    DataRootCommandsExactly(q, p);
  }

  // ---- What keeping keeps ----

  /** What keeping promises to keep: the configuration and everything under the logs. */
  predicate IsKept(q: Request, p: Place) {
    var root := Components(q.dataRoot);
    p == root + ["config.json"] || root + ["logs"] <= p
  }

  predicate RootInDoomedTree(q: Request) {
    InDoomedTree(q, Components(q.dataRoot))
  }

  lemma KeptNames()
    ensures "config.json" != "logs"
    ensures forall n :: n in ["dependencies", "bin", "control"] ==> n != "logs" && n != "config.json"
    ensures forall n :: n in ["usr", "share", "applications", "icons", "hicolor", "256x256", "apps", "etc", "systemd",
                              "system"] ==>
              n != "logs" && n != "config.json"
    ensures "ws-scrcpy-web.desktop" != "logs" && "ws-scrcpy-web.desktop" != "config.json"
    ensures "ws-scrcpy-web.png" != "logs" && "ws-scrcpy-web.png" != "config.json"
    ensures UNIT != "logs" && UNIT != "config.json"
  {
    assert "config.json"[0] == 'c' && "logs"[0] == 'l' && |"logs"| == 4 && |"config.json"| == 11;
    assert |"control"| == 7 && |"dependencies"| == 12 && |"bin"| == 3;
    assert "usr"[0] == 'u' && "share"[0] == 's' && "applications"[0] == 'a' && "icons"[0] == 'i' && "hicolor"[0] == 'h';
    assert "256x256"[0] == '2' && "apps"[0] == 'a' && "etc"[0] == 'e' && "systemd"[0] == 's' && "system"[0] == 's';
    assert "ws-scrcpy-web.desktop"[0] == 'w' && "ws-scrcpy-web.png"[0] == 'w' && UNIT[0] == 'W';
  }

  lemma KeptPlaceFacts(q: Request, p: Place)
    requires IsKept(q, p)
    ensures var root := Components(q.dataRoot);
            |p| > |root| && root <= p && (p[|root|] == "logs" || p[|root|] == "config.json")
  {
    var root := Components(q.dataRoot);
    if p != root + ["config.json"] {
      assert p[..|root| + 1] == root + ["logs"];
      assert root == p[..|root| + 1][..|root|];
    }
  }

  lemma KeptIsNotGone(q: Request, p: Place)
    requires q.keep && IsKept(q, p)
    ensures !DataGone(q, p)
  {
    hide Components, IsKept;
    KeptPlaceFacts(q, p);
    KeptNames();
    var root := Components(q.dataRoot);
    var names := ["dependencies", "bin", "control"];
    forall i | 0 <= i < 3
      ensures !(root + [names[i]] <= p)
    {
      assert names[i] in names && (root + [names[i]])[|root|] == names[i];
    }
    assert names[0] == "dependencies" && names[1] == "bin" && names[2] == "control";
  }

  lemma ShortTree(t: Place, root: Place, p: Place)
    requires root != [] && root <= p
    requires |t| <= |root| || (|t| == |root| + 1 && t[|root| - 1] != root[|root| - 1])
    ensures t <= p <==> t <= root
  {
    assert root == p[..|root|];
    if t <= p {
      assert t == p[..|t|];
      PrefixesCompare(t, root, p);
    }
  }

  /** A kept place lies in a tree deleted whole exactly when the data root does. */
  lemma DoomedTrees(q: Request, p: Place)
    requires IsValidDataRoot(q.dataRoot) && IsKept(q, p)
    ensures InDoomedTree(q, p) <==> RootInDoomedTree(q)
  {
    hide Components, IsValidDataRoot;
    KeptPlaceFacts(q, p);
    DataRootFacts(q.dataRoot);
    ShortTree(["opt", "ws-scrcpy-web"], Components(q.dataRoot), p);
    ShortTree(["root", ".local", "share", "WsScrcpyWeb"], Components(q.dataRoot), p);
  }

  lemma SystemFilesAreNotKept(q: Request, p: Place)
    requires IsKept(q, p)
    ensures p != ["usr", "share", "applications", "ws-scrcpy-web.desktop"]
    ensures p != ["usr", "share", "icons", "hicolor", "256x256", "apps", "ws-scrcpy-web.png"]
    ensures p != ["etc", "systemd", "system", UNIT]
  {
    hide Components;
    KeptPlaceFacts(q, p);
    KeptNames();
    var x := p[|Components(q.dataRoot)|];
    assert x in p;
  }

  /** A keep plan spares a kept place exactly when the data root lies in no tree that is deleted whole and the place is
      none of the single files it deletes. */
  lemma KeepSparesExactly(q: Request, p: Place)
    requires IsValidDataRoot(q.dataRoot) && q.keep && IsKept(q, p)
    ensures Spares(Privileged(q), p) && Spares(UserOwned(q), p) <==> !RootInDoomedTree(q) && !IsDeletedFile(q, p)
  {
    hide IsValidDataRoot, IsKept, Privileged, UserOwned, Spares, DataGone, InDoomedTree, RootInDoomedTree;
    hide IsDeletedFile;
    PrivilegedRemovesExactly(q, p);
    UserOwnedRemovesExactly(q, p);
    KeptIsNotGone(q, p);
    DoomedTrees(q, p);
    SystemFilesAreNotKept(q, p);
  }

  lemma ConfigIsNotADeletedFile(q: Request)
    ensures !IsDeletedFile(q, Components(q.dataRoot) + ["config.json"])
  {
    hide Components;
    var p := Components(q.dataRoot) + ["config.json"];
    assert p[|p| - 1] == "config.json";
    assert "config.json"[0] == 'c' && "ws-scrcpy-web-tray.desktop"[0] == 'w' && "ws-scrcpy-web.lock"[0] == 'w'
           && UNIT[0] == 'W';
    var a := Components(q.home) + AUTOSTART;
    assert a[|a| - 1] == "ws-scrcpy-web-tray.desktop";
    if q.xdgRuntimeDir.Some? {
      var l := Components(q.xdgRuntimeDir.value) + ["ws-scrcpy-web.lock"];
      assert l[|l| - 1] == "ws-scrcpy-web.lock";
    }
    var u := Components(q.home) + USER_UNITS + [UNIT];
    assert u[|u| - 1] == UNIT;
  }

  /** The configuration survives a keep plan exactly when the data root lies in no tree that is deleted whole. */
  lemma KeepSparesTheConfigExactly(q: Request)
    requires IsValidDataRoot(q.dataRoot) && q.keep
    ensures var config := Components(q.dataRoot) + ["config.json"];
            Spares(Privileged(q), config) && Spares(UserOwned(q), config) <==> !RootInDoomedTree(q)
  {
    hide Spares, Components, Privileged, UserOwned, IsDeletedFile, RootInDoomedTree, IsValidDataRoot;
    KeepSparesExactly(q, Components(q.dataRoot) + ["config.json"]);
    ConfigIsNotADeletedFile(q);
  }

  /** `/root//.local/share/WsScrcpyWeb` */
  const DOUBLED_SLASH: string := Absolute(["root"]) + "/" + USER_DATA

  lemma DoubledSlashIsRootsStrayTree()
    ensures Split(DOUBLED_SLASH) == ["", "root", "", ".local", "share", "WsScrcpyWeb"]
    ensures Components(DOUBLED_SLASH) == ["root", ".local", "share", "WsScrcpyWeb"]
    ensures DOUBLED_SLASH != ROOT_STRAY_DATA_ROOT
  {
    hide Split, Components, Absolute;
    SplitConcat(Absolute(["root"]), USER_DATA);
    SplitAbsolute(["root"]);
    SplitAbsolute([".local", "share", "WsScrcpyWeb"]);
    ComponentsJoin(Absolute(["root"]), USER_DATA);
    ComponentsOfAbsolute(["root"]);
    ComponentsOfAbsolute([".local", "share", "WsScrcpyWeb"]);
    AbsoluteConcat(["root"], [".local", "share", "WsScrcpyWeb"]);
    assert ["root"] + [".local", "share", "WsScrcpyWeb"] == ["root", ".local", "share", "WsScrcpyWeb"];
    assert |DOUBLED_SLASH| == |ROOT_STRAY_DATA_ROOT| + 1;
  }

  lemma RootStartsWithSlash()
    ensures Absolute(["root"]) == "/root"
  {
    assert Absolute([]) == "" && ["root"][..0] == [];
  }

  lemma DoubledSlashIsValid()
    ensures IsValidDataRoot(DOUBLED_SLASH)
  {
    DoubledSlashIsRootsStrayTree();
    RootStartsWithSlash();
    hide Split, Absolute;
    var pieces := ["", "root", "", ".local", "share", "WsScrcpyWeb"];
    assert "root"[0] != '.' && ".local"[1] != '.' && "share"[0] != '.' && "WsScrcpyWeb"[0] != '.' && |".local"| == 6;
    assert DOUBLED_SLASH[|DOUBLED_SLASH| - |USER_DATA|..] == USER_DATA;
  }

  /** A keep plan that does not keep: the same directory, spelled with a doubled slash, is not recognised as the data
      root. */
  lemma DoubledSlashIsNotKept(q: Request)
    requires q.machineWide && q.keep && q.dataRoot == DOUBLED_SLASH
    ensures IsValidDataRoot(q.dataRoot) && RootInDoomedTree(q)
    ensures !Spares(Privileged(q), Components(q.dataRoot) + ["config.json"])
  {
    hide Split, Components, Absolute, Spares, Privileged, IsValidDataRoot;
    DoubledSlashIsRootsStrayTree();
    DoubledSlashIsValid();
    PrivilegedRemovesExactly(q, Components(q.dataRoot) + ["config.json"]);
  }
}
