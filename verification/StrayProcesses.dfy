/** Which processes the uninstall helper kills: every process whose command line names the app,
    except the helper itself and its ancestors in the snapshot. */
module StrayProcesses {
  datatype ProcEntry = ProcEntry(pid: int, ppid: int, cmdline: string)

  const PROC_NAMES: seq<string> := ["WsScrcpyWeb", "ws-scrcpy-web-tray", "ws-scrcpy-web-launcher", "scrcpy-server"]

  predicate Contains(s: string, part: string) {
    exists i :: 0 <= i <= |s| && part <= s[i..]
  }

  predicate NamesTheApp(p: ProcEntry) {
    exists k :: 0 <= k < |PROC_NAMES| && Contains(p.cmdline, PROC_NAMES[k])
  }

  /** The parent table; a pid listed twice keeps its last entry. */
  function PpidOf(procs: seq<ProcEntry>): map<int, int> {
    if procs == [] then map[]
    else
      var last := procs[|procs| - 1];
      PpidOf(procs[..|procs| - 1])[last.pid := last.ppid]
  }

  /** `pid` is met after `n` parent steps from `from`, every process on the way having a pid above 1. */
  predicate ReachesIn(ppidOf: map<int, int>, from: int, pid: int, n: nat)
    decreases n
  {
    from > 1 && if n == 0 then from == pid else from in ppidOf && ReachesIn(ppidOf, ppidOf[from], pid, n - 1)
  }

  ghost predicate SelfOrAncestor(ppidOf: map<int, int>, self: int, pid: int) {
    exists n: nat :: ReachesIn(ppidOf, self, pid, n)
  }

  /** The pids to kill, in snapshot order. */
  ghost function KillList(procs: seq<ProcEntry>, ppidOf: map<int, int>, self: int): seq<int> {
    if procs == [] then []
    else
      var last := procs[|procs| - 1];
      KillList(procs[..|procs| - 1], ppidOf, self)
      + (if !SelfOrAncestor(ppidOf, self, last.pid) && NamesTheApp(last) then [last.pid] else [])
  }

  lemma {:induction false} ReachesExtend(ppidOf: map<int, int>, from: int, mid: int, n: nat)
    requires ReachesIn(ppidOf, from, mid, n) && mid in ppidOf && ppidOf[mid] > 1
    ensures ReachesIn(ppidOf, from, ppidOf[mid], n + 1)
    decreases n
  {
    if n == 0 {
      assert ReachesIn(ppidOf, ppidOf[mid], ppidOf[mid], 0);
    } else {
      ReachesExtend(ppidOf, ppidOf[from], mid, n - 1);
    }
  }

  lemma {:induction false} ClosedSetHoldsAllReached(ppidOf: map<int, int>, closed: set<int>, from: int, pid: int,
                                                    n: nat)
    requires forall x :: x in closed && x in ppidOf && ppidOf[x] > 1 ==> ppidOf[x] in closed
    requires from > 1 ==> from in closed
    requires ReachesIn(ppidOf, from, pid, n)
    ensures pid in closed
    decreases n
  {
    if n > 0 {
      ClosedSetHoldsAllReached(ppidOf, closed, ppidOf[from], pid, n - 1);
    }
  }

  /** The walk up the parent chain. It ends on any table, cyclic links included, with exactly the helper and its
      ancestors. */
  method SparedPids(ppidOf: map<int, int>, self: int) returns (spared: set<int>)
    ensures forall pid :: pid in spared <==> SelfOrAncestor(ppidOf, self, pid)
  {
    spared := {};
    var cur := self;
    ghost var steps: nat := 0;
    ghost var universe := {self} + ppidOf.Keys + ppidOf.Values;
    while cur > 1 && cur !in spared
      invariant cur in universe && spared <= universe
      invariant cur > 1 ==> ReachesIn(ppidOf, self, cur, steps)
      invariant forall x :: x in spared ==> SelfOrAncestor(ppidOf, self, x)
      invariant forall x :: x in spared && x in ppidOf && ppidOf[x] > 1 ==> ppidOf[x] in spared || ppidOf[x] == cur
      invariant self > 1 ==> self in spared || cur == self
      decreases universe - spared
    {
      spared := spared + {cur};
      if cur !in ppidOf {
        break;
      }
      if ppidOf[cur] > 1 {
        ReachesExtend(ppidOf, self, cur, steps);
      }
      cur := ppidOf[cur];
      steps := steps + 1;
    }
    forall pid | SelfOrAncestor(ppidOf, self, pid)
      ensures pid in spared
    {
      var n: nat :| ReachesIn(ppidOf, self, pid, n);
      ClosedSetHoldsAllReached(ppidOf, spared, self, pid, n);
    }
  }

  method StrayKillTargets(procs: seq<ProcEntry>, self: int) returns (targets: seq<int>)
    ensures targets == KillList(procs, PpidOf(procs), self)
  {
    var ppidOf := map[];
    for i := 0 to |procs|
      invariant ppidOf == PpidOf(procs[..i])
    {
      ppidOf := ppidOf[procs[i].pid := procs[i].ppid];
      assert procs[..i + 1][..i] == procs[..i];
    }
    assert procs[..|procs|] == procs;
    var spared := SparedPids(ppidOf, self);
    targets := [];
    for i := 0 to |procs|
      invariant targets == KillList(procs[..i], ppidOf, self)
    {
      if procs[i].pid !in spared && NamesTheApp(procs[i]) {
        targets := targets + [procs[i].pid];
      }
      assert procs[..i + 1][..i] == procs[..i];
    }
  }

  // ---- What the list means ----

  /** A pid is killed exactly when some entry with it names the app and it is neither the helper nor one of its
      ancestors. */
  lemma {:induction false} KillListExactly(procs: seq<ProcEntry>, ppidOf: map<int, int>, self: int, pid: int)
    ensures pid in KillList(procs, ppidOf, self)
            <==> !SelfOrAncestor(ppidOf, self, pid) && exists p :: p in procs && p.pid == pid && NamesTheApp(p)
  {
    if procs != [] {
      var before, last := procs[..|procs| - 1], procs[|procs| - 1];
      KillListExactly(before, ppidOf, self, pid);
      assert procs == before + [last];
    }
  }

  lemma {:induction false} ParentInTable(procs: seq<ProcEntry>, i: nat)
    requires i < |procs|
    requires forall j, k :: 0 <= j < k < |procs| ==> procs[j].pid != procs[k].pid
    ensures procs[i].pid in PpidOf(procs) && PpidOf(procs)[procs[i].pid] == procs[i].ppid
  {
    if i < |procs| - 1 {
      ParentInTable(procs[..|procs| - 1], i);
    }
  }

  /** The helper never kills itself or the process that started it, whatever their command lines say. */
  lemma HelperAndParentAreSpared(procs: seq<ProcEntry>, i: nat)
    requires i < |procs| && procs[i].pid > 1
    requires forall j, k :: 0 <= j < k < |procs| ==> procs[j].pid != procs[k].pid
    ensures procs[i].pid !in KillList(procs, PpidOf(procs), procs[i].pid)
    ensures procs[i].ppid > 1 ==> procs[i].ppid !in KillList(procs, PpidOf(procs), procs[i].pid)
  {
    var m, self, parent := PpidOf(procs), procs[i].pid, procs[i].ppid;
    ParentInTable(procs, i);
    KillListExactly(procs, m, self, self);
    assert ReachesIn(m, self, self, 0);
    if parent > 1 {
      ReachesExtend(m, self, self, 0);
      assert ReachesIn(m, self, parent, 1);
      KillListExactly(procs, m, self, parent);
    }
  }
}
