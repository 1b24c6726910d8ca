/** Refreshing the operation-server helper: copy beside it, rename over it, and on Windows, when the
    old helper is running, move that one aside first. Anything may be refused at any point. */
module HelperInstall {
  import opened Wrappers
  import opened FileStore

  datatype HelperRefresh = Copied(path: string) | MovedAside(path: string, aside: string)

  const STALE_HELPER_MARK: string := ".stale-"
  const NEW_HELPER_MARK: string := ".new-"
  const ERROR_SHARING_VIOLATION: int := 32
  const ETXTBSY: int := 26

  predicate IsHelperBusyCode(raw: Option<int>, windows: bool) {
    raw == Some(if windows then ERROR_SHARING_VIOLATION else ETXTBSY)
  }

  function MarkedSibling(dest: string, mark: string, stamp: string): string {
    dest + mark + stamp
  }

  lemma MarkedSiblingsDiffer(dest: string, s: string, t: string)
    ensures MarkedSibling(dest, NEW_HELPER_MARK, s) != dest
    ensures MarkedSibling(dest, STALE_HELPER_MARK, t) != dest
    ensures MarkedSibling(dest, NEW_HELPER_MARK, s) != MarkedSibling(dest, STALE_HELPER_MARK, t)
  {
    var a, b := MarkedSibling(dest, NEW_HELPER_MARK, s), MarkedSibling(dest, STALE_HELPER_MARK, t);
    assert |a| > |dest| && |b| > |dest|;
    assert a[|dest| + 1] == 'n' && b[|dest| + 1] == 's';
  }

  /** The operating system's answers, in the order the steps may ask for them. */
  datatype Answers = Answers(copy: CopyAnswer, over: Answer, moveAside: Answer, intoPlace: Answer, back: Answer,
                             cleanup: Answer)

  /** One refresh: the paths it names and the two helpers. */
  datatype Refresh = Refresh(dest: string, staged: string, aside: string, oldHelper: Option<Bytes>,
                             newHelper: Option<Bytes>, windows: bool) {
    predicate Distinct() {
      dest != staged && dest != aside && staged != aside
    }

    /** The helper path is empty and the old helper is complete beside it. */
    predicate InGap(fs: Files) {
      windows && oldHelper.Some? && Lookup(fs, dest) == None && Lookup(fs, aside) == oldHelper
    }

    /** The helper path holds all of the old or all of the new helper, or is in the one gap Windows has. */
    predicate Whole(fs: Files) {
      Lookup(fs, dest) == oldHelper || Lookup(fs, dest) == newHelper || InGap(fs)
    }

    predicate WholeThroughout(states: seq<Files>, start: nat) {
      forall i :: start <= i < |states| ==> Whole(states[i])
    }

    predicate AtMostOneGap(states: seq<Files>, start: nat) {
      forall i, j :: start <= i < j < |states| && InGap(states[i]) ==> !InGap(states[j])
    }
  }

  /** One more whole state, or none. */
  lemma OneMoreWhole(t: Refresh, before: seq<Files>, after: seq<Files>, start: nat, now: Files)
    requires t.WholeThroughout(before, start) && t.Whole(now)
    requires after == before || after == before + [now]
    ensures t.WholeThroughout(after, start)
  {
  }

  lemma NothingYet(t: Refresh, states: seq<Files>)
    ensures t.WholeThroughout(states, |states|) && t.AtMostOneGap(states, |states|)
  {
  }

  lemma FirstGap(t: Refresh, before: seq<Files>, after: seq<Files>)
    requires |after| <= |before| + 1
    ensures t.AtMostOneGap(after, |before|)
  {
  }

  lemma OneMoreOutsideTheGap(t: Refresh, before: seq<Files>, after: seq<Files>, start: nat, now: Files)
    requires t.AtMostOneGap(before, start) && !t.InGap(now)
    requires after == before || after == before + [now]
    ensures t.AtMostOneGap(after, start)
  {
  }

  lemma WholeBeforeAndAfter(t: Refresh, before: seq<Files>, after: seq<Files>, start: nat)
    requires t.WholeThroughout(before, start) && before <= after && t.WholeThroughout(after, |before|)
    ensures t.WholeThroughout(after, start)
  {
  }

  /** The new helper could not be put into place: the old one goes back, and the staged copy goes. */
  method BackOut(fs: FileSystem, ghost t: Refresh, dest: string, staged: string, aside: string, a: Answers)
    requires fs.Valid() && t.Distinct() && t.windows && t.dest == dest && t.staged == staged && t.aside == aside
    requires t.InGap(fs.files)
    modifies fs
    ensures fs.Valid() && old(fs.history) <= fs.history && t.WholeThroughout(fs.history, |old(fs.history)|)
    ensures Lookup(fs.files, dest) == t.oldHelper || (t.InGap(fs.files) && a.back.Refused?)
    ensures a.cleanup.Done? ==> staged !in fs.files
    ensures SameExcept(fs.files, old(fs.files), {dest, staged, aside})
  {
    var _ := fs.Rename(aside, dest, a.back);
    var _ := fs.Remove(staged, a.cleanup);
  }

  /** The rename over a running helper was refused: move it aside, then the staged copy into place, or back out. */
  method ReplaceRunning(fs: FileSystem, ghost t: Refresh, dest: string, staged: string, aside: string, over: IoError,
                        a: Answers)
    returns (r: Result<HelperRefresh, IoError>)
    requires fs.Valid() && t.Distinct() && t.windows && t.dest == dest && t.staged == staged && t.aside == aside
    requires Lookup(fs.files, dest) == t.oldHelper && Lookup(fs.files, staged) == t.newHelper && t.newHelper.Some?
    modifies fs
    ensures fs.Valid() && old(fs.history) <= fs.history
    ensures t.WholeThroughout(fs.history, |old(fs.history)|)
    ensures r.Ok? <==> t.oldHelper.Some? && a.moveAside.Done? && a.intoPlace.Done?
    ensures r.Ok? ==>
              && r.value == MovedAside(dest, aside)
              && Lookup(fs.files, dest) == t.newHelper && Lookup(fs.files, aside) == t.oldHelper
    ensures r.Ok? ==> staged !in fs.files && t.AtMostOneGap(fs.history, |old(fs.history)|)
    ensures r.Err? ==> Lookup(fs.files, dest) == t.oldHelper || (t.InGap(fs.files) && a.back.Refused?)
    ensures r.Err? && a.cleanup.Done? ==> staged !in fs.files
    ensures r.Err? ==> r.error == if t.oldHelper.Some? && a.moveAside.Done? then a.intoPlace.error
                                  else if a.moveAside.Refused? && IsHelperBusyCode(a.moveAside.error.code, true)
                                  then a.moveAside.error else over
    ensures SameExcept(fs.files, old(fs.files), {dest, staged, aside})
  {
    hide Refresh.WholeThroughout, Refresh.AtMostOneGap;
    ghost var start, h0 := |fs.history|, fs.history;
    NothingYet(t, h0);
    var moved := fs.Rename(dest, aside, a.moveAside);
    ghost var h1 := fs.history;
    OneMoreWhole(t, h0, h1, start, fs.files);
    FirstGap(t, h0, h1);
    if moved.Err? {
      var _ := fs.Remove(staged, a.cleanup);
      OneMoreWhole(t, h1, fs.history, start, fs.files);
      r := Err(if IsHelperBusyCode(moved.error.code, true) then moved.error else over);
    } else {
      var placed := fs.Rename(staged, dest, a.intoPlace);
      ghost var h2 := fs.history;
      OneMoreWhole(t, h1, h2, start, fs.files);
      if placed.Ok? {
        OneMoreOutsideTheGap(t, h1, h2, start, fs.files);
        r := Ok(MovedAside(dest, aside));
      } else {
        BackOut(fs, t, dest, staged, aside, a);
        WholeBeforeAndAfter(t, h2, fs.history, start);
        r := Err(placed.error);
      }
    }
  }

  /** `source` is none of the freshly stamped siblings of `dest`; every other input is allowed, a missing source or
      helper included. */
  method InstallHelperCopyWith(fs: FileSystem, source: string, dest: string, newStamp: string, staleStamp: string,
                               windows: bool, a: Answers)
    returns (r: Result<HelperRefresh, IoError>, ghost t: Refresh)
    requires fs.Valid()
    requires source != MarkedSibling(dest, NEW_HELPER_MARK, newStamp)
    requires source != MarkedSibling(dest, STALE_HELPER_MARK, staleStamp)
    modifies fs
    ensures t == Refresh(dest, MarkedSibling(dest, NEW_HELPER_MARK, newStamp),
                         MarkedSibling(dest, STALE_HELPER_MARK, staleStamp),
                         Lookup(old(fs.files), dest), Lookup(old(fs.files), source), windows)
    ensures fs.Valid() && old(fs.history) <= fs.history
    // At every step on the way the helper is whole, and a success leaves the path empty for at most one step.
    ensures t.WholeThroughout(fs.history, |old(fs.history)|)
    ensures r.Ok? ==> t.AtMostOneGap(fs.history, |old(fs.history)|)
    // Exactly when it succeeds, and what it then leaves.
    ensures r.Ok? <==> t.newHelper.Some? && a.copy.Completes?
                       && (a.over.Done? || (windows && t.oldHelper.Some? && a.moveAside.Done? && a.intoPlace.Done?))
    ensures r.Ok? ==> Lookup(fs.files, dest) == t.newHelper && t.staged !in fs.files
    ensures r.Ok? && r.value.MovedAside? ==> r.value.aside == t.aside && Lookup(fs.files, t.aside) == t.oldHelper
    // A failure leaves the old helper in place, or aside when renaming it back was refused as well.
    ensures r.Err? ==> Lookup(fs.files, dest) == t.oldHelper || (t.InGap(fs.files) && a.back.Refused?)
    ensures r.Err? && a.cleanup.Done? ==> t.staged !in fs.files
    // Which refusal is reported. A refused move aside is reported as itself only when it means "busy".
    ensures r.Err? && t.newHelper == None ==> r.error == NOT_FOUND
    ensures r.Err? && t.newHelper.Some? && !a.copy.Completes? ==> r.error == a.copy.error
    ensures r.Err? && t.newHelper.Some? && a.copy.Completes? && !windows ==> r.error == a.over.error
    ensures r.Err? && t.newHelper.Some? && a.copy.Completes? && windows ==>
              r.error == if t.oldHelper.Some? && a.moveAside.Done? then a.intoPlace.error
                         else if a.moveAside.Refused? && IsHelperBusyCode(a.moveAside.error.code, windows)
                         then a.moveAside.error
                         else a.over.error
    ensures SameExcept(fs.files, old(fs.files), {dest, t.staged, t.aside})
  {
    var staged := MarkedSibling(dest, NEW_HELPER_MARK, newStamp);
    var aside := MarkedSibling(dest, STALE_HELPER_MARK, staleStamp);
    MarkedSiblingsDiffer(dest, newStamp, staleStamp);
    t := Refresh(dest, staged, aside, Lookup(fs.files, dest), Lookup(fs.files, source), windows);
    hide MarkedSibling;

    var copied := fs.Copy(source, staged, a.copy);
    assert t.WholeThroughout(fs.history, |old(fs.history)|) && t.AtMostOneGap(fs.history, |old(fs.history)|);
    if copied.Err? {
      var _ := fs.Remove(staged, a.cleanup);
      r := Err(copied.error);
      return;
    }
    var over := fs.Rename(staged, dest, a.over);
    if over.Ok? {
      r := Ok(Copied(dest));
    } else if !windows {
      var _ := fs.Remove(staged, a.cleanup);
      r := Err(over.error);
    } else {
      r := ReplaceRunning(fs, t, dest, staged, aside, over.error, a);
    }
  }
}
