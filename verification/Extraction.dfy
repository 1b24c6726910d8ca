/** Extracting the verified package over the installed app: the package is checked, then every entry is
    vetted, and only then is anything written. */
module Extraction {
  import opened Wrappers
  import opened Prefixes

  /** A component of a path as written in the package. */
  datatype Component = Normal(name: string) | ParentDir | CurDir | RootDir | DrivePrefix

  datatype Node = Dir | File(data: string)
  type Tree = map<Place, Node>

  /** One zip entry. `readable`: its local header agrees with its directory record; `enclosed`: the path
      the zip library considers safe, if any; `rawName`: the name as stored. */
  datatype Entry = Entry(readable: bool, enclosed: Option<seq<Component>>, rawName: string, isDir: bool, data: string)

  datatype Package = Package(name: seq<Component>, present: bool, sha256: Option<string>, entries: Option<seq<Entry>>)

  datatype Refusal =
    | UnsafePackageName | PackageNotFound | CannotHash | HashMismatch | NotAZip
    | BadEntry(index: nat)
    | CannotWrite(index: nat)

  /** What the disk answers while one entry is written. `dirsBefore`: how far down directories were made before that
      was refused. */
  datatype DiskAnswer = DiskAnswer(reopenOk: bool, mkdirOk: bool, dirsBefore: nat, createOk: bool,
                                   stopsAfter: Option<nat>) {
    predicate AllFine() {
      reopenOk && mkdirOk && createOk && stopsAfter == None
    }
  }

  // ---- Names ----

  function Pushed(out: seq<string>, c: Component): seq<string> {
    match c
    case Normal(n) => out + [n]
    case ParentDir => if out == [] then [] else out[..|out| - 1]
    case _ => out
  }

  function NormalizedFrom(out: seq<string>, p: seq<Component>): seq<string>
    decreases |p|
  {
    if p == [] then out else NormalizedFrom(Pushed(out, p[0]), p[1..])
  }

  method NormalizeRelative(p: seq<Component>) returns (out: seq<string>)
    ensures out == NormalizedFrom([], p)
  {
    out := [];
    for i := 0 to |p|
      invariant NormalizedFrom(out, p[i..]) == NormalizedFrom([], p)
    {
      match p[i] {
        case Normal(n) => out := out + [n];
        case ParentDir => if out != [] { out := out[..|out| - 1]; }
        case CurDir =>
        case RootDir =>
        case DrivePrefix =>
      }
      assert p[i..][1..] == p[i + 1..];
    }
  }

  /** The path below `lib/app`, when there is one. */
  function PayloadPath(p: seq<string>): Option<seq<string>> {
    if |p| > 2 && p[0] == "lib" && p[1] == "app" then Some(p[2..]) else None
  }

  function ForwardSlashes(s: string): string {
    if s == "" then "" else [if s[0] == '\\' then '/' else s[0]] + ForwardSlashes(s[1..])
  }

  predicate IsBareFilename(name: seq<Component>) {
    |name| == 1 && name[0].Normal?
  }

  function LowerAscii(s: string): string {
    if s == "" then ""
    else [if 'A' <= s[0] <= 'Z' then s[0] - 'A' + 'a' else s[0]] + LowerAscii(s[1..])
  }

  predicate Unacceptable(e: Entry) {
    !e.readable || (e.enclosed == None && "lib/app/" <= ForwardSlashes(e.rawName))
  }

  /** Everything that is checked before the first byte is written. */
  predicate Acceptable(pkg: Package, expectedHash: string) {
    && IsBareFilename(pkg.name) && pkg.present
    && pkg.sha256.Some? && LowerAscii(pkg.sha256.value) == LowerAscii(expectedHash)
    && pkg.entries.Some? && forall i :: 0 <= i < |pkg.entries.value| ==> !Unacceptable(pkg.entries.value[i])
  }

  // ---- What each entry contributes ----

  function TargetOf(e: Entry): Option<seq<string>> {
    if e.enclosed == None then None else PayloadPath(NormalizedFrom([], e.enclosed.value))
  }

  /** A vetted entry and where under the app directory it goes. */
  datatype Target = Target(index: nat, relative: seq<string>)

  function TargetsOf(entries: seq<Entry>): (ts: seq<Target>)
    ensures forall k :: 0 <= k < |ts| ==> ts[k].index < |entries| && ts[k].relative != []
    ensures forall k :: 0 <= k < |ts| ==> TargetOf(entries[ts[k].index]) == Some(ts[k].relative)
  {
    if entries == [] then []
    else
      var n := |entries| - 1;
      var before := TargetsOf(entries[..n]);
      if TargetOf(entries[n]).Some? then before + [Target(n, TargetOf(entries[n]).value)] else before
  }

  /** The data the first `k` targets leave at `p`: that of the last file among them that goes there. */
  function LastWrite(entries: seq<Entry>, ts: seq<Target>, current: Place, k: nat, p: Place): Option<string>
    requires k <= |ts|
    requires forall j :: 0 <= j < |ts| ==> ts[j].index < |entries|
  {
    if k == 0 then None
    else if !entries[ts[k - 1].index].isDir && p == current + ts[k - 1].relative then
      Some(entries[ts[k - 1].index].data)
    else LastWrite(entries, ts, current, k - 1, p)
  }

  // ---- Directories ----

  /** Nothing but directories on the way down to `p` was added. */
  ghost predicate DirsAdded(t: Tree, t': Tree, p: Place) {
    && (forall q :: q in t ==> q in t' && t'[q] == t[q])
    && (forall q :: q in t' && q !in t ==> t'[q] == Dir && q <= p)
  }

  /** `create_dir_all`: makes the missing directories from the top, and stops at a file. */
  function WithDirs(t: Tree, p: Place): (r: (Tree, bool))
    ensures DirsAdded(t, r.0, p)
    ensures r.1 ==> p in r.0 && r.0[p] == Dir
    ensures !r.1 ==> exists q :: q <= p && q in r.0 && r.0[q].File?
  {
    if p in t then (t, t[p] == Dir)
    else if p == [] then (t[p := Dir], true)
    else
      var (t1, ok) := WithDirs(t, p[..|p| - 1]);
      if ok then (t1[p := Dir], true) else (t1, false)
  }

  /** A file cannot be written there: a directory is in its place, or a file in the place of one of its directories. */
  ghost predicate Blocked(t: Tree, dest: Place) {
    (dest in t && t[dest] == Dir) || exists q :: q < dest && q in t && t[q].File?
  }

  /** Everything that differs lies below `current`, or is a directory made on the way down to it. */
  ghost predicate Confined(before: Tree, after: Tree, current: Place) {
    && (forall p :: p in before && !(current < p) ==> p in after && after[p] == before[p])
    && (forall p :: p in after && p !in before && !(current < p) ==> after[p] == Dir && p <= current)
  }

  /** The old tree overlaid by the files of the first `k` targets, later ones winning. */
  ghost predicate Overlaid(before: Tree, after: Tree, entries: seq<Entry>, ts: seq<Target>, current: Place, k: nat)
    requires k <= |ts|
    requires forall j :: 0 <= j < |ts| ==> ts[j].index < |entries|
  {
    && (forall p :: LastWrite(entries, ts, current, k, p).Some? ==>
        p in after && after[p] == File(LastWrite(entries, ts, current, k, p).value))
    && (forall p :: p in before && LastWrite(entries, ts, current, k, p) == None ==>
        p in after && after[p] == before[p])
    && (forall p :: p in after && p !in before && LastWrite(entries, ts, current, k, p) == None ==>
          after[p] == Dir && exists j :: 0 <= j < k && p <= current + ts[j].relative)
  }

  class Disk {
    var tree: Tree

    constructor (tree: Tree)
      ensures this.tree == tree
    {
      this.tree := tree;
    }

    method CreateDirAll(p: Place, answer: DiskAnswer)
      modifies this
      ensures DirsAdded(old(tree), tree, p)
      ensures answer.mkdirOk ==> tree == WithDirs(old(tree), p).0
    {
      var upTo := if answer.mkdirOk || answer.dirsBefore >= |p| then p else p[..answer.dirsBefore];
      tree := WithDirs(tree, upTo).0;
      forall q | q in tree && q !in old(tree)
        ensures q <= p
      {
        PrefixTransitive(q, upTo, p);
      }
    }

    /** Creates or truncates a file, then copies `data` into it; the parent must be a directory. */
    method WriteFile(p: Place, data: string, answer: DiskAnswer) returns (ok: bool)
      requires p != []
      modifies this
      ensures ok ==> tree == old(tree)[p := File(data)]
      ensures !ok && answer.stopsAfter == None ==> tree == old(tree)
      ensures !ok ==> tree == old(tree) || exists d :: tree == old(tree)[p := File(d)]
      ensures ok <==> answer.createOk && answer.stopsAfter == None
                      && p[..|p| - 1] in old(tree) && old(tree)[p[..|p| - 1]] == Dir
                      && (p in old(tree) ==> old(tree)[p] != Dir)
    {
      var parent := p[..|p| - 1];
      if !answer.createOk || parent !in tree || tree[parent] != Dir || (p in tree && tree[p] == Dir) {
        return false;
      }
      if answer.stopsAfter.Some? {
        var n := answer.stopsAfter.value;
        tree := tree[p := File(if n <= |data| then data[..n] else data)];
        return false;
      }
      tree := tree[p := File(data)];
      return true;
    }
  }

  // ---- The two passes ----

  /** Pass one only looks: it refuses at the first unacceptable entry, and otherwise lists the payload. */
  method VetEntries(entries: seq<Entry>) returns (r: Result<seq<Target>, Refusal>)
    ensures r.Err? <==> exists i :: 0 <= i < |entries| && Unacceptable(entries[i])
    ensures r.Err? ==> r.error.BadEntry? && r.error.index < |entries| && Unacceptable(entries[r.error.index])
    ensures r.Ok? ==> r.value == TargetsOf(entries)
  {
    hide NormalizedFrom, PayloadPath, ForwardSlashes;
    var ts := [];
    for i := 0 to |entries|
      invariant forall j :: 0 <= j < i ==> !Unacceptable(entries[j])
      invariant ts == TargetsOf(entries[..i])
    {
      var e := entries[i];
      assert entries[..i + 1][..i] == entries[..i];
      if !e.readable {
        return Err(BadEntry(i));
      }
      if e.enclosed == None {
        if "lib/app/" <= ForwardSlashes(e.rawName) {
          return Err(BadEntry(i));
        }
      } else {
        var normalized := NormalizeRelative(e.enclosed.value);
        var relative := PayloadPath(normalized);
        if relative.Some? {
          ts := ts + [Target(i, relative.value)];
        }
      }
    }
    assert entries[..|entries|] == entries;
    return Ok(ts);
  }

  lemma DirsKeepConfined(before: Tree, t: Tree, t': Tree, current: Place, p: Place, relative: seq<string>)
    requires Confined(before, t, current)
    requires DirsAdded(t, t', p) && p <= current + relative
    ensures Confined(before, t', current)
  {
    forall q | q in t' && q !in before && !(current < q)
      ensures t'[q] == Dir && q <= current
    {
      if q !in t {
        assert q <= current + relative;
        PrefixesCompare(q, current, current + relative);
      }
    }
  }

  lemma DirTargetOverlays(before: Tree, t: Tree, t': Tree, entries: seq<Entry>, ts: seq<Target>, current: Place, k: nat)
    requires k < |ts| && forall j :: 0 <= j < |ts| ==> ts[j].index < |entries|
    requires Overlaid(before, t, entries, ts, current, k) && entries[ts[k].index].isDir
    requires DirsAdded(t, t', current + ts[k].relative)
    ensures Overlaid(before, t', entries, ts, current, k + 1)
  {
    forall p
      ensures LastWrite(entries, ts, current, k + 1, p) == LastWrite(entries, ts, current, k, p)
    {
    }
  }

  lemma WriteOfFile(entries: seq<Entry>, ts: seq<Target>, current: Place, k: nat, p: Place)
    requires k < |ts| && forall j :: 0 <= j < |ts| ==> ts[j].index < |entries|
    requires !entries[ts[k].index].isDir
    ensures LastWrite(entries, ts, current, k + 1, p) ==
            if p == current + ts[k].relative then Some(entries[ts[k].index].data)
            else LastWrite(entries, ts, current, k, p)
  {
  }

  lemma FileTargetOverlays(before: Tree, t: Tree, t': Tree, entries: seq<Entry>, ts: seq<Target>, current: Place,
                           k: nat)
    requires k < |ts| && forall j :: 0 <= j < |ts| ==> ts[j].index < |entries|
    requires Overlaid(before, t, entries, ts, current, k) && !entries[ts[k].index].isDir
    requires DirsAdded(t, t', current + ts[k].relative)
    ensures Overlaid(before, t'[current + ts[k].relative := File(entries[ts[k].index].data)], entries, ts, current,
                     k + 1)
  {
    hide LastWrite;
    var dest, data, n := current + ts[k].relative, entries[ts[k].index].data, k + 1;
    var after := t'[dest := File(data)];
    forall p
      ensures LastWrite(entries, ts, current, n, p) ==
              if p == dest then Some(data) else LastWrite(entries, ts, current, k, p)
    {
      WriteOfFile(entries, ts, current, k, p);
    }
    forall p | p in after && p !in before && LastWrite(entries, ts, current, n, p) == None
      ensures after[p] == Dir && exists j :: 0 <= j < n && p <= current + ts[j].relative
    {
      if p !in t {
        assert p <= current + ts[k].relative;
      }
    }
  }

  lemma OverlaidAtFirst(t: Tree, entries: seq<Entry>, ts: seq<Target>, current: Place)
    requires forall j :: 0 <= j < |ts| ==> ts[j].index < |entries|
    ensures Overlaid(t, t, entries, ts, current, 0)
  {
  }

  lemma ConfinedAtFirst(t: Tree, current: Place)
    ensures Confined(t, t, current)
  {
  }

  lemma FileKeepsConfined(before: Tree, t: Tree, current: Place, dest: Place)
    requires Confined(before, t, current) && current < dest
    ensures forall d :: Confined(before, t[dest := File(d)], current)
  {
  }

  // ---- Which payloads fit which trees ----

  /** Every entry of the tree hangs under a directory. */
  ghost predicate Rooted(t: Tree) {
    forall p :: p in t && p != [] ==> p[..|p| - 1] in t && t[p[..|p| - 1]] == Dir
  }

  predicate Indexed(entries: seq<Entry>, ts: seq<Target>) {
    forall j :: 0 <= j < |ts| ==> ts[j].index < |entries|
  }

  predicate IsFile(entries: seq<Entry>, ts: seq<Target>, k: nat)
    requires Indexed(entries, ts) && k < |ts|
  {
    !entries[ts[k].index].isDir
  }

  /** A file stands at `p` before target `k` is written: it was there, or an earlier target put it there. */
  predicate FileBefore(t: Tree, entries: seq<Entry>, ts: seq<Target>, current: Place, k: nat, p: Place)
    requires Indexed(entries, ts) && k <= |ts|
  {
    (p in t && t[p].File?) || LastWrite(entries, ts, current, k, p).Some?
  }

  /** Target `k` is in nobody's way: no directory stands at its place and no file above it, no other file of the
      payload goes above it, and no earlier directory of the payload goes to its place or below, unless a file keeps
      that one out. */
  ghost predicate FitsAt(t: Tree, entries: seq<Entry>, ts: seq<Target>, current: Place, k: nat)
    requires Indexed(entries, ts) && k < |ts|
  {
    var dest := current + ts[k].relative;
    && (dest in t ==> t[dest].File?)
    && (forall q :: q in t && q < dest ==> t[q] == Dir)
    && (forall j :: 0 <= j < |ts| && IsFile(entries, ts, j) ==> !(current + ts[j].relative < dest))
    && (forall j :: 0 <= j < k && !IsFile(entries, ts, j) && dest <= current + ts[j].relative ==>
        FileBefore(t, entries, ts, current, j, dest))
  }

  /** The payload clashes neither with the tree nor with itself. */
  ghost predicate Fits(t: Tree, entries: seq<Entry>, ts: seq<Target>, current: Place)
    requires Indexed(entries, ts)
  {
    forall k :: 0 <= k < |ts| && IsFile(entries, ts, k) ==> FitsAt(t, entries, ts, current, k)
  }

  ghost predicate Willing(answers: nat -> DiskAnswer) {
    forall k :: answers(k).AllFine()
  }

  lemma {:induction false} LastWriteMeans(entries: seq<Entry>, ts: seq<Target>, current: Place, k: nat, p: Place)
    requires Indexed(entries, ts) && k <= |ts|
    ensures LastWrite(entries, ts, current, k, p).Some? <==>
            exists i :: 0 <= i < k && IsFile(entries, ts, i) && current + ts[i].relative == p
  {
    if k > 0 {
      LastWriteMeans(entries, ts, current, k - 1, p);
      if IsFile(entries, ts, k - 1) && current + ts[k - 1].relative == p {
      } else if LastWrite(entries, ts, current, k, p).Some? {
        var i :| 0 <= i < k - 1 && IsFile(entries, ts, i) && current + ts[i].relative == p;
      }
    }
  }

  /** A target that turns out blocked shows that the payload does not fit. */
  lemma BlockedDoesNotFit(before: Tree, t: Tree, entries: seq<Entry>, ts: seq<Target>, current: Place, k: nat)
    requires Indexed(entries, ts) && k < |ts| && IsFile(entries, ts, k)
    requires Overlaid(before, t, entries, ts, current, k) && Blocked(t, current + ts[k].relative)
    ensures !Fits(before, entries, ts, current)
  {
    hide LastWrite;
    var dest := current + ts[k].relative;
    LastWriteMeans(entries, ts, current, k, dest);
    if dest in t && t[dest] == Dir {
      if dest in before {
        assert !FitsAt(before, entries, ts, current, k);
      } else {
        var j :| 0 <= j < k && dest <= current + ts[j].relative;
        LastWriteMeans(entries, ts, current, j, dest);
        assert IsFile(entries, ts, j) ==> !FitsAt(before, entries, ts, current, j);
        assert !IsFile(entries, ts, j) ==> !FitsAt(before, entries, ts, current, k);
      }
    } else {
      var q :| q < dest && q in t && t[q].File?;
      LastWriteMeans(entries, ts, current, k, q);
      assert !FitsAt(before, entries, ts, current, k);
    }
  }

  lemma {:induction false} AncestorsAreDirs(t: Tree, q: Place, p: Place)
    requires Rooted(t) && p in t && q < p
    ensures q in t && t[q] == Dir
    decreases |p|
  {
    var parent := p[..|p| - 1];
    if q != parent {
      assert q == p[..|q|] && parent[..|q|] == p[..|q|];
      AncestorsAreDirs(t, q, parent);
    }
  }

  lemma {:induction false} WithDirsRooted(t: Tree, target: Place)
    requires Rooted(t)
    ensures Rooted(WithDirs(t, target).0)
  {
    if target !in t && target != [] {
      WithDirsRooted(t, target[..|target| - 1]);
    }
  }

  /** How far `create_dir_all` gets: every directory on the way, or up to the first file in it. */
  lemma {:induction false} WithDirsReaches(t: Tree, target: Place, p: Place)
    requires Rooted(t) && p <= target
    ensures || (p in WithDirs(t, target).0 && WithDirs(t, target).0[p] == Dir)
            || exists q :: q <= p && q in t && t[q].File?
    decreases |target|
  {
    hide Rooted;
    if target in t {
      if p != target {
        AncestorsAreDirs(t, p, target);
      }
    } else if target != [] {
      var parent := target[..|target| - 1];
      var (t1, ok) := WithDirs(t, parent);
      if p != target {
        assert p <= parent;
        WithDirsReaches(t, parent, p);
      } else if !ok {
        var q :| q <= parent && q in t1 && t1[q].File?;
        PrefixTransitive(q, parent, target);
      }
    }
  }

  /** Each directory target seen so far is there down to its end, unless a file kept it out. */
  ghost predicate DirsReached(before: Tree, t: Tree, entries: seq<Entry>, ts: seq<Target>, current: Place, k: nat)
    requires Indexed(entries, ts) && k <= |ts|
  {
    forall j, p :: 0 <= j < k && !IsFile(entries, ts, j) && p <= current + ts[j].relative ==>
      (p in t && t[p] == Dir) || exists q :: q <= p && FileBefore(before, entries, ts, current, j, q)
  }

  ghost predicate DirsStay(t: Tree, t': Tree) {
    forall p :: p in t && t[p] == Dir ==> p in t' && t'[p] == Dir
  }

  lemma FilesAreBefore(before: Tree, t: Tree, entries: seq<Entry>, ts: seq<Target>, current: Place, k: nat, q: Place)
    requires Indexed(entries, ts) && k <= |ts| && Overlaid(before, t, entries, ts, current, k)
    ensures q in t && t[q].File? <==> FileBefore(before, entries, ts, current, k, q)
  {
    hide LastWrite;
  }

  lemma DirTargetReaches(before: Tree, t: Tree, entries: seq<Entry>, ts: seq<Target>, current: Place, k: nat)
    requires Indexed(entries, ts) && k < |ts| && !IsFile(entries, ts, k)
    requires Rooted(t) && Overlaid(before, t, entries, ts, current, k)
           && DirsReached(before, t, entries, ts, current, k)
    ensures DirsReached(before, WithDirs(t, current + ts[k].relative).0, entries, ts, current, k + 1)
  {
    hide LastWrite, Overlaid, FileBefore, WithDirs, Rooted;
    var dest := current + ts[k].relative;
    var t' := WithDirs(t, dest).0;
    forall p | p <= dest
      ensures (p in t' && t'[p] == Dir) || exists q :: q <= p && FileBefore(before, entries, ts, current, k, q)
    {
      WithDirsReaches(t, dest, p);
      if !(p in t' && t'[p] == Dir) {
        var q :| q <= p && q in t && t[q].File?;
        FilesAreBefore(before, t, entries, ts, current, k, q);
      }
    }
  }

  lemma WrittenIsFile(before: Tree, after: Tree, entries: seq<Entry>, ts: seq<Target>, current: Place, k: nat)
    requires Indexed(entries, ts) && Overlaid(before, after, entries, ts, current, |ts|)
    requires k < |ts| && IsFile(entries, ts, k)
    ensures current + ts[k].relative in after && after[current + ts[k].relative].File?
  {
    LastWriteMeans(entries, ts, current, |ts|, current + ts[k].relative);
  }

  lemma EarlierFileStays(before: Tree, after: Tree, entries: seq<Entry>, ts: seq<Target>, current: Place, j: nat,
                         q: Place)
    requires Indexed(entries, ts) && Overlaid(before, after, entries, ts, current, |ts|) && j <= |ts|
    ensures FileBefore(before, entries, ts, current, j, q) ==> q in after && after[q].File?
    ensures q in before && before[q].File? ==> q in after && after[q].File?
  {
    LastWriteMeans(entries, ts, current, j, q);
    LastWriteMeans(entries, ts, current, |ts|, q);
    hide LastWrite;
  }

  lemma WrittenFitsAt(before: Tree, after: Tree, entries: seq<Entry>, ts: seq<Target>, current: Place, k: nat)
    requires Indexed(entries, ts) && Overlaid(before, after, entries, ts, current, |ts|)
    requires Rooted(after) && DirsStay(before, after) && DirsReached(before, after, entries, ts, current, |ts|)
    requires k < |ts| && IsFile(entries, ts, k)
    ensures FitsAt(before, entries, ts, current, k)
  {
    hide LastWrite, Overlaid, FileBefore;
    var dest := current + ts[k].relative;
    WrittenIsFile(before, after, entries, ts, current, k);
    forall q | q in before && q < dest
      ensures before[q] == Dir
    {
      AncestorsAreDirs(after, q, dest);
      EarlierFileStays(before, after, entries, ts, current, 0, q);
    }
    forall j | 0 <= j < |ts| && IsFile(entries, ts, j)
      ensures !(current + ts[j].relative < dest)
    {
      WrittenIsFile(before, after, entries, ts, current, j);
      if current + ts[j].relative < dest {
        AncestorsAreDirs(after, current + ts[j].relative, dest);
      }
    }
    forall j | 0 <= j < k && !IsFile(entries, ts, j) && dest <= current + ts[j].relative
      ensures FileBefore(before, entries, ts, current, j, dest)
    {
      var q :| q <= dest && FileBefore(before, entries, ts, current, j, q);
      EarlierFileStays(before, after, entries, ts, current, j, q);
      if q != dest {
        AncestorsAreDirs(after, q, dest);
      }
    }
  }

  /** Success shows that the payload fitted. */
  lemma WrittenFits(before: Tree, after: Tree, entries: seq<Entry>, ts: seq<Target>, current: Place)
    requires Indexed(entries, ts) && Overlaid(before, after, entries, ts, current, |ts|)
    requires Rooted(after) && DirsStay(before, after) && DirsReached(before, after, entries, ts, current, |ts|)
    ensures Fits(before, entries, ts, current)
  {
    forall k | 0 <= k < |ts| && IsFile(entries, ts, k)
      ensures FitsAt(before, entries, ts, current, k)
    {
      WrittenFitsAt(before, after, entries, ts, current, k);
    }
  }

  lemma BlockedEarlier(t: Tree, t': Tree, parent: Place, dest: Place)
    requires DirsAdded(t, t', parent) && parent < dest && Blocked(t', dest)
    ensures Blocked(t, dest)
  {
    if !(dest in t' && t'[dest] == Dir) {
      var q :| q < dest && q in t' && t'[q].File?;
      assert q in t && t[q].File?;
    }
  }

  lemma RefusedIsBlocked(t: Tree, t': Tree, parent: Place, dest: Place)
    requires dest != [] && parent == dest[..|dest| - 1] && t' == WithDirs(t, parent).0
    requires parent !in t' || t'[parent] != Dir || (dest in t' && t'[dest] == Dir)
    ensures Blocked(t', dest)
  {
    if !WithDirs(t, parent).1 {
      var q :| q <= parent && q in t' && t'[q].File?;
      assert q < dest;
    }
  }

  /** What a run on a willing disk keeps. */
  ghost predicate Tracked(before: Tree, t: Tree, entries: seq<Entry>, ts: seq<Target>, current: Place, k: nat)
    requires Indexed(entries, ts) && k <= |ts|
  {
    Rooted(t) && DirsStay(before, t) && DirsReached(before, t, entries, ts, current, k)
  }

  lemma FittedAfterAll(before: Tree, after: Tree, entries: seq<Entry>, ts: seq<Target>, current: Place)
    requires Indexed(entries, ts) && Overlaid(before, after, entries, ts, current, |ts|)
    requires Tracked(before, after, entries, ts, current, |ts|)
    ensures Fits(before, entries, ts, current)
  {
    WrittenFits(before, after, entries, ts, current);
  }

  lemma TrackedAtFirst(t: Tree, entries: seq<Entry>, ts: seq<Target>, current: Place)
    requires Indexed(entries, ts) && Rooted(t)
    ensures Tracked(t, t, entries, ts, current, 0)
  {
  }

  lemma DirTargetTracked(before: Tree, t: Tree, entries: seq<Entry>, ts: seq<Target>, current: Place, k: nat)
    requires Indexed(entries, ts) && k < |ts| && !IsFile(entries, ts, k)
    requires Overlaid(before, t, entries, ts, current, k) && Tracked(before, t, entries, ts, current, k)
    ensures Tracked(before, WithDirs(t, current + ts[k].relative).0, entries, ts, current, k + 1)
  {
    hide Overlaid, Rooted, DirsReached;
    DirTargetReaches(before, t, entries, ts, current, k);
    WithDirsRooted(t, current + ts[k].relative);
  }

  lemma WriteKeepsRooted(t: Tree, dest: Place, file: Node)
    requires Rooted(t) && dest != [] && file.File?
    requires dest[..|dest| - 1] in t && t[dest[..|dest| - 1]] == Dir && (dest in t ==> t[dest] != Dir)
    ensures Rooted(t[dest := file]) && DirsStay(t, t[dest := file])
  {
  }

  lemma ReachedStays(before: Tree, t: Tree, t': Tree, entries: seq<Entry>, ts: seq<Target>, current: Place, k: nat)
    requires Indexed(entries, ts) && k < |ts| && IsFile(entries, ts, k)
    requires DirsReached(before, t, entries, ts, current, k) && DirsStay(t, t')
    ensures DirsReached(before, t', entries, ts, current, k + 1)
  {
    hide FileBefore;
  }

  lemma AddedStay(before: Tree, t: Tree, t': Tree, p: Place, after: Tree)
    requires DirsStay(before, t) && DirsAdded(t, t', p) && DirsStay(t', after)
    ensures DirsStay(t, after) && DirsStay(before, after)
  {
  }

  lemma FileTargetTracked(before: Tree, t: Tree, t': Tree, entries: seq<Entry>, ts: seq<Target>, current: Place,
                          k: nat, file: Node)
    requires Indexed(entries, ts) && k < |ts| && IsFile(entries, ts, k) && file.File?
    requires Tracked(before, t, entries, ts, current, k)
    requires var dest := current + ts[k].relative;
             && dest != [] && t' == WithDirs(t, dest[..|dest| - 1]).0
             && dest[..|dest| - 1] in t' && t'[dest[..|dest| - 1]] == Dir && (dest in t' ==> t'[dest] != Dir)
    ensures Tracked(before, t'[current + ts[k].relative := file], entries, ts, current, k + 1)
  {
    var dest := current + ts[k].relative;
    WithDirsRooted(t, dest[..|dest| - 1]);
    hide FileBefore, WithDirs, Rooted, DirsReached, DirsStay;
    WriteKeepsRooted(t', dest, file);
    AddedStay(before, t, t', dest[..|dest| - 1], t'[dest := file]);
    ReachedStays(before, t, t'[dest := file], entries, ts, current, k);
  }

  /** One file of the payload: its directories, then the file. */
  method WriteTarget(disk: Disk, ghost before: Tree, current: Place, entries: seq<Entry>, ts: seq<Target>, k: nat,
                     answer: DiskAnswer)
    returns (ok: bool)
    requires Indexed(entries, ts) && k < |ts| && IsFile(entries, ts, k) && ts[k].relative != []
    requires Confined(before, disk.tree, current) && Overlaid(before, disk.tree, entries, ts, current, k)
    modifies disk
    ensures Confined(before, disk.tree, current)
    ensures ok ==> Overlaid(before, disk.tree, entries, ts, current, k + 1)
    ensures !ok && answer.AllFine() ==>
            Blocked(disk.tree, current + ts[k].relative) && !Fits(before, entries, ts, current)
    ensures ok && answer.AllFine() && Tracked(before, old(disk.tree), entries, ts, current, k) ==>
              Tracked(before, disk.tree, entries, ts, current, k + 1)
  {
    hide Overlaid, LastWrite, WithDirs, Confined, Fits, Tracked, Blocked;
    var dest, data := current + ts[k].relative, entries[ts[k].index].data;
    var parent := dest[..|dest| - 1];
    ghost var t := disk.tree;
    disk.CreateDirAll(parent, answer);
    ghost var t' := disk.tree;
    DirsKeepConfined(before, t, t', current, parent, ts[k].relative);
    FileTargetOverlays(before, t, t', entries, ts, current, k);
    FileKeepsConfined(before, t', current, dest);
    ok := disk.WriteFile(dest, data, answer);
    if !ok && answer.AllFine() {
      RefusedIsBlocked(t, t', parent, dest);
      BlockedEarlier(t, t', parent, dest);
      BlockedDoesNotFit(before, t, entries, ts, current, k);
    } else if answer.AllFine() && Tracked(before, t, entries, ts, current, k) {
      FileTargetTracked(before, t, t', entries, ts, current, k, File(data));
    }
  }

  /** One directory of the payload; that it could not be made is ignored. */
  method MakeTarget(disk: Disk, ghost before: Tree, current: Place, entries: seq<Entry>, ts: seq<Target>, k: nat,
                    answer: DiskAnswer)
    requires Indexed(entries, ts) && k < |ts| && !IsFile(entries, ts, k)
    requires Confined(before, disk.tree, current) && Overlaid(before, disk.tree, entries, ts, current, k)
    modifies disk
    ensures Confined(before, disk.tree, current) && Overlaid(before, disk.tree, entries, ts, current, k + 1)
    ensures answer.AllFine() && Tracked(before, old(disk.tree), entries, ts, current, k) ==>
              Tracked(before, disk.tree, entries, ts, current, k + 1)
  {
    hide Overlaid, LastWrite, WithDirs, Confined, Tracked;
    ghost var t := disk.tree;
    disk.CreateDirAll(current + ts[k].relative, answer);
    DirsKeepConfined(before, t, disk.tree, current, current + ts[k].relative, ts[k].relative);
    DirTargetOverlays(before, t, disk.tree, entries, ts, current, k);
    if answer.AllFine() && Tracked(before, t, entries, ts, current, k) {
      DirTargetTracked(before, t, entries, ts, current, k);
    }
  }

  method WritePayload(disk: Disk, current: Place, entries: seq<Entry>, ts: seq<Target>, answers: nat -> DiskAnswer)
    returns (r: Result<(), Refusal>)
    requires ts == TargetsOf(entries)
    modifies disk
    ensures Confined(old(disk.tree), disk.tree, current)
    ensures r.Ok? ==> Overlaid(old(disk.tree), disk.tree, entries, ts, current, |ts|)
    ensures r.Err? ==> r.error.CannotWrite?
    ensures r.Err? && (forall k :: answers(k).AllFine()) ==>
              exists k :: 0 <= k < |ts| && Blocked(disk.tree, current + ts[k].relative)
    // On a willing disk a payload that fits the old tree is written, and only such a one.
    ensures Willing(answers) && Fits(old(disk.tree), entries, ts, current) ==> r.Ok?
    ensures Willing(answers) && Rooted(old(disk.tree)) ==> (r.Ok? <==> Fits(old(disk.tree), entries, ts, current))
  {
    ghost var tracked := Willing(answers) && Rooted(disk.tree);
    if tracked {
      TrackedAtFirst(disk.tree, entries, ts, current);
    }
    hide Overlaid, LastWrite, TargetOf, WithDirs, Confined, Fits, Tracked, Rooted, Blocked, TargetsOf;
    OverlaidAtFirst(disk.tree, entries, ts, current);
    ConfinedAtFirst(disk.tree, current);
    for k := 0 to |ts|
      invariant Confined(old(disk.tree), disk.tree, current)
      invariant Overlaid(old(disk.tree), disk.tree, entries, ts, current, k)
      invariant tracked ==> Tracked(old(disk.tree), disk.tree, entries, ts, current, k)
    {
      var i := ts[k].index;
      var answer := answers(k);
      if !answer.reopenOk {
        return Err(CannotWrite(i));
      }
      if entries[i].isDir {
        MakeTarget(disk, old(disk.tree), current, entries, ts, k, answer);
      } else {
        var ok := WriteTarget(disk, old(disk.tree), current, entries, ts, k, answer);
        if !ok {
          return Err(CannotWrite(i));
        }
      }
    }
    if tracked {
      FittedAfterAll(old(disk.tree), disk.tree, entries, ts, current);
    }
    return Ok(());
  }

  /** `find_and_extract_nupkg`. `expectedHash` is the manifest's checksum without surrounding blanks. */
  method FindAndExtract(disk: Disk, current: Place, pkg: Package, expectedHash: string, version: string,
                        answers: nat -> DiskAnswer)
    returns (r: Result<string, Refusal>)
    modifies disk
    // Anything refused before the second pass leaves the disk alone; the second pass stays inside the app directory.
    ensures !Acceptable(pkg, expectedHash) ==> r.Err? && !r.error.CannotWrite? && disk.tree == old(disk.tree)
    ensures Acceptable(pkg, expectedHash) ==> r.Ok? || r.error.CannotWrite?
    ensures Confined(old(disk.tree), disk.tree, current)
    // Success is the old tree overlaid by exactly the payload.
    ensures r.Ok? ==> Acceptable(pkg, expectedHash) && r.value == version
                      && Overlaid(old(disk.tree), disk.tree, pkg.entries.value, TargetsOf(pkg.entries.value), current,
                                  |TargetsOf(pkg.entries.value)|)
    // With a willing disk only a clash between a file and a directory stops it.
    ensures r.Err? && Acceptable(pkg, expectedHash) && (forall k :: answers(k).AllFine()) ==>
              exists k :: 0 <= k < |TargetsOf(pkg.entries.value)|
                && Blocked(disk.tree, current + TargetsOf(pkg.entries.value)[k].relative)
    // There it succeeds exactly when the payload fits the old tree.
    ensures Acceptable(pkg, expectedHash) && Willing(answers) && Rooted(old(disk.tree)) ==>
              (r.Ok? <==> Fits(old(disk.tree), pkg.entries.value, TargetsOf(pkg.entries.value), current))
  {
    hide Overlaid, LastWrite, TargetOf, Fits, Rooted, Willing;
    if !IsBareFilename(pkg.name) {
      return Err(UnsafePackageName);
    }
    if !pkg.present {
      return Err(PackageNotFound);
    }
    if pkg.sha256 == None {
      return Err(CannotHash);
    }
    if LowerAscii(pkg.sha256.value) != LowerAscii(expectedHash) {
      return Err(HashMismatch);
    }
    if pkg.entries == None {
      return Err(NotAZip);
    }
    var vetted := VetEntries(pkg.entries.value);
    if vetted.Err? {
      return Err(vetted.error);
    }
    var written := WritePayload(disk, current, pkg.entries.value, vetted.value, answers);
    if written.Err? {
      return Err(written.error);
    }
    return Ok(version);
  }

  // ---- What the payload is ----

  lemma {:induction false} TargetsIncrease(entries: seq<Entry>)
    ensures forall j, k :: 0 <= j < k < |TargetsOf(entries)| ==>
            TargetsOf(entries)[j].index < TargetsOf(entries)[k].index
  {
    if entries != [] {
      hide TargetOf;
      TargetsIncrease(entries[..|entries| - 1]);
    }
  }

  /** The targets are exactly the entries below `lib/app`, in package order. */
  lemma {:induction false} TargetsAreThePayload(entries: seq<Entry>, i: nat)
    requires i < |entries|
    ensures TargetOf(entries[i]).Some? <==>
            exists k :: 0 <= k < |TargetsOf(entries)| && TargetsOf(entries)[k].index == i
    ensures forall j, k :: 0 <= j < k < |TargetsOf(entries)| ==>
            TargetsOf(entries)[j].index < TargetsOf(entries)[k].index
  {
    hide TargetOf;
    var n := |entries| - 1;
    var before := TargetsOf(entries[..n]);
    TargetsIncrease(entries);
    if i < n {
      TargetsAreThePayload(entries[..n], i);
      assert entries[..n][i] == entries[i];
      if TargetOf(entries[i]).Some? {
        var k :| 0 <= k < |before| && before[k].index == i;
        assert TargetsOf(entries)[k] == before[k];
      }
    } else if TargetOf(entries[n]).Some? {
      assert TargetsOf(entries)[|before|].index == n;
    }
  }

  lemma {:induction false} NormalizedConcat(out: seq<string>, p: seq<Component>, q: seq<Component>)
    ensures NormalizedFrom(out, p + q) == NormalizedFrom(NormalizedFrom(out, p), q)
    decreases |p|
  {
    if p == [] {
      assert p + q == q;
    } else {
      assert (p + q)[1..] == p[1..] + q;
      NormalizedConcat(Pushed(out, p[0]), p[1..], q);
    }
  }

  /** A component and the `..` after it cancel wherever they stand, so the prefix test never sees a path that climbs
      later. */
  lemma InteriorParentCancels(out: seq<string>, p: seq<Component>, name: string, q: seq<Component>)
    ensures NormalizedFrom(out, p + [Normal(name), ParentDir] + q) == NormalizedFrom(out, p + q)
  {
    var mid, pair := NormalizedFrom(out, p), [Normal(name), ParentDir];
    NormalizedConcat(out, p + pair, q);
    NormalizedConcat(out, p, pair);
    NormalizedConcat(out, p, q);
    assert pair[1..] == [ParentDir] && pair[1..][1..] == [];
    assert (mid + [name])[..|mid|] == mid;
    assert NormalizedFrom(mid, pair) == NormalizedFrom(mid + [name], pair[1..]);
  }
}
