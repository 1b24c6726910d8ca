/** The root launcher's check of its dependencies tree: every entry must be exclusively root's and no
    symlink may lead out. Links are judged by their text; whether that keeps real path resolution
    inside the tree is what is settled here. */
module TrustGuard {
  import opened Wrappers
  import opened Prefixes

  datatype Component = Root | Cur | Up | Normal(name: string)

  datatype Node = Dir | File | Link(target: seq<Component>)
  datatype Meta = Meta(uid: nat, mode: nat, node: Node)
  type FileTree = map<Place, Meta>

  function Parent(p: Place): Place {
    if p == [] then [] else p[..|p| - 1]
  }

  /** Every entry hangs under a directory. */
  ghost predicate WellFormed(fs: FileTree) {
    forall p :: p in fs && p != [] ==> Parent(p) in fs && fs[Parent(p)].node == Dir
  }

  predicate IsLink(fs: FileTree, p: Place) {
    p in fs && fs[p].node.Link?
  }

  // ---- Lexical normalisation ----

  function Lexical(cur: Place, t: seq<Component>): Place
    decreases |t|
  {
    if t == [] then cur
    else
      Lexical(match t[0] case Root => [] case Cur => cur case Up => Parent(cur) case Normal(n) => cur + [n], t[1..])
  }

  /** `normalize(base.join(target))`, with its mutable result. */
  method Normalize(base: Place, target: seq<Component>) returns (out: Place)
    ensures out == Lexical(base, target)
  {
    out := base;
    for i := 0 to |target|
      invariant Lexical(out, target[i..]) == Lexical(base, target)
    {
      match target[i] {
        case Root => out := [];
        case Cur =>
        case Up => if out != [] { out := out[..|out| - 1]; }
        case Normal(n) => out := out + [n];
      }
      assert target[i..][1..] == target[i + 1..];
    }
  }

  // ---- The check of one entry ----

  datatype Reason = WrongOwner(path: Place) | RootIsSymlink(path: Place) | LeavesTree(path: Place)
    | Writable(path: Place)

  /** `mode & 0o022 != 0` */
  predicate GroupOrOtherWritable(mode: nat) {
    mode / 16 % 2 == 1 || mode / 2 % 2 == 1
  }

  function UnsafeReason(path: Place, m: Meta, root: Place, ownerUid: nat): Option<Reason> {
    if m.uid != ownerUid then Some(WrongOwner(path))
    else if m.node.Link? then
      if path == root then Some(RootIsSymlink(path))
      else if root <= Lexical(if path == [] then root else Parent(path), m.node.target) then None
      else Some(LeavesTree(path))
    else if GroupOrOtherWritable(m.mode) then Some(Writable(path))
    else None
  }

  ghost predicate Passes(fs: FileTree, root: Place, ownerUid: nat, p: Place)
    requires p in fs
  {
    UnsafeReason(p, fs[p], root, ownerUid) == None
  }

  ghost predicate WholeTreePasses(fs: FileTree, root: Place, ownerUid: nat) {
    forall p :: p in fs && root <= p ==> Passes(fs, root, ownerUid, p)
  }

  // ---- The walk ----

  datatype WalkError = CannotRead(path: Place)

  predicate IsChild(p: Place, c: Place) {
    |c| == |p| + 1 && c[..|p|] == p
  }

  ghost predicate Pending(stack: seq<Place>, p: Place) {
    exists i :: 0 <= i < |stack| && stack[i] <= p
  }

  ghost function PendingSet(fs: FileTree, stack: seq<Place>): set<Place> {
    set p | p in fs && Pending(stack, p)
  }

  ghost predicate Antichain(stack: seq<Place>) {
    forall i, j :: 0 <= i < |stack| && 0 <= j < |stack| && i != j ==> !(stack[i] <= stack[j])
  }

  lemma {:induction false} AncestorsAreDirs(fs: FileTree, q: Place, p: Place)
    requires WellFormed(fs) && p in fs && q < p
    ensures q in fs && fs[q].node == Dir
    decreases |p|
  {
    if q != Parent(p) {
      assert q == p[..|q|] && Parent(p)[..|q|] == p[..|q|];
      AncestorsAreDirs(fs, q, Parent(p));
    }
  }

  /** `read_dir`, in whatever order. */
  method Children(fs: FileTree, p: Place) returns (cs: seq<Place>)
    ensures forall c :: c in cs <==> c in fs && IsChild(p, c)
    ensures forall i, j :: 0 <= i < j < |cs| ==> cs[i] != cs[j]
  {
    var todo := set c | c in fs && IsChild(p, c);
    cs := [];
    while todo != {}
      invariant forall c :: c in fs && IsChild(p, c) <==> c in todo || c in cs
      invariant forall i :: 0 <= i < |cs| ==> cs[i] !in todo
      invariant forall i, j :: 0 <= i < j < |cs| ==> cs[i] != cs[j]
      decreases todo
    {
      var c :| c in todo;
      todo := todo - {c};
      cs := cs + [c];
    }
  }

  lemma StackAtTheEnds(root: Place)
    ensures Antichain([root]) && (forall p :: root <= p ==> Pending([root], p)) && (forall p :: !Pending([], p))
  {
    assert [root][0] == root;
  }

  lemma ChildrenBelow(fs: FileTree, root: Place, path: Place, cs: seq<Place>)
    requires root <= path && forall c :: c in cs <==> c in fs && IsChild(path, c)
    ensures forall i :: 0 <= i < |cs| ==> cs[i] in fs && root <= cs[i]
  {
    forall i | 0 <= i < |cs|
      ensures cs[i] in fs && root <= cs[i]
    {
      assert cs[i] in cs && cs[i][..|path|][..|root|] == cs[i][..|root|];
    }
  }

  lemma AntichainPrefix(stack: seq<Place>)
    requires Antichain(stack) && stack != []
    ensures Antichain(stack[..|stack| - 1])
  {
  }

  lemma LeafCovers(fs: FileTree, stack: seq<Place>, path: Place, p: Place)
    requires WellFormed(fs) && Antichain(stack) && stack != [] && path == stack[|stack| - 1]
    requires path in fs && fs[path].node != Dir && p in fs
    ensures Pending(stack[..|stack| - 1], p) <==> Pending(stack, p) && p != path
    ensures Pending(stack, path)
  {
    hide WellFormed;
    var n := |stack| - 1;
    var after := stack[..n];
    assert stack[n] <= path;
    if Pending(after, p) {
      var i :| 0 <= i < n && after[i] <= p;
      assert stack[i] <= p && !(stack[i] <= stack[n]);
    }
    if Pending(stack, p) && p != path {
      var i :| 0 <= i < |stack| && stack[i] <= p;
      if i < n {
        assert after[i] <= p;
      } else {
        AncestorsAreDirs(fs, path, p);
      }
    }
  }

  lemma StackAfterLeaf(fs: FileTree, stack: seq<Place>, path: Place)
    requires WellFormed(fs) && Antichain(stack) && stack != [] && path == stack[|stack| - 1] && path in fs
           && fs[path].node != Dir
    ensures var after := stack[..|stack| - 1];
            && Antichain(after)
            && (forall p :: p in fs && Pending(after, p) ==> Pending(stack, p) && p != path)
            && (forall p :: p in fs && Pending(stack, p) ==> p == path || Pending(after, p))
            && Pending(stack, path) && !Pending(after, path)
  {
    hide WellFormed, Pending, Antichain;
    var after := stack[..|stack| - 1];
    AntichainPrefix(stack);
    LeafCovers(fs, stack, path, path);
    forall p | p in fs
      ensures Pending(after, p) <==> Pending(stack, p) && p != path
    {
      LeafCovers(fs, stack, path, p);
    }
  }

  /** `path` is on top of the stack, and `cs` are its children. */
  ghost predicate Expands(fs: FileTree, stack: seq<Place>, path: Place, cs: seq<Place>) {
    && Antichain(stack) && stack != [] && path == stack[|stack| - 1]
    && (forall c :: c in cs <==> c in fs && IsChild(path, c))
    && (forall i, j :: 0 <= i < j < |cs| ==> cs[i] != cs[j])
  }

  lemma ChildExtends(path: Place, c: Place)
    requires IsChild(path, c)
    ensures path <= c && path != c
  {
  }

  lemma ExpandedAntichain(fs: FileTree, stack: seq<Place>, path: Place, cs: seq<Place>)
    requires Expands(fs, stack, path, cs)
    ensures Antichain(stack[..|stack| - 1] + cs)
  {
    var n := |stack| - 1;
    var after := stack[..n] + cs;
    forall i, j | 0 <= i < |after| && 0 <= j < |after| && i != j
      ensures !(after[i] <= after[j])
    {
      if i < n && j < n {
        assert !(stack[i] <= stack[j]);
      } else if i < n {
        assert after[j] in cs;
        ChildExtends(path, after[j]);
        if after[i] <= after[j] {
          PrefixesCompare(stack[i], stack[n], after[j]);
        }
      } else if j < n {
        assert after[i] in cs;
        ChildExtends(path, after[i]);
        assert !(stack[n] <= stack[j]);
      } else {
        assert after[i] in cs && after[j] in cs;
        assert after[i] != after[j];
      }
    }
  }

  lemma ChildTowards(fs: FileTree, path: Place, p: Place) returns (c: Place)
    requires WellFormed(fs) && p in fs && path < p
    ensures c in fs && IsChild(path, c) && c <= p
  {
    c := p[..|path| + 1];
    assert c[..|path|] == p[..|path|];
    if c != p {
      AncestorsAreDirs(fs, c, p);
    }
  }

  lemma ExpandedCovers(fs: FileTree, stack: seq<Place>, path: Place, cs: seq<Place>, p: Place)
    requires WellFormed(fs) && Expands(fs, stack, path, cs) && p in fs
    requires Pending(stack, p) && p != path
    ensures Pending(stack[..|stack| - 1] + cs, p)
  {
    hide WellFormed, Antichain;
    var n := |stack| - 1;
    var after := stack[..n] + cs;
    var i :| 0 <= i < |stack| && stack[i] <= p;
    if i == n {
      var c := ChildTowards(fs, path, p);
      var k :| 0 <= k < |cs| && cs[k] == c;
      assert after[n + k] <= p;
    } else {
      assert after[i] <= p;
    }
  }

  lemma ExpandedShrinks(fs: FileTree, stack: seq<Place>, path: Place, cs: seq<Place>, p: Place)
    requires Expands(fs, stack, path, cs)
    requires Pending(stack[..|stack| - 1] + cs, p)
    ensures Pending(stack, p) && p != path
  {
    var n := |stack| - 1;
    var after := stack[..n] + cs;
    var i :| 0 <= i < |after| && after[i] <= p;
    if i < n {
      assert stack[i] <= p && !(stack[i] <= stack[n]);
    } else {
      assert after[i] in cs;
      ChildExtends(path, after[i]);
      assert stack[n] <= p;
    }
  }

  lemma TopIsPending(fs: FileTree, stack: seq<Place>, path: Place, cs: seq<Place>)
    requires Expands(fs, stack, path, cs)
    ensures stack != [] && Pending(stack, path)
  {
    assert stack[|stack| - 1] <= path;
  }

  lemma StackAfterDir(fs: FileTree, stack: seq<Place>, path: Place, cs: seq<Place>)
    requires WellFormed(fs) && path in fs && stack != [] && Antichain(stack) && path == stack[|stack| - 1]
    requires forall c :: c in cs <==> c in fs && IsChild(path, c)
    requires forall i, j :: 0 <= i < j < |cs| ==> cs[i] != cs[j]
    ensures var after := stack[..|stack| - 1] + cs;
            && Antichain(after)
            && (forall p :: p in fs && Pending(after, p) ==> Pending(stack, p) && p != path)
            && (forall p :: p in fs && Pending(stack, p) ==> p == path || Pending(after, p))
            && Pending(stack, path) && !Pending(after, path)
  {
    assert Expands(fs, stack, path, cs);
    hide Expands, Antichain, WellFormed;
    var after := stack[..|stack| - 1] + cs;
    ExpandedAntichain(fs, stack, path, cs);
    forall p | p in fs && Pending(after, p)
      ensures Pending(stack, p) && p != path
    {
      ExpandedShrinks(fs, stack, path, cs, p);
    }
    forall p | p in fs && Pending(stack, p) && p != path
      ensures Pending(after, p)
    {
      ExpandedCovers(fs, stack, path, cs, p);
    }
    TopIsPending(fs, stack, path, cs);
  }

  /** The walk ends, without following links, with a reason exactly when some entry has one. `unreadable`: entries the
      system refuses to describe or list. */
  method FindUnsafe(fs: FileTree, root: Place, ownerUid: nat, unreadable: set<Place>)
    returns (r: Result<Option<Reason>, WalkError>)
    requires WellFormed(fs)
    ensures r == Ok(None) ==> root in fs && WholeTreePasses(fs, root, ownerUid)
                              && forall p :: p in fs && root <= p ==> p !in unreadable
    ensures r.Ok? && r.value.Some? ==>
            exists p :: p in fs && root <= p && UnsafeReason(p, fs[p], root, ownerUid) == r.value
    ensures r.Err? ==> root !in fs || exists p :: p in fs && root <= p && p in unreadable
  {
    hide WellFormed, Pending, Antichain, UnsafeReason;
    var stack := [root];
    StackAtTheEnds(root);
    while stack != []
      invariant Antichain(stack) && forall i :: 0 <= i < |stack| ==> root <= stack[i]
      invariant stack == [root] || forall i :: 0 <= i < |stack| ==> stack[i] in fs
      invariant root in fs || stack == [root]
      invariant forall p :: p in fs && root <= p && !Pending(stack, p) ==>
              Passes(fs, root, ownerUid, p) && p !in unreadable
      decreases PendingSet(fs, stack)
    {
      var path := stack[|stack| - 1];
      ghost var before := stack;
      var rest := stack[..|stack| - 1];
      if path !in fs || path in unreadable {
        return Err(CannotRead(path));
      }
      var reason := UnsafeReason(path, fs[path], root, ownerUid);
      if reason.Some? {
        return Ok(reason);
      }
      stack := rest;
      if fs[path].node == Dir {
        var cs := Children(fs, path);
        stack := rest + cs;
        StackAfterDir(fs, before, path, cs);
        ChildrenBelow(fs, root, path, cs);
      } else {
        StackAfterLeaf(fs, before, path);
      }
      assert path in PendingSet(fs, before) && path !in PendingSet(fs, stack);
      assert PendingSet(fs, stack) <= PendingSet(fs, before);
    }
    return Ok(None);
  }

  // ---- Physical resolution ----

  /** How the system follows a path from `cur`: links are replaced by their target, `..` goes to the real parent.
      `None` when more than `fuel` components had to be followed. Components that do not exist are no links. */
  function Resolve(fs: FileTree, cur: Place, rest: seq<Component>, fuel: nat): Option<Place>
    decreases fuel
  {
    if rest == [] then Some(cur)
    else if fuel == 0 then None
    else
      match rest[0]
      case Root => Resolve(fs, [], rest[1..], fuel - 1)
      case Cur => Resolve(fs, cur, rest[1..], fuel - 1)
      case Up => Resolve(fs, Parent(cur), rest[1..], fuel - 1)
      case Normal(n) =>
        if IsLink(fs, cur + [n]) then Resolve(fs, cur, fs[cur + [n]].node.target + rest[1..], fuel - 1)
        else Resolve(fs, cur + [n], rest[1..], fuel - 1)
  }

  /** No `..` and no restart from the top: a path that only goes down, as far as its text says. */
  predicate OnlyDown(t: seq<Component>) {
    forall i :: 0 <= i < |t| ==> t[i].Normal? || t[i].Cur?
  }

  /** Every path that only goes down from the root ends inside the tree, if it ends. */
  ghost predicate Contained(fs: FileTree, root: Place) {
    forall t, fuel: nat :: OnlyDown(t) && Resolve(fs, root, t, fuel).Some? ==> root <= Resolve(fs, root, t, fuel).value
  }

  ghost predicate NoLinksOutside(fs: FileTree, root: Place) {
    forall p :: IsLink(fs, p) ==> root < p
  }

  /** Following `t` from `cur`, nothing climbs once a link has been met. */
  predicate NoUpAfterLink(fs: FileTree, cur: Place, t: seq<Component>)
    decreases |t|
  {
    t == []
    || match t[0]
       case Root => NoUpAfterLink(fs, [], t[1..])
       case Cur => NoUpAfterLink(fs, cur, t[1..])
       case Up => NoUpAfterLink(fs, Parent(cur), t[1..])
       case Normal(n) => if IsLink(fs, cur + [n]) then OnlyDown(t[1..]) else NoUpAfterLink(fs, cur + [n], t[1..])
  }

  ghost predicate TargetsNeverClimbAfterLinks(fs: FileTree) {
    forall p :: IsLink(fs, p) ==> NoUpAfterLink(fs, Parent(p), fs[p].node.target)
  }

  /** Following `t` from `cur` never steps onto a link. */
  predicate MeetsNoLink(fs: FileTree, cur: Place, t: seq<Component>)
    decreases |t|
  {
    t == []
    || match t[0]
       case Root => MeetsNoLink(fs, [], t[1..])
       case Cur => MeetsNoLink(fs, cur, t[1..])
       case Up => MeetsNoLink(fs, Parent(cur), t[1..])
       case Normal(n) => !IsLink(fs, cur + [n]) && MeetsNoLink(fs, cur + [n], t[1..])
  }

  /** Normalising the text is following the path, as long as no link is met. */
  lemma {:induction false} LexicalIsPhysicalWithoutLinks(fs: FileTree, cur: Place, t: seq<Component>, fuel: nat)
    requires MeetsNoLink(fs, cur, t) && fuel >= |t|
    ensures Resolve(fs, cur, t, fuel) == Some(Lexical(cur, t))
    decreases |t|
  {
    if t != [] {
      match t[0]
      case Root => LexicalIsPhysicalWithoutLinks(fs, [], t[1..], fuel - 1);
      case Cur => LexicalIsPhysicalWithoutLinks(fs, cur, t[1..], fuel - 1);
      case Up => LexicalIsPhysicalWithoutLinks(fs, Parent(cur), t[1..], fuel - 1);
      case Normal(n) => LexicalIsPhysicalWithoutLinks(fs, cur + [n], t[1..], fuel - 1);
    }
  }

  // ---- When the textual check is enough ----

  /** Every link's target reads as inside, and no target climbs after a link. */
  ghost predicate LinksReadInside(fs: FileTree, root: Place) {
    forall p :: IsLink(fs, p) ==>
      root < p && root <= Lexical(Parent(p), fs[p].node.target) && NoUpAfterLink(fs, Parent(p), fs[p].node.target)
  }

  lemma DownKeepsInside(root: Place, cur: Place, c: Component)
    requires root <= cur && (c.Normal? || c.Cur?)
    ensures root <= Lexical(cur, [c])
  {
    assert [c][1..] == [];
  }

  /** `t` is what is left of a link's target, `w` what is left of the paths around it. */
  lemma {:induction false} StaysInside(fs: FileTree, root: Place, cur: Place, t: seq<Component>, w: seq<Component>,
                                       fuel: nat)
    requires LinksReadInside(fs, root)
    requires NoUpAfterLink(fs, cur, t) && root <= Lexical(cur, t) && OnlyDown(w)
    requires Resolve(fs, cur, t + w, fuel).Some?
    ensures root <= Resolve(fs, cur, t + w, fuel).value
    decreases fuel, |w|
  {
    if t == [] {
      assert t + w == w;
      if w != [] {
        var first := [w[0]];
        assert first[1..] == [] && first + w[1..] == w;
        DownKeepsInside(root, cur, w[0]);
        StaysInside(fs, root, cur, first, w[1..], fuel);
      }
    } else {
      assert (t + w)[1..] == t[1..] + w;
      match t[0]
      case Root => StaysInside(fs, root, [], t[1..], w, fuel - 1);
      case Cur => StaysInside(fs, root, cur, t[1..], w, fuel - 1);
      case Up => StaysInside(fs, root, Parent(cur), t[1..], w, fuel - 1);
      case Normal(n) =>
        var p := cur + [n];
        if IsLink(fs, p) {
          assert Parent(p) == cur;
          StaysInside(fs, root, cur, fs[p].node.target, t[1..] + w, fuel - 1);
        } else {
          StaysInside(fs, root, p, t[1..], w, fuel - 1);
        }
    }
  }

  /** In a tree that passes the walk, every path that reads as inside also ends inside if it ends, wherever it starts
      and however it climbs before its first link, given that nothing climbs after a link and nothing outside the tree
      is one. */
  lemma PassingTreeKeepsPaths(fs: FileTree, root: Place, ownerUid: nat, cur: Place, t: seq<Component>, fuel: nat)
    requires WholeTreePasses(fs, root, ownerUid) && NoLinksOutside(fs, root) && TargetsNeverClimbAfterLinks(fs)
    requires NoUpAfterLink(fs, cur, t) && root <= Lexical(cur, t)
    requires Resolve(fs, cur, t, fuel).Some?
    ensures root <= Resolve(fs, cur, t, fuel).value
  {
    forall p | IsLink(fs, p)
      ensures root < p && root <= Lexical(Parent(p), fs[p].node.target)
    {
      assert Passes(fs, root, ownerUid, p);
    }
    assert t + [] == t;
    StaysInside(fs, root, cur, t, [], fuel);
  }

  lemma {:induction false} DownReadsInside(fs: FileTree, root: Place, cur: Place, t: seq<Component>)
    requires root <= cur && OnlyDown(t)
    ensures NoUpAfterLink(fs, cur, t) && root <= Lexical(cur, t)
    decreases |t|
  {
    if t != [] {
      match t[0]
      case Cur => DownReadsInside(fs, root, cur, t[1..]);
      case Normal(n) => DownReadsInside(fs, root, cur + [n], t[1..]);
    }
  }

  /** In particular it holds every downward path. */
  lemma PassingTreeIsContained(fs: FileTree, root: Place, ownerUid: nat)
    requires WholeTreePasses(fs, root, ownerUid) && NoLinksOutside(fs, root) && TargetsNeverClimbAfterLinks(fs)
    ensures Contained(fs, root)
  {
    forall t, fuel: nat | OnlyDown(t) && Resolve(fs, root, t, fuel).Some?
      ensures root <= Resolve(fs, root, t, fuel).value
    {
      DownReadsInside(fs, root, root, t);
      PassingTreeKeepsPaths(fs, root, ownerUid, root, t, fuel);
    }
  }

  // ---- When it is not ----

  /** Two links that pass one by one: `b` is another name for the tree itself, and `a` climbs one step after it. */
  const FOOLING_TREE: FileTree := map[
    [] := Meta(0, 0x1ed, Dir),
    ["t"] := Meta(0, 0x1ed, Dir),
    ["t", "a"] := Meta(0, 0x1ff, Link([Normal("b"), Up, Normal("x")])),
    ["t", "b"] := Meta(0, 0x1ff, Link([Cur]))
  ]

  lemma FoolingParents()
    ensures Parent(["t", "a"]) == ["t"] && Parent(["t", "b"]) == ["t"] && Parent(["t"]) == []
  {
  }

  lemma LexicalOfFoolingLinks()
    ensures Lexical(["t"], [Normal("b"), Up, Normal("x")]) == ["t", "x"]
    ensures Lexical(["t"], [Cur]) == ["t"]
  {
    var target := [Normal("b"), Up, Normal("x")];
    assert target[1..] == [Up, Normal("x")] && target[1..][1..] == [Normal("x")] && target[1..][1..][1..] == [];
    assert Lexical(["t"], target) == Lexical(["t", "b"], target[1..]);
    assert Parent(["t", "b"]) == ["t"];
    assert Lexical(["t", "b"], target[1..]) == Lexical(["t"], target[1..][1..]);
    assert [Cur][1..] == [];
  }

  lemma FoolingLinksPass()
    ensures WholeTreePasses(FOOLING_TREE, ["t"], 0)
  {
    FoolingParents();
    LexicalOfFoolingLinks();
    hide Lexical, Parent;
  }

  lemma FoolingTreePasses()
    ensures WellFormed(FOOLING_TREE) && NoLinksOutside(FOOLING_TREE, ["t"]) && WholeTreePasses(FOOLING_TREE, ["t"], 0)
  {
    FoolingParents();
    hide Parent;
    assert WellFormed(FOOLING_TREE);
    assert NoLinksOutside(FOOLING_TREE, ["t"]);
    FoolingLinksPass();
  }

  lemma ResolveStep(fs: FileTree, cur: Place, c: Component, rest: seq<Component>, fuel: nat)
    ensures Resolve(fs, cur, [c] + rest, fuel + 1) ==
            match c
            case Root => Resolve(fs, [], rest, fuel)
            case Cur => Resolve(fs, cur, rest, fuel)
            case Up => Resolve(fs, Parent(cur), rest, fuel)
            case Normal(n) =>
              if IsLink(fs, cur + [n]) then Resolve(fs, cur, fs[cur + [n]].node.target + rest, fuel)
              else Resolve(fs, cur + [n], rest, fuel)
  {
    assert ([c] + rest)[1..] == rest;
  }

  lemma FoolingLinkLeadsOut()
    ensures Resolve(FOOLING_TREE, ["t"], [Normal("a")], 5) == Some(["x"])
  {
    var fs, t := FOOLING_TREE, ["t"];
    assert Resolve(fs, ["x"], [], 0) == Some(["x"]);
    hide Resolve;
    assert t + ["a"] == ["t", "a"] && t + ["b"] == ["t", "b"] && [] + ["x"] == ["x"] && Parent(t) == [];
    ResolveStep(fs, [], Normal("x"), [], 0);
    ResolveStep(fs, t, Up, [Normal("x")], 1);
    ResolveStep(fs, t, Cur, [Up, Normal("x")], 2);
    ResolveStep(fs, t, Normal("b"), [Up, Normal("x")], 3);
    ResolveStep(fs, t, Normal("a"), [], 4);
    assert [Normal("x")] + [] == [Normal("x")] && [Up] + [Normal("x")] == [Up, Normal("x")];
    assert [Cur] + [Up, Normal("x")] == [Cur, Up, Normal("x")];
    assert [Normal("b")] + [Up, Normal("x")] == [Normal("b"), Up, Normal("x")];
    assert [Normal("b"), Up, Normal("x")] + [] == [Normal("b"), Up, Normal("x")] && [Normal("a")] + [] == [Normal("a")];
  }

  /** The check of each link's own text does not cover a chain of links: the tree passes and still leads out. */
  lemma PassingIsNotEnough()
    ensures WellFormed(FOOLING_TREE) && NoLinksOutside(FOOLING_TREE, ["t"]) && WholeTreePasses(FOOLING_TREE, ["t"], 0)
    ensures Resolve(FOOLING_TREE, ["t"], [Normal("a")], 5) == Some(["x"])
    ensures !Contained(FOOLING_TREE, ["t"])
  {
    hide Resolve, Lexical;
    FoolingTreePasses();
    FoolingLinkLeadsOut();
    assert "x"[0] != "t"[0] && ["x"][0] == "x";
    assert OnlyDown([Normal("a")]);
  }

  // ---- Exactly when the tree is contained ----

  /** Really following this link's target ends inside, if it ends. */
  ghost predicate LinkStays(fs: FileTree, root: Place, p: Place)
    requires IsLink(fs, p)
  {
    forall fuel: nat :: Resolve(fs, Parent(p), fs[p].node.target, fuel).Some? ==>
      root <= Resolve(fs, Parent(p), fs[p].node.target, fuel).value
  }

  lemma {:induction false} ResolveSplits(fs: FileTree, cur: Place, a: seq<Component>, b: seq<Component>, fuel: nat)
    returns (mid: Place, left: nat)
    requires Resolve(fs, cur, a + b, fuel).Some?
    ensures Resolve(fs, cur, a, fuel) == Some(mid)
    ensures left <= fuel && Resolve(fs, mid, b, left) == Resolve(fs, cur, a + b, fuel)
    decreases fuel
  {
    if a == [] {
      assert a + b == b;
      mid, left := cur, fuel;
    } else {
      assert (a + b)[1..] == a[1..] + b;
      match a[0]
      case Root => mid, left := ResolveSplits(fs, [], a[1..], b, fuel - 1);
      case Cur => mid, left := ResolveSplits(fs, cur, a[1..], b, fuel - 1);
      case Up => mid, left := ResolveSplits(fs, Parent(cur), a[1..], b, fuel - 1);
      case Normal(n) =>
        if IsLink(fs, cur + [n]) {
          var target := fs[cur + [n]].node.target;
          assert target + (a[1..] + b) == (target + a[1..]) + b;
          mid, left := ResolveSplits(fs, cur, target + a[1..], b, fuel - 1);
        } else {
          mid, left := ResolveSplits(fs, cur + [n], a[1..], b, fuel - 1);
        }
    }
  }

  lemma {:induction false} StaysWhenLinksStay(fs: FileTree, root: Place, cur: Place, w: seq<Component>, fuel: nat)
    requires forall p :: IsLink(fs, p) && root < p ==> LinkStays(fs, root, p)
    requires root <= cur && OnlyDown(w) && Resolve(fs, cur, w, fuel).Some?
    ensures root <= Resolve(fs, cur, w, fuel).value
    decreases fuel
  {
    if w != [] {
      match w[0]
      case Cur => StaysWhenLinksStay(fs, root, cur, w[1..], fuel - 1);
      case Normal(n) =>
        var p := cur + [n];
        assert root < p;
        if IsLink(fs, p) {
          assert Parent(p) == cur;
          var mid, left := ResolveSplits(fs, cur, fs[p].node.target, w[1..], fuel - 1);
          assert LinkStays(fs, root, p);
          StaysWhenLinksStay(fs, root, mid, w[1..], left);
        } else {
          StaysWhenLinksStay(fs, root, p, w[1..], fuel - 1);
        }
    }
  }

  function AsPath(names: seq<string>): (t: seq<Component>)
    ensures |t| == |names| && OnlyDown(t)
  {
    if names == [] then [] else [Normal(names[0])] + AsPath(names[1..])
  }

  /** Walking down real directories to a link and then through it is following its target from where it stands. */
  lemma {:induction false} WalkToLink(fs: FileTree, cur: Place, names: seq<string>, fuel: nat)
    requires WellFormed(fs) && names != [] && IsLink(fs, cur + names)
    ensures Resolve(fs, cur, AsPath(names), fuel + |names|) ==
            Resolve(fs, Parent(cur + names), fs[cur + names].node.target, fuel)
    decreases |names|
  {
    hide Resolve, WellFormed;
    var p := cur + names;
    var q := cur + [names[0]];
    assert q + names[1..] == p;
    ResolveStep(fs, cur, Normal(names[0]), AsPath(names[1..]), fuel + |names| - 1);
    if |names| == 1 {
      assert names[1..] == [] && q + [] == q && Parent(q) == cur;
      assert fs[p].node.target + [] == fs[p].node.target;
    } else {
      assert q == p[..|q|];
      AncestorsAreDirs(fs, q, p);
      WalkToLink(fs, q, names[1..], fuel);
    }
  }

  /** The tree holds every downward path exactly when each of its links, really followed, ends inside. */
  lemma ContainedExactly(fs: FileTree, root: Place)
    requires WellFormed(fs)
    ensures Contained(fs, root) <==> forall p :: IsLink(fs, p) && root < p ==> LinkStays(fs, root, p)
  {
    if Contained(fs, root) {
      forall p | IsLink(fs, p) && root < p
        ensures LinkStays(fs, root, p)
      {
        var names := p[|root|..];
        assert root + names == p;
        forall fuel: nat
          ensures Resolve(fs, root, AsPath(names), fuel + |names|) == Resolve(fs, Parent(p), fs[p].node.target, fuel)
        {
          WalkToLink(fs, root, names, fuel);
        }
      }
    } else if forall p :: IsLink(fs, p) && root < p ==> LinkStays(fs, root, p) {
      var t, fuel: nat :| OnlyDown(t) && Resolve(fs, root, t, fuel).Some?
        && !(root <= Resolve(fs, root, t, fuel).value);
      StaysWhenLinksStay(fs, root, root, t, fuel);
    }
  }
}
