/** Replacing the installed AppImage by the staged one, with a backup to fall back on, and the
    service-mode loop that retries the swap until the old image is unmounted or 15 seconds are up. */
module SwapAppImage {
  import opened Wrappers
  import opened FileStore

  /** Made up by the launcher: it carries no code of the operating system. */
  const STAGED_FILE_MISSING: IoError := IoError(None)

  function BackupPath(target: string): string {
    target + ".bak"
  }

  /** What the operating system answers to each operation one swap may try. */
  datatype Answers = Answers(backupRename: Answer, backupCopy: CopyAnswer, moveRename: Answer, moveCopy: CopyAnswer,
                             moveRemove: Answer, restore: Answer, chmod: Answer) {
    predicate BacksUp() {
      backupRename.Done? || backupCopy.Completes?
    }

    /** The staged image gets into place. */
    predicate Moves() {
      moveRename.Done? || (moveCopy.Completes? && moveRemove.Done?)
    }
  }

  /** What is at the three paths. */
  datatype Images = Images(staged: Option<Bytes>, target: Option<Bytes>, backup: Option<Bytes>)

  /** The destination of a copy, however it ends. */
  function Copied(from: Bytes, before: Option<Bytes>, a: CopyAnswer): Option<Bytes> {
    match a
    case Completes => Some(from)
    case CannotOpen(_) => before
    case StopsAfter(n, _) => Some(Prefix(from, n))
  }

  function AfterBackUp(s: Images, a: Answers): Images
    requires s.target.Some?
  {
    if a.backupRename.Done? then s.(target := None, backup := s.target)
    else s.(backup := Copied(s.target.value, s.backup, a.backupCopy))
  }

  function AfterMove(s: Images, a: Answers): Images
    requires s.staged.Some?
  {
    if a.moveRename.Done? then s.(staged := None, target := s.staged)
    else
      s.(target := Copied(s.staged.value, s.target, a.moveCopy),
         staged := if a.moveCopy.Completes? && a.moveRemove.Done? then None else s.staged)
  }

  /** One swap as a function of what is at the paths. */
  function AfterSwap(s: Images, a: Answers): Images {
    if s.staged == None then s
    else if s.target.Some? && !a.BacksUp() then AfterBackUp(s, a)
    else
      var moved := AfterMove(if s.target.Some? then AfterBackUp(s, a) else s, a);
      if !a.Moves() && moved.backup.Some? && a.restore.Done? then moved.(target := moved.backup, backup := None)
      else moved
  }

  ghost predicate AlwaysRestores(answers: nat -> Answers) {
    forall i: nat :: answers(i).restore.Done?
  }

  /** One swap: its paths and the images it starts with. */
  datatype Swap = Swap(staged: string, target: string, backup: string, oldImage: Option<Bytes>,
                       newImage: Option<Bytes>) {
    predicate Distinct() {
      staged != target && staged != backup && target != backup
    }

    ghost predicate Restorable(answers: nat -> Answers) {
      oldImage.Some? && newImage.Some? && AlwaysRestores(answers)
    }

    function At(fs: Files): Images {
      Images(Lookup(fs, staged), Lookup(fs, target), Lookup(fs, backup))
    }

    predicate NothingDone(fs: Files) {
      Lookup(fs, target) == oldImage && Lookup(fs, staged) == newImage
    }

    predicate Swapped(fs: Files) {
      Lookup(fs, target) == newImage && Lookup(fs, staged) == None && Lookup(fs, backup) == oldImage
    }

    /** Neither image is lost: each is complete in one of its two places. */
    predicate BothKept(fs: Files) {
      && (Lookup(fs, target) == oldImage || Lookup(fs, backup) == oldImage)
      && (Lookup(fs, staged) == newImage || Lookup(fs, target) == newImage)
    }

    predicate BothKeptThroughout(states: seq<Files>, start: nat) {
      forall i :: start <= i < |states| ==> BothKept(states[i])
    }
  }

  /** Rename, or copy when renaming is refused. */
  method BackUp(fs: FileSystem, ghost t: Swap, target: string, backup: string, a: Answers)
    returns (r: Result<(), IoError>)
    requires fs.Valid() && t.Distinct() && t.target == target && t.backup == backup
    requires t.NothingDone(fs.files) && t.oldImage.Some? && t.newImage.Some?
    modifies fs
    ensures fs.Valid() && old(fs.history) <= fs.history && t.BothKeptThroughout(fs.history, |old(fs.history)|)
    ensures r.Ok? <==> a.BacksUp()
    ensures r.Ok? ==> Lookup(fs.files, t.backup) == t.oldImage && Lookup(fs.files, t.staged) == t.newImage
    ensures r.Err? ==> t.NothingDone(fs.files) && r.error == a.backupCopy.error
    ensures t.At(fs.files) == AfterBackUp(t.At(old(fs.files)), a)
    ensures SameExcept(fs.files, old(fs.files), {t.target, t.backup})
  {
    r := fs.Rename(target, backup, a.backupRename);
    if r.Err? {
      r := fs.Copy(target, backup, a.backupCopy);
    }
  }

  /** Rename, or copy and delete when renaming is refused. */
  method Move(fs: FileSystem, ghost t: Swap, staged: string, target: string, a: Answers)
    returns (r: Result<(), IoError>)
    requires fs.Valid() && t.Distinct() && t.staged == staged && t.target == target
    requires Lookup(fs.files, t.staged) == t.newImage && t.newImage.Some?
    modifies fs
    ensures fs.Valid() && old(fs.history) <= fs.history
    ensures Lookup(old(fs.files), t.backup) == t.oldImage ==> t.BothKeptThroughout(fs.history, |old(fs.history)|)
    ensures r.Ok? <==> a.Moves()
    ensures r.Ok? ==> Lookup(fs.files, t.target) == t.newImage && Lookup(fs.files, t.staged) == None
    ensures r.Err? ==> Lookup(fs.files, t.staged) == t.newImage
    ensures r.Err? ==> r.error == if a.moveCopy.Completes? then a.moveRemove.error else a.moveCopy.error
    ensures t.At(fs.files) == AfterMove(t.At(old(fs.files)), a)
    ensures SameExcept(fs.files, old(fs.files), {t.target, t.staged})
  {
    r := fs.Rename(staged, target, a.moveRename);
    if r.Err? {
      r := fs.Copy(staged, target, a.moveCopy);
      if r.Ok? {
        r := fs.Remove(staged, a.moveRemove);
      }
    }
  }

  method SwapAppImage(fs: FileSystem, staged: string, target: string, a: Answers)
    returns (r: Result<(), IoError>, ghost t: Swap)
    requires fs.Valid() && staged != target && staged != BackupPath(target)
    modifies fs
    ensures t == Swap(staged, target, BackupPath(target), Lookup(old(fs.files), target), Lookup(old(fs.files), staged))
    ensures fs.Valid() && old(fs.history) <= fs.history
    // What it leaves at its three paths, however it ends.
    ensures t.At(fs.files) == AfterSwap(t.At(old(fs.files)), a)
    // With an image installed and one staged, neither is lost at any step.
    ensures t.oldImage.Some? && t.newImage.Some? ==> t.BothKeptThroughout(fs.history, |old(fs.history)|)
    // Exactly when it succeeds, and what it leaves.
    ensures r.Ok? <==> t.newImage.Some? && (t.oldImage.Some? ==> a.BacksUp()) && a.Moves() && a.chmod.Done?
    ensures r.Ok? && t.oldImage.Some? ==> t.Swapped(fs.files)
    ensures r.Ok? && t.oldImage == None ==> Lookup(fs.files, target) == t.newImage && staged !in fs.files
    // A failure puts everything back, except that a refused chmod comes after the point of no return.
    ensures t.newImage == None ==> r == Err(STAGED_FILE_MISSING) && fs.files == old(fs.files)
    ensures r.Err? && t.oldImage.Some? && t.newImage.Some? && !(a.BacksUp() && a.Moves()) && a.restore.Done? ==>
            t.NothingDone(fs.files)
    ensures r.Err? && t.oldImage.Some? && t.newImage.Some? && a.BacksUp() && a.Moves() ==>
            a.chmod.Refused? && t.Swapped(fs.files)
    // Which refusal is reported: the fallback's, never the restoring rename's.
    ensures r.Err? && t.newImage.Some? ==>
              r.error == if t.oldImage.Some? && !a.BacksUp() then a.backupCopy.error
                         else if !a.Moves() then
                           (if a.moveCopy.Completes? then a.moveRemove.error else a.moveCopy.error)
                         else a.chmod.error
    ensures SameExcept(fs.files, old(fs.files), {staged, target, BackupPath(target)})
  {
    var backup := BackupPath(target);
    assert |backup| != |target|;
    t := Swap(staged, target, backup, Lookup(fs.files, target), Lookup(fs.files, staged));
    if staged !in fs.files {
      r := Err(STAGED_FILE_MISSING);
      return;
    }
    if target in fs.files {
      r := BackUp(fs, t, target, backup, a);
      if r.Err? {
        return;
      }
    }
    r := Move(fs, t, staged, target, a);
    if r.Err? {
      if backup in fs.files {
        var _ := fs.Rename(backup, target, a.restore);
      }
      return;
    }
    if a.chmod.Refused? {
      r := Err(a.chmod.error);
    }
  }

  // ---- Swaps one after another ----

  /** Where a series of swaps has got to: nothing done; the old image only in the backup and nothing installed, or a
      beginning of the new one installed; the new image installed; or the old image overwritten. */
  datatype Phase = Ready | Missing | Stranded | Landed | Lost

  /** An unfinished copy was left in place: it had begun, and the restoring rename was refused. */
  predicate Strands(a: Answers) {
    !a.Moves() && a.restore.Refused? && !a.moveCopy.CannotOpen?
  }

  /** The backup step writes to the backup. */
  predicate TouchesBackup(a: Answers) {
    a.backupRename.Done? || !a.backupCopy.CannotOpen?
  }

  function NextPhase(p: Phase, a: Answers): Phase {
    match p
    case Ready =>
      if !a.BacksUp() then Ready
      else if a.Moves() then Landed
      else if Strands(a) then Stranded
      else if a.restore.Refused? && a.backupRename.Done? then Missing
      else Ready
    case Missing =>
      if a.Moves() then Landed
      else if Strands(a) then Stranded
      else if a.restore.Refused? then Missing
      else Ready
    case Stranded => if TouchesBackup(a) then Lost else Stranded
    case Landed => Landed
    case Lost => Lost
  }

  function PhaseAfter(answers: nat -> Answers, n: nat): Phase {
    if n == 0 then Ready else NextPhase(PhaseAfter(answers, n - 1), answers(n - 1))
  }

  predicate Beginning(image: Option<Bytes>, newImage: Bytes) {
    image == None || image.value <= newImage
  }

  predicate InPhase(p: Phase, s: Images, oldImage: Bytes, newImage: Bytes) {
    match p
    case Ready => s.target == Some(oldImage) && s.staged == Some(newImage)
    case Missing => s.target == None && s.backup == Some(oldImage) && s.staged == Some(newImage)
    case Stranded =>
      && s.target.Some? && Beginning(s.target, newImage)
      && s.backup == Some(oldImage) && s.staged == Some(newImage)
    case Landed => s.staged == None && s.target == Some(newImage) && s.backup == Some(oldImage)
    case Lost =>
      && Beginning(s.target, newImage) && Beginning(s.backup, newImage)
      && (s.staged == Some(newImage) || (s.staged == None && s.target == Some(newImage)))
  }

  lemma BeginningOfBeginning(image: Bytes, n: nat, newImage: Bytes)
    requires image <= newImage
    ensures Prefix(image, n) <= newImage
  {
    if n <= |image| {
      assert image == newImage[..|image|] && image[..n] == newImage[..n];
    }
  }

  lemma FirstPhase(s: Images, answers: nat -> Answers)
    requires s.target.Some? && s.staged.Some?
    ensures InPhase(PhaseAfter(answers, 0), s, s.target.value, s.staged.value)
  {
  }

  lemma PhaseNext(answers: nat -> Answers, n: nat)
    ensures PhaseAfter(answers, n + 1) == NextPhase(PhaseAfter(answers, n), answers(n))
  {
  }

  lemma PhaseStep(p: Phase, s: Images, a: Answers, oldImage: Bytes, newImage: Bytes)
    requires InPhase(p, s, oldImage, newImage)
    ensures InPhase(NextPhase(p, a), AfterSwap(s, a), oldImage, newImage)
  {
    if a.moveCopy.StopsAfter? {
      BeginningOfBeginning(newImage, a.moveCopy.bytes, newImage);
    }
    if a.backupCopy.StopsAfter? && s.target.Some? && s.target.value <= newImage {
      BeginningOfBeginning(s.target.value, a.backupCopy.bytes, newImage);
    }
    hide Prefix;
  }

  predicate OldKept(s: Images, oldImage: Bytes) {
    s.target == Some(oldImage) || s.backup == Some(oldImage)
  }

  /** The old image is still there in every phase but the last, and in the last it is gone unless it is itself a
      beginning of the new one. */
  lemma OldKeptExactly(p: Phase, s: Images, oldImage: Bytes, newImage: Bytes)
    requires InPhase(p, s, oldImage, newImage)
    ensures p != Lost ==> OldKept(s, oldImage)
    ensures !(oldImage <= newImage) ==> (OldKept(s, oldImage) <==> p != Lost)
  {
  }

  lemma {:induction false} StrandedBySome(answers: nat -> Answers, n: nat)
    requires PhaseAfter(answers, n) == Stranded
    ensures exists i :: 0 <= i < n && Strands(answers(i))
  {
    if PhaseAfter(answers, n - 1) == Stranded {
      StrandedBySome(answers, n - 1);
    } else {
      assert Strands(answers(n - 1));
    }
  }

  /** It takes two failures to lose the old image: a begun copy left in place, and a later swap that writes it over
      the backup. */
  lemma {:induction false} LostByTwoFailures(answers: nat -> Answers, n: nat)
    requires PhaseAfter(answers, n) == Lost
    ensures exists i, j :: 0 <= i < j < n && Strands(answers(i)) && TouchesBackup(answers(j))
  {
    if PhaseAfter(answers, n - 1) == Lost {
      LostByTwoFailures(answers, n - 1);
    } else {
      StrandedBySome(answers, n - 1);
      var i :| 0 <= i < n - 1 && Strands(answers(i));
      assert TouchesBackup(answers(n - 1));
    }
  }

  /** And they do lose it. */
  lemma {:induction false} StrandedUntilTouched(answers: nat -> Answers, k: nat, n: nat)
    requires k <= n && PhaseAfter(answers, k) == Stranded
    ensures PhaseAfter(answers, n) == if exists j :: k <= j < n && TouchesBackup(answers(j)) then Lost else Stranded
    decreases n
  {
    if k < n {
      StrandedUntilTouched(answers, k, n - 1);
      assert TouchesBackup(answers(n - 1)) ==> exists j :: k <= j < n && TouchesBackup(answers(j));
    }
  }

  const SETTLE_MS: nat := 15_000
  const RETRY_MS: nat := 200

  predicate Lands(a: Answers) {
    a.BacksUp() && a.Moves()
  }

  /** The first attempt that gets the staged image into place, if any of the first `n` does. */
  predicate FirstMover(answers: nat -> Answers, k: nat, n: nat) {
    k < n && Lands(answers(k)) && forall i :: 0 <= i < k ==> !Lands(answers(i))
  }

  predicate NoneLands(answers: nat -> Answers, n: nat) {
    forall i :: 0 <= i < n ==> !Lands(answers(i))
  }

  /** The sleep between two attempts lasts at least 200 ms. */
  ghost predicate Ticks(elapsed: nat -> nat) {
    forall i: nat :: elapsed(i + 1) >= elapsed(i) + RETRY_MS
  }

  lemma Tick(elapsed: nat -> nat, n: nat)
    requires Ticks(elapsed)
    ensures elapsed(n + 1) >= elapsed(n) + RETRY_MS
  {
  }

  /** While every restoring rename is carried out, nothing is done until the first attempt lands, and nothing after
      it. */
  lemma {:induction false} RestoringPhase(answers: nat -> Answers, n: nat)
    requires AlwaysRestores(answers)
    ensures PhaseAfter(answers, n) == if NoneLands(answers, n) then Ready else Landed
  {
    if n > 0 {
      RestoringPhase(answers, n - 1);
      assert answers(n - 1).restore.Done?;
      assert NoneLands(answers, n) <==> NoneLands(answers, n - 1) && !Lands(answers(n - 1));
    }
  }

  /** Some attempt landed, and the first that did was refused its chmod. */
  ghost predicate LandedWithoutChmod(answers: nat -> Answers, n: nat) {
    exists k :: FirstMover(answers, k, n) && answers(k).chmod.Refused?
  }

  ghost predicate LandedWithChmod(answers: nat -> Answers, n: nat) {
    exists k :: FirstMover(answers, k, n) && answers(k).chmod.Done?
  }

  ghost predicate Unsettled(answers: nat -> Answers, n: nat) {
    NoneLands(answers, n) || LandedWithoutChmod(answers, n)
  }

  lemma Verdict(answers: nat -> Answers, n: nat, ok: bool)
    requires AlwaysRestores(answers) && Unsettled(answers, n)
    requires PhaseAfter(answers, n) == Ready ==> (ok <==> Lands(answers(n)) && answers(n).chmod.Done?)
    requires PhaseAfter(answers, n) == Landed ==> !ok
    ensures ok <==> LandedWithChmod(answers, n + 1)
    ensures !ok ==> Unsettled(answers, n + 1)
  {
    RestoringPhase(answers, n);
    hide Lands, PhaseAfter, AlwaysRestores;
    if NoneLands(answers, n) {
      assert Lands(answers(n)) ==> FirstMover(answers, n, n + 1);
    } else {
      var k :| FirstMover(answers, k, n) && answers(k).chmod.Refused?;
      assert FirstMover(answers, k, n + 1);
    }
  }

  /** Attempt `n`, in whatever phase the ones before it left. */
  method Attempt(fs: FileSystem, ghost t: Swap, staged: string, target: string, ghost answers: nat -> Answers, n: nat,
                 a: Answers)
    returns (r: Result<(), IoError>)
    requires fs.Valid() && staged != target && staged != BackupPath(target) && a == answers(n)
    requires t.staged == staged && t.target == target && t.backup == BackupPath(target)
    requires t.oldImage.Some? && t.newImage.Some? ==>
           InPhase(PhaseAfter(answers, n), t.At(fs.files), t.oldImage.value, t.newImage.value)
    modifies fs
    ensures fs.Valid()
    ensures Lookup(old(fs.files), staged) == None ==> r.Err? && fs.files == old(fs.files)
    ensures t.oldImage.Some? && t.newImage.Some? ==>
            InPhase(PhaseAfter(answers, n + 1), t.At(fs.files), t.oldImage.value, t.newImage.value)
    ensures t.oldImage.Some? && t.newImage.Some? && r.Ok? ==> Lookup(fs.files, target) == t.newImage
    ensures t.Restorable(answers) && Unsettled(answers, n) ==>
            (r.Ok? <==> LandedWithChmod(answers, n + 1)) && (r.Err? ==> Unsettled(answers, n + 1))
  {
    ghost var both := t.oldImage.Some? && t.newImage.Some?;
    ghost var before := t.At(fs.files);
    hide AfterSwap, NextPhase;
    if both {
      PhaseStep(PhaseAfter(answers, n), before, a, t.oldImage.value, t.newImage.value);
      PhaseNext(answers, n);
    }
    ghost var attempt;
    r, attempt := SwapAppImage(fs, staged, target, a);
    if t.Restorable(answers) && Unsettled(answers, n) {
      Verdict(answers, n, r.Ok?);
    }
  }

  /** The loop itself. `end`: what is at the paths after the last attempt, before the clean-up. */
  method Settle(fs: FileSystem, ghost t: Swap, staged: string, target: string, answers: nat -> Answers,
                elapsed: nat -> nat, cleanup: Answer)
    returns (code: int, ghost attempts: nat, ghost end: Images)
    requires fs.Valid() && staged != target && staged != BackupPath(target) && Ticks(elapsed)
    requires t == Swap(staged, target, BackupPath(target), Lookup(fs.files, target), Lookup(fs.files, staged))
    modifies fs
    ensures fs.Valid() && 1 <= attempts <= 76 && (code == 0 || code == 1)
    ensures t.newImage == None ==> code == 1 && fs.files == old(fs.files)
    ensures t.oldImage.Some? && t.newImage.Some? ==>
              InPhase(PhaseAfter(answers, attempts), end, t.oldImage.value, t.newImage.value)
    ensures t.oldImage.Some? && t.newImage.Some? && code == 0 ==> end.target == t.newImage
    ensures t.At(fs.files) == if code == 1 && cleanup.Done? then end.(staged := None) else end
    ensures t.Restorable(answers) ==> (code == 0 <==> LandedWithChmod(answers, attempts))
    ensures t.Restorable(answers) && code == 1 ==> Unsettled(answers, attempts)
  {
    ghost var both, restoring := t.oldImage.Some? && t.newImage.Some?, t.Restorable(answers);
    if both {
      FirstPhase(t.At(fs.files), answers);
    }
    var n := 0;
    while true
      invariant fs.Valid()
      invariant n <= 75 && elapsed(n) >= n * RETRY_MS
      invariant t.newImage == None ==> fs.files == old(fs.files)
      invariant both ==> InPhase(PhaseAfter(answers, n), t.At(fs.files), t.oldImage.value, t.newImage.value)
      invariant restoring ==> Unsettled(answers, n)
      decreases 76 - n
    {
      var r := Attempt(fs, t, staged, target, answers, n, answers(n));
      attempts, end := n + 1, t.At(fs.files);
      if r.Ok? {
        code := 0;
        break;
      }
      if elapsed(n) >= SETTLE_MS {
        var _ := fs.Remove(staged, cleanup);
        code := 1;
        break;
      }
      Tick(elapsed, n);
      n := n + 1;
    }
  }

  lemma WhatIsLeft(answers: nat -> Answers, n: nat, s: Images, oldImage: Bytes, newImage: Bytes)
    requires InPhase(PhaseAfter(answers, n), s, oldImage, newImage)
    ensures PhaseAfter(answers, n) != Lost ==> OldKept(s, oldImage)
    ensures !(oldImage <= newImage) ==> (OldKept(s, oldImage) <==> PhaseAfter(answers, n) != Lost)
    ensures AlwaysRestores(answers) ==>
              if NoneLands(answers, n) then s.target == Some(oldImage)
              else s.target == Some(newImage) && s.backup == Some(oldImage) && s.staged == None
    ensures AlwaysRestores(answers) && LandedWithChmod(answers, n) ==> !NoneLands(answers, n)
    ensures PhaseAfter(answers, n) == Landed ==> s.staged == None
  {
    OldKeptExactly(PhaseAfter(answers, n), s, oldImage, newImage);
    if AlwaysRestores(answers) {
      RestoringPhase(answers, n);
    }
  }

  /** The settle loop of the service-mode apply. Attempt `i` gets `answers(i)`, and `elapsed(i)` is
      the time on the clock after it. */
  method SettleAndSwap(fs: FileSystem, staged: string, target: string, answers: nat -> Answers, elapsed: nat -> nat,
                       cleanup: Answer)
    returns (code: int, ghost attempts: nat, ghost t: Swap)
    requires fs.Valid() && staged != target && staged != BackupPath(target)
    requires Ticks(elapsed)
    modifies fs
    ensures t == Swap(staged, target, BackupPath(target), Lookup(old(fs.files), target), Lookup(old(fs.files), staged))
    ensures fs.Valid() && 1 <= attempts <= 76
    ensures code == 0 || code == 1
    // With nothing staged it only waits and gives up.
    ensures t.newImage == None ==> code == 1 && fs.files == old(fs.files)
    // Whatever is refused, a success leaves the new image, and the old one is kept exactly while no phase has
    // overwritten it.
    ensures t.oldImage.Some? && t.newImage.Some? && code == 0 ==> Lookup(fs.files, target) == t.newImage
    ensures t.oldImage.Some? && t.newImage.Some? && PhaseAfter(answers, attempts) != Lost ==>
            OldKept(t.At(fs.files), t.oldImage.value)
    ensures t.oldImage.Some? && t.newImage.Some? && !(t.oldImage.value <= t.newImage.value) ==>
              (OldKept(t.At(fs.files), t.oldImage.value) <==> PhaseAfter(answers, attempts) != Lost)
    // Nothing stays staged once an image has landed, or when the clean-up after a timeout is carried out.
    ensures t.oldImage.Some? && t.newImage.Some? && PhaseAfter(answers, attempts) == Landed ==> staged !in fs.files
    ensures code == 1 && cleanup.Done? ==> staged !in fs.files
    // With both images there and every restoring rename carried out: success leaves the new image, its backup and no
    // staged file.
    ensures t.Restorable(answers) && code == 0 ==> t.Swapped(fs.files)
    // It is a success exactly when the first image to land was also made executable.
    ensures t.Restorable(answers) ==> (code == 0 <==> LandedWithChmod(answers, attempts))
    // A timeout leaves the old image when none landed, and otherwise the new one with the old in the backup.
    ensures t.Restorable(answers) && code == 1 && NoneLands(answers, attempts) ==>
            Lookup(fs.files, target) == t.oldImage
    ensures t.Restorable(answers) && code == 1 && !NoneLands(answers, attempts) ==>
              && Lookup(fs.files, target) == t.newImage && Lookup(fs.files, t.backup) == t.oldImage
              && staged !in fs.files && LandedWithoutChmod(answers, attempts)
  {
    t := Swap(staged, target, BackupPath(target), Lookup(fs.files, target), Lookup(fs.files, staged));
    ghost var end;
    code, attempts, end := Settle(fs, t, staged, target, answers, elapsed, cleanup);
    if t.oldImage.Some? && t.newImage.Some? {
      WhatIsLeft(answers, attempts, end, t.oldImage.value, t.newImage.value);
    }
  }

  // ---- A refused chmod ----

  /** Everything is carried out but the chmod. */
  const ALL_BUT_CHMOD: Answers := Answers(Done, Completes, Done, Completes, Done, Done, Refused(IoError(Some(1))))

  lemma EveryChmodRefused(answers: nat -> Answers)
    requires forall i :: answers(i) == ALL_BUT_CHMOD
    ensures AlwaysRestores(answers) && forall n :: !LandedWithChmod(answers, n)
  {
  }

  lemma FirstLands(answers: nat -> Answers, n: nat)
    requires answers(0) == ALL_BUT_CHMOD && n > 0
    ensures !NoneLands(answers, n)
  {
    assert Lands(answers(0));
  }

  /** The loop times out although nothing but the chmod was refused, and what is installed is the new image. */
  method RefusedChmodRun() returns (code: int, installed: Option<Bytes>)
    ensures code == 1 && installed == Some("new")
  {
    var fs := new FileSystem(map["staged" := "new", "app" := "old"]);
    ghost var attempts, t;
    assert "staged"[0] != "app"[0] && |BackupPath("app")| == 7 && |"staged"| == 6;
    var answers := (_: nat) => ALL_BUT_CHMOD;
    EveryChmodRefused(answers);
    code, attempts, t := SettleAndSwap(fs, "staged", "app", answers, i => 200 * i, Done);
    FirstLands(answers, attempts);
    installed := Lookup(fs.files, "app");
  }
}
