/** The file logger: a line is appended to the current file, which is renamed over a single `.1`
    backup once it has reached the size limit. The file system may refuse any of the steps. */
module LogRotation {
  import opened Wrappers

  /** The log file and its `.1` backup; `None` is a file that does not exist. */
  datatype Files = Files(current: Option<string>, backup: Option<string>)

  /** What the file system answers during one append: to the size query, the removal of the backup,
      the rename and the opening of the file. */
  datatype Answers = Answers(statOk: bool, removeOk: bool, renameOk: bool, appendOk: bool)

  datatype Level = Info | Warn | Error

  const MAX_LOG_SIZE: nat := 10 * 1024 * 1024

  function Text(f: Option<string>): string {
    f.GetOr("")
  }

  // ---- Specification of one step ----

  function Rotated(f: Files, maxBytes: nat, a: Answers): Files {
    if f.current.None? || !a.statOk || |f.current.value| < maxBytes then f
    else
      var backup := if a.removeOk then None else f.backup;
      if a.renameOk then Files(None, f.current) else Files(f.current, backup)
  }

  function Written(f: Files, line: string, a: Answers): Files {
    if a.appendOk then f.(current := Some(Text(f.current) + line)) else f
  }

  function Logged(f: Files, maxBytes: nat, line: string, a: Answers): Files {
    Written(Rotated(f, maxBytes, a), line, a)
  }

  function StderrRouteKeeps(level: Level, includeInfo: bool): bool {
    includeInfo || level != Info
  }

  // ---- The logger ----

  class Logger {
    var files: Files
    var stderr: seq<string>
    var disabled: bool
    var stderrOnly: bool
    var stderrInfo: bool

    constructor ()
      ensures files == Files(None, None) && stderr == []
      ensures !disabled && !stderrOnly && !stderrInfo
    {
      files := Files(None, None);
      stderr := [];
      disabled, stderrOnly, stderrInfo := false, false, false;
    }

    method Disable()
      modifies this`disabled
      ensures disabled
    {
      disabled := true;
    }

    method Enable()
      modifies this`disabled
      ensures !disabled
    {
      disabled := false;
    }

    method RouteToStderr(includeInfo: bool)
      modifies this`stderrInfo, this`stderrOnly
      ensures stderrOnly && stderrInfo == includeInfo
    {
      stderrInfo := includeInfo;
      stderrOnly := true;
    }

    method RotateByRenameIfLarge(maxBytes: nat, a: Answers)
      modifies this`files
      ensures files == Rotated(old(files), maxBytes, a)
    {
      if files.current.Some? && a.statOk {
        if |files.current.value| >= maxBytes {
          if a.removeOk {
            files := files.(backup := None);
          }
          if a.renameOk {
            files := Files(None, files.current);
          }
        }
      }
    }

    method Append(level: Level, line: string, isTerminal: bool, a: Answers)
      modifies this`files, this`stderr
      ensures old(disabled) ==> files == old(files) && stderr == old(stderr)
      ensures files == if disabled || stderrOnly then old(files) else Logged(old(files), MAX_LOG_SIZE, line, a)
      ensures stderr == old(stderr)
                        + if !disabled && (if stderrOnly then StderrRouteKeeps(level, stderrInfo) else isTerminal)
                          then [line] else []
    {
      if disabled {
        return;
      }
      if !stderrOnly {
        RotateByRenameIfLarge(MAX_LOG_SIZE, a);
        if a.appendOk {
          files := files.(current := Some(Text(files.current) + line));
        }
      }
      var echo := if stderrOnly then StderrRouteKeeps(level, stderrInfo) else isTerminal;
      if echo {
        stderr := stderr + [line];
      }
    }
  }

  // ---- Whole runs ----

  datatype Entry = Entry(line: string, answers: Answers)

  function Run(f: Files, maxBytes: nat, entries: seq<Entry>): Files {
    if entries == [] then f
    else
      var last := entries[|entries| - 1];
      Logged(Run(f, maxBytes, entries[..|entries| - 1]), maxBytes, last.line, last.answers)
  }

  /** Everything that ever reached the file. */
  function EverWritten(entries: seq<Entry>): string {
    if entries == [] then ""
    else
      var last := entries[|entries| - 1];
      EverWritten(entries[..|entries| - 1]) + (if last.answers.appendOk then last.line else "")
  }

  /** What a reader finds: the backup, then the current file. */
  function Retained(f: Files): string {
    Text(f.backup) + Text(f.current)
  }

  predicate IsSuffix(s: string, t: string) {
    |s| <= |t| && t[|t| - |s|..] == s
  }

  predicate Invariant(f: Files, maxBytes: nat, written: string) {
    && IsSuffix(Retained(f), written)
    && (f.backup.Some? ==> |f.backup.value| >= maxBytes)
    && (Retained(f) == written || f.backup.Some? || |Text(f.current)| >= maxBytes)
  }

  lemma SuffixTransitive(a: string, b: string, c: string)
    requires IsSuffix(a, b) && IsSuffix(b, c)
    ensures IsSuffix(a, c)
  {
    assert c[|c| - |a|..] == c[|c| - |b|..][|b| - |a|..];
  }

  lemma RotatedKeepsInvariant(f: Files, maxBytes: nat, a: Answers, written: string)
    requires Invariant(f, maxBytes, written)
    ensures Invariant(Rotated(f, maxBytes, a), maxBytes, written)
  {
    var g := Rotated(f, maxBytes, a);
    if g != f {
      assert Retained(g) == Text(f.current);
      assert Retained(f) == Text(f.backup) + Text(f.current);
      assert IsSuffix(Text(f.current), Retained(f));
      SuffixTransitive(Text(f.current), Retained(f), written);
    }
  }

  lemma WrittenKeepsInvariant(f: Files, maxBytes: nat, line: string, a: Answers, written: string)
    requires Invariant(f, maxBytes, written)
    ensures Invariant(Written(f, line, a), maxBytes, written + (if a.appendOk then line else ""))
  {
    if a.appendOk {
      var g := Written(f, line, a);
      assert Retained(g) == Retained(f) + line;
      assert (written + line)[|written + line| - |Retained(g)|..] == written[|written| - |Retained(f)|..] + line;
    } else {
      assert written + "" == written;
    }
  }

  lemma {:induction false} RunKeepsInvariant(maxBytes: nat, entries: seq<Entry>)
    ensures Invariant(Run(Files(None, None), maxBytes, entries), maxBytes, EverWritten(entries))
  {
    if entries != [] {
      var before, last := entries[..|entries| - 1], entries[|entries| - 1];
      var f := Run(Files(None, None), maxBytes, before);
      RunKeepsInvariant(maxBytes, before);
      RotatedKeepsInvariant(f, maxBytes, last.answers, EverWritten(before));
      WrittenKeepsInvariant(Rotated(f, maxBytes, last.answers), maxBytes, last.line, last.answers, EverWritten(before));
    }
  }

  /** Whatever the file system refuses, the two files hold the tail of everything written: all of it, or at least the
      limit. */
  lemma {:induction false} RetentionOverAnyRun(maxBytes: nat, entries: seq<Entry>)
    ensures var kept := Retained(Run(Files(None, None), maxBytes, entries));
            && IsSuffix(kept, EverWritten(entries))
            && (kept == EverWritten(entries) || |kept| >= maxBytes)
  {
    RunKeepsInvariant(maxBytes, entries);
  }

  predicate RotationsSucceed(entries: seq<Entry>) {
    forall i :: 0 <= i < |entries| ==> entries[i].answers.statOk && entries[i].answers.renameOk
  }

  predicate LinesAtMost(entries: seq<Entry>, longest: nat) {
    forall i :: 0 <= i < |entries| ==> |entries[i].line| <= longest
  }

  /** While size queries and renames succeed, each file stays below the limit plus the longest line. */
  lemma {:induction false} FilesStayBounded(maxBytes: nat, entries: seq<Entry>, longest: nat)
    requires maxBytes > 0 && RotationsSucceed(entries) && LinesAtMost(entries, longest)
    ensures var f := Run(Files(None, None), maxBytes, entries);
            |Text(f.current)| < maxBytes + longest && |Text(f.backup)| < maxBytes + longest
  {
    if entries != [] {
      FilesStayBounded(maxBytes, entries[..|entries| - 1], longest);
    }
  }

  function Repeated(e: Entry, n: nat): seq<Entry> {
    if n == 0 then [] else Repeated(e, n - 1) + [e]
  }

  /** The condition is needed: when every rename is refused the file takes any size. */
  lemma {:induction false} RefusedRenamesLetTheFileGrow(maxBytes: nat, n: nat)
    ensures |Text(Run(Files(None, None), maxBytes,
                      Repeated(Entry("x", Answers(true, true, false, true)), n)).current)| == n
  {
    if n > 0 {
      var e := Entry("x", Answers(true, true, false, true));
      RefusedRenamesLetTheFileGrow(maxBytes, n - 1);
      assert Repeated(e, n)[..|Repeated(e, n)| - 1] == Repeated(e, n - 1);
    }
  }

  // ---- The switches over a run ----

  /** What a program asks of its logger. */
  datatype Command = TurnOff | TurnOn | ToStderr(includeInfo: bool)
    | Log(level: Level, line: string, isTerminal: bool, answers: Answers)

  /** Some command turned logging off and none after it turned it on again. */
  ghost predicate Off(before: seq<Command>) {
    exists i :: 0 <= i < |before| && before[i].TurnOff? && forall j :: i < j < |before| ==> !before[j].TurnOn?
  }

  ghost predicate Routed(before: seq<Command>) {
    exists i :: 0 <= i < |before| && before[i].ToStderr?
  }

  /** The last routing asked for INFO lines too. */
  ghost predicate RoutedWithInfo(before: seq<Command>) {
    exists i ::
      && 0 <= i < |before| && before[i] == ToStderr(true)
      && forall j :: i < j < |before| ==> !before[j].ToStderr?
  }

  /** The lines logged while logging was on and not routed to stderr, with what the file system answered. */
  ghost function FileLines(commands: seq<Command>): seq<Entry> {
    if commands == [] then []
    else
      var before, c := commands[..|commands| - 1], commands[|commands| - 1];
      FileLines(before) + if c.Log? && !Off(before) && !Routed(before) then [Entry(c.line, c.answers)] else []
  }

  /** The lines logged while logging was on that are echoed to a terminal or routed. */
  ghost function StderrLines(commands: seq<Command>): seq<string> {
    if commands == [] then []
    else
      var before, c := commands[..|commands| - 1], commands[|commands| - 1];
      StderrLines(before)
      + if c.Log? && !Off(before)
           && (if Routed(before) then c.level != Info || RoutedWithInfo(before) else c.isTerminal)
        then [c.line] else []
  }

  lemma SwitchesAfter(before: seq<Command>, c: Command)
    ensures Off(before + [c]) <==> c.TurnOff? || (Off(before) && !c.TurnOn?)
    ensures Routed(before + [c]) <==> c.ToStderr? || Routed(before)
    ensures RoutedWithInfo(before + [c]) <==> c == ToStderr(true) || (RoutedWithInfo(before) && !c.ToStderr?)
  {
    var after, n := before + [c], |before|;
    assert after[n] == c && forall i :: 0 <= i < n ==> after[i] == before[i];
    if Off(before) && !c.TurnOn? {
      var i :| 0 <= i < n && before[i].TurnOff? && forall j :: i < j < n ==> !before[j].TurnOn?;
      assert after[i].TurnOff?;
    }
    if Routed(before) {
      var i :| 0 <= i < n && before[i].ToStderr?;
      assert after[i].ToStderr?;
    }
    if RoutedWithInfo(before) && !c.ToStderr? {
      var i :| 0 <= i < n && before[i] == ToStderr(true) && forall j :: i < j < n ==> !before[j].ToStderr?;
      assert after[i] == ToStderr(true);
    }
  }

  lemma NoSwitches(commands: seq<Command>)
    ensures commands[..0] == [] && !Off([]) && !Routed([]) && !RoutedWithInfo([])
    ensures FileLines([]) == [] && StderrLines([]) == []
            && Run(Files(None, None), MAX_LOG_SIZE, []) == Files(None, None)
  {
  }

  lemma LinesAfter(before: seq<Command>, c: Command)
    ensures FileLines(before + [c]) ==
            if c.Log? && !Off(before) && !Routed(before) then FileLines(before) + [Entry(c.line, c.answers)]
            else FileLines(before)
    ensures StderrLines(before + [c]) ==
            if c.Log? && !Off(before)
              && (if Routed(before) then c.level != Info || RoutedWithInfo(before) else c.isTerminal)
            then StderrLines(before) + [c.line] else StderrLines(before)
  {
    hide Off, Routed, RoutedWithInfo;
    assert (before + [c])[..|before|] == before;
    assert FileLines(before) + [] == FileLines(before) && StderrLines(before) + [] == StderrLines(before);
  }

  lemma RunOneMore(entries: seq<Entry>, e: Entry)
    ensures Run(Files(None, None), MAX_LOG_SIZE, entries + [e])
            == Logged(Run(Files(None, None), MAX_LOG_SIZE, entries), MAX_LOG_SIZE, e.line, e.answers)
  {
    assert (entries + [e])[..|entries|] == entries;
  }

  /** Over any sequence of switches and lines the files hold a run over exactly the lines logged while on and not
      routed, and stderr gets exactly the lines it should; so nothing gets anywhere between turning off and turning on
      again. */
  method Perform(commands: seq<Command>) returns (logger: Logger)
    ensures logger.files == Run(Files(None, None), MAX_LOG_SIZE, FileLines(commands))
    ensures logger.stderr == StderrLines(commands)
    ensures logger.disabled == Off(commands)
  {
    hide Off, Routed, RoutedWithInfo, Logged, FileLines, StderrLines, Run;
    logger := new Logger();
    NoSwitches(commands);
    for i := 0 to |commands|
      invariant logger.files == Run(Files(None, None), MAX_LOG_SIZE, FileLines(commands[..i]))
      invariant logger.stderr == StderrLines(commands[..i])
      invariant logger.disabled == Off(commands[..i])
      invariant logger.stderrOnly == Routed(commands[..i])
      invariant logger.stderrInfo == RoutedWithInfo(commands[..i])
    {
      ghost var before := commands[..i];
      SwitchesAfter(before, commands[i]);
      LinesAfter(before, commands[i]);
      assert commands[..i + 1] == before + [commands[i]];
      match commands[i] {
        case TurnOff => logger.Disable();
        case TurnOn => logger.Enable();
        case ToStderr(info) => logger.RouteToStderr(info);
        case Log(level, line, isTerminal, answers) =>
          RunOneMore(FileLines(before), Entry(line, answers));
          logger.Append(level, line, isTerminal, answers);
      }
    }
    assert commands[..|commands|] == commands;
  }

  /** While logging is off, whatever is logged or routed, nothing is added anywhere. */
  lemma {:induction false} SilentWhileOff(commands: seq<Command>, more: seq<Command>)
    requires Off(commands) && forall i :: 0 <= i < |more| ==> !more[i].TurnOn?
    ensures FileLines(commands + more) == FileLines(commands) && StderrLines(commands + more) == StderrLines(commands)
    ensures Off(commands + more)
  {
    if more == [] {
      assert commands + more == commands;
    } else {
      var before, c := more[..|more| - 1], more[|more| - 1];
      SilentWhileOff(commands, before);
      hide Off, Routed, RoutedWithInfo, FileLines, StderrLines;
      SwitchesAfter(commands + before, c);
      LinesAfter(commands + before, c);
      assert commands + more == (commands + before) + [c];
    }
  }

  // ---- The backup's name ----

  function DotOne(path: string): string {
    path + ".1"
  }

  lemma DotOneIsAnotherFile(p: string, q: string)
    ensures DotOne(p) != p
    ensures DotOne(p) == DotOne(q) ==> p == q
  {
    assert |DotOne(p)| == |p| + 2;
    assert DotOne(p)[..|p|] == p && DotOne(q)[..|q|] == q;
  }
}
