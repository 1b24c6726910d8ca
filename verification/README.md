# Verified model of ws-scrcpy-web's launcher and codec cores

ws-scrcpy-web serves Android screens to a browser. Around its server stands a launcher written in Rust, which starts and
restarts the server, keeps a tray running in every session, updates and uninstalls the app, and writes the log; the browser
side reads and writes a binary protocol. This project models the parts of it that are decided by arithmetic, by file-system
steps that may be refused half-way, by threads that interleave, or by state carried over long runs, and proves what they are for.

Each module follows one component. Where the program changes things step by step the model is a class or a method with the
same steps, proved against a specification that is then studied in lemmas; where the program computes a value it is a function.
What the operating system decides (a refused rename, an interrupted copy, a process that cannot be started, the clock, the
answer at a password prompt) is a parameter, so every theorem holds for all of it.

| module | what it is about |
|---|---|
| `Calendar`, `Timestamp`, `LogRotation` | the hand-written calendar, the fixed-width timestamp, the two-file log |
| `TrustGuard` | the check of root's dependencies tree, and what it means for real path resolution |
| `Paths`, `UninstallPlan`, `UninstallRun`, `StrayProcesses` | the complete uninstall: its plan, its two processes, what is left on disk, whom it kills |
| `FileStore`, `HelperInstall`, `SwapAppImage` | replacing a file that is in use, with every intermediate state recorded |
| `SlotAdmission` | the ceiling on connection handlers, over all interleavings |
| `Extraction` | extracting a verified package |
| `ByteOrder`, `BinaryCodec` | the binary writer and reader |
| `Supervisor`, `TraySupervisor`, `ServyRecovery` | the restart loop, one tray per session, the one-time recovery repair |
| `HtmlEscape` | the five replacement passes |
| `Arithmetic`, `Prefixes`, `Wrappers` | shared helpers |

## Where the code and its comments disagree

The models follow the code. What follows from that is proved.

- `launcher/src/root_trust_guard.rs:58-60` says the check of each link's own text covers a chain of links. It does not when a
  link's target climbs with `..` after passing through another link: `TrustGuard.PassingIsNotEnough` is such a tree,
  `TrustGuard.PassingTreeKeepsPaths` is the case where the check is enough, and `TrustGuard.ContainedExactly` says exactly
  when a tree holds every path.
- `launcher/src/operation_server.rs:800-806` says a slot is refused only when the ceiling is reached. A pending undo of another
  accept loop can refuse one while a slot is free: `SlotAdmission.PendingUndoCanRefuseBelowTheCeiling`, and
  `SlotAdmission.RefusedExactly` for the exact condition. The guard is created inside the handler's thread, so a thread that
  cannot be created keeps its slot. `thread::spawn` then panics in the accept loop itself: the release profile aborts there, so
  the leak can be seen only in a build that unwinds, and there that loop is over. `SlotAdmission.UnstartedThreadKeepsItsSlot`
  is such a run, and `SlotAdmission.DrainedCounter` says that as many slots leak as accept loops have ended.
- `launcher/src/linux_apply.rs:130-132` calls a failed swap self-healing. A refused `chmod` comes after the new image is in
  place and undoes nothing; from then on every retry fails for want of a staged image and the loop times out with the new
  image installed. `SwapAppImage.RefusedChmodRun` is such a run, and `SwapAppImage.SettleAndSwap` states when that happens.
- `launcher/src/linux_app_uninstall.rs:420-425` says the privileged group never partly runs. A child that dies half-way leaves
  it partly run: `UninstallRun.CutShortRun` is such a run, and `UninstallRun.RunUnelevated` says that exactly the steps the
  child got to count. `UninstallRun.NothingIsGoneExactly` says after how many of them nothing has been removed, and
  `UninstallRun.OptIsGoneExactly` after how many the machine-wide install is gone.
- A `--keep` uninstall keeps the configuration and the logs exactly when the data root lies in neither of the two trees the
  privileged group deletes whole. The code compares the data root with root's stray tree as text, so another spelling of that
  same directory is deleted: `UninstallPlan.DoubledSlashIsNotKept` for `/root//.local/share/WsScrcpyWeb`, and
  `UninstallPlan.KeepSparesTheConfigExactly` for the exact condition.
- `src/app/BinaryReader.ts:12-17` says reads never leave the message. That holds from a non-negative position; a reader opened
  at a negative one reaches bytes in front of its message with `readBytes`: `BinaryCodec.ReadInFrontOfTheMessage` does, and
  `BinaryCodec.BinaryReader.ReadBytes` says when.
- The year arithmetic of the calendar wraps at 32 bits in the release build. `Calendar.CivilFromDaysExactly` gives the exact
  range of days, and `Calendar.FirstWrongDay` the day after it.

## Model

| member | source | states |
|---|---|---|
| Calendar.EraIsFloor | common/src/log.rs:166-169 | Rust's truncating division with the negative branch is floor division, so the day of the era lies in 0..=146096 before the epoch too |
| Calendar.IntermediateRanges | common/src/log.rs:169-176 | every intermediate stays in the range its comment gives, and no unsigned subtraction goes below zero |
| Calendar.MarchDateStep | common/src/log.rs:172-177 | one day later in the closed form is one step of the Gregorian calendar, across months, leap days and years |
| Calendar.CivilIsDateOfDay | common/src/log.rs:166-178 | the closed form over unbounded integers is the date reached by stepping day by day from 1970-01-01, forwards or backwards |
| Calendar.CivilFromDaysIsTheCalendar | common/src/log.rs:166-178 | for every day number the result has the stepped date's month and day, and its year modulo 2^32; the stepped date is a valid date |
| Calendar.CivilFromDaysExactly | common/src/log.rs:166-178 | the result is exactly the stepped date if and only if the day number lies in -784353015833..=784351576776, and the 64-bit sums fit while the shifted day does |
| Calendar.FirstWrongDay | common/src/log.rs:172-177 | on day 784351576777, 1 January 2147483648, the year comes out as -2147483648 |
| Calendar.DatesIncrease | common/src/log.rs:166-178 | later days have later dates |
| Timestamp.TimestampIsFields | common/src/log.rs:150-163 | up to the end of 9999 the text is the seven fixed-width fields of the instant in whole milliseconds; the nested divisions lose nothing |
| Timestamp.TimestampsSortByTime | common/src/log.rs:150-163 | from the epoch to the end of 9999 timestamps compare as strings exactly as the instants compare in milliseconds, and are equal exactly when those are |
| Timestamp.TimestampWidth | common/src/log.rs:150-163 | every such timestamp is 23 characters long |
| Timestamp.Year10000SortsBeforeYear9999 | common/src/log.rs:150-163 | one millisecond past the range the order breaks, so the range cannot be extended |
| LogRotation.Logger.RotateByRenameIfLarge | common/src/log.rs:217-225 | what the two files are after a rotation whose steps may each be refused |
| LogRotation.Logger.Append | common/src/log.rs:180-204 | what a line adds to the file and to stderr in each mode; nothing at all when disabled |
| LogRotation.Perform | common/src/log.rs:59-71 | over any sequence of switching off, on, routing and logging, the files hold a run over exactly the lines logged while on and not routed, and stderr exactly the lines echoed or kept while on |
| LogRotation.SilentWhileOff | common/src/log.rs:59-76 | once off, whatever is logged or routed until it is turned on again reaches neither the files nor stderr |
| LogRotation.RetentionOverAnyRun | common/src/log.rs:180-225 | over any run from empty files, whatever is refused, backup then current is a suffix of all that was written, and is all of it or at least the limit |
| LogRotation.FilesStayBounded | common/src/log.rs:217-225 | while size queries and renames succeed each file stays below the limit plus the longest line |
| LogRotation.RefusedRenamesLetTheFileGrow | common/src/log.rs:217-225 | the condition is needed: with every rename refused the current file takes any size |
| LogRotation.DotOneIsAnotherFile | common/src/log.rs:208-212 | the backup is another file, and different logs have different backups |
| TrustGuard.Normalize | launcher/src/root_trust_guard.rs:44-56 | the loop computes the lexical meaning of the path |
| TrustGuard.LexicalIsPhysicalWithoutLinks | launcher/src/root_trust_guard.rs:44-56 | where the path meets no link, the normalised text is where the system really ends |
| TrustGuard.FindUnsafe | launcher/src/root_trust_guard.rs:108-122 | the walk ends; no reason means every entry of the tree passed and could be read; a reason belongs to an entry of the tree; an error means an entry could not be read |
| TrustGuard.PassingTreeKeepsPaths | launcher/src/root_trust_guard.rs:58-88 | in a tree that passes, any path from any start that reads as inside also ends inside if it ends, however it climbs before its first link, given that nothing climbs after a link and nothing outside is one |
| TrustGuard.PassingTreeIsContained | launcher/src/root_trust_guard.rs:58-88 | in particular such a tree holds every downward path from its root |
| TrustGuard.PassingIsNotEnough | launcher/src/root_trust_guard.rs:58-78 | without that condition a tree of two links passes and leads out |
| TrustGuard.ContainedExactly | launcher/src/root_trust_guard.rs:58-78 | a tree holds every downward path if and only if each of its links, really followed, ends inside |
| UninstallPlan.AppUninstallCommands | launcher/src/linux_app_uninstall.rs:170-273 | the steps pushed into the two vectors are the two groups, in order, for every scope and flag |
| UninstallPlan.SplitDataRootWipe | launcher/src/linux_app_uninstall.rs:724-740 | lifts out the first whole-root removal and nothing else, keeping the other steps in order; without one the group comes back unchanged |
| UninstallPlan.WipeRemovesTheRootOnce | launcher/src/linux_app_uninstall.rs:150-273 | a wipe plan removes the whole data root exactly once over both groups, in the privileged one exactly for a system service |
| UninstallPlan.TeardownSpares | launcher/src/linux_app_uninstall.rs:106-143 | a service's teardown removes its unit file and no other file |
| UninstallPlan.DataRootCommandsExactly | launcher/src/linux_app_uninstall.rs:150-159 | the data root's commands remove all of it when wiping, and exactly its three regenerable directories when keeping |
| UninstallPlan.PrivilegedRemovesExactly | launcher/src/linux_app_uninstall.rs:170-273 | for every scope and flag the privileged group removes root's footprint, listed place by place, and nothing else |
| UninstallPlan.UserOwnedRemovesExactly | launcher/src/linux_app_uninstall.rs:170-226 | for every scope and flag the other group removes the user's footprint and nothing else |
| UninstallPlan.KeepSparesExactly | launcher/src/linux_app_uninstall.rs:150-273 | a keep plan spares a kept place if and only if the data root lies in no tree deleted whole and the place is none of the single files deleted |
| UninstallPlan.KeepSparesTheConfigExactly | launcher/src/linux_app_uninstall.rs:150-273 | a keep plan spares the configuration if and only if the data root lies in no tree deleted whole |
| UninstallPlan.DoubledSlashIsNotKept | launcher/src/linux_app_uninstall.rs:258-266 | a valid data root whose keep plan deletes the configuration: root's stray tree spelled with a doubled slash |
| UninstallRun.Process.Log | common/src/log.rs:127-144 | a file-log line makes the logs directory again and creates nothing but its ancestors and the log file |
| UninstallRun.CreatedOutside | launcher/src/linux_app_uninstall.rs:742-752 | nothing a log line creates lies under a data root that does not contain the log root |
| UninstallRun.RunBestEffort | launcher/src/linux_app_uninstall.rs:888-900 | a group removes only what its steps name, whatever fails, and all of it when nothing fails; it does not bring an emptied root back when logging goes elsewhere |
| UninstallRun.ReportIsOutside | launcher/src/linux_app_uninstall.rs:759-766 | the report is beside the data root, never inside it |
| UninstallRun.RunDataRootWipe | launcher/src/linux_app_uninstall.rs:819-853 | a successful removal leaves nothing under the root; logging stops exactly when it would go inside; a report appears exactly when logging had to stop and the root is not cleanly gone |
| UninstallRun.RunElevated | launcher/src/linux_app_uninstall.rs:706-718 | the child removes only what the steps it gets to name, all of it when nothing fails, and after a successful wipe none of its relayed lines brings the root back |
| UninstallRun.Elevate | launcher/src/linux_app_uninstall.rs:454-508 | an elevation that was refused or never started removes nothing |
| UninstallRun.RunPrivileged | launcher/src/linux_app_uninstall.rs:439-511 | in each mode the group removes only what it names and, with every command carried out, all of it but the removal it hands back; a child that died half-way has removed what the steps it got to name and nothing else |
| UninstallRun.RunUnelevated | launcher/src/linux_app_uninstall.rs:426-532 | the whole run in every mode: a wipe leaves nothing under the data root although log lines re-create directories, unless the parent logs inside a root its child deleted, in which case it comes back; a wipe that fell short leaves a report; with every command carried out nothing of the app's footprint is left but what the helper's own log writes; keeping keeps the configuration and logs whatever fails; a refused prompt removes nothing, and a child cut short has removed what its steps so far name and nothing else |
| UninstallRun.NothingIsGoneExactly | launcher/src/linux_app_uninstall.rs:229-240 | a child cut short after some steps has removed nothing at all if and only if they were none, or at most the three service commands before a system service's unit file |
| UninstallRun.OptIsGoneExactly | launcher/src/linux_app_uninstall.rs:229-240 | a child cut short after some steps has removed the machine-wide install if and only if they were at least one, or at least six with a system service |
| UninstallRun.CutShortRun | launcher/src/linux_app_uninstall.rs:490-497 | a run that is called off after its child deleted the machine-wide install: of the files there before, that one is gone and no other |
| StrayProcesses.SparedPids | launcher/src/linux_app_uninstall.rs:548-558 | the walk ends on every parent table, cyclic ones included, with exactly the helper and its ancestors above pid 1 |
| StrayProcesses.StrayKillTargets | launcher/src/linux_app_uninstall.rs:547-565 | the two loops compute the kill list of the snapshot |
| StrayProcesses.KillListExactly | launcher/src/linux_app_uninstall.rs:541-565 | a pid is killed if and only if an entry with it names the app and it is neither the helper nor an ancestor |
| StrayProcesses.HelperAndParentAreSpared | launcher/src/linux_app_uninstall.rs:541-565 | whatever the command lines say, the helper kills neither itself nor the process that started it |
| FileStore.FileSystem.Copy | launcher/src/operation_server.rs:1252-1256 | an interrupted copy leaves a beginning of the source at the destination and touches no other path at any step |
| HelperInstall.ReplaceRunning | launcher/src/operation_server.rs:1265-1280 | moving a running helper aside: the path is empty for one step at most, and then the old bytes are complete beside it |
| HelperInstall.InstallHelperCopyWith | launcher/src/operation_server.rs:1247-1281 | at every step the path holds all of the old or all of the new helper, or is in the one gap; exactly when it succeeds; which refusal is reported; no staged copy survives a failure whose clean-up is carried out |
| HelperInstall.MarkedSiblingsDiffer | launcher/src/operation_server.rs:1285-1293 | the staged and moved-aside names differ from the helper's and from each other |
| SwapAppImage.SwapAppImage | launcher/src/linux_apply.rs:299-325 | exactly when it succeeds and what is then at its three paths, however it ends; neither image is lost at any step; a failure before the new image is in place puts everything back when the restoring rename is carried out; which refusal is reported |
| SwapAppImage.SettleAndSwap | launcher/src/linux_apply.rs:130-149 | ends within 76 attempts; whatever is refused, a success leaves the new image, and the old one survives the loop if and only if no attempt has written a begun copy over the backup; nothing stays staged once an image has landed or the clean-up is carried out; with every restoring rename carried out, success means new image, backup and no staged file, a timeout means the old image unless a chmod was refused, and exactly when each happens |
| SwapAppImage.RefusedChmodRun | launcher/src/linux_apply.rs:323-324 | a run in which only the chmod is refused times out with the new image installed |
| SwapAppImage.PhaseStep | launcher/src/linux_apply.rs:299-325 | what a swap does to the three paths from every phase a series of swaps can be in |
| SwapAppImage.LostByTwoFailures | launcher/src/linux_apply.rs:307-321 | losing the old image takes a refused restore after a copy had begun, and a later swap whose backup step writes |
| SwapAppImage.StrandedUntilTouched | launcher/src/linux_apply.rs:307-321 | and after such a refusal it is lost exactly when a later swap's backup step writes |
| SlotAdmission.StepKeepsInvariant | launcher/src/operation_server.rs:807-834 | every atomic step of every thread keeps: the counter is held slots plus pending undos, held slots never exceed the ceiling, and as many handlers never started as accept loops have ended |
| SlotAdmission.CeilingHoldsInEveryRun | launcher/src/operation_server.rs:807-870 | in every interleaving running handlers never exceed the ceiling and the counter overshoots by the number of accept loops at most |
| SlotAdmission.DrainedCounter | launcher/src/operation_server.rs:817-870 | once all drains the counter is the number of accept loops that ended on a thread they could not create, so zero exactly when all started, and never more than the number of loops |
| SlotAdmission.StartedHandlersNeverLeak | launcher/src/operation_server.rs:817-834 | in a run where every thread starts no slot is ever lost, panics included |
| SlotAdmission.UnstartedThreadKeepsItsSlot | launcher/src/operation_server.rs:864-871 | a run in which nothing is in flight and every attempt of the other loop is refused |
| SlotAdmission.AdmittedWithoutReleases | launcher/src/operation_server.rs:807-814 | while nothing is released exactly the smaller of attempts and ceiling is admitted, in every interleaving |
| SlotAdmission.RefusedExactly | launcher/src/operation_server.rs:807-814 | an attempt is refused if and only if held slots and pending undos together reach the ceiling |
| SlotAdmission.PendingUndoCanRefuseBelowTheCeiling | launcher/src/operation_server.rs:800-814 | held slots alone need not reach it: a run in which a connection is refused while no handler is live |
| Extraction.NormalizeRelative | launcher/src/operation_server.rs:399-412 | the loop computes the normal form of a relative path |
| Extraction.InteriorParentCancels | launcher/src/operation_server.rs:392-412 | a component and the `..` after it cancel wherever they stand, so what is left below `lib/app` never climbs |
| Extraction.VetEntries | launcher/src/operation_server.rs:469-502 | pass one refuses if and only if some entry is unacceptable, and otherwise lists the payload |
| Extraction.TargetsAreThePayload | launcher/src/operation_server.rs:478-502 | the targets are exactly the entries that normalise to below `lib/app`, in package order |
| Extraction.WritePayload | launcher/src/operation_server.rs:504-520 | pass two changes nothing outside the app directory but directories on the way to it, and overlays the old tree by exactly the payload, later entries winning; on a willing disk it succeeds if and only if the payload clashes neither with the old tree nor with itself |
| Extraction.FindAndExtract | launcher/src/operation_server.rs:424-524 | anything refused before pass two leaves the disk as it was; success is the old tree overlaid by exactly the payload; on a willing disk it succeeds if and only if the package is acceptable and its payload fits the old tree |
| ByteOrder.BytesRoundTrip | src/app/BinaryWriter.ts:25-59 | an integer written in either byte order reads back modulo 256^n |
| ByteOrder.SignedRoundTrip | src/app/BinaryReader.ts:25-57 | the two's complement reading lies in its range, has the same residue, and is the number itself whenever that fits |
| BinaryCodec.FieldRoundTrip | src/app/BinaryReader.ts:26-87 | each typed read undoes the typed write, up to the wrap-around of its width |
| BinaryCodec.InRangeIsStored | src/app/BinaryWriter.ts:13-65 | values in range are stored as they are |
| BinaryCodec.SequenceRoundTrip | src/app/BinaryReader.ts:26-87 | any sequence of typed writes read back by the same types gives the stored values |
| BinaryCodec.EncodedWidth | src/app/BinaryWriter.ts:13-65 | and the types account for every byte |
| BinaryCodec.BinaryWriter.SetBytes | src/app/BinaryWriter.ts:74-77 | writes all of the bytes or, out of range, none |
| BinaryCodec.BinaryWriter.WriteUInt8 | src/app/BinaryWriter.ts:13-17 | appends the encoding and leaves the rest of the buffer, or throws and changes nothing |
| BinaryCodec.BinaryWriter.WriteInt8 | src/app/BinaryWriter.ts:19-23 | the same, signed byte |
| BinaryCodec.BinaryWriter.WriteUInt16BE | src/app/BinaryWriter.ts:25-29 | the same, 16 bits |
| BinaryCodec.BinaryWriter.WriteInt16BE | src/app/BinaryWriter.ts:31-35 | the same, 16 bits signed |
| BinaryCodec.BinaryWriter.WriteUInt32BE | src/app/BinaryWriter.ts:37-41 | the same, 32 bits |
| BinaryCodec.BinaryWriter.WriteInt32BE | src/app/BinaryWriter.ts:43-47 | the same, 32 bits signed |
| BinaryCodec.BinaryWriter.WriteUInt32LE | src/app/BinaryWriter.ts:49-53 | the same, 32 bits, least significant byte first |
| BinaryCodec.BinaryWriter.WriteBigUInt64BE | src/app/BinaryWriter.ts:55-59 | the same, 64 bits |
| BinaryCodec.BinaryWriter.WriteBytes | src/app/BinaryWriter.ts:61-65 | the same, raw bytes |
| BinaryCodec.BinaryWriter.WriteBytesAt | src/app/BinaryWriter.ts:74-77 | patches anywhere without moving the cursor, or throws and changes nothing |
| BinaryCodec.BinaryReader.Check | src/app/BinaryReader.ts:18-24 | passes exactly for lengths from zero up to what remains |
| BinaryCodec.BinaryReader.ReadUInt8 | src/app/BinaryReader.ts:26-31 | from a non-negative position throws exactly when too few bytes remain, leaving the cursor; otherwise decodes its bytes of the message |
| BinaryCodec.BinaryReader.ReadInt8 | src/app/BinaryReader.ts:33-38 | the same, signed byte |
| BinaryCodec.BinaryReader.ReadUInt16BE | src/app/BinaryReader.ts:40-45 | the same, 16 bits |
| BinaryCodec.BinaryReader.ReadInt16BE | src/app/BinaryReader.ts:47-52 | the same, 16 bits signed |
| BinaryCodec.BinaryReader.ReadUInt32BE | src/app/BinaryReader.ts:54-59 | the same, 32 bits |
| BinaryCodec.BinaryReader.ReadInt32BE | src/app/BinaryReader.ts:61-66 | the same, 32 bits signed |
| BinaryCodec.BinaryReader.ReadUInt32LE | src/app/BinaryReader.ts:68-73 | the same, 32 bits, least significant byte first |
| BinaryCodec.BinaryReader.ReadBigUInt64BE | src/app/BinaryReader.ts:75-80 | the same, 64 bits |
| BinaryCodec.BinaryReader.ReadBytes | src/app/BinaryReader.ts:82-87 | the same for raw bytes; from any position it stays inside the underlying buffer, and it hands out a byte from outside the message if and only if it starts in front of it and is not empty |
| BinaryCodec.ReadInFrontOfTheMessage | src/app/BinaryReader.ts:7-10 | a reader opened at -1 hands out the byte before its message |
| BinaryCodec.WriteAll | src/app/BinaryWriter.ts:13-65 | a sequence of writes succeeds exactly when it fits, and then holds the concatenated encodings |
| BinaryCodec.ReadAll | src/app/BinaryReader.ts:18-87 | a sequence of reads gives exactly the decoding of the message, and moves the cursor by the widths |
| BinaryCodec.RoundTrip | src/app/BinaryWriter.ts:83-85 | what a writer produced is read back from its bytes field by field, with nothing remaining |
| Supervisor.Run | launcher/src/supervisor.rs:490-717 | the loop's spawns, crash count and end are those of the step-by-step specification |
| Supervisor.RunKeepsInvariant | launcher/src/supervisor.rs:490-717 | spawns, restarts asked for and crash restarts balance in every run |
| Supervisor.SpawnsAreBounded | launcher/src/supervisor.rs:94-116 | in every run spawns are at most 1, plus the restarts asked for, plus three per healthy stretch; the service never restarts a crash; only the first spawn may open a browser |
| Supervisor.GivesUpExactly | launcher/src/supervisor.rs:94-116 | it gives up on a crash if and only if it came within 60 seconds and three restarts are used up |
| Supervisor.EachRequestIsServedOnce | launcher/src/supervisor.rs:58-67 | while the marker can be deleted every request for a restart, by marker or exit code, is served exactly once |
| Supervisor.StuckMarkerNeverExits | launcher/src/supervisor.rs:58-67 | a marker that cannot be deleted restarts the server after every exit, clean ones included |
| Supervisor.BoundIsAttained | launcher/src/supervisor.rs:94-116 | for any number of healthy stretches a run spawns exactly as often as the bound allows before it gives up, so the bound cannot be lowered |
| TraySupervisor.Supervisor.EnsureTrayInSessions | launcher/src/tray_supervisor.rs:366-448 | counts, log lines and outcome of one poll, visit by visit |
| TraySupervisor.Supervisor.EnsureTrayInActiveSession | launcher/src/tray_supervisor.rs:313-358 | the same with the sessions that vanished forgotten, and the early exits |
| TraySupervisor.OutcomeFollowsRanking | launcher/src/tray_supervisor.rs:366-476 | the outcome is the first spawn, else the last real error, else waiting, else already running, else no session |
| TraySupervisor.OneVisitEach | launcher/src/tray_supervisor.rs:366-448 | in a poll of distinct sessions each one's count and lines depend on its own visit only |
| TraySupervisor.PollForOne | launcher/src/tray_supervisor.rs:313-448 | the whole poll as one session sees it |
| TraySupervisor.CountIsStreak | launcher/src/tray_supervisor.rs:331-448 | over any run of polls a session's counter is its own streak of missing tokens, ended only by a tray, a spawn or the session going away |
| TraySupervisor.LoggedByStreak | launcher/src/tray_supervisor.rs:85-93 | over any run a streak logs one warning, then nothing 29 times, then errors from the 31st on, and any other failure is an error at once |
| ServyRecovery.PatchExportedConfig | launcher/src/servy_recovery.rs:80-114 | the insertions into the parsed document make the specified patch, with its three refusals; it accepts exactly the documents that name a service and leaves alone exactly those whose recovery is on as well |
| ServyRecovery.PatchOnceIsEnough | launcher/src/servy_recovery.rs:80-114 | a patched document has recovery on, a second patch is a no-op, and every other key is unchanged |
| ServyRecovery.Machine.RepairExistingService | launcher/src/servy_recovery.rs:129-168 | the state after a repair in which any step may be refused; the exported file is dropped on every path |
| ServyRecovery.Machine.StartupRepair | launcher/src/servy_recovery.rs:262-345 | marker, stamp, configuration and report after one service start |
| ServyRecovery.AtMostOneRestartBetweenFindings | launcher/src/servy_recovery.rs:262-345 | between two scheduled restarts some start found recovery on, whatever failed or changed meanwhile |
| ServyRecovery.NothingAfterTheStamp | launcher/src/servy_recovery.rs:262-280 | once the stamp exists no start does anything again |
| ServyRecovery.OneRestartSuffices | launcher/src/servy_recovery.rs:209-345 | when every step is carried out one restart turns recovery on, and the next start leaves the stamp |
| HtmlEscape.PassesAreOneSubstitution | src/app/htmlEscape.ts:7-14 | the five passes equal one character-by-character substitution |
| HtmlEscape.EscapedIsInert | src/app/htmlEscape.ts:7-14 | the output has no raw markup character or quote, and every ampersand starts one of the five references |
| HtmlEscape.EscapeRoundTrip | src/app/htmlEscape.ts:7-14 | decoding the references gives the input back |
| HtmlEscape.AmpersandMustComeFirst | src/app/htmlEscape.ts:9-13 | with the ampersand pass last a string reads back as itself if and only if it holds none of the other four characters |

## Left out

- LogRotation.RetentionOverAnyRun: covers the rotation by rename; the copy-and-truncate rotation (`copy_truncate_if_large`) can lose data when the copy fails, and is not modelled.
- LogRotation.Logger.Append: a line is one write that happens or does not; two processes writing one log, and a write that stops half-way, are not modelled.
- BinaryCodec.BinaryWriter.WriteBytes: that `toUint8Array` and `readBytes` hand out views sharing the buffer is not modelled, nor are `writeString` and `readString` (text encoding is a library).
- BinaryCodec.BinaryWriter.WriteUInt8: values are integers; JavaScript numbers that are fractions or NaN, and a fractional reader offset, are not modelled.
- SwapAppImage.SwapAppImage: the mode that `chmod` sets is not part of the file model, only whether it was refused; nothing but the swap touches the three paths meanwhile.
- Calendar.CivilFromDaysIsTheCalendar: day numbers so close to the ends of 64 bits that the shift or the era's offset overflows are treated as unbounded; the only caller passes day numbers below 2^48.
- HelperInstall.InstallHelperCopyWith: the later clean-up of stale siblings and the retry after a busy helper are not part of this model.
- UninstallRun.RunUnelevated: files are places without contents, and the rotation that a log line may do is left out; a command other than `rm` leaves the modelled files alone; no other process writes meanwhile, so the server that asked for the uninstall is gone by then, as its waiting loop arranges.
- UninstallPlan.KeepSparesExactly: places are compared after dropping empty and `.` components; symbolic links, and `..` inside HOME or XDG_RUNTIME_DIR, are not resolved.
- UninstallRun.Process.Log: a process whose environment names no log root panics at its first file-log line; the model lets it go on without writing.
- UninstallRun.OptIsGoneExactly: a child is cut short between two commands; one that dies while a removal runs may leave that removal partly done.
- UninstallRun.Elevate: the child's environment is any, but it is given the same tool directory as its parent.
- TrustGuard.FindUnsafe: the tree does not change during the walk; hard links and the reaction to a finding (`guard`, the repair of `/opt`) are left out, as are roots given with `..`.
- Extraction.FindAndExtract: SHA-256, the zip format and the rules of `enclosed_name` are libraries; an entry is its outcome under them. Symbolic links under the app directory are not modelled.
- SlotAdmission.DrainedCounter: a build that aborts on panic ends at the first thread it cannot create; that end of the process is not a step of the model.
- SlotAdmission.CeilingHoldsInEveryRun: memory order is sequential consistency, which is what the code asks for; sockets and the handler's own work are left out.
- Supervisor.Run: the Windows uninstall branch, the two-second delay between restarts, signals and the helper refresh that runs beside the loop are left out.
- ServyRecovery.PatchExportedConfig: JSON text is its parsed document; object key order and number formatting are the library's.
- TraySupervisor.Supervisor.EnsureTrayInSessions: listing sessions and processes and spawning are answers given to the model; a process id is never reused within a poll.
- The Win32 and D-Bus tray code, access lists, elevation dialogs, sockets, HTTP responses, the redirect probe, command-line builders, path and configuration lookup, and version comparison: foreign calls or short branches that would add only easy members.
- The control marker's read, spawn and delete: separate file operations whose claims would need an atomicity the code does not give.
