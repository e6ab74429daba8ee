# Verified model of ProduceIt's protocols, manifests, mounts, options and configuration

ProduceIt drives chroots (`shellit`, `buildit`) and LXC containers (`lxcuser`) from setuid
programs.  This project models the parts of it that carry state over whole runs and proves
what they keep:

- `LxcProtocol`, `LxcSerial`, `LxcApart`, `LxcUser`: the session counting of `lxcuser`.
  Every `sem_open`, `sem_getvalue`, `sem_post`, `sem_wait`, `sem_close`, `sem_unlink`,
  `lxc-start` and `lxc-stop` is one step of a transition system over any number of sessions,
  and so is a kill at any point; semaphore objects are kept apart from the name.  `LxcUser`
  is the process itself, running while others take arbitrary steps between its calls.
- `Paths`, `FileSystem`, `Dsc`, `Fsys`, `DscProperties`: `copy_file`, `copy_dsc` and
  `remove_dsc` over a file system whose every intermediate state is visible, the temporary
  growing character by character, any call failing.
- `DebTools`, `DebEffects`, `DebProperties`, `DebEnds`: the Ruby tools `deb-archive` and
  `deb-remove` with their flip-flop scanner, what they do and what they refuse.
- `MountStack`, `MountOrder`, `Mount`, `Plans`, `ShellIt`, `BuildIt`, `MountView`: mount objects,
  scopes of them, exactly when their order matters, the mount sequences of both drivers, left at
  any point, and which mount a path leads to meanwhile.
- `Staging`, `TaskQueue`, `Driver`: how `buildit` stages packages, runs its tasks, and does
  that inside its mounts.
- `CommandLine`, `Args`, `Grammar`, `ArgsFailures`, `ArgsProperties`: the option registry and the
  parse loops, against a grammar of command lines that is independent of them, and exactly why
  a line is refused.
- `KeyFile`, `KeyLines`: the configuration loader, and what a line means by its characters.  `Strings`: searches, `split`, affixes, lines.

Loops and objects of the source are methods and classes whose contracts name functions of
the old state; the theorems are lemmas about those functions.

Where the code and its documentation differ the model follows the code:

- lxcuser(1) promises that the last session to exit shuts the container down
  (src/lxcuser.1:33-35).  That is false in general: `OverlapStopsUnderSession`,
  `OverlapSplitsTheCount` and `OverlapLeavesContainerUp` are concrete runs.  Exactly one kind
  of overlap is to blame, a session between its open and its post while another one, having
  waited, can only read zero or has read it: as long as that does not happen no container is
  stopped under a session and no session loses the name, whatever else overlaps, fails or is
  killed, and as soon as it happens the calls the two still have to make can do the harm
  (`ApartExactly`).  In runs without such an overlap a container is up under every session
  unless a start was lost, failed or killed before it was made; a session whose start is lost
  leaves the next ones without a container exactly when nothing else has it up
  (`UpUnderSession`, `LostStartIff`, `SupportedExactly`), and when all are over, none of them
  killed before its post or behind its wait, the container is down and the name gone exactly if
  nobody died between post and wait (`LeftBehindIff`).
- buildit(1) promises `.src.rpm` and `.changes` packages (src/buildit.1:45-46).  The code
  compares seven characters with an eight-character literal, so only `.dsc` is accepted.
- `copy_file` reports success when its source is the temporary of its destination, although
  the source is then truncated first (`CompleteIff`).
- A child killed by a signal counts as a task that succeeded (`KilledPasses`), and a
  `Build-Depends` field folded after its name, or with an empty item, makes a build raise
  (`BuildDependsRaises`).
- On a manifest with one `Files` block that an empty line or the end of the file closes, or in
  which no entry strips to `Files`, the C++ and the Ruby scanner give the same names exactly if
  every entry is a field line, the flip-flop skips every line from the end of the block to the
  next empty line, and a header that ends the file strips to `Files` (`ScannersAgreeIff`,
  `UnterminatedHeaderIsAnEntry`); on the manifests left, a later line can make up
  for a skipped entry (`SkippedMadeUp`).  The entries on which the scanners differ are
  those with a trailing blank, with other white space in the last field, or that strip to
  `Files` (`TrailingBlank`, `SpaceInField`, `NamedFiles`).  The field is described in section
  5.6.21 of the Debian Policy Manual.
- Loading a second configuration file is loading the concatenation exactly under the
  condition of `LoadTwoFilesIff`.
- Unmounting in reverse order of declaration (src/mount.cpp:48-63) leaves a mount behind when an
  object is released before one declared in front of it whose mount was made later and beneath
  its own, and only then (`UnwindRestoresIff`); both drivers bind in an order that never does.

## Model

| member | source | states |
|---|---|---|
| LxcProtocol.CountsSessions | src/lxcuser.cpp:49-98 | over every interleaving each semaphore object's value is the number of sessions that posted and have not waited plus those that died after posting, by a failed start or a kill, and no attached session blocks in its wait |
| LxcProtocol.NoDeadlock | src/lxcuser.cpp:49-98 | in every reachable state every unfinished session can make its next call, also after the name was unlinked and bound again |
| LxcProtocol.KillsAnybody | src/lxcuser.cpp:81-98 | any unfinished session of any reachable state can be killed next, which changes nothing but its phase: it goes on counting exactly if it had posted and not waited |
| LxcProtocol.FirstPosterStarts | src/lxcuser.cpp:77-89 | the session that posts first to an object read 0 and issues the start; if all leave cleanly that start succeeded |
| LxcProtocol.LastWaiterStops | src/lxcuser.cpp:54-66 | if all sessions on an object leave cleanly, none dead or killed, the one that waits last reads 0, stops the container and unlinks the name, in that order, whatever happens in between |
| LxcProtocol.NothingLeftBehind | src/lxcuser.cpp:49-98 | when all sessions are over each object counts exactly those that died holding it; if none died or was killed the container is stopped and the name gone |
| LxcProtocol.DeathIsForever | src/lxcuser.cpp:81-89 | after a failed start or a kill between post and wait its object's count never returns to zero: no later session on it starts the container and none that leaves stops it |
| LxcSerial.Alternates | src/lxcuser.1:33-35 | the plain set-of-sessions machine issues start and stop strictly in turn, one of each per busy period |
| LxcSerial.Refines | src/lxcuser.cpp:49-98 | without overlapping sections and failing starts every run refines the plain machine: same members, same starts and stops in the same order, running exactly while there are members |
| LxcSerial.CalmStates | src/lxcuser.cpp:49-98 | between sections: running iff the name is bound iff sessions are attached, and all of them hold the object the name refers to, which counts them |
| LxcSerial.RunsUnderSession | src/lxcuser.cpp:49-98 | in such runs the container runs under every attached session and starts and stops alternate |
| LxcApart.ApartIsSafe | src/lxcuser.cpp:54-82 | if no session enters while another ends, then with any other overlaps, failing starts and kills no stop comes under an attached or starting session and the name refers to every attached session's object |
| LxcApart.ApartExactly | src/lxcuser.cpp:54-82 | the condition is exact: it holds now if and only if no way to go on with the sections in progress, without opens, waits or deaths, stops the container under a session or takes its name |
| LxcApart.EnteringIsStopped | src/lxcuser.cpp:54-82 | from any run that ends with a session entering and another ending that has not stopped yet, their own remaining calls lead to a stop under the attached session |
| LxcApart.EnteringLosesName | src/lxcuser.cpp:60-82 | if that one has stopped already, its unlink leaves the attached session on an object without name |
| LxcApart.EnteringSplitsTheCount | src/lxcuser.cpp:60-82 | and any further session then attaches to a different object |
| LxcApart.SerialIsApart | src/lxcuser.cpp:49-98 | runs without overlapping sections meet the condition |
| LxcApart.NeverStoppedUnderSession | src/lxcuser.cpp:49-98 | under the condition, between any two states in which a session is attached nobody stops or unlinks, its object keeps the name, and a running container keeps running |
| LxcApart.UpUnderSession | src/lxcuser.cpp:81-89 | under that condition, if no start fails and no session is killed that was to make one, then whoever else is killed, under every session attached or dead after its post the container runs or a start is still to come |
| LxcApart.LostStartIff | src/lxcuser.cpp:83-89 | after a lost start everybody who holds an object still has the container up if and only if something else has it up |
| LxcApart.NewcomerStranded | src/lxcuser.cpp:71-89 | after any run, the next session to open, read and post is attached without a container if and only if nothing is up and somebody, alive or dead, holds the object the name refers to |
| LxcApart.SupportedExactly | src/lxcuser.cpp:71-98 | in runs in which no session enters while another ends, every holder, the dead included, has the container up if and only if neither a session attached now nor the next one to come is without it |
| LxcApart.LeftBehindIff | src/lxcuser.cpp:49-98 | in runs in which no session enters while another ends: when all are over and none was killed before its post or behind its wait, the container is down and the name gone if and only if nobody died between post and wait |
| LxcSerial.OverlapStopsUnderSession | src/lxcuser.cpp:54-82 | a run with overlapping sections and no failure in which the container is stopped under an attached session |
| LxcSerial.OverlapSplitsTheCount | src/lxcuser.cpp:54-82 | its continuation: two attached sessions hold different objects, each counting one |
| LxcSerial.OverlapLeavesContainerUp | src/lxcuser.cpp:81-89 | a run at whose end nobody is left while the container runs and the name is bound |
| LxcUser.Host.Others | src/lxcuser.cpp:49-98 | whatever other sessions do leaves the phase of a session and the calls it made as they were |
| LxcUser.Process.Next | src/lxcuser.cpp:49-98 | each call a session may make next is possible whatever the others did before, and moves the session as the call says |
| LxcUser.Process.Startup | src/lxcuser.cpp:71-98 | under any interference exactly the calls of the source in order, the start iff the count read is 0, and the exit codes 10 and -1 |
| LxcUser.Process.Shutdown | src/lxcuser.cpp:49-69 | under any interference never blocks, stops and unlinks iff the count it re-read is 0, does nothing without a semaphore |
| Strings.BeginsWithIsPrefix | src/strings.hpp:28-31 | the test by first occurrence is the test for a prefix |
| Strings.EndsWithIsSuffix | src/strings.hpp:33-51 | the test by last occurrence is the test for a suffix |
| Strings.StripRemovesOuterBlanks | src/strings.hpp:73-78 | strip raises exactly on blank strings, otherwise removes blanks at both ends and nothing else |
| Strings.SplitLoop | src/strings.cpp:20-32 | the loop with its two cursors computes Split |
| Strings.SplitSound | src/strings.cpp:20-32 | one more piece than delimiters, no delimiter in a piece, re-interleaving gives the input back |
| Strings.SplitUnique | src/strings.cpp:20-32 | any delimiter-free pieces interleaved with delimiters are found again, so the split is the only one |
| Strings.SplitJoin | src/strings.cpp:20-32 | splitting the join of nonempty lists of delimiter-free pieces gives the list |
| Strings.JoinSplit | src/strings.cpp:20-32 | joining a split gives the text |
| Strings.LastPiece | src/fsys.cpp:272 | the last piece is the text behind the last delimiter |
| Strings.LinesUnterminated | src/fsys.cpp:261 | a last line without a newline is read as a line too |
| KeyFile.Keyfile.Load | src/keyfile.cpp:22-70 | which paths are opened, and that a load changes the table to what the lines fold to, raising where substr does |
| KeyFile.Keyfile.LoadOpened | src/keyfile.cpp:35-69 | the loop with its section variable is the fold over the lines |
| KeyFile.ReadLine | src/keyfile.cpp:39-47 | a line read by the source's searches is what its trimmed text means |
| KeyFile.ReadTrimmed | src/keyfile.cpp:48-66 | the affix tests, the alphanumeric test and the searches classify a trimmed line |
| KeyFile.LoadRefinesOverlay | src/keyfile.cpp:35-68 | each section and key holds its last binding in the file, else its earlier value; which sections exist; raises iff some line has a key but no value |
| KeyLines.RaisesIff | src/keyfile.cpp:57-66 | a line makes the load raise if and only if it is, within white space, a text that starts with a letter or digit and has its only equals sign at its end |
| KeyLines.LoadRaisesIff | src/keyfile.cpp:36-68 | a load raises if and only if such a line is in the file |
| KeyLines.BindingIff | src/keyfile.cpp:57-67 | a line binds a key to a value if and only if it is written so, with white space anywhere around the two and the equals sign |
| KeyLines.HeaderIff | src/keyfile.cpp:48-52 | a line names a section if and only if it is that name in brackets within white space |
| KeyLines.OpenedIs | src/keyfile.cpp:22-34 | absolute paths are opened as they are, those led by a tilde behind HOME, others never |
| KeyFile.LoadIdempotent | src/keyfile.cpp:22-70 | loading twice is loading once |
| KeyFile.LoadTwoFiles | src/keyfile.cpp:36-50 | loading f1, which does not raise, then f2 is loading f1 ++ f2 when f2 reaches a header before any binding |
| KeyFile.LoadTwoFilesIff | src/keyfile.cpp:35-68 | for any files and table: if f1 raises so does f1 ++ f2, with the same table; otherwise loading f1 then f2 gives the table of f1 ++ f2 exactly if f1 ends in the starting section or every key f2 binds before its first header is, in both sections, bound again later or has that value already |
| KeyFile.SectionIrrelevantIff | src/keyfile.cpp:36-67 | two starting sections give the same table exactly under that condition |
| KeyFile.SectionAlwaysIrrelevantIff | src/keyfile.cpp:36-67 | and for every table exactly if every such key is bound again later in both sections |
| KeyFile.HeaderNeeded | src/keyfile.cpp:36-50 | a pair of files for which loading in turn and loading the concatenation differ |
| KeyFile.NoiseIsIgnored | src/keyfile.cpp:39-53 | blank lines, comment lines and indentation make no difference |
| KeyFile.Indentation | src/keyfile.cpp:39-47 | trimming removes surrounding white space and nothing else |
| KeyFile.RoundTrip | src/keyfile.cpp:38-68 | printing a table in any order with any noise and loading it into an empty keyfile gives the table back, less its empty sections |
| KeyFile.Printable | src/keyfile.cpp:38-68 | every table of good keys and values has such a document |
| Paths.DirnameOfUnder | src/fsys.cpp:159-169 | dirname(d + "/" + n) = d exactly when n is nonempty, or d has a separator, or d is "." |
| Paths.BasenameOfUnder | src/fsys.cpp:171-187 | basename(d + "/" + n) = n exactly when d is nonempty |
| Paths.PlainPath | src/fsys.cpp:159-187 | a path without a separator is a name in the current directory, "." |
| Paths.CutPath | src/fsys.cpp:159-187 | any other path is cut at its last separator, which may be any of the three, into dirname and basename, with the two exceptions of the source |
| FileSystem.AtomicReplacement | src/fsys.cpp:279-306 | at every step the destination is its old entry or the complete source with its mode; on failure it is unchanged and the temporary gone if the clean-up succeeds; nothing else changes |
| FileSystem.TemporaryGrows | src/fsys.cpp:279-306 | the temporary grows character by character with the mode it had or that of a new file, gets the source's mode when complete, and is renamed only then |
| FileSystem.CompleteIff | src/fsys.cpp:279-306 | success means a complete copy iff the source is not the temporary or was empty |
| FileSystem.JobsInstall | src/fsys.cpp:263-276 | separate copies succeed together iff none fails alone, and then install all sources and leave no temporary |
| FileSystem.StateShape | src/fsys.cpp:263-276 | apart from temporaries each visible state shows exactly some first copies installed, all of them only at the end of a success |
| FileSystem.SeenInOrder | src/fsys.cpp:263-276 | when one copy shows, all copies before it are complete |
| FileSystem.LastJobLast | src/fsys.cpp:263-276 | what the last copy installs shows only in the very last state of a success |
| FileSystem.EachAtomic | src/fsys.cpp:263-276 | at every step of several copies a path is old or completely replaced |
| Fsys.Disk.CopyFile | src/fsys.cpp:279-306 | the calls of the source lead through exactly the specified states |
| Fsys.Disk.CopyDsc | src/fsys.cpp:252-277 | the line loop with its flag copies the listed files in order, then the manifest, through exactly the specified states |
| Fsys.Disk.RemoveDsc | src/fsys.cpp:225-250 | the line loop removes the listed files in order, then the manifest, stopping at the first that fails |
| DscProperties.ManifestLast | src/fsys.cpp:252-277 | success iff all listed files are there and no call fails; until the last step of a success the target's manifest is untouched; at that step all listed files are complete, no temporary is left, nothing else differs |
| DscProperties.NewManifestIsComplete | src/fsys.cpp:252-277 | who sees a replaced manifest at any step sees every listed file complete |
| DscProperties.CopiedFromBeside | src/fsys.cpp:252-277 | what copy_dsc installs are the listed files that lie beside the manifest, in "." if it is named without a directory |
| DscProperties.RemovedFromBeside | src/fsys.cpp:225-250 | remove_dsc succeeds exactly if those files are there, permitted and distinct, and then removes them and the manifest and nothing else |
| DscProperties.NoManifest | src/fsys.cpp:225-255 | without the manifest both fail and change nothing |
| DscProperties.RemoveAllSteps | src/fsys.cpp:236-249 | removal takes one path per step and succeeds exactly on distinct, present, permitted paths |
| DscProperties.ManifestRemovedLast | src/fsys.cpp:225-250 | the manifest disappears only in the last step of a success, when all listed files are gone |
| DscProperties.RemoveUndoesCopy | src/fsys.cpp:225-277 | into a fresh target remove_dsc after copy_dsc succeeds iff the names are distinct and then restores the file system exactly |
| DebTools.ScannersAgreeIff | utils/deb-archive.rb:65-79 | on any manifest with one line that begins with Files, whose block an empty line or the end of the file closes or in which no entry strips to Files, both scanners give the same names in order if and only if every entry is a field line, the lines from the end of the block to the next empty line are skipped, and a header that ends the file strips to Files |
| DebTools.ScannersAgree | utils/deb-archive.rb:65-79 | in particular on blocks of field lines closed by a blank line or the end of the file |
| DebTools.OtherFieldReadOn | utils/deb-remove.rb:42-49 | on a block of field lines closed by another field they agree if and only if every line from there to the next empty one strips to Files |
| DebTools.EntryDiffers | utils/deb-remove.rb:44-46 | on any space-led entry that is no field line they differ |
| DebTools.TrailingBlank | utils/deb-remove.rb:46 | so on an entry with a trailing blank |
| DebTools.SpaceInField | utils/deb-remove.rb:46 | on an entry with a tab or other white space in its last field |
| DebTools.NamedFiles | utils/deb-remove.rb:44 | and on an entry that strips to a header |
| DebTools.FieldLineIff | utils/deb-remove.rb:44-46 | a space-led line is a field line exactly if its last word is its last field and it does not strip to a header |
| DebTools.SkippedMadeUp | utils/deb-remove.rb:43-46 | that condition is needed: a manifest on which a skipped entry is made up for by a later line |
| DebTools.UnterminatedHeaderIsAnEntry | utils/deb-remove.rb:43-44 | on a header that ends the file without a newline they differ too |
| DebTools.LastWordIs | utils/deb-archive.rb:70 | the last word of a line is what follows its last blank |
| DebTools.ScanExactly | src/fsys.cpp:262-275 | line by line: a line is an entry for copy_dsc exactly if it is led by a space and only such lines separate it from a header |
| DebTools.RubyScanExactly | utils/deb-archive.rb:65-70 | line by line: a line is an entry for the tools exactly if some line beginning with Files has no empty line behind it, and it is not empty and does not strip to Files; one of white space only raises |
| DebTools.RubyNamesOfText | utils/deb-archive.rb:65-66 | of the lines of a manifest only the last may lack its newline, for both scanners |
| DebEffects.ReadEntry | utils/deb-archive.rb:66-70 | the flip-flop loop delivers the next listed name |
| DebEffects.ArchiveOne | utils/deb-archive.rb:72-76 | one listed entry is skipped, copied or moved as specified |
| DebEffects.ArchiveListed | utils/deb-archive.rb:65-77 | the loop over the manifest treats the listed entries in order up to one that raises |
| DebEffects.RemoveListed | utils/deb-remove.rb:41-51 | the loop over the manifest removes the listed entries that exist |
| DebEffects.DebArchiveFile | utils/deb-archive.rb:54-80 | one file's checks, copies and moves are the specified effect |
| DebEffects.DebArchive | utils/deb-archive.rb:54-80 | the loop over the arguments stops where a file aborts |
| DebEffects.DebRemoveFile | utils/deb-remove.rb:32-54 | one manifest's removal is the specified effect |
| DebEffects.DebRemove | utils/deb-remove.rb:32-54 | the loop over the arguments stops where a file aborts or is missing |
| DebProperties.ArchiveCopies | utils/deb-archive.rb:54-80 | copying, over an existing manifest only with force, brings the manifest and every listed file that exists, with content and mode as stated, and changes nothing else, also where reading the manifest raises |
| DebProperties.RemoveUndoesArchive | utils/deb-remove.rb:32-54 | deb-remove of what deb-archive copied into a fresh target restores the file system exactly |
| DebProperties.RemoveUndoesArchiveAll | utils/deb-remove.rb:32-54 | for any number of manifests, which may share files, deb-remove of all that deb-archive copied restores the file system exactly |
| DebProperties.MoveConserves | utils/deb-archive.rb:54-80 | moving takes each listed file and the manifest from origin to target and leaves every other path |
| DebProperties.MoveThereAndBack | utils/deb-archive.rb:54-80 | moving there and back changes nothing |
| DebEnds.ArchiveRefuses | utils/deb-archive.rb:59-61 | deb-archive aborts exactly on a file that is missing, has none of the three extensions, or exists in the target without force, and has then changed nothing |
| DebEnds.FirstRefusal | utils/deb-archive.rb:54-61 | the first such argument ends the run with what was done before it |
| DebEnds.RemoveRefuses | utils/deb-remove.rb:32-53 | deb-remove aborts exactly on another extension and exits exactly on a missing file, changing nothing; it raises exactly where the scan does or the manifest lists itself |
| DebEnds.FirstNotRemoved | utils/deb-remove.rb:32-37 | the first such argument ends the run with what was done before it |
| DebEnds.ArchiveHere | utils/deb-archive.rb:56-74 | a manifest named without a directory brings the files of the current directory |
| DebEnds.RemoveTakes | utils/deb-remove.rb:40-53 | what deb-remove takes away are the manifest and the listed files beside it, and nothing else |
| DebEnds.DebListsNothing | utils/deb-archive.rb:77 | a binary package lists nothing, whatever its bytes |
| DebEnds.MoveOntoItself | utils/deb-archive.rb:78 | moving onto itself raises and changes nothing |
| DebEnds.MoveListsItself | utils/deb-archive.rb:65-78 | a manifest that lists itself is moved once; the second move raises unless forced |
| DebEnds.RemoveRaises | utils/deb-remove.rb:40-53 | where deb-remove raises, what was listed up to there is gone |
| DebEnds.CopyOntoItself | utils/deb-archive.rb:64 | copying a manifest onto itself with force empties it |
| CommandLine.StripDashes | src/args.cpp:56-57 | registration removes exactly the leading dashes |
| Args.Option.constructor | src/args.cpp:46-65 | the loop over the dashes leaves the stripped name, the option unused with its default |
| CommandLine.FindLong | src/args.cpp:273-297 | the first option whose long name is a prefix of the word |
| CommandLine.FindShort | src/args.cpp:307-316 | the first option with the letter |
| Args.Option.Assign | src/args.cpp:126-182 | used_count, value and failure of each kind of option |
| Args.Registry.Register | src/args.cpp:46-65 | a new option goes behind those registered, unused |
| Args.Registry.AssignTo | src/args.cpp:299-325 | assigning to one registered option leaves all others as they were |
| Args.Registry.LookUpLong | src/args.cpp:273-297 | the loop over the list finds the first option whose name is a prefix of the word |
| Args.Registry.LookUpShort | src/args.cpp:308-313 | the loop over the list finds the first option with the letter |
| Args.Args.TakeWord | src/args.cpp:264-327 | long names first, then unknown for two dashes, else a cluster |
| Args.Args.TakeLong | src/args.cpp:283-302 | a long name with its value in the word or the next one |
| Args.Args.TakeLetter | src/args.cpp:308-325 | one letter with the next word as its value, and both failures |
| Args.Args.TakeCluster | src/args.cpp:307-327 | the loop over the letters of a word, each with the next word as value |
| Args.Args.TakeNumber | src/args.cpp:220-257 | a numeric word sets the value once, unless it was zero |
| Args.Args.NumericWord | src/args.cpp:220-257 | the parse goes on behind a numeric word, or throws |
| Args.Args.OptionWord | src/args.cpp:264-327 | the parse goes on behind an option word and its values, or throws |
| Args.Args.Parse | src/args.cpp:214-332 | the loop computes the specified parse and never reads behind the null pointer; positionals are the remaining words |
| Grammar.ParseReads | src/args.cpp:214-332 | every successful parse splits its consumed prefix into option words, values, numeric words and at most one terminator, positionals being the rest |
| Grammar.ParseAccepts | src/args.cpp:214-332 | every legal reading is parsed as it reads, or thrown where an assignment fails |
| Grammar.AcceptsExactlyLegal | src/args.cpp:214-332 | a line is accepted with a state and positionals iff it has a legal reading that leads to them |
| ArgsFailures.ParseFailsIff | src/args.cpp:214-332 | the parse throws for a reason, leaving a state, if and only if the line reads as tokens that can be assigned up to a word that is at fault for that reason |
| ArgsFailures.WordFailsIff | src/args.cpp:264-327 | an option word is at fault by its long name, its lack of one behind two dashes, or a letter, each with its reason |
| ArgsFailures.NumericIff | src/args.cpp:220-262 | which words are numbers in which mode |
| ArgsFailures.GroupsUntouched | src/args.cpp:126-182 | a parse never changes an option group, whether it succeeds or throws |
| ArgsProperties.UsesApplied | src/args.cpp:131-182 | uses succeed together iff single-use options are used at most once and fresh and all values convert; then each option's state is told by its uses |
| ArgsProperties.UsedCounts | src/args.cpp:131-182 | after a parse from any state every value converts and single-use options were fresh and occur at most once, and each option is told by its uses; from an unused option used_count is the number of occurrences and a value option holds the value of its one occurrence or its default |
| ArgsProperties.RoundTrip | src/args.cpp:276-332 | options rendered as --name=value and --name, then --, then any positionals, are parsed back exactly in every mode |
| ArgsProperties.SeparateValue | src/args.cpp:284-287 | --name value does what --name=value does |
| ArgsProperties.ClusterUnfolds | src/args.cpp:273-327 | a cluster parses like its letters given one by one with their values: same state, positionals and failure |
| MountStack.UmountLast | src/mount.cpp:54-63 | the newest mount can be unmounted and that restores the table |
| MountStack.UnwindRestores | src/mount.cpp:48-63 | an ordered scope left at any point, by a failing mount, an exception or its end, unmounts exactly its mounts in reverse order, never a path with another mount beneath it, and restores the table |
| MountOrder.UnwindRestoresIff | src/mount.cpp:48-63 | for objects that hold exactly the mounts made, over any table and with paths repeated at will, unwinding restores the table if and only if no object is released before one in front of it whose later mount is beneath its own, and if and only if no umount finds its path busy |
| MountOrder.DistinctCrossed | src/mount.cpp:48-63 | for distinct paths that is told by the places of two paths in both orders |
| MountOrder.InOrderNotCrossed | src/mount.cpp:48-63 | mounts made in the order of their objects never do so |
| MountOrder.PlanRestoresIff | src/mount.cpp:118-147 | every plan, and so every beginning of one, that mounts through each object once, in any order, restores the table under exactly that condition |
| MountOrder.OutOfOrderLeaks | src/mount.cpp:134-147 | its smallest instance: a late bind of an inner path on an earlier object leaves the outer mount behind, over any table |
| Mount.MountPoint.Release | src/mount.cpp:54-63 | unmounts what the object holds, once |
| Mount.MountPoint.Bind | src/mount.cpp:118-147 | releases what was held before, then mounts, or raises holding nothing |
| Mount.MountTable.Detach | src/mount.cpp:59 | an unmount whose result is ignored, recorded with that result |
| Mount.Act | src/shellit.cpp:277-351 | one action on real objects, with a mount that may fail, is the specified action |
| Mount.Leave | src/mount.cpp:48-51 | destructors in reverse order of declaration are the specified unwinding, call by call |
| Mount.Enter | src/shellit.cpp:277-351 | performing a plan on real objects up to a failure reaches the specified scope |
| Mount.Scoped | src/mount.cpp:48-63 | entering an ordered plan to any point and leaving it restores the table with exactly the reverse unmounts |
| Plans.ConstructsInOrder | src/shellit.cpp:277-284 | a row of constructed mounts keeps a plan ordered |
| Plans.BindsInOrder | src/shellit.cpp:336-347 | late binds of consecutive free objects keep a plan ordered |
| ShellIt.ShellPlanInOrder | src/shellit.cpp:277-351 | for every caller, option and configuration the mounts are made in order of declaration, each object once, within the array |
| ShellIt.ShellItRestores | src/shellit.cpp:277-354 | wherever shellit stops, unwinding restores the table; only between adopting and mounting /proc must the session's /proc not be mounted already nor be a home or a binding |
| MountView.HomeMounts | src/shellit.cpp:326-349 | no home below uid 1000; the home alone with --current; else the home and then the usable bindings beneath it in the order of the configuration |
| MountView.NothingHiddenIff | src/mount.cpp:134-147 | the path of every mount leads to that mount if and only if none is made on or above an earlier one |
| MountView.ShellHidesNothing | src/shellit.cpp:277-351 | the mounts of shellit hide none of each other if and only if home and bindings are apart from the fixed mounts and from each other as stated |
| MountView.OrdinaryHome | src/shellit.cpp:277-351 | which holds for homes below /home and distinct binding names without a slash |
| ShellIt.BindAll | src/shellit.cpp:336-347 | the array is filled from the front with the usable bindings, up to one that fails |
| ShellIt.BindHome | src/shellit.cpp:331-349 | which home and binding mounts are made for a user, on which objects, up to one that fails |
| BuildIt.BuildPlanInOrder | src/buildit.cpp:368-437 | buildit's mounts are made in order of declaration |
| BuildIt.BuildItRestores | src/buildit.cpp:368-437 | wherever buildit stops, unwinding restores the table; only between adopting and mounting /proc must the session's /proc not be mounted already |
| MountView.BuildHidesNothing | src/buildit.cpp:368-437 | buildit mounts the listed paths in that order, the root of the session first, so that each path leads to its own mount |
| MountView.TasksSee | src/buildit.cpp:108-183 | while a task runs its /tmp leads to its own mount and /var/origin and /var/results to those of buildit; otherwise /tmp belongs to the session's root |
| Staging.NeverSourceRpm | src/buildit.cpp:354 | the test for source rpm packages is never true |
| Staging.IsDscIff | src/buildit.cpp:352-363 | a package is accepted iff its name ends in .dsc |
| Staging.SameNameIff | src/buildit.cpp:347-351 | the driver's file name is the one copy_dsc uses exactly under a condition on the separators of the path |
| Staging.CutDownAt | src/buildit.cpp:364 | the list holds file names up to the packages staged and the given paths behind |
| Staging.StagePackage | src/buildit.cpp:347-363 | one turn refuses what is no manifest and otherwise does what copy_dsc does |
| Staging.StageTurn | src/buildit.cpp:346-364 | one turn on the array replaces the path once its package is staged |
| Staging.StageAll | src/buildit.cpp:344-365 | the staging loop, with steps that are those of copy_dsc, its result and every state it goes through |
| Staging.StagePackages | src/buildit.cpp:344-365 | the loop stages package after package, cuts each staged path down in place and stops at the first that is refused or fails |
| Staging.StagingInstalls | src/buildit.cpp:344-365 | with separate copies staging succeeds iff all are manifests and no copy fails alone, and then everything any manifest lists is complete and nothing else differs |
| Staging.StagedManifestLast | src/buildit.cpp:344-365 | at every visible state of the whole staging, also one that fails, a manifest that differs from before is complete and so is every file it lists |
| Staging.BuildsFindManifests | src/buildit.cpp:111-112 | after staging each build opens its manifest complete and unchanged |
| TaskQueue.BuildDependsRaises | src/buildit.cpp:115-122 | reading dependencies raises exactly when a dependency line has a blank item |
| TaskQueue.FoldedFieldRaises | src/buildit.cpp:115-122 | a dependency field whose items are on the following lines raises |
| TaskQueue.PushStripped | src/buildit.cpp:118-120 | the loop over one line's items appends them stripped or raises |
| TaskQueue.CollectDepends | src/buildit.cpp:113-122 | the two loops collect the stripped items of all dependency lines |
| TaskQueue.RunTask | src/buildit.cpp:108-183 | one task mounts its /tmp and, however it ends, unmounts it and leaves the table as it was |
| TaskQueue.QueueIsPrefix | src/buildit.cpp:445-468 | the tasks begun are a prefix ending at the first that does not return, whose ending is the exit code |
| TaskQueue.FinalStatusIff | src/buildit.cpp:431-468 | the final status is zero iff every task returned, and a child's status is passed on unchanged |
| TaskQueue.FirstFailure | src/buildit.cpp:431-468 | the first task that does not pass is the last begun and the status is 255 if its /tmp cannot be mounted, 1 if a dependency line has a blank item, else the exit code of its child modulo 256 |
| TaskQueue.NoFailure | src/buildit.cpp:431-468 | if all pass, all are begun and the status is 0 |
| TaskQueue.QueueUnmounts | src/buildit.cpp:108-183 | the queue unmounts exactly the /tmp of each task begun that could mount it |
| TaskQueue.DoneIff | src/proc.cpp:48-57 | a task returns iff its mount worked, its dependencies were read and its child exited with a multiple of 256 or was killed |
| TaskQueue.KilledPasses | src/proc.cpp:48-57 | a task of any readable manifest whose child is killed by a signal does not stop the queue nor show in the status |
| TaskQueue.OneTmpAtATime | src/buildit.cpp:108-183 | over the whole queue the table is the initial one or that with a single /tmp on top |
| TaskQueue.RunNext | src/buildit.cpp:447-458 | one task moves the queue on, or ends it with its code |
| TaskQueue.BuildNext | src/buildit.cpp:453-459 | one package is built if it has the extension and else passed over |
| TaskQueue.RunBuilds | src/buildit.cpp:453-459 | the loop over the packages builds those with the extension, up to one that does not return |
| TaskQueue.RunQueue | src/buildit.cpp:444-468 | both loops run the specified queue, with its code, its tables, its umount calls and the table restored |
| TaskQueue.StagedAreSelected | src/buildit.cpp:453-459 | every staged package is built |
| TaskQueue.SelectedSnoc | src/buildit.cpp:453-459 | the packages built are those whose name ends in .dsc, in order, each by its task |
| Driver.MadeUpTo | src/buildit.cpp:368-437 | what buildit has mounted at each point |
| Driver.RunInside | src/buildit.cpp:368-468 | the queue inside any ordered mounts restores the table, with the calls of the tasks before those of the mounts |
| Driver.Run | src/buildit.cpp:368-468 | from the first mount to the end, whether a mount fails, a task does or nothing, the table is restored, the umount calls are those of the tasks begun and then of the mounts made, newest first, and the status is that of the queue |

## Left out

- System calls are modelled by their abstract effect only: `fork`, `execve`, `chroot`, `unshare`, `mount`, `umount`, the semaphores and the `lxc` commands.  Crash durability and write errors of a full disk are left out.
- A handler that runs `shutdown` while `shutdown` is already running; otherwise a handler is one more way into `shutdown` from the attached state, and a signal without handler is a kill.
- LxcUser.Process.Startup: the process itself is not killed in the middle of its calls; others may be.
- LxcApart.LeftBehindIff: a session killed before its post or behind its wait may or may not leave the container or the name behind, and so may sessions that enter while another ends; such runs are left out there.
- MountOrder.PlanRestoresIff: plans that bind an object which still holds a mount, which neither driver does; `UnwindRestoresIff` covers whatever scope they lead to.
- `rmdir` of released mount points and the `tmpdir` objects, the mode bits of created directories, and `fsys::mount::proc` beyond its mount.
- Process creation, `lxc-attach` and the log-in of `lxcuser`; a process of `buildit` that runs the queue and is itself killed by a signal.
- MountStack.UnwindRestores: a plan adopts the child's `/proc` only as its last object, as both drivers do; when the child dies before that mount the path must not be mounted already.
- The child of `buildit` that unwinds its own stack inside the chroot after an exception that only `main` catches; of this only the exit code is modelled.  The mount of `/proc` in the child is taken to succeed.
- Driver.Run: what the child that runs the queue leaves mounted besides `/proc` when it exits; the staging before the mounts is a separate result.
- TaskQueue.RunTask: what the child runs (`dpkg-source`, `dpkg-buildpackage`, copying results out) is its exit status or signal; the dependency list itself is not used by the source.
- Staging.StagePackages: the outcome of a package is passed in as a function that must agree with `copy_dsc` (`StageAll` supplies it); paths with doubled or trailing slashes, and `/x` against `//x`, are different paths here.
- Aliasing of paths (`./a` and `a`, links) in all file models; directories as entries; manifests are read as they were when opened.
- DebTools.ScannersAgreeIff: a manifest in which some entry strips to `Files` and another field closes the block is left out, because a later line can make up for the skipped entry (`SkippedMadeUp`).
- DebEffects.DebArchive: the file operations are taken from Ruby's documented behaviour; printing, option parsing and error texts are left out.
- Paths.BasenameOfUnder: the optional extension argument of `basename`, which no caller modelled here passes.
- Args.Args.Parse: `strtol` is a parameter; wrap-around of `used_count`, executable-name extraction, `help`, and an option registered with a value but a null type string are left out.  A character option given the empty string reads behind the terminator; here it is a failure of its own.
- Args.Args.TakeCluster: the error texts; only which reason is thrown.
- KeyFile.Keyfile.Load: `isalnum` is ASCII; `~` with `HOME` unset is left out; strings contain no NUL.
- Repository lists, user, group and environment set-up, personality and qemu selection, `file_perms`, directory iteration, `fsys_error`, terminal output, and `deb-release`.
