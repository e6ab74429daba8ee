/** The update and build tasks of src/buildit.cpp, each with its own `/tmp`. */
module TaskQueue {
  import opened Wrappers
  import opened Strings
  import opened MountStack
  import opened Mount
  import opened Staging

  /** How a forked child ends, and what `waitpid` and `WEXITSTATUS` make of it. */
  datatype Child = Exited(code: int) | Killed(signal: nat)

  function WaitStatus(child: Child): nat {
    match child
    case Exited(code) => code % 256 * 256
    case Killed(signal) => signal % 128
  }

  function ExitStatus(child: Child): nat {
    WaitStatus(child) / 256 % 256
  }

  /** What one task meets: whether its `/tmp` can be mounted, the lines of its manifest as it
      is read (none for an update), and its child. */
  datatype Task = Task(mounts: bool, manifest: seq<string>, child: Child)

  /** A task returns, or raises `bad_mount`, or what `strip` raises, or a status. */
  datatype Ending = Done | BadMount | Raised | Threw(status: nat)

  function EndOf(t: Task): Ending {
    if !t.mounts then BadMount
    else if BuildDepends(t.manifest).None? then Raised
    else if ExitStatus(t.child) != 0 then Threw(ExitStatus(t.child))
    else Done
  }

  /////////////////////////////// build dependencies ///////////////////////////////

  const DEPENDS := "Build-Depends:"

  predicate IsDepends(line: string) {
    DEPENDS <= line
  }

  function StripAll(items: seq<string>): Maybe<seq<string>> {
    if items == [] then Some([])
    else if Strip(items[0]).None? then None
    else
      var rest := StripAll(items[1..]);
      Prepended([Strip(items[0]).value], rest)
  }

  /** The items of all dependency lines, none if one of them cannot be stripped. */
  function BuildDepends(lines: seq<string>): Maybe<seq<string>>
    decreases |lines|
  {
    if lines == [] then Some([])
    else
      var here := if IsDepends(lines[0]) then StripAll(Split(lines[0][|DEPENDS|..], ",")) else Some([]);
      var rest := BuildDepends(lines[1..]);
      if here.None? || rest.None? then None else Some(here.value + rest.value)
  }

  predicate Blank(item: string) {
    forall c :: c in item ==> c == ' '
  }

  lemma {:induction false} StripAllIff(items: seq<string>)
    ensures StripAll(items).None? <==> exists i :: 0 <= i < |items| && Blank(items[i])
    ensures StripAll(items).Some? ==>
              |StripAll(items).value| == |items| &&
              forall i :: 0 <= i < |items| ==> Strip(items[i]) == Some(StripAll(items).value[i])
    decreases |items|
  {
    if items != [] {
      StripRemovesOuterBlanks(items[0]);
      StripAllIff(items[1..]);
      if i :| 0 <= i < |items[1..]| && Blank(items[1..][i]) {
        assert Blank(items[i + 1]);
      }
      assert forall i :: 0 < i < |items| ==> items[i] == items[1..][i - 1];
    }
  }

  predicate BlankItem(line: string) {
    "Build-Depends:" <= line &&
    exists i :: 0 <= i < |Split(line[14..], ",")| && Blank(Split(line[14..], ",")[i])
  }

  /** Reading the dependencies raises exactly when some dependency line has an item of blanks
      only: an empty list, two commas in a row, or a comma at its end. */
  lemma {:induction false} BuildDependsRaises(lines: seq<string>)
    ensures BuildDepends(lines).None? <==> exists i :: 0 <= i < |lines| && BlankItem(lines[i])
    decreases |lines|
  {
    if lines != [] {
      BuildDependsRaises(lines[1..]);
      if IsDepends(lines[0]) {
        StripAllIff(Split(lines[0][|DEPENDS|..], ","));
      }
      assert BlankItem(lines[0]) <==> IsDepends(lines[0]) && StripAll(Split(lines[0][|DEPENDS|..], ",")).None?;
      assert forall i :: 0 < i < |lines| ==> lines[i] == lines[1..][i - 1];
      if i :| 0 <= i < |lines[1..]| && BlankItem(lines[1..][i]) {
        assert BlankItem(lines[i + 1]);
      }
    }
  }

  /** A field folded after its name, as manifests may be written, makes the build raise. */
  lemma FoldedFieldRaises(lines: seq<string>, i: nat)
    requires i < |lines| && lines[i] == "Build-Depends:"
    ensures BuildDepends(lines).None?
  {
    var rest := lines[i][14..];
    assert rest == "" && Split(rest, ",")[0] == "";
    assert Blank(Split(rest, ",")[0]);
    assert BlankItem(lines[i]);
    BuildDependsRaises(lines);
  }

  /** The loop over one line's items. */
  method PushStripped(deps: seq<string>, list: seq<string>) returns (more: Maybe<seq<string>>)
    ensures more == Prepended(deps, StripAll(list))
  {
    var out, i := deps, 0;
    while i < |list|
      invariant 0 <= i <= |list|
      invariant Prepended(out, StripAll(list[i..])) == Prepended(deps, StripAll(list))
    {
      assert list[i..][1..] == list[i + 1..];
      var item := Strip(list[i]);
      if item.None? {
        return None;
      }
      PrependTwice(out, [item.value], StripAll(list[i + 1..]));
      out := out + [item.value];
      i := i + 1;
    }
    assert list[i..] == [] && out + [] == out;
    return Some(out);
  }

  function Prepended(out: seq<string>, rest: Maybe<seq<string>>): Maybe<seq<string>> {
    if rest.None? then None else Some(out + rest.value)
  }

  lemma PrependTwice(a: seq<string>, b: seq<string>, rest: Maybe<seq<string>>)
    ensures Prepended(a, Prepended(b, rest)) == Prepended(a + b, rest)
  {
    if rest.Some? {
      assert a + (b + rest.value) == (a + b) + rest.value;
    }
  }

  /** The loop over the manifest. */
  method CollectDepends(lines: seq<string>) returns (deps: Maybe<seq<string>>)
    ensures deps == BuildDepends(lines)
  {
    var out: seq<string>, i := [], 0;
    assert lines[0..] == lines;
    assert BuildDepends(lines).Some? ==> [] + BuildDepends(lines).value == BuildDepends(lines).value;
    while i < |lines|
      invariant 0 <= i <= |lines|
      invariant Prepended(out, BuildDepends(lines[i..])) == BuildDepends(lines)
    {
      var buffer := lines[i];
      DependsStep(lines, i);
      i := i + 1;
      if !IsDepends(buffer) {
        continue;
      }
      var list := SplitLoop(buffer[|DEPENDS|..], ",");
      var more := PushStripped(out, list);
      if more.None? {
        return None;
      }
      PrependTwice(out, StripAll(list).value, BuildDepends(lines[i..]));
      out := more.value;
    }
    assert lines[i..] == [] && out + [] == out;
    return Some(out);
  }

  lemma DependsStep(lines: seq<string>, i: nat)
    requires i < |lines|
    ensures !IsDepends(lines[i]) ==> BuildDepends(lines[i..]) == BuildDepends(lines[i + 1..])
    ensures IsDepends(lines[i]) ==>
              var here := StripAll(Split(lines[i][|DEPENDS|..], ","));
              BuildDepends(lines[i..]) ==
                if here.None? then None else Prepended(here.value, BuildDepends(lines[i + 1..]))
  {
    assert lines[i..][1..] == lines[i + 1..];
    var rest := BuildDepends(lines[i + 1..]);
    if rest.Some? {
      assert [] + rest.value == rest.value;
    }
  }

  /////////////////////////////// one task ///////////////////////////////

  /** The `/tmp` of the session the tasks run in. */
  function TaskTmp(session: string): string {
    session + "/tmp"
  }

  /** The tables a task leads through: its own mount, then what was there before. */
  function TaskTables(t: Table, session: string, task: Task): seq<Table> {
    if task.mounts then [t + [TaskTmp(session)], t] else []
  }

  /** The `umount` calls a task makes. */
  function TaskCalls(session: string, task: Task): seq<Unmount> {
    if task.mounts then [Unmount(TaskTmp(session), Gone)] else []
  }

  /** `task`, and `debian` for a task with a manifest.  However it ends, the mount is gone. */
  method RunTask(table: MountTable, session: string, task: Task) returns (end: Ending)
    modifies table
    ensures end == EndOf(task) && table.mounted == old(table.mounted)
    ensures table.seen == old(table.seen) + TaskTables(old(table.mounted), session, task)
    ensures table.calls == old(table.calls) + TaskCalls(session, task)
  {
    var tmp := new MountPoint("");
    var ok := tmp.Bind(table, TaskTmp(session), !task.mounts);
    if !ok {
      return BadMount;
    }
    UmountLast(old(table.mounted), TaskTmp(session));
    var deps := CollectDepends(task.manifest);
    if deps.None? {
      end := Raised;
    } else if ExitStatus(task.child) != 0 {
      end := Threw(ExitStatus(task.child));
    } else {
      end := Done;
    }
    tmp.Release(table);
  }

  /////////////////////////////// the queue ///////////////////////////////

  /** The packages whose name ends in `.dsc` are built, others are passed over. */
  function Selected(pkgs: seq<string>, builds: seq<Task>): seq<Task>
    requires |builds| == |pkgs|
  {
    if pkgs == [] then []
    else (if IsDsc(pkgs[0]) then [builds[0]] else []) + Selected(pkgs[1..], builds[1..])
  }

  /** How many tasks are begun. */
  function Begun(tasks: seq<Task>): nat {
    if tasks == [] then 0
    else if EndOf(tasks[0]) != Done then 1
    else 1 + Begun(tasks[1..])
  }

  function ExitCode(end: Ending): int {
    match end
    case Done => 0
    case BadMount => -1
    case Raised => 1
    case Threw(status) => status
  }

  /** What the process that runs the queue exits with. */
  function QueueCode(tasks: seq<Task>): int {
    if tasks == [] then 0
    else if EndOf(tasks[0]) != Done then ExitCode(EndOf(tasks[0]))
    else QueueCode(tasks[1..])
  }

  /** The tasks begun are a prefix of the list that ends at the first task that does not
      return, or the whole list, and the code is what the last of them ends with. */
  lemma {:induction false} QueueIsPrefix(tasks: seq<Task>)
    ensures Begun(tasks) <= |tasks|
    ensures forall i :: 0 <= i < Begun(tasks) - 1 ==> EndOf(tasks[i]) == Done
    ensures Begun(tasks) < |tasks| ==> Begun(tasks) > 0 && EndOf(tasks[Begun(tasks) - 1]) != Done
    ensures QueueCode(tasks) == if tasks == [] then 0 else ExitCode(EndOf(tasks[Begun(tasks) - 1]))
    decreases |tasks|
  {
    if tasks != [] && EndOf(tasks[0]) == Done {
      QueueIsPrefix(tasks[1..]);
      assert forall i :: 0 < i < |tasks| ==> tasks[i] == tasks[1..][i - 1];
    }
  }

  /** The status the driver itself exits with: it waits for the process that runs the queue
      and passes its status on. */
  function FinalStatus(tasks: seq<Task>): nat {
    ExitStatus(Exited(QueueCode(tasks)))
  }

  lemma EndStatus(end: Ending)
    requires end.Threw? ==> 0 < end.status < 256
    ensures var status := ExitStatus(Exited(ExitCode(end)));
            && (status == 0 <==> end == Done)
            && (end == BadMount ==> status == 255) && (end.Threw? ==> status == end.status)
  {
  }

  /** The final status is zero iff every task returned; the status a child fails with is
      passed on unchanged. */
  lemma FinalStatusIff(tasks: seq<Task>)
    ensures FinalStatus(tasks) == 0 <==> forall i :: 0 <= i < |tasks| ==> EndOf(tasks[i]) == Done
    ensures forall i :: 0 <= i < |tasks| && i == Begun(tasks) - 1 && EndOf(tasks[i]).Threw? ==>
              FinalStatus(tasks) == EndOf(tasks[i]).status
  {
    QueueIsPrefix(tasks);
    if tasks != [] {
      var last := Begun(tasks) - 1;
      EndStatus(EndOf(tasks[last]));
      if EndOf(tasks[last]) == Done {
        assert Begun(tasks) == |tasks|;
        forall i | 0 <= i < |tasks| ensures EndOf(tasks[i]) == Done {
        }
      }
    }
  }

  /** A task returns iff its `/tmp` was mounted, its dependencies could be read and its child
      exited with a multiple of 256 or was killed by a signal. */
  lemma DoneIff(t: Task)
    ensures EndOf(t) == Done <==>
            t.mounts && BuildDepends(t.manifest).Some? && (t.child.Exited? ==> t.child.code % 256 == 0)
  {
  }

  /** What a task must meet in order not to stop the queue. */
  predicate Passes(t: Task) {
    && t.mounts && (forall i :: 0 <= i < |t.manifest| ==> !BlankItem(t.manifest[i]))
    && (t.child.Exited? ==> t.child.code % 256 == 0)
  }

  lemma PassesIsDone(t: Task)
    ensures Passes(t) <==> EndOf(t) == Done
  {
    BuildDependsRaises(t.manifest);
  }

  lemma {:induction false} BegunUpTo(tasks: seq<Task>, i: nat)
    requires i <= |tasks| && forall k :: 0 <= k < i ==> Passes(tasks[k])
    ensures Begun(tasks) == i + Begun(tasks[i..]) && QueueCode(tasks) == QueueCode(tasks[i..])
    decreases i
  {
    if i > 0 {
      BegunUpTo(tasks, i - 1);
      PassesIsDone(tasks[i - 1]);
      assert tasks[i - 1..][1..] == tasks[i..];
    } else {
      assert tasks[0..] == tasks;
    }
  }

  /** The status of the driver, told by what the first task that does not pass meets: 255 if
      its `/tmp` cannot be mounted, 1 if a dependency line of its manifest has a blank item,
      else what its child exits with, in eight bits.  That task is the last one begun. */
  lemma FirstFailure(tasks: seq<Task>, i: nat)
    requires i < |tasks| && !Passes(tasks[i]) && forall k :: 0 <= k < i ==> Passes(tasks[k])
    ensures Begun(tasks) == i + 1
    ensures !tasks[i].mounts ==> FinalStatus(tasks) == 255
    ensures tasks[i].mounts && (exists l :: 0 <= l < |tasks[i].manifest| && BlankItem(tasks[i].manifest[l])) ==>
              FinalStatus(tasks) == 1
    ensures tasks[i].mounts && (forall l :: 0 <= l < |tasks[i].manifest| ==> !BlankItem(tasks[i].manifest[l])) ==>
              FinalStatus(tasks) == tasks[i].child.code % 256
  {
    BegunUpTo(tasks, i);
    BuildDependsRaises(tasks[i].manifest);
    PassesIsDone(tasks[i]);
    assert tasks[i..][0] == tasks[i];
  }

  lemma NoFailure(tasks: seq<Task>)
    requires forall k :: 0 <= k < |tasks| ==> Passes(tasks[k])
    ensures Begun(tasks) == |tasks| && FinalStatus(tasks) == 0
  {
    BegunUpTo(tasks, |tasks|);
    assert tasks[|tasks|..] == [];
  }

  /** Each task begun whose `/tmp` was mounted unmounts it, and nothing else is unmounted. */
  lemma {:induction false} QueueUnmounts(session: string, tasks: seq<Task>)
    ensures Begun(tasks) <= |tasks|
    ensures var calls := QueueCalls(session, tasks);
            && (forall i :: 0 <= i < |calls| ==> calls[i] == Unmount(session + "/tmp", Gone))
            && |calls| == Begun(tasks) - if Begun(tasks) > 0 && !tasks[Begun(tasks) - 1].mounts then 1 else 0
    decreases |tasks|
  {
    if tasks != [] && EndOf(tasks[0]) == Done {
      QueueUnmounts(session, tasks[1..]);
      assert QueueCalls(session, tasks) == [Unmount(session + "/tmp", Gone)] + QueueCalls(session, tasks[1..]);
    }
  }

  /** The packages built are those whose names end in `.dsc`, in order, each by its task. */
  lemma SelectedSnoc(pkgs: seq<string>, builds: seq<Task>, pkg: string, build: Task)
    requires |builds| == |pkgs|
    ensures Selected([], []) == []
    ensures Selected(pkgs + [pkg], builds + [build]) ==
              Selected(pkgs, builds) + if EndsWith(pkg, ".dsc") then [build] else []
  {
    IsDscIff(pkg);
    SelectedAppend(pkgs, builds, pkg, build);
  }

  lemma {:induction false} SelectedAppend(pkgs: seq<string>, builds: seq<Task>, pkg: string, build: Task)
    requires |builds| == |pkgs|
    ensures Selected(pkgs + [pkg], builds + [build]) == Selected(pkgs, builds) + if IsDsc(pkg) then [build] else []
    decreases |pkgs|
  {
    if pkgs == [] {
      assert pkgs + [pkg] == [pkg] + [] && builds + [build] == [build] + [];
      SelectedCons(pkg, [], build, []);
    } else {
      SelectedAppend(pkgs[1..], builds[1..], pkg, build);
      SelectedCons(pkgs[0], pkgs[1..] + [pkg], builds[0], builds[1..] + [build]);
      assert pkgs + [pkg] == [pkgs[0]] + (pkgs[1..] + [pkg]);
      assert builds + [build] == [builds[0]] + (builds[1..] + [build]);
    }
  }

  lemma SelectedCons(pkg: string, pkgs: seq<string>, build: Task, builds: seq<Task>)
    requires |builds| == |pkgs|
    ensures Selected([pkg] + pkgs, [build] + builds) ==
              (if IsDsc(pkg) then [build] else []) + Selected(pkgs, builds)
  {
    assert ([pkg] + pkgs)[1..] == pkgs && ([build] + builds)[1..] == builds;
  }

  /** So a build that a signal kills does not stop the queue: the driver ends with zero. */
  lemma KilledPasses(before: seq<Task>, killed: Task, behind: seq<Task>)
    requires FinalStatus(before) == 0 && FinalStatus(behind) == 0
    requires killed.mounts && BuildDepends(killed.manifest).Some? && killed.child.Killed?
    ensures FinalStatus(before + [killed] + behind) == 0
  {
    var all := before + [killed] + behind;
    FinalStatusIff(before);
    FinalStatusIff(behind);
    FinalStatusIff(all);
    DoneIff(killed);
    forall i | 0 <= i < |all| ensures EndOf(all[i]) == Done {
      assert all[i] == if i < |before| then before[i] else if i == |before| then killed else behind[i - |before| - 1];
    }
  }

  /** The tables the whole queue leads through. */
  function QueueTables(t: Table, session: string, tasks: seq<Task>): seq<Table> {
    if tasks == [] then []
    else TaskTables(t, session, tasks[0]) + if EndOf(tasks[0]) != Done then [] else QueueTables(t, session, tasks[1..])
  }

  /** At most one `/tmp` is mounted at any time, and after each task, however it ends, the
      table is what it was before. */
  lemma {:induction false} OneTmpAtATime(t: Table, session: string, tasks: seq<Task>)
    ensures var tables := QueueTables(t, session, tasks);
            && |tables| % 2 == 0 && |tables| <= 2 * Begun(tasks)
            && forall i :: 0 <= i < |tables| ==> tables[i] == if i % 2 == 0 then t + [TaskTmp(session)] else t
    decreases |tasks|
  {
    if tasks != [] && EndOf(tasks[0]) == Done {
      OneTmpAtATime(t, session, tasks[1..]);
      var rest := QueueTables(t, session, tasks[1..]);
      var now := [t + [TaskTmp(session)], t];
      assert TaskTables(t, session, tasks[0]) == now;
      forall i | 0 <= i < |now + rest| ensures (now + rest)[i] == if i % 2 == 0 then t + [TaskTmp(session)] else t {
        assert i >= 2 ==> (now + rest)[i] == rest[i - 2] && i % 2 == (i - 2) % 2;
      }
    }
  }

  /** The `umount` calls of the whole queue. */
  function QueueCalls(session: string, tasks: seq<Task>): seq<Unmount> {
    if tasks == [] then []
    else TaskCalls(session, tasks[0]) + if EndOf(tasks[0]) != Done then [] else QueueCalls(session, tasks[1..])
  }

  /** The tables and the `umount` calls recorded so far. */
  datatype Recorded = Recorded(seen: seq<Table>, calls: seq<Unmount>)

  /** With `i` tasks done, what remains ends where the whole queue ends. */
  ghost predicate QueueAt(t: Table, session: string, tasks: seq<Task>, i: nat, from: Recorded, now: Recorded) {
    && i <= |tasks|
    && i + Begun(tasks[i..]) == Begun(tasks)
    && QueueCode(tasks[i..]) == QueueCode(tasks)
    && now.seen + QueueTables(t, session, tasks[i..]) == from.seen + QueueTables(t, session, tasks)
    && now.calls + QueueCalls(session, tasks[i..]) == from.calls + QueueCalls(session, tasks)
  }

  lemma QueueStep(t: Table, session: string, tasks: seq<Task>, i: nat, from: Recorded, now: Recorded)
    requires QueueAt(t, session, tasks, i, from, now) && i < |tasks|
    ensures var next := After(t, session, tasks[i], now);
            if EndOf(tasks[i]) == Done then QueueAt(t, session, tasks, i + 1, from, next)
            else QueueEnded(t, session, tasks, i + 1, ExitCode(EndOf(tasks[i])), from, next)
  {
    assert tasks[i..][0] == tasks[i] && tasks[i..][1..] == tasks[i + 1..];
    StepTables(t, session, tasks[i..], now.seen);
    StepCalls(session, tasks[i..], now.calls);
  }

  lemma StepTables(t: Table, session: string, tasks: seq<Task>, seen: seq<Table>)
    requires tasks != []
    ensures seen + QueueTables(t, session, tasks) ==
              var next := seen + TaskTables(t, session, tasks[0]);
              if EndOf(tasks[0]) == Done then next + QueueTables(t, session, tasks[1..]) else next
  {
    var now, rest := TaskTables(t, session, tasks[0]), QueueTables(t, session, tasks[1..]);
    assert seen + (now + rest) == (seen + now) + rest;
    assert now + [] == now;
  }

  lemma StepCalls(session: string, tasks: seq<Task>, calls: seq<Unmount>)
    requires tasks != []
    ensures calls + QueueCalls(session, tasks) ==
              var next := calls + TaskCalls(session, tasks[0]);
              if EndOf(tasks[0]) == Done then next + QueueCalls(session, tasks[1..]) else next
  {
    var now, rest := TaskCalls(session, tasks[0]), QueueCalls(session, tasks[1..]);
    assert calls + (now + rest) == (calls + now) + rest;
    assert now + [] == now;
  }

  /** What a task adds to the record. */
  function After(t: Table, session: string, task: Task, now: Recorded): Recorded {
    Recorded(now.seen + TaskTables(t, session, task), now.calls + TaskCalls(session, task))
  }

  /** How the queue ended: all tasks returned, or the last one begun did not. */
  ghost predicate QueueEnded(table: Table, session: string, tasks: seq<Task>, begun: nat, code: int,
                             from: Recorded, now: Recorded)
  {
    && begun == Begun(tasks) && code == QueueCode(tasks)
    && now.seen == from.seen + QueueTables(table, session, tasks)
    && now.calls == from.calls + QueueCalls(session, tasks)
  }

  lemma QueueAtEnd(t: Table, session: string, tasks: seq<Task>, from: Recorded, now: Recorded)
    requires QueueAt(t, session, tasks, |tasks|, from, now)
    ensures QueueEnded(t, session, tasks, |tasks|, 0, from, now)
  {
    assert tasks[|tasks|..] == [] && now.seen + [] == now.seen && now.calls + [] == now.calls;
  }

  /** The next task of the queue. */
  method RunNext(table: MountTable, session: string, task: Task, begun: nat, ghost tasks: seq<Task>,
                 ghost from: Recorded)
    returns (end: Ending)
    requires begun < |tasks| && tasks[begun] == task
    requires QueueAt(table.mounted, session, tasks, begun, from, Recorded(table.seen, table.calls))
    modifies table
    ensures end == EndOf(task) && table.mounted == old(table.mounted)
    ensures var now := Recorded(table.seen, table.calls);
            if end == Done then QueueAt(table.mounted, session, tasks, begun + 1, from, now)
            else QueueEnded(table.mounted, session, tasks, begun + 1, ExitCode(end), from, now)
  {
    QueueStep(table.mounted, session, tasks, begun, from, Recorded(table.seen, table.calls));
    end := RunTask(table, session, task);
  }

  /** One package: built if it has the extension, else passed over. */
  method BuildNext(table: MountTable, session: string, pkgs: seq<string>, builds: seq<Task>, i: nat, done: nat,
                   ghost tasks: seq<Task>, ghost from: Recorded)
    returns (end: Ending, begun: nat)
    requires |builds| == |pkgs| && i < |pkgs| && LeftToBuild(tasks, done, pkgs, builds, i)
    requires QueueAt(table.mounted, session, tasks, done, from, Recorded(table.seen, table.calls))
    modifies table
    ensures table.mounted == old(table.mounted)
    ensures var now := Recorded(table.seen, table.calls);
            if end == Done then LeftToBuild(tasks, begun, pkgs, builds, i + 1) &&
                                QueueAt(old(table.mounted), session, tasks, begun, from, now)
            else QueueEnded(old(table.mounted), session, tasks, begun, ExitCode(end), from, now)
  {
    SelectedStep(tasks, done, pkgs, builds, i);
    end, begun := Done, done;
    if IsDsc(pkgs[i]) {
      end := RunNext(table, session, builds[i], done, tasks, from);
      begun := done + 1;
    }
  }

  /** The packages, behind the `done` update tasks. */
  method RunBuilds(table: MountTable, session: string, pkgs: seq<string>, builds: seq<Task>, done: nat,
                   ghost tasks: seq<Task>, ghost from: Recorded)
    returns (exit_code: int, begun: nat)
    requires |builds| == |pkgs| && forall p :: p in pkgs ==> Extension(p).Some?
    requires done <= |tasks| && tasks[done..] == Selected(pkgs, builds)
    requires QueueAt(table.mounted, session, tasks, done, from, Recorded(table.seen, table.calls))
    modifies table
    ensures table.mounted == old(table.mounted)
    ensures QueueEnded(old(table.mounted), session, tasks, begun, exit_code, from, Recorded(table.seen, table.calls))
  {
    ghost var t := table.mounted;
    begun := done;
    var i := 0;
    assert pkgs[0..] == pkgs && builds[0..] == builds;
    while i < |pkgs|
      invariant 0 <= i <= |pkgs| && table.mounted == t
      invariant LeftToBuild(tasks, begun, pkgs, builds, i)
      invariant QueueAt(t, session, tasks, begun, from, Recorded(table.seen, table.calls))
    {
      var end;
      end, begun := BuildNext(table, session, pkgs, builds, i, begun, tasks, from);
      if end != Done {
        return ExitCode(end), begun;
      }
      i := i + 1;
    }
    QueueAtEnd(t, session, tasks, from, Recorded(table.seen, table.calls));
    return 0, begun;
  }

  /** The update tasks, then the packages; what a task raises ends both loops and becomes the
      exit code. */
  method RunQueue(table: MountTable, session: string, update_tasks: seq<Task>, pkgs: seq<string>, builds: seq<Task>)
    returns (exit_code: int, begun: nat)
    requires |builds| == |pkgs| && forall p :: p in pkgs ==> Extension(p).Some?
    modifies table
    ensures var tasks := update_tasks + Selected(pkgs, builds);
            && exit_code == QueueCode(tasks) && begun == Begun(tasks)
            && table.mounted == old(table.mounted)
            && table.seen == old(table.seen) + QueueTables(old(table.mounted), session, tasks)
            && table.calls == old(table.calls) + QueueCalls(session, tasks)
  {
    ghost var tasks, t := update_tasks + Selected(pkgs, builds), table.mounted;
    ghost var from := Recorded(table.seen, table.calls);
    assert tasks[0..] == tasks;
    begun := 0;
    while begun < |update_tasks|
      invariant 0 <= begun <= |update_tasks| && table.mounted == t
      invariant QueueAt(t, session, tasks, begun, from, Recorded(table.seen, table.calls))
    {
      var end := RunNext(table, session, update_tasks[begun], begun, tasks, from);
      begun := begun + 1;
      if end != Done {
        return ExitCode(end), begun;
      }
    }
    exit_code, begun := RunBuilds(table, session, pkgs, builds, begun, tasks, from);
  }

  /** From the package `i` on the tasks from `begun` on are left. */
  ghost predicate LeftToBuild(tasks: seq<Task>, begun: nat, pkgs: seq<string>, builds: seq<Task>, i: nat)
    requires |builds| == |pkgs|
  {
    i <= |pkgs| && begun <= |tasks| && tasks[begun..] == Selected(pkgs[i..], builds[i..])
  }

  lemma SelectedStep(tasks: seq<Task>, begun: nat, pkgs: seq<string>, builds: seq<Task>, i: nat)
    requires |builds| == |pkgs| && i < |pkgs| && LeftToBuild(tasks, begun, pkgs, builds, i)
    ensures if IsDsc(pkgs[i]) then
              begun < |tasks| && tasks[begun] == builds[i] && LeftToBuild(tasks, begun + 1, pkgs, builds, i + 1)
            else LeftToBuild(tasks, begun, pkgs, builds, i + 1)
  {
    assert pkgs[i..][1..] == pkgs[i + 1..] && builds[i..][1..] == builds[i + 1..];
    if IsDsc(pkgs[i]) {
      assert tasks[begun..][0] == tasks[begun] && tasks[begun..][1..] == tasks[begun + 1..];
    }
  }

  /** Every package that was staged is built. */
  lemma {:induction false} StagedAreSelected(pkgs: seq<string>, builds: seq<Task>)
    requires |builds| == |pkgs| && forall p :: p in pkgs ==> IsDsc(p)
    ensures Selected(pkgs, builds) == builds
    decreases |pkgs|
  {
    if pkgs != [] {
      assert pkgs[0] in pkgs;
      StagedAreSelected(pkgs[1..], builds[1..]);
    }
  }
}
