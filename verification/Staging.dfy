/** How src/buildit.cpp stages the packages it was given, before anything is mounted.

    Each package is a manifest that `copy_dsc` brings to the target with the files it lists; the
    loop stops at the first that is refused or fails, and cuts the paths it has staged down to
    file names in place. */
module Staging {
  import opened Wrappers
  import opened Strings
  import opened Paths
  import opened FileSystem
  import opened Dsc
  import opened Fsys

  /** What follows the last `/`. */
  function FileName(path: string): string {
    path[FindLastOf(path, "/") + 1..]
  }

  /** From the last dot on, if there is one. */
  function Extension(name: string): Maybe<string> {
    var dot := FindLastOf(name, ".");
    if dot == -1 then None else Some(name[dot..])
  }

  /** The driver compares the last seven characters with eight, so that its branch for
      source rpm packages is never taken; staging below has no such branch. */
  predicate IsSourceRpm(name: string) {
    |name| > 7 && name[|name| - 7..] == ".src.rpm"
  }

  predicate IsDsc(name: string) {
    Extension(name) == Some(".dsc")
  }

  lemma NeverSourceRpm(name: string)
    ensures !IsSourceRpm(name)
  {
    if |name| > 7 {
      assert |name[|name| - 7..]| == 7;
    }
  }

  /** A package is accepted iff its name ends in `.dsc`. */
  lemma IsDscIff(name: string)
    ensures IsDsc(name) <==> EndsWith(name, ".dsc")
  {
    EndsWithIsSuffix(name, ".dsc");
    var dot := FindLastOf(name, ".");
    if |name| >= 4 && name[|name| - 4..] == ".dsc" {
      var tail := name[|name| - 4..];
      assert tail[0] == name[|name| - 4] && tail[1] == name[|name| - 3];
      assert tail[2] == name[|name| - 2] && tail[3] == name[|name| - 1];
      FindLastOfIs(name, ".", |name| - 4);
    }
    if dot >= 0 && name[dot..] == ".dsc" {
      assert |name| - dot == 4;
    }
  }

  /** The driver and `copy_dsc` cut a path in different places. */
  predicate SameName(path: string) {
    var slash, pos := FindLastOf(path, "/"), FindLastOf(path, SEPARATORS);
    if pos == 0 then slash == -1 else slash == pos
  }

  /** The name the build task opens is the name `copy_dsc` gave the manifest exactly when the
      last separator of the path is a `/` behind its first character, or is no `/` and at
      index 0, or there is none. */
  lemma SameNameIff(path: string)
    ensures FileName(path) == Basename(path) <==> SameName(path)
  {
    var slash, pos := FindLastOf(path, "/"), FindLastOf(path, SEPARATORS);
    assert |FileName(path)| == |path| - slash - 1;
    assert pos != 0 ==> |Basename(path)| == |path| - pos - 1;
    if pos == 0 && slash == -1 {
      assert path[0..] == path;
    }
  }

  /** What staging the package `i` does to given files, if it is not refused. */
  type Steps = (Files, nat) -> Maybe<Outcome>

  function StageOne(fs: Files, path: string, target: string, faults: seq<Faults>): Maybe<Outcome> {
    if IsDsc(FileName(path)) then Some(CopyDscOutcome(fs, path, target, faults)) else None
  }

  ghost predicate Follows(steps: Steps, paths: seq<string>, target: string, faults: seq<seq<Faults>>)
    requires |paths| == |faults|
  {
    forall fs, i {:trigger StageOne(fs, paths[i], target, faults[i])} :: 0 <= i < |paths| ==>
      steps(fs, i) == StageOne(fs, paths[i], target, faults[i])
  }

  lemma StepsExist(paths: seq<string>, target: string, faults: seq<seq<Faults>>) returns (steps: Steps)
    requires |paths| == |faults|
    ensures Follows(steps, paths, target, faults)
  {
    steps := (fs: Files, i: nat) => if i < |paths| then StageOne(fs, paths[i], target, faults[i]) else None;
  }

  /** How many packages were staged, and the files then. */
  datatype Staged = Staged(count: nat, files: Files)

  /** The first `n` steps, up to one that raises. */
  function Stage(steps: Steps, fs: Files, n: nat): (s: Staged)
    ensures s.count <= n
  {
    if n == 0 then Staged(0, fs)
    else
      var before := Stage(steps, fs, n - 1);
      if before.count < n - 1 then before
      else
        match steps(before.files, n - 1)
        case None => before
        case Some(one) => Staged(if one.ok then n else n - 1, LastState(before.files, one.states))
  }

  /** A state that staging goes through. */
  ghost predicate DuringStaging(steps: Steps, fs: Files, n: nat, now: Files) {
    exists i :: 0 <= i < n && Visible(steps, fs, i, now)
  }

  /** A state that its step `i` goes through. */
  ghost predicate Visible(steps: Steps, fs: Files, i: nat, now: Files) {
    var s := Stage(steps, fs, i);
    s.count == i && steps(s.files, i).Some? && now in steps(s.files, i).value.states
  }

  lemma {:induction false} StageStuck(steps: Steps, fs: Files, k: nat, n: nat)
    requires k <= n && Stage(steps, fs, k).count < k
    ensures Stage(steps, fs, n) == Stage(steps, fs, k)
    decreases n
  {
    if k < n {
      StageStuck(steps, fs, k, n - 1);
    }
  }

  /** The list of packages once the first `count` are cut down to their file names. */
  ghost function CutDown(paths: seq<string>, count: nat): (names: seq<string>)
    requires count <= |paths|
    ensures |names| == |paths|
  {
    if count == 0 then paths else CutDown(paths, count - 1)[count - 1 := FileName(paths[count - 1])]
  }

  lemma {:induction false} CutDownAt(paths: seq<string>, count: nat, i: nat)
    requires count <= |paths| && i < |paths|
    ensures CutDown(paths, count)[i] == if i < count then FileName(paths[i]) else paths[i]
    decreases count
  {
    if count > 0 {
      CutDownAt(paths, count - 1, i);
    }
  }

  /** One turn of the staging loop. */
  method StagePackage(disk: Disk, ghost paths: seq<string>, i: nat, path: string, target: string,
                      faults: seq<seq<Faults>>, ghost steps: Steps)
    returns (ok: bool, cp: string)
    requires i < |paths| == |faults| && paths[i] == path && Follows(steps, paths, target, faults)
    modifies disk
    ensures var one := steps(old(disk.files), i);
            if one.None? then !ok && disk.files == old(disk.files) && disk.seen == old(disk.seen)
            else ok == one.value.ok && disk.files == LastState(old(disk.files), one.value.states) &&
                 disk.seen == old(disk.seen) + one.value.states
    ensures cp == FileName(path)
  {
    assert steps(disk.files, i) == StageOne(disk.files, paths[i], target, faults[i]);
    cp := FileName(path);
    if !IsDsc(cp) {
      return false, cp;
    }
    ok := disk.CopyDsc(path, target, faults[i]);
  }

  /** The staging loop.  Each path that was staged is cut down to its file name in place; a
      package that is not accepted or not copied raises. */
  method StagePackages(disk: Disk, paths: array<string>, target: string, faults: seq<seq<Faults>>, ghost steps: Steps)
    returns (ok: bool, count: nat)
    requires |faults| == paths.Length && Follows(steps, paths[..], target, faults)
    modifies disk, paths
    ensures Stage(steps, old(disk.files), paths.Length) == Staged(count, disk.files)
    ensures SeenStaging(steps, old(disk.files), paths.Length, disk.seen, |old(disk.seen)|)
    ensures ok == (count == paths.Length)
    ensures count <= paths.Length && paths[..] == CutDown(old(paths[..]), count)
  {
    ghost var given, start, from := paths[..], disk.files, |disk.seen|;
    count := 0;
    while count < paths.Length
      invariant count <= paths.Length
      invariant StagedTo(steps, start, given, count, disk.files, paths[..], disk.seen, from)
    {
      ok := StageTurn(disk, paths, count, target, faults, steps, given, start, from);
      if !ok {
        return;
      }
      count := count + 1;
    }
    ok := true;
  }

  /** One turn on the array: the path is replaced once its package is staged. */
  method StageTurn(disk: Disk, paths: array<string>, i: nat, target: string, faults: seq<seq<Faults>>,
                   ghost steps: Steps, ghost given: seq<string>, ghost start: Files, ghost from: nat)
    returns (ok: bool)
    requires i < paths.Length == |given| == |faults| && Follows(steps, given, target, faults)
    requires StagedTo(steps, start, given, i, disk.files, paths[..], disk.seen, from)
    modifies disk, paths
    ensures SeenStaging(steps, start, |given|, disk.seen, from)
    ensures if ok then StagedTo(steps, start, given, i + 1, disk.files, paths[..], disk.seen, from)
            else paths[..] == old(paths[..]) && Stage(steps, start, |given|) == Staged(i, disk.files)
  {
    ghost var names, before := paths[..], disk.seen;
    NextToStage(steps, start, given, i, disk.files, names, before, from);
    var cp;
    ok, cp := StagePackage(disk, given, i, paths[i], target, faults, steps);
    TurnTaken(steps, start, given, i, names, before, disk.seen, from);
    if ok {
      paths[i] := cp;
      assert paths[..] == names[i := cp];
    }
  }

  /** The first `count` packages are staged and cut down, through visible states. */
  ghost predicate StagedTo(steps: Steps, start: Files, given: seq<string>, count: nat, files: Files,
                           names: seq<string>, seen: seq<Files>, from: nat)
  {
    && count <= |given| && names == CutDown(given, count)
    && Stage(steps, start, count) == Staged(count, files)
    && SeenStaging(steps, start, |given|, seen, from)
  }

  lemma NextToStage(steps: Steps, start: Files, given: seq<string>, count: nat, files: Files,
                    names: seq<string>, seen: seq<Files>, from: nat)
    requires StagedTo(steps, start, given, count, files, names, seen, from) && count < |given|
    ensures names[count] == given[count] && files == Stage(steps, start, count).files
  {
    CutDownAt(given, count, count);
  }

  /** One turn moves on by one package, or the staging ends where it is. */
  lemma TurnTaken(steps: Steps, start: Files, given: seq<string>, count: nat, names: seq<string>,
                  before: seq<Files>, seen: seq<Files>, from: nat)
    requires count < |given|
    requires var files := Stage(steps, start, count).files;
             var one := steps(files, count);
             && StagedTo(steps, start, given, count, files, names, before, from)
             && seen == if one.None? then before else before + one.value.states
    ensures SeenStaging(steps, start, |given|, seen, from)
    ensures var files := Stage(steps, start, count).files;
            var one := steps(files, count);
            var next := if one.None? then files else LastState(files, one.value.states);
            if one.Some? && one.value.ok
            then StagedTo(steps, start, given, count + 1, next, names[count := FileName(given[count])], seen, from)
            else Stage(steps, start, |given|) == Staged(count, next)
  {
    SeenStep(steps, start, |given|, count, before, seen, from);
    StageNext(steps, start, given, count);
  }

  lemma StageNext(steps: Steps, start: Files, given: seq<string>, count: nat)
    requires count < |given| && Stage(steps, start, count).count == count
    ensures var files := Stage(steps, start, count).files;
            var one := steps(files, count);
            var next := if one.None? then files else LastState(files, one.value.states);
            if one.Some? && one.value.ok then Stage(steps, start, count + 1) == Staged(count + 1, next)
            else Stage(steps, start, |given|) == Staged(count, next)
  {
    var one := steps(Stage(steps, start, count).files, count);
    if one.None? || !one.value.ok {
      StageStuck(steps, start, count + 1, |given|);
    }
  }

  ghost predicate SeenStaging(steps: Steps, fs: Files, n: nat, seen: seq<Files>, from: nat) {
    from <= |seen| && forall k :: from <= k < |seen| ==> DuringStaging(steps, fs, n, seen[k])
  }

  lemma SeenStep(steps: Steps, fs: Files, n: nat, i: nat, before: seq<Files>, seen: seq<Files>, from: nat)
    requires i < n && SeenStaging(steps, fs, n, before, from) && Stage(steps, fs, i).count == i
    requires var one := steps(Stage(steps, fs, i).files, i);
             seen == if one.None? then before else before + one.value.states
    ensures SeenStaging(steps, fs, n, seen, from)
  {
    forall k | from <= k < |seen| ensures DuringStaging(steps, fs, n, seen[k]) {
      if k >= |before| {
        assert Visible(steps, fs, i, seen[k]);
      } else {
        assert seen[k] == before[k];
      }
    }
  }

  /** The loop on its own, without the steps it is compared with. */
  method StageAll(disk: Disk, paths: array<string>, target: string, faults: seq<seq<Faults>>)
    returns (ok: bool, ghost steps: Steps)
    requires |faults| == paths.Length
    modifies disk, paths
    ensures Follows(steps, old(paths[..]), target, faults)
    ensures var s := Stage(steps, old(disk.files), paths.Length);
            && ok == (s.count == paths.Length) && disk.files == s.files
            && paths[..] == CutDown(old(paths[..]), s.count)
    ensures SeenStaging(steps, old(disk.files), paths.Length, disk.seen, |old(disk.seen)|)
  {
    steps := StepsExist(paths[..], target, faults);
    var count;
    ok, count := StagePackages(disk, paths, target, faults, steps);
  }

  /////////////////////////////// what staging installs ///////////////////////////////

  /** The first `n` parts, one after the other. */
  function Flat(parts: seq<seq<Job>>, n: nat): seq<Job>
    requires n <= |parts|
  {
    if n == 0 then [] else Flat(parts, n - 1) + parts[n - 1]
  }

  /** The copies each package asks for, its manifest read at the start. */
  function Parts(fs: Files, paths: seq<string>, target: string, faults: seq<seq<Faults>>): (parts: seq<seq<Job>>)
    requires |paths| == |faults|
    ensures |parts| == |paths|
    ensures forall i :: 0 <= i < |paths| ==> parts[i] == PackageJobs(fs, paths[i], target, faults[i])
  {
    seq(|paths|, i requires 0 <= i < |paths| => PackageJobs(fs, paths[i], target, faults[i]))
  }

  function PackageJobs(fs: Files, path: string, target: string, faults: seq<Faults>): (jobs: seq<Job>)
    ensures jobs != []
  {
    DscJobs(path, target, if path in fs then Names(fs[path]) else [], faults)
  }

  /** The last of them copies the manifest. */
  lemma ManifestJob(fs: Files, path: string, target: string, faults: seq<Faults>)
    ensures var jobs := PackageJobs(fs, path, target, faults);
            jobs[|jobs| - 1].from == path && jobs[|jobs| - 1].to == Under(target, Basename(path))
  {
  }

  /** All copies of all packages. */
  function StageJobs(fs: Files, paths: seq<string>, target: string, faults: seq<seq<Faults>>): seq<Job>
    requires |paths| == |faults|
  {
    Flat(Parts(fs, paths, target, faults), |paths|)
  }

  lemma {:induction false} RunJobsConcat(fs: Files, a: seq<Job>, b: seq<Job>)
    ensures var first := RunJobs(fs, a);
            var both := RunJobs(fs, a + b);
            if !first.ok then both == first
            else
              var second := RunJobs(LastState(fs, first.states), b);
              both.ok == second.ok && both.states == first.states + second.states
    decreases |a|
  {
    if a == [] {
      assert [] + b == b;
      assert [] + RunJobs(fs, b).states == RunJobs(fs, b).states;
    } else {
      assert (a + b)[0] == a[0] && (a + b)[1..] == a[1..] + b;
      if CopyOk(fs, a[0].from, a[0].faults) {
        var next := CopyFile(fs, a[0].from, a[0].to, a[0].faults);
        RunJobsConcat(next, a[1..], b);
        ConcatStep(fs, CopyStates(fs, a[0].from, a[0].to, a[0].faults), RunJobs(next, a[1..]).states,
                   RunJobs(LastState(next, RunJobs(next, a[1..]).states), b).states);
      }
    }
  }

  lemma ConcatStep(fs: Files, now: seq<Files>, first: seq<Files>, second: seq<Files>)
    ensures LastState(fs, now + first) == LastState(LastState(fs, now), first)
    ensures now + (first + second) == (now + first) + second
  {
  }

  lemma SeparateParts(a: seq<Job>, b: seq<Job>)
    requires Separate(a + b)
    ensures Separate(a) && Separate(b)
    ensures forall i, j :: 0 <= i < |a| && 0 <= j < |b| ==> SeparatePair(b[j], a[i])
  {
    forall i, j | 0 <= i < |a| && 0 <= j < |a| ensures SeparatePair(a[i], a[j]) {
      assert SeparatePair((a + b)[i], (a + b)[j]);
    }
    forall i, j | 0 <= i < |b| && 0 <= j < |b| ensures SeparatePair(b[i], b[j]) {
      assert SeparatePair((a + b)[|a| + i], (a + b)[|a| + j]);
    }
    forall i, j | 0 <= i < |a| && 0 <= j < |b| ensures SeparatePair(b[j], a[i]) {
      assert SeparatePair((a + b)[|a| + j], (a + b)[i]);
    }
  }

  lemma {:induction false} FlatPrefix(parts: seq<seq<Job>>, k: nat, n: nat)
    requires k <= n <= |parts|
    ensures Flat(parts, k) <= Flat(parts, n)
    decreases n
  {
    if k < n {
      FlatPrefix(parts, k, n - 1);
    }
  }

  /** The last job of each part. */
  lemma FlatHas(parts: seq<seq<Job>>, i: nat) returns (k: nat)
    requires i < |parts| && parts[i] != []
    ensures k < |Flat(parts, |parts|)| && Flat(parts, |parts|)[k] == parts[i][|parts[i]| - 1]
  {
    FlatPrefix(parts, i + 1, |parts|);
    k := |Flat(parts, i + 1)| - 1;
    assert Flat(parts, i + 1) == Flat(parts, i) + parts[i];
  }

  /** Copies leave alone what a copy separate from them reads. */
  lemma ReadElsewhere(fs: Files, first: seq<Job>, job: Job)
    requires forall m :: 0 <= m < |first| ==> SeparatePair(job, first[m])
    ensures InstalledEntry(fs, first, job.from) == Entry(fs, job.from)
  {
    forall m | 0 <= m < |first| ensures job.from != first[m].to && job.from != Tmp(first[m].to) {
      assert SeparatePair(job, first[m]);
    }
    NotConcerned(fs, first, job.from);
  }

  /** The source of a part's last copy is as it was when all parts before have run. */
  lemma SourceKept(fs: Files, parts: seq<seq<Job>>, i: nat)
    requires i < |parts| && parts[i] != [] && Separate(Flat(parts, |parts|))
    requires RunJobs(fs, Flat(parts, i)).ok
    ensures var path := parts[i][|parts[i]| - 1].from;
            Entry(LastState(fs, RunJobs(fs, Flat(parts, i)).states), path) == Entry(fs, path)
  {
    PartApart(parts, i);
    JobsInstall(fs, Flat(parts, i));
    ReadElsewhere(fs, Flat(parts, i), parts[i][|parts[i]| - 1]);
  }

  lemma PartApart(parts: seq<seq<Job>>, i: nat)
    requires i < |parts| && parts[i] != [] && Separate(Flat(parts, |parts|))
    ensures Separate(Flat(parts, i))
    ensures forall m :: 0 <= m < |Flat(parts, i)| ==> SeparatePair(parts[i][|parts[i]| - 1], Flat(parts, i)[m])
  {
    FlatPrefix(parts, i + 1, |parts|);
    SeparatePrefix(Flat(parts, i) + parts[i], Flat(parts, |parts|));
    SeparateParts(Flat(parts, i), parts[i]);
  }

  lemma StageOneRuns(fs: Files, now: Files, path: string, target: string, faults: seq<Faults>)
    requires Entry(now, path) == Entry(fs, path) && IsDsc(FileName(path))
    ensures var one, o := StageOne(now, path, target, faults), RunJobs(now, PackageJobs(fs, path, target, faults));
            one == Some(o)
  {
    assert path in now <==> path in fs;
  }

  lemma SeparatePrefix(a: seq<Job>, b: seq<Job>)
    requires a <= b && Separate(b)
    ensures Separate(a)
  {
    forall i, j | 0 <= i < |a| && 0 <= j < |a| ensures SeparatePair(a[i], a[j]) {
      assert SeparatePair(b[i], b[j]);
    }
  }

  /** The files before the step `i` if all went well. */
  function Before(fs: Files, parts: seq<seq<Job>>, i: nat): Files
    requires i <= |parts|
  {
    LastState(fs, RunJobs(fs, Flat(parts, i)).states)
  }

  /** What has been staged so far does not change what staging the next package does. */
  lemma StepGives(steps: Steps, fs: Files, now: Files, paths: seq<string>, target: string, faults: seq<seq<Faults>>,
                  i: nat)
    requires i < |paths| == |faults| && Follows(steps, paths, target, faults)
    requires Entry(now, paths[i]) == Entry(fs, paths[i])
    ensures steps(now, i) ==
              if IsDsc(FileName(paths[i])) then Some(RunJobs(now, PackageJobs(fs, paths[i], target, faults[i])))
              else None
  {
    assert steps(now, i) == StageOne(now, paths[i], target, faults[i]);
    if IsDsc(FileName(paths[i])) {
      StageOneRuns(fs, now, paths[i], target, faults[i]);
    }
  }

  lemma PartGives(steps: Steps, fs: Files, paths: seq<string>, target: string, faults: seq<seq<Faults>>,
                  parts: seq<seq<Job>>, i: nat)
    requires i < |paths| == |faults| == |parts| && parts[i] == PackageJobs(fs, paths[i], target, faults[i])
    requires Follows(steps, paths, target, faults)
    requires Separate(Flat(parts, |parts|)) && RunJobs(fs, Flat(parts, i)).ok
    ensures steps(Before(fs, parts, i), i) ==
              if IsDsc(FileName(paths[i])) then Some(RunJobs(Before(fs, parts, i), parts[i])) else None
  {
    SourceKept(fs, parts, i);
    ManifestJob(fs, paths[i], target, faults[i]);
    StepGives(steps, fs, Before(fs, parts, i), paths, target, faults, i);
  }

  /** The step `i` runs its part, or refuses where it is not to be run. */
  ghost predicate StepsRun(steps: Steps, fs: Files, parts: seq<seq<Job>>, run: seq<bool>)
    requires |run| == |parts|
  {
    forall i {:trigger run[i]} :: 0 <= i < |parts| && RunJobs(fs, Flat(parts, i)).ok ==>
      steps(Before(fs, parts, i), i) == if run[i] then Some(RunJobs(Before(fs, parts, i), parts[i])) else None
  }

  /** Staging `s` of `n` packages is the run `o` of the first `q`, all of them unless the
      next one is not to be run. */
  ghost predicate RunsAs(fs: Files, s: Staged, o: Outcome, run: seq<bool>, n: nat, q: nat)
    requires q <= n <= |run|
  {
    s.files == LastState(fs, o.states) && (s.count == n <==> q == n && o.ok) && (o.ok && q < n ==> !run[q])
  }

  lemma {:induction false} StageRuns(steps: Steps, fs: Files, parts: seq<seq<Job>>, run: seq<bool>, n: nat)
    returns (q: nat)
    requires |run| == |parts| && StepsRun(steps, fs, parts, run) && n <= |parts|
    ensures q <= n && forall i :: 0 <= i < q ==> run[i]
    ensures RunsAs(fs, Stage(steps, fs, n), RunJobs(fs, Flat(parts, q)), run, n, q)
  {
    if n == 0 {
      q := 0;
      NothingRuns(steps, fs, parts, run);
    } else {
      q := StageRuns(steps, fs, parts, run, n - 1);
      q := OnePartMore(steps, fs, parts, run, n, q);
    }
  }

  lemma NothingRuns(steps: Steps, fs: Files, parts: seq<seq<Job>>, run: seq<bool>)
    requires |run| == |parts|
    ensures RunsAs(fs, Stage(steps, fs, 0), RunJobs(fs, Flat(parts, 0)), run, 0, 0)
  {
  }

  lemma OnePartMore(steps: Steps, fs: Files, parts: seq<seq<Job>>, run: seq<bool>, n: nat, p: nat) returns (q: nat)
    requires |run| == |parts| && StepsRun(steps, fs, parts, run) && p < n <= |parts|
    requires RunsAs(fs, Stage(steps, fs, n - 1), RunJobs(fs, Flat(parts, p)), run, n - 1, p)
    ensures q == p || (q == n && p == n - 1 && run[p])
    ensures RunsAs(fs, Stage(steps, fs, n), RunJobs(fs, Flat(parts, q)), run, n, q)
  {
    if p == n - 1 && Stage(steps, fs, n - 1).count == n - 1 && run[n - 1] {
      PartGoes(steps, fs, parts, run, n);
      q := n;
    } else {
      PartStays(steps, fs, parts, run, n, p);
      q := p;
    }
  }

  lemma StepRuns(steps: Steps, fs: Files, parts: seq<seq<Job>>, run: seq<bool>, i: nat)
    requires |run| == |parts| && StepsRun(steps, fs, parts, run) && i < |parts| && RunJobs(fs, Flat(parts, i)).ok
    ensures steps(Before(fs, parts, i), i) == if run[i] then Some(RunJobs(Before(fs, parts, i), parts[i])) else None
  {
  }

  lemma PartGoes(steps: Steps, fs: Files, parts: seq<seq<Job>>, run: seq<bool>, n: nat)
    requires 0 < n <= |run| == |parts| && StepsRun(steps, fs, parts, run)
    requires RunsAs(fs, Stage(steps, fs, n - 1), RunJobs(fs, Flat(parts, n - 1)), run, n - 1, n - 1)
    requires Stage(steps, fs, n - 1).count == n - 1 && run[n - 1]
    ensures RunsAs(fs, Stage(steps, fs, n), RunJobs(fs, Flat(parts, n)), run, n, n)
  {
    StepRuns(steps, fs, parts, run, n - 1);
    PartRuns(steps, fs, parts, n);
  }

  /** No part is run after one that failed or is not to be run. */
  lemma PartStays(steps: Steps, fs: Files, parts: seq<seq<Job>>, run: seq<bool>, n: nat, q: nat)
    requires |run| == |parts| && StepsRun(steps, fs, parts, run) && q < n <= |parts|
    requires RunsAs(fs, Stage(steps, fs, n - 1), RunJobs(fs, Flat(parts, q)), run, n - 1, q)
    requires Stage(steps, fs, n - 1).count != n - 1 || !run[n - 1]
    ensures RunsAs(fs, Stage(steps, fs, n), RunJobs(fs, Flat(parts, q)), run, n, q)
  {
    var s := Stage(steps, fs, n - 1);
    if s.count == n - 1 {
      assert q == n - 1 && s.files == Before(fs, parts, n - 1) && !run[n - 1];
      assert steps(Before(fs, parts, n - 1), n - 1) == None;
    }
    assert Stage(steps, fs, n) == s;
  }

  lemma PartRuns(steps: Steps, fs: Files, parts: seq<seq<Job>>, n: nat)
    requires 0 < n <= |parts| && RunJobs(fs, Flat(parts, n - 1)).ok
    requires steps(Before(fs, parts, n - 1), n - 1) == Some(RunJobs(Before(fs, parts, n - 1), parts[n - 1]))
    requires Stage(steps, fs, n - 1) == Staged(n - 1, Before(fs, parts, n - 1))
    ensures var s, o := Stage(steps, fs, n), RunJobs(fs, Flat(parts, n));
            s.files == LastState(fs, o.states) && (s.count == n <==> o.ok)
  {
    RunJobsConcat(fs, Flat(parts, n - 1), parts[n - 1]);
    LastOfConcat(fs, RunJobs(fs, Flat(parts, n - 1)).states, RunJobs(Before(fs, parts, n - 1), parts[n - 1]).states);
  }

  function Accepted(paths: seq<string>): (run: seq<bool>)
    ensures |run| == |paths| && forall i :: 0 <= i < |paths| ==> run[i] == IsDsc(FileName(paths[i]))
  {
    seq(|paths|, i requires 0 <= i < |paths| => IsDsc(FileName(paths[i])))
  }

  /** When all copies are possible so are the first ones. */
  lemma FirstPartsOk(fs: Files, parts: seq<seq<Job>>, q: nat)
    requires q <= |parts| && Separate(Flat(parts, |parts|)) && RunJobs(fs, Flat(parts, |parts|)).ok
    ensures RunJobs(fs, Flat(parts, q)).ok
  {
    FlatPrefix(parts, q, |parts|);
    SeparatePrefix(Flat(parts, q), Flat(parts, |parts|));
    JobsInstall(fs, Flat(parts, q));
    JobsInstall(fs, Flat(parts, |parts|));
    assert forall i :: 0 <= i < |Flat(parts, q)| ==> Flat(parts, q)[i] == Flat(parts, |parts|)[i];
  }

  /** When no copy reads what another writes, staging packages one after the other succeeds
      iff all are manifests and no copy would fail on its own, and then every file named by
      any of them is complete at the target, no temporary is left and nothing else differs. */
  lemma StagingInstalls(steps: Steps, fs: Files, paths: seq<string>, target: string, faults: seq<seq<Faults>>)
    requires |faults| == |paths| && Follows(steps, paths, target, faults)
    requires Separate(StageJobs(fs, paths, target, faults))
    ensures var s, jobs := Stage(steps, fs, |paths|), StageJobs(fs, paths, target, faults);
            && (s.count == |paths| <==>
                (forall i :: 0 <= i < |paths| ==> IsDsc(FileName(paths[i]))) &&
                (forall i :: 0 <= i < |jobs| ==> CopyOk(fs, jobs[i].from, jobs[i].faults)))
            && (s.count == |paths| ==> AllInstalled(fs, jobs, s.files))
  {
    var jobs, parts := StageJobs(fs, paths, target, faults), Parts(fs, paths, target, faults);
    forall i | 0 <= i < |parts| && RunJobs(fs, Flat(parts, i)).ok
      ensures steps(Before(fs, parts, i), i) ==
              if Accepted(paths)[i] then Some(RunJobs(Before(fs, parts, i), parts[i])) else None
    {
      PartGives(steps, fs, paths, target, faults, parts, i);
    }
    var q := StageRuns(steps, fs, parts, Accepted(paths), |paths|);
    JobsInstall(fs, jobs);
    if RunJobs(fs, jobs).ok {
      FirstPartsOk(fs, parts, q);
    }
    assert forall i :: 0 <= i < |paths| ==> Accepted(paths)[i] == IsDsc(FileName(paths[i]));
  }

  /** After staging, each build task finds its manifest complete under the name left in the
      list of packages, exactly as it was given. */
  lemma BuildsFindManifests(steps: Steps, fs: Files, paths: seq<string>, target: string, faults: seq<seq<Faults>>,
                            i: nat)
    requires |faults| == |paths| && i < |paths| && SameName(paths[i])
    requires Follows(steps, paths, target, faults)
    ensures Separate(StageJobs(fs, paths, target, faults)) && Stage(steps, fs, |paths|).count == |paths| ==>
              paths[i] in fs &&
              Entry(Stage(steps, fs, |paths|).files, Under(target, FileName(paths[i]))) == Entry(fs, paths[i])
  {
    if Separate(StageJobs(fs, paths, target, faults)) && Stage(steps, fs, |paths|).count == |paths| {
      BuildFindsManifest(steps, fs, paths, target, faults, i);
    }
  }

  lemma BuildFindsManifest(steps: Steps, fs: Files, paths: seq<string>, target: string, faults: seq<seq<Faults>>,
                           i: nat)
    requires |faults| == |paths| && Follows(steps, paths, target, faults)
    requires Separate(StageJobs(fs, paths, target, faults))
    requires Stage(steps, fs, |paths|).count == |paths| && i < |paths|
    requires SameName(paths[i])
    ensures paths[i] in fs
    ensures Entry(Stage(steps, fs, |paths|).files, Under(target, FileName(paths[i]))) == Entry(fs, paths[i])
  {
    StagingInstalls(steps, fs, paths, target, faults);
    var jobs := StageJobs(fs, paths, target, faults);
    var k := FlatHas(Parts(fs, paths, target, faults), i);
    ManifestJob(fs, paths[i], target, faults[i]);
    assert CopyOk(fs, jobs[k].from, jobs[k].faults);
    InstalledTail(fs, jobs, jobs[k].to, k);
    SameNameIff(paths[i]);
  }

  /** A state of the step `j` is a state of all copies up to that package. */
  lemma VisibleRuns(steps: Steps, fs: Files, parts: seq<seq<Job>>, run: seq<bool>, j: nat, now: Files) returns (k: nat)
    requires |run| == |parts| && j < |parts| && StepsRun(steps, fs, parts, run) && Visible(steps, fs, j, now)
    ensures k < |RunJobs(fs, Flat(parts, j + 1)).states| && RunJobs(fs, Flat(parts, j + 1)).states[k] == now
  {
    var q := StageRuns(steps, fs, parts, run, j);
    assert run[j];
    k := PartVisible(fs, parts, j, now);
  }

  lemma PartVisible(fs: Files, parts: seq<seq<Job>>, j: nat, now: Files) returns (k: nat)
    requires j < |parts| && RunJobs(fs, Flat(parts, j)).ok && now in RunJobs(Before(fs, parts, j), parts[j]).states
    ensures k < |RunJobs(fs, Flat(parts, j + 1)).states| && RunJobs(fs, Flat(parts, j + 1)).states[k] == now
  {
    RunJobsConcat(fs, Flat(parts, j), parts[j]);
    k := InSecond(RunJobs(fs, Flat(parts, j)).states, RunJobs(Before(fs, parts, j), parts[j]).states, now);
  }

  lemma InSecond(a: seq<Files>, b: seq<Files>, now: Files) returns (k: nat)
    requires now in b
    ensures k < |a + b| && (a + b)[k] == now
  {
    var m :| 0 <= m < |b| && b[m] == now;
    k := |a| + m;
  }

  /** Apart from temporaries it shows exactly some first copies. */
  lemma VisibleShape(steps: Steps, fs: Files, parts: seq<seq<Job>>, run: seq<bool>, j: nat, now: Files) returns (p: nat)
    requires |run| == |parts| && j < |parts| && StepsRun(steps, fs, parts, run) && Visible(steps, fs, j, now)
    requires Separate(Flat(parts, |parts|))
    ensures Separate(Flat(parts, j + 1)) && p <= |Flat(parts, j + 1)| && Shaped(now, fs, Flat(parts, j + 1), p)
  {
    var k := VisibleRuns(steps, fs, parts, run, j, now);
    FlatPrefix(parts, j + 1, |parts|);
    SeparatePrefix(Flat(parts, j + 1), Flat(parts, |parts|));
    p := StateShape(fs, Flat(parts, j + 1), k);
  }

  /** When at a state of the step `j` the last copy of a part shows, that part is complete. */
  lemma VisiblePart(steps: Steps, fs: Files, parts: seq<seq<Job>>, run: seq<bool>, j: nat, now: Files, i: nat, m: nat)
    requires |run| == |parts| && j < |parts| && StepsRun(steps, fs, parts, run) && Visible(steps, fs, j, now)
    requires i < |parts| && m < |parts[i]| && Separate(Flat(parts, |parts|)) && OwnManifest(parts, i)
    requires var to := parts[i][|parts[i]| - 1].to; Entry(now, to) != Entry(fs, to)
    ensures Entry(now, parts[i][m].to) == Entry(fs, parts[i][m].from)
  {
    var p := VisibleShape(steps, fs, parts, run, j, now);
    PartSeen(fs, parts, j + 1, i, parts[i], now, p, m);
  }

  /** Manifest last, over the whole staging of any packages, whether it succeeds or not: at
      every visible state, a manifest in the target that differs from what was there before is
      the complete manifest, and with it every file it lists is complete.  No package before
      it may bring a file of the manifest's name. */
  lemma StagedManifestLast(steps: Steps, fs: Files, paths: seq<string>, target: string, faults: seq<seq<Faults>>,
                           now: Files, i: nat, f: nat)
    requires |faults| == |paths| && Follows(steps, paths, target, faults)
    requires Separate(StageJobs(fs, paths, target, faults)) && DuringStaging(steps, fs, |paths|, now)
    requires i < |paths| && OwnManifest(Parts(fs, paths, target, faults), i)
    requires Entry(now, Under(target, Basename(paths[i]))) != Entry(fs, Under(target, Basename(paths[i])))
    ensures Entry(now, Under(target, Basename(paths[i]))) == Entry(fs, paths[i])
    ensures paths[i] in fs && f < |Names(fs[paths[i]])| ==>
              var name := Names(fs[paths[i]])[f];
              Entry(now, Under(target, name)) == Entry(fs, Under(Dirname(paths[i]), name))
  {
    var parts := Parts(fs, paths, target, faults);
    forall i | 0 <= i < |parts| && RunJobs(fs, Flat(parts, i)).ok
      ensures steps(Before(fs, parts, i), i) ==
              if Accepted(paths)[i] then Some(RunJobs(Before(fs, parts, i), parts[i])) else None
    {
      PartGives(steps, fs, paths, target, faults, parts, i);
    }
    ManifestJob(fs, paths[i], target, faults[i]);
    var j :| 0 <= j < |paths| && Visible(steps, fs, j, now);
    VisiblePart(steps, fs, parts, Accepted(paths), j, now, i, |parts[i]| - 1);
    if paths[i] in fs && f < |Names(fs[paths[i]])| {
      VisiblePart(steps, fs, parts, Accepted(paths), j, now, i, f);
      assert parts[i][f].to == Under(target, Names(fs[paths[i]])[f]);
    }
  }

  /** No copy before the last one of the part `i` has its target. */
  ghost predicate OwnManifest(parts: seq<seq<Job>>, i: nat)
    requires i < |parts| && parts[i] != []
  {
    OwnLast(Flat(parts, i) + parts[i])
  }

  predicate OwnLast(jobs: seq<Job>)
    requires jobs != []
  {
    forall l :: 0 <= l < |jobs| - 1 ==> jobs[l].to != jobs[|jobs| - 1].to
  }

  /** When the last copy of a part shows, all copies of that part are complete. */
  lemma PartSeen(fs: Files, parts: seq<seq<Job>>, q: nat, i: nat, part: seq<Job>, now: Files, p: nat, m: nat)
    requires q <= |parts| && i < |parts| && parts[i] == part && m < |part|
    requires Separate(Flat(parts, |parts|)) && OwnManifest(parts, i)
    requires Separate(Flat(parts, q)) && p <= |Flat(parts, q)| && Shaped(now, fs, Flat(parts, q), p)
    requires Entry(now, part[|part| - 1].to) != Entry(fs, part[|part| - 1].to)
    ensures Entry(now, part[m].to) == Entry(fs, part[m].from)
  {
    if i < q {
      FlatPrefix(parts, i + 1, q);
      SeenWithin(fs, Flat(parts, q), Flat(parts, i), part, now, p, m);
    } else {
      NotYetSeen(fs, parts, q, i, now, p);
    }
  }

  lemma SeenWithin(fs: Files, jobs: seq<Job>, before: seq<Job>, part: seq<Job>, now: Files, p: nat, m: nat)
    requires Separate(jobs) && p <= |jobs| && Shaped(now, fs, jobs, p) && m < |part|
    requires before + part <= jobs && OwnLast(before + part)
    requires Entry(now, part[|part| - 1].to) != Entry(fs, part[|part| - 1].to)
    ensures Entry(now, part[m].to) == Entry(fs, part[m].from)
  {
    var some, last := before + part, |before| + |part| - 1;
    assert forall l :: 0 <= l <= last ==> jobs[l] == some[l];
    assert some[last] == part[|part| - 1] && some[|before| + m] == part[m];
    ShapedInOrder(fs, jobs, now, p, last, |before| + m);
  }

  /** Copies that do not reach a part leave its last target alone. */
  lemma NotYetSeen(fs: Files, parts: seq<seq<Job>>, q: nat, i: nat, now: Files, p: nat)
    requires q <= i < |parts| && parts[i] != [] && Separate(Flat(parts, |parts|)) && OwnManifest(parts, i)
    requires Separate(Flat(parts, q)) && p <= |Flat(parts, q)| && Shaped(now, fs, Flat(parts, q), p)
    ensures var to := parts[i][|parts[i]| - 1].to; Entry(now, to) == Entry(fs, to)
  {
    var jobs, to := Flat(parts, i) + parts[i], parts[i][|parts[i]| - 1].to;
    assert jobs == Flat(parts, i + 1) && jobs[|jobs| - 1].to == to;
    FlatPrefix(parts, q, i);
    FlatPrefix(parts, i + 1, |parts|);
    SeparatePrefix(jobs, Flat(parts, |parts|));
    forall l | 0 <= l < |Flat(parts, q)| ensures Flat(parts, q)[l].to != to && to != Tmp(Flat(parts, q)[l].to) {
      assert Flat(parts, q)[l] == jobs[l];
      assert SeparatePair(jobs[|jobs| - 1], jobs[l]);
    }
    NotConcerned(fs, Flat(parts, q)[..p], to);
  }
}
