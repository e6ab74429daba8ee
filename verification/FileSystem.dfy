/** `copy_file` of src/fsys.cpp, over a file system whose every state is visible. */
module FileSystem {
  import opened Wrappers
  import opened Paths

  datatype File = File(content: string, mode: nat)
  type Files = map<string, File>

  /** Which of the calls made by one `copy_file` fail; `umask` is the mode a new file gets. */
  datatype Faults = Faults(source: bool, target: bool, chmod: bool, rename: bool, cleanup: bool, umask: nat)

  const NO_FAULTS := Faults(false, false, false, false, false, 0)

  function Entry(fs: Files, path: string): Maybe<File> {
    if path in fs then Some(fs[path]) else None
  }

  /** The mode of the temporary once `ofstream` has opened it. */
  function OpenedMode(fs: Files, path: string, umask: nat): nat {
    if path in fs then fs[path].mode else umask
  }

  /** What the open temporary holds after the first `k` characters were written.  Opening
      truncates, so a source that is the temporary itself is read as empty. */
  function Written(fs: Files, from: string, to: string, k: nat, f: Faults): Files
    requires from in fs && k <= |Source(fs, from, to, f).content|
  {
    fs[Tmp(to) := File(Source(fs, from, to, f).content[..k], OpenedMode(fs, Tmp(to), f.umask))]
  }

  /** The source as read after the temporary was opened. */
  function Source(fs: Files, from: string, to: string, f: Faults): File
    requires from in fs
  {
    fs[Tmp(to) := File("", OpenedMode(fs, Tmp(to), f.umask))][from]
  }

  function Chmoded(fs: Files, from: string, to: string, f: Faults): Files
    requires from in fs
  {
    fs[Tmp(to) := Source(fs, from, to, f)]
  }

  function Renamed(fs: Files, from: string, to: string): Files
    requires from in fs
  {
    fs[to := fs[from]] - {from}
  }

  function Writes(fs: Files, from: string, to: string, f: Faults): seq<Files>
    requires from in fs
  {
    seq(|Source(fs, from, to, f).content| + 1,
        k requires 0 <= k <= |Source(fs, from, to, f).content| => Written(fs, from, to, k, f))
  }

  function Cleanup(fs: Files, to: string, f: Faults): seq<Files> {
    if f.cleanup then [] else [fs - {Tmp(to)}]
  }

  function CopyOk(fs: Files, from: string, f: Faults): bool {
    from in fs && !f.source && !f.target && !f.chmod && !f.rename
  }

  /** The states `copy_file` leads through, one per call that changes something; the
      temporary grows character by character. */
  function CopyStates(fs: Files, from: string, to: string, f: Faults): seq<Files> {
    if from !in fs || f.source || f.target then []
    else
      var writes := Writes(fs, from, to, f);
      if f.chmod then writes + Cleanup(writes[|writes| - 1], to, f)
      else
        var chmoded := Chmoded(fs, from, to, f);
        if f.rename then writes + [chmoded] + Cleanup(chmoded, to, f)
        else writes + [chmoded, Renamed(chmoded, Tmp(to), to)]
  }

  function LastState(fs: Files, states: seq<Files>): Files {
    if states == [] then fs else states[|states| - 1]
  }

  function CopyFile(fs: Files, from: string, to: string, f: Faults): Files {
    LastState(fs, CopyStates(fs, from, to, f))
  }

  /** The file system with `file` at `to` and no temporary beside it. */
  function Installed(fs: Files, to: string, file: File): Files {
    fs[to := file] - {Tmp(to)}
  }

  /** Before the rename a copy has touched nothing but the temporary. */
  lemma OnlyTemporary(fs: Files, from: string, to: string, f: Faults, i: nat)
    requires i < |CopyStates(fs, from, to, f)|
    requires CopyOk(fs, from, f) ==> i < |CopyStates(fs, from, to, f)| - 1
    ensures forall p :: p != Tmp(to) ==> Entry(CopyStates(fs, from, to, f)[i], p) == Entry(fs, p)
  {
    var writes := Writes(fs, from, to, f);
    if i < |writes| {
      assert CopyStates(fs, from, to, f)[i] == writes[i] == Written(fs, from, to, i, f);
    }
  }

  /** Atomic replacement: unless the source is the temporary itself, the destination is at
      every visible step its old entry or the complete source, and it is the source only in
      the last step of a copy that succeeds; nothing else changes but the temporary. */
  lemma AtomicReplacement(fs: Files, from: string, to: string, f: Faults)
    requires from != Tmp(to)
    ensures forall i, p :: 0 <= i < |CopyStates(fs, from, to, f)| - 1 && p != Tmp(to) ==>
              Entry(CopyStates(fs, from, to, f)[i], p) == Entry(fs, p)
    ensures CopyOk(fs, from, f) ==>
              |CopyStates(fs, from, to, f)| > 0 && CopyFile(fs, from, to, f) == Installed(fs, to, fs[from])
    ensures !CopyOk(fs, from, f) ==>
              && (forall p :: p != Tmp(to) ==> Entry(CopyFile(fs, from, to, f), p) == Entry(fs, p))
              && (f.cleanup || CopyFile(fs, from, to, f) == fs || CopyFile(fs, from, to, f) == fs - {Tmp(to)})
  {
    var states := CopyStates(fs, from, to, f);
    forall i, p | 0 <= i < |states| && p != Tmp(to) && (CopyOk(fs, from, f) ==> i < |states| - 1)
      ensures Entry(states[i], p) == Entry(fs, p)
    {
      OnlyTemporary(fs, from, to, f, i);
    }
    if from in fs {
      assert Source(fs, from, to, f) == fs[from];
      if !f.source && !f.target {
        var writes := Writes(fs, from, to, f);
        assert writes[|writes| - 1] == Written(fs, from, to, |writes| - 1, f);
      }
    }
  }

  /** Until then the temporary grows character by character, with the mode it had or that of a
      new file; it is complete before it gets the source's mode, and only then renamed. */
  lemma TemporaryGrows(fs: Files, from: string, to: string, f: Faults)
    requires from in fs && from != Tmp(to) && !f.source && !f.target
    ensures var states, n := CopyStates(fs, from, to, f), |fs[from].content|;
            && |states| > n
            && (forall i :: 0 <= i <= n ==>
                  Entry(states[i], Tmp(to)) ==
                    Some(File(fs[from].content[..i], if Tmp(to) in fs then fs[Tmp(to)].mode else f.umask)))
            && (!f.chmod ==> |states| > n + 1 && Entry(states[n + 1], Tmp(to)) == Some(fs[from]))
  {
    var writes, n := Writes(fs, from, to, f), |fs[from].content|;
    assert Source(fs, from, to, f) == fs[from];
    forall i | 0 <= i <= n ensures CopyStates(fs, from, to, f)[i] == Written(fs, from, to, i, f) {
      assert CopyStates(fs, from, to, f)[i] == writes[i];
    }
  }

  /** A copy that reports success has installed the source iff the source was not the
      temporary, or was empty anyway. */
  lemma CompleteIff(fs: Files, from: string, to: string, f: Faults)
    requires CopyOk(fs, from, f)
    ensures Entry(CopyFile(fs, from, to, f), to) == Entry(fs, from) <==>
              from != Tmp(to) || fs[from].content == ""
  {
    assert CopyFile(fs, from, to, f)[to] == Source(fs, from, to, f);
  }

  /////////////////////////////// several copies ///////////////////////////////

  datatype Job = Job(from: string, to: string, faults: Faults)
  datatype Outcome = Outcome(ok: bool, states: seq<Files>)

  /** Copies one after the other up to the first failure. */
  function RunJobs(fs: Files, jobs: seq<Job>): Outcome
    decreases |jobs|
  {
    if jobs == [] then Outcome(true, [])
    else
      var j := jobs[0];
      var states := CopyStates(fs, j.from, j.to, j.faults);
      if !CopyOk(fs, j.from, j.faults) then Outcome(false, states)
      else
        var rest := RunJobs(CopyFile(fs, j.from, j.to, j.faults), jobs[1..]);
        Outcome(rest.ok, states + rest.states)
  }

  /** No copy writes what another reads, nor a temporary what another installs, and the
      same place is always written from the same source. */
  ghost predicate Separate(jobs: seq<Job>) {
    forall i, j {:trigger SeparatePair(jobs[i], jobs[j])} :: 0 <= i < |jobs| && 0 <= j < |jobs| ==>
      SeparatePair(jobs[i], jobs[j])
  }

  predicate SeparatePair(a: Job, b: Job) {
    && a.from != b.to && a.from != Tmp(b.to)
    && a.to != Tmp(b.to)
    && (a.to == b.to ==> a.from == b.from)
  }

  /** What each path holds once all copies are done. */
  ghost predicate AllInstalled(before: Files, jobs: seq<Job>, after: Files) {
    forall p :: Entry(after, p) == InstalledEntry(before, jobs, p)
  }

  function InstalledEntry(fs: Files, jobs: seq<Job>, p: string): Maybe<File> {
    if jobs == [] then Entry(fs, p)
    else if p == jobs[0].to then Entry(fs, jobs[0].from)
    else if p == Tmp(jobs[0].to) then None
    else InstalledEntry(fs, jobs[1..], p)
  }

  lemma {:induction false} InstalledTail(fs: Files, jobs: seq<Job>, p: string, i: nat)
    requires Separate(jobs) && i < |jobs| && (p == jobs[i].to || p == Tmp(jobs[i].to))
    ensures InstalledEntry(fs, jobs, p) == if p == jobs[i].to then Entry(fs, jobs[i].from) else None
    decreases |jobs|
  {
    assert SeparatePair(jobs[0], jobs[i]) && SeparatePair(jobs[i], jobs[0]);
    if p == Tmp(jobs[i].to) && p == Tmp(jobs[0].to) {
      TmpInjective(jobs[i].to, jobs[0].to);
    }
    if p != jobs[0].to && p != Tmp(jobs[0].to) {
      SeparateTail(jobs);
      InstalledTail(fs, jobs[1..], p, i - 1);
    }
  }

  lemma SeparateTail(jobs: seq<Job>)
    requires Separate(jobs) && jobs != []
    ensures Separate(jobs[1..])
  {
    forall i, j | 0 <= i < |jobs[1..]| && 0 <= j < |jobs[1..]| ensures SeparatePair(jobs[1..][i], jobs[1..][j]) {
      assert SeparatePair(jobs[i + 1], jobs[j + 1]);
    }
  }

  predicate Concerns(jobs: seq<Job>, p: string) {
    exists i :: 0 <= i < |jobs| && (p == jobs[i].to || p == Tmp(jobs[i].to))
  }

  /** Separate copies all succeed together iff none fails, and then all targets are complete
      and no temporary is left. */
  lemma {:induction false} JobsInstall(fs: Files, jobs: seq<Job>)
    requires Separate(jobs)
    ensures RunJobs(fs, jobs).ok <==> forall i :: 0 <= i < |jobs| ==> CopyOk(fs, jobs[i].from, jobs[i].faults)
    ensures RunJobs(fs, jobs).ok ==> AllInstalled(fs, jobs, LastState(fs, RunJobs(fs, jobs).states))
    decreases |jobs|
  {
    if jobs != [] {
      var j, rest := jobs[0], jobs[1..];
      assert SeparatePair(j, j);
      AtomicReplacement(fs, j.from, j.to, j.faults);
      assert forall i :: 0 < i < |jobs| ==> jobs[i] == rest[i - 1];
      if CopyOk(fs, j.from, j.faults) {
        var next := CopyFile(fs, j.from, j.to, j.faults);
        SeparateTail(jobs);
        JobsInstall(next, rest);
        forall i | 0 <= i < |rest| ensures Entry(next, rest[i].from) == Entry(fs, rest[i].from) {
          assert SeparatePair(jobs[i + 1], j);
        }
        assert forall i :: 0 <= i < |rest| ==>
            CopyOk(next, rest[i].from, rest[i].faults) == CopyOk(fs, rest[i].from, rest[i].faults) by {
          assert forall i :: 0 <= i < |rest| ==> Entry(next, rest[i].from) == Entry(fs, rest[i].from);
        }
        if RunJobs(fs, jobs).ok {
          LastOfConcat(fs, CopyStates(fs, j.from, j.to, j.faults), RunJobs(next, rest).states);
          forall p ensures InstalledEntry(next, rest, p) == InstalledEntry(fs, jobs, p) {
            InstalledAfterFirst(fs, next, jobs, p);
          }
        }
      }
    }
  }

  lemma LastOfConcat(fs: Files, a: seq<Files>, b: seq<Files>)
    ensures LastState(fs, a + b) == LastState(LastState(fs, a), b)
  {
  }

  lemma InstalledAfterFirst(fs: Files, next: Files, jobs: seq<Job>, p: string)
    requires Separate(jobs) && jobs != [] && jobs[0].from in fs
    requires next == Installed(fs, jobs[0].to, fs[jobs[0].from])
    requires forall i :: 0 <= i < |jobs[1..]| ==> Entry(next, jobs[1..][i].from) == Entry(fs, jobs[1..][i].from)
    ensures InstalledEntry(next, jobs[1..], p) == InstalledEntry(fs, jobs, p)
  {
    var rest := jobs[1..];
    if Concerns(rest, p) {
      var i :| 0 <= i < |rest| && (p == rest[i].to || p == Tmp(rest[i].to));
      SeparateTail(jobs);
      InstalledTail(next, rest, p, i);
      InstalledTail(fs, jobs, p, i + 1);
    } else {
      NotConcerned(next, rest, p);
      NotConcerned(fs, rest, p);
    }
  }

  lemma {:induction false} NotConcerned(fs: Files, jobs: seq<Job>, p: string)
    requires !Concerns(jobs, p)
    ensures InstalledEntry(fs, jobs, p) == Entry(fs, p)
    decreases |jobs|
  {
    if jobs != [] {
      assert p != jobs[0].to && p != Tmp(jobs[0].to);
      forall i | 0 <= i < |jobs[1..]| ensures p != jobs[1..][i].to && p != Tmp(jobs[1..][i].to) {
        assert jobs[1..][i] == jobs[i + 1];
      }
      NotConcerned(fs, jobs[1..], p);
    }
  }

  lemma StateAt(fs: Files, jobs: seq<Job>, i: nat)
    requires jobs != [] && i < |RunJobs(fs, jobs).states|
    ensures var j := jobs[0];
            var states := CopyStates(fs, j.from, j.to, j.faults);
            var rest := RunJobs(CopyFile(fs, j.from, j.to, j.faults), jobs[1..]);
            && (i < |states| ==> RunJobs(fs, jobs).states[i] == states[i])
            && (i >= |states| ==>
              CopyOk(fs, j.from, j.faults) && i - |states| < |rest.states| &&
              RunJobs(fs, jobs).states[i] == rest.states[i - |states|])
            && (RunJobs(fs, jobs).ok <==> CopyOk(fs, j.from, j.faults) && rest.ok)
            && (CopyOk(fs, j.from, j.faults) ==> |RunJobs(fs, jobs).states| == |states| + |rest.states|)
  {
  }

  /** Apart from temporaries, exactly the first `p` copies are installed. */
  ghost predicate Shaped(now: Files, fs: Files, jobs: seq<Job>, p: nat)
    requires p <= |jobs|
  {
    forall path :: NoTemporary(jobs, path) ==> Entry(now, path) == InstalledEntry(fs, jobs[..p], path)
  }

  predicate NoTemporary(jobs: seq<Job>, path: string) {
    forall k :: 0 <= k < |jobs| ==> path != Tmp(jobs[k].to)
  }

  lemma ShapedFirst(fs: Files, jobs: seq<Job>, i: nat) returns (p: nat)
    requires Separate(jobs) && jobs != []
    requires var j := jobs[0]; i < |CopyStates(fs, j.from, j.to, j.faults)|
    ensures var j := jobs[0];
            var states := CopyStates(fs, j.from, j.to, j.faults);
            p <= 1 && Shaped(states[i], fs, jobs, p) && (p == 1 ==> CopyOk(fs, j.from, j.faults) && i == |states| - 1)
  {
    var j := jobs[0];
    assert SeparatePair(j, j);
    if i < |CopyStates(fs, j.from, j.to, j.faults)| - 1 || !CopyOk(fs, j.from, j.faults) {
      OnlyTemporary(fs, j.from, j.to, j.faults, i);
      p := 0;
      assert jobs[..0] == [];
    } else {
      AtomicReplacement(fs, j.from, j.to, j.faults);
      p := 1;
      assert jobs[..1] == [j] && [j][1..] == [];
    }
  }

  lemma ShapedRest(fs: Files, jobs: seq<Job>, now: Files, p: nat)
    requires Separate(jobs) && jobs != [] && CopyOk(fs, jobs[0].from, jobs[0].faults) && p <= |jobs[1..]|
    requires Shaped(now, CopyFile(fs, jobs[0].from, jobs[0].to, jobs[0].faults), jobs[1..], p)
    ensures Shaped(now, fs, jobs, p + 1)
  {
    var j, some := jobs[0], jobs[..p + 1];
    var next := CopyFile(fs, j.from, j.to, j.faults);
    assert SeparatePair(j, j);
    AtomicReplacement(fs, j.from, j.to, j.faults);
    assert some[1..] == jobs[1..][..p];
    SomeSeparate(jobs, p + 1);
    forall path | NoTemporary(jobs, path) ensures Entry(now, path) == InstalledEntry(fs, some, path) {
      assert NoTemporary(jobs[1..], path) by {
        assert forall k :: 0 <= k < |jobs[1..]| ==> jobs[1..][k] == jobs[k + 1];
      }
      forall a | 0 <= a < |some[1..]| ensures Entry(next, some[1..][a].from) == Entry(fs, some[1..][a].from) {
        assert some[1..][a] == jobs[a + 1] && SeparatePair(jobs[a + 1], j);
      }
      InstalledAfterFirst(fs, next, some, path);
    }
  }

  lemma SomeSeparate(jobs: seq<Job>, p: nat)
    requires Separate(jobs) && p <= |jobs|
    ensures Separate(jobs[..p])
  {
    forall i, j | 0 <= i < p && 0 <= j < p ensures SeparatePair(jobs[..p][i], jobs[..p][j]) {
      assert SeparatePair(jobs[i], jobs[j]);
    }
  }

  lemma OneJob(fs: Files, jobs: seq<Job>)
    requires |jobs| == 1
    ensures var j := jobs[0];
            RunJobs(fs, jobs) == Outcome(CopyOk(fs, j.from, j.faults), CopyStates(fs, j.from, j.to, j.faults))
  {
    assert jobs[1..] == [];
    var states := CopyStates(fs, jobs[0].from, jobs[0].to, jobs[0].faults);
    assert states + [] == states;
  }

  /** At every visible state of separate copies exactly some first copies are installed; all
      of them only in the very last state, when all succeeded. */
  lemma {:induction false} StateShape(fs: Files, jobs: seq<Job>, i: nat) returns (p: nat)
    requires Separate(jobs) && i < |RunJobs(fs, jobs).states|
    ensures p <= |jobs| && Shaped(RunJobs(fs, jobs).states[i], fs, jobs, p)
    ensures p == |jobs| ==> RunJobs(fs, jobs).ok && i == |RunJobs(fs, jobs).states| - 1
    decreases |jobs|
  {
    var j := jobs[0];
    var before := |CopyStates(fs, j.from, j.to, j.faults)|;
    StateAt(fs, jobs, i);
    if i < before {
      p := ShapeInFirst(fs, jobs, i);
    } else {
      SeparateTail(jobs);
      var q := StateShape(CopyFile(fs, j.from, j.to, j.faults), jobs[1..], i - before);
      ShapedRest(fs, jobs, RunJobs(fs, jobs).states[i], q);
      p := q + 1;
    }
  }

  lemma ShapeInFirst(fs: Files, jobs: seq<Job>, i: nat) returns (p: nat)
    requires Separate(jobs) && jobs != [] && i < |RunJobs(fs, jobs).states|
    requires i < |CopyStates(fs, jobs[0].from, jobs[0].to, jobs[0].faults)|
    ensures p <= |jobs| && Shaped(RunJobs(fs, jobs).states[i], fs, jobs, p)
    ensures p == |jobs| ==> RunJobs(fs, jobs).ok && i == |RunJobs(fs, jobs).states| - 1
  {
    StateAt(fs, jobs, i);
    p := ShapedFirst(fs, jobs, i);
    if p == |jobs| {
      OneJob(fs, jobs);
    }
  }

  lemma TargetNoTemporary(jobs: seq<Job>, k: nat)
    requires Separate(jobs) && k < |jobs|
    ensures NoTemporary(jobs, jobs[k].to)
  {
    forall l | 0 <= l < |jobs| ensures jobs[k].to != Tmp(jobs[l].to) {
      assert SeparatePair(jobs[k], jobs[l]);
    }
  }

  /** What the last copy installs shows only in the very last state, and only if all
      copies succeeded. */
  lemma LastJobLast(fs: Files, jobs: seq<Job>, i: nat)
    requires Separate(jobs) && jobs != []
    requires forall k :: 0 <= k < |jobs| - 1 ==> jobs[k].to != jobs[|jobs| - 1].to
    requires i < |RunJobs(fs, jobs).states|
    requires RunJobs(fs, jobs).ok ==> i < |RunJobs(fs, jobs).states| - 1
    ensures Entry(RunJobs(fs, jobs).states[i], jobs[|jobs| - 1].to) == Entry(fs, jobs[|jobs| - 1].to)
  {
    var p := StateShape(fs, jobs, i);
    TargetNoTemporary(jobs, |jobs| - 1);
    NotConcerned(fs, jobs[..p], jobs[|jobs| - 1].to);
  }

  /** A path holds what it held at the start or the complete source of a copy to it. */
  ghost predicate OldOrSource(now: Files, fs: Files, jobs: seq<Job>, p: string) {
    Entry(now, p) == Entry(fs, p) ||
    exists k :: 0 <= k < |jobs| && p == jobs[k].to && Entry(now, p) == Entry(fs, jobs[k].from)
  }

  /** At every visible step of separate copies, any path that is not a temporary of theirs
      holds what it held before or the complete source installed there. */
  lemma EachAtomic(fs: Files, jobs: seq<Job>, i: nat, path: string)
    requires Separate(jobs) && i < |RunJobs(fs, jobs).states| && NoTemporary(jobs, path)
    ensures OldOrSource(RunJobs(fs, jobs).states[i], fs, jobs, path)
  {
    var p := StateShape(fs, jobs, i);
    if Concerns(jobs[..p], path) {
      var k :| 0 <= k < p && (path == jobs[..p][k].to || path == Tmp(jobs[..p][k].to));
      assert jobs[..p][k] == jobs[k];
      SomeSeparate(jobs, p);
      InstalledTail(fs, jobs[..p], path, k);
    } else {
      NotConcerned(fs, jobs[..p], path);
    }
  }

  /** Separate copies are seen in order: when one shows, at a target no earlier copy writes,
      it and all copies before it are complete. */
  lemma ShapedInOrder(fs: Files, jobs: seq<Job>, now: Files, p: nat, k: nat, m: nat)
    requires Separate(jobs) && p <= |jobs| && Shaped(now, fs, jobs, p) && m <= k < |jobs|
    requires forall l :: 0 <= l < k ==> jobs[l].to != jobs[k].to
    requires Entry(now, jobs[k].to) != Entry(fs, jobs[k].to)
    ensures Entry(now, jobs[m].to) == Entry(fs, jobs[m].from)
  {
    TargetNoTemporary(jobs, k);
    TargetNoTemporary(jobs, m);
    if p <= k {
      NotConcerned(fs, jobs[..p], jobs[k].to);
    } else {
      SomeSeparate(jobs, p);
      assert jobs[..p][m] == jobs[m];
      InstalledTail(fs, jobs[..p], jobs[m].to, m);
    }
  }

  lemma SeenInOrder(fs: Files, jobs: seq<Job>, i: nat, k: nat, m: nat)
    requires Separate(jobs) && i < |RunJobs(fs, jobs).states| && m <= k < |jobs|
    requires forall l :: 0 <= l < k ==> jobs[l].to != jobs[k].to
    requires Entry(RunJobs(fs, jobs).states[i], jobs[k].to) != Entry(fs, jobs[k].to)
    ensures Entry(RunJobs(fs, jobs).states[i], jobs[m].to) == Entry(fs, jobs[m].from)
  {
    var p := StateShape(fs, jobs, i);
    ShapedInOrder(fs, jobs, RunJobs(fs, jobs).states[i], p, k, m);
  }
}
