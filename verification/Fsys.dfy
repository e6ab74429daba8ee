/** The loops of `copy_file`, `copy_dsc` and `remove_dsc` in src/fsys.cpp. */
module Fsys {
  import opened Strings
  import opened Paths
  import opened FileSystem
  import opened Dsc

  /** The disk, with a record of every state it went through. */
  class Disk {
    var files: Files
    ghost var seen: seq<Files>

    constructor (files: Files)
      ensures this.files == files && seen == []
    {
      this.files, seen := files, [];
    }

    method Write(path: string, file: File)
      modifies this
      ensures files == old(files)[path := file] && seen == old(seen) + [files]
    {
      files := files[path := file];
      seen := seen + [files];
    }

    method Remove(path: string, denied: set<string>) returns (ok: bool)
      modifies this
      ensures ok == (path in old(files) && path !in denied)
      ensures files == if ok then old(files) - {path} else old(files)
      ensures seen == if ok then old(seen) + [files] else old(seen)
    {
      ok := path in files && path !in denied;
      if ok {
        files := files - {path};
        seen := seen + [files];
      }
    }

    method Rename(from: string, to: string)
      requires from in files
      modifies this
      ensures files == Renamed(old(files), from, to) && seen == old(seen) + [files]
    {
      files := files[to := files[from]] - {from};
      seen := seen + [files];
    }

    /** `target << source.rdbuf()`: the source is read through the open stream. */
    method WriteThrough(from: string, to: string, ghost before: Files, f: Faults)
      requires from in before && files == Written(before, from, to, 0, f)
      modifies this
      ensures var size := |Source(before, from, to, f).content|;
              files == Written(before, from, to, size, f) &&
              seen == old(seen) + Writes(before, from, to, f)[1..]
    {
      var text, mode := files[from].content, files[Tmp(to)].mode;
      var k := 0;
      while k < |text|
        invariant 0 <= k <= |text|
        invariant files == Written(before, from, to, k, f)
        invariant seen == old(seen) + Writes(before, from, to, f)[1..k + 1]
      {
        k := k + 1;
        Write(Tmp(to), File(text[..k], mode));
        assert Writes(before, from, to, f)[1..k + 1] ==
               Writes(before, from, to, f)[1..k] + [Written(before, from, to, k, f)];
      }
    }

    /** `copy_file` */
    method CopyFile(from: string, to: string, f: Faults) returns (ok: bool)
      modifies this
      ensures ok == CopyOk(old(files), from, f)
      ensures seen == old(seen) + CopyStates(old(files), from, to, f)
      ensures files == LastState(old(files), CopyStates(old(files), from, to, f))
    {
      if from !in files || f.source {
        return false;
      }
      if f.target {
        return false;
      }
      ghost var before := files;
      Write(Tmp(to), File("", if Tmp(to) in files then files[Tmp(to)].mode else f.umask));
      var mode := files[from].mode;
      assert files == Written(before, from, to, 0, f);
      WriteThrough(from, to, before, f);
      ghost var writes := Writes(before, from, to, f);
      assert [writes[0]] + writes[1..] == writes;
      assert seen == old(seen) + writes;
      assert files == writes[|writes| - 1];
      if f.chmod {
        if !f.cleanup {
          var _ := Remove(Tmp(to), {});
        }
        return false;
      }
      Write(Tmp(to), File(files[Tmp(to)].content, mode));
      assert Source(before, from, to, f).content[..|writes| - 1] == Source(before, from, to, f).content;
      assert files == Chmoded(before, from, to, f);
      if f.rename {
        if !f.cleanup {
          var _ := Remove(Tmp(to), {});
        }
        return false;
      }
      Rename(Tmp(to), to);
      return true;
    }

    /** `copy_dsc`: the manifest is read line by line while the files it names are copied. */
    method CopyDsc(source: string, target: string, faults: seq<Faults>) returns (ok: bool)
      modifies this
      ensures var outcome := CopyDscOutcome(old(files), source, target, faults);
              && ok == outcome.ok
              && seen == old(seen) + outcome.states
              && files == LastState(old(files), outcome.states)
    {
      if source !in files {
        return false;
      }
      var prefix, base := Dirname(source), Basename(source);
      var lines := Lines(files[source].content);
      ghost var names := Names(files[source]);
      ghost var jobs := DscJobs(source, target, names, faults);
      ghost var done := 0;
      var flag, calls := false, 0;
      var i := 0;
      while i < |lines|
        invariant 0 <= i <= |lines| && done == calls <= |names|
        invariant names[done..] == Scan(lines[i..], flag)
        invariant Continues(old(files), jobs, done, files, old(seen), seen)
      {
        var buffer := lines[i];
        i := i + 1;
        if IsFilesHeader(buffer) {
          flag := true;
          continue;
        }
        if !IsContinuation(buffer) || !flag {
          flag := false;
          continue;
        }
        var file := LastField(buffer);
        assert file == names[done] && names[done + 1..] == names[done..][1..];
        StepJobs(old(files), jobs, done, files, old(seen), seen);
        var copied := CopyFile(Under(prefix, file), Under(target, file), FaultAt(faults, calls));
        if !copied {
          return false;
        }
        calls, done := calls + 1, done + 1;
      }
      assert names[done..] == [];
      StepJobs(old(files), jobs, done, files, old(seen), seen);
      ok := CopyFile(source, Under(target, base), FaultAt(faults, calls));
      assert jobs[done + 1..] == [];
    }

    /** `remove_dsc` */
    method RemoveDsc(source: string, denied: set<string>) returns (ok: bool)
      modifies this
      ensures var outcome := RemoveDscOutcome(old(files), source, denied);
              && ok == outcome.ok
              && seen == old(seen) + outcome.states
              && files == LastState(old(files), outcome.states)
    {
      if source !in files {
        return false;
      }
      var prefix := Dirname(source);
      var lines := Lines(files[source].content);
      ghost var names := Names(files[source]);
      ghost var paths := UnderAll(prefix, names) + [source];
      ghost var done := 0;
      var flag := false;
      var i := 0;
      while i < |lines|
        invariant 0 <= i <= |lines| && done <= |names|
        invariant names[done..] == Scan(lines[i..], flag)
        invariant Removes(old(files), paths, denied, done, files, old(seen), seen)
      {
        var buffer := lines[i];
        i := i + 1;
        if IsFilesHeader(buffer) {
          flag := true;
          continue;
        }
        if !IsContinuation(buffer) || !flag {
          flag := false;
          continue;
        }
        var file := LastField(buffer);
        assert file == names[done] && names[done + 1..] == names[done..][1..];
        StepRemoves(old(files), paths, denied, done, files, old(seen), seen);
        var removed := Remove(Under(prefix, file), denied);
        if !removed {
          return false;
        }
        done := done + 1;
      }
      assert names[done..] == [];
      StepRemoves(old(files), paths, denied, done, files, old(seen), seen);
      ok := Remove(source, denied);
      assert paths[done + 1..] == [];
    }
  }

  /** After `done` copies: what remains to run ends where the whole run ends. */
  ghost predicate Continues(start: Files, jobs: seq<Job>, done: nat, now: Files, seen0: seq<Files>, seen: seq<Files>) {
    && done <= |jobs|
    && RunJobs(start, jobs).ok == RunJobs(now, jobs[done..]).ok
    && seen0 + RunJobs(start, jobs).states == seen + RunJobs(now, jobs[done..]).states
    && LastState(start, RunJobs(start, jobs).states) == LastState(now, RunJobs(now, jobs[done..]).states)
  }

  lemma StepJobs(start: Files, jobs: seq<Job>, done: nat, now: Files, seen0: seq<Files>, seen: seq<Files>)
    requires Continues(start, jobs, done, now, seen0, seen) && done < |jobs|
    ensures var j := jobs[done];
            var states := CopyStates(now, j.from, j.to, j.faults);
            var next := LastState(now, states);
            if CopyOk(now, j.from, j.faults) then Continues(start, jobs, done + 1, next, seen0, seen + states)
            else !RunJobs(start, jobs).ok && seen0 + RunJobs(start, jobs).states == seen + states &&
                 LastState(start, RunJobs(start, jobs).states) == next
  {
    var j := jobs[done];
    var states := CopyStates(now, j.from, j.to, j.faults);
    FirstJob(now, jobs, done);
    if CopyOk(now, j.from, j.faults) {
      var rest := RunJobs(LastState(now, states), jobs[done + 1..]).states;
      LastOfConcat(now, states, rest);
      assert seen + (states + rest) == (seen + states) + rest;
    }
  }

  lemma FirstJob(now: Files, jobs: seq<Job>, done: nat)
    requires done < |jobs|
    ensures var j, o := jobs[done], RunJobs(now, jobs[done..]);
            var states := CopyStates(now, j.from, j.to, j.faults);
            if CopyOk(now, j.from, j.faults) then
              var rest := RunJobs(LastState(now, states), jobs[done + 1..]);
              o.ok == rest.ok && o.states == states + rest.states
            else !o.ok && o.states == states
  {
    assert jobs[done..][1..] == jobs[done + 1..];
  }

  ghost predicate Removes(start: Files, paths: seq<string>, denied: set<string>, done: nat,
                          now: Files, seen0: seq<Files>, seen: seq<Files>) {
    && done <= |paths|
    && RemoveAll(start, paths, denied).ok == RemoveAll(now, paths[done..], denied).ok
    && seen0 + RemoveAll(start, paths, denied).states == seen + RemoveAll(now, paths[done..], denied).states
    && LastState(start, RemoveAll(start, paths, denied).states) ==
       LastState(now, RemoveAll(now, paths[done..], denied).states)
  }

  lemma StepRemoves(start: Files, paths: seq<string>, denied: set<string>, done: nat,
                    now: Files, seen0: seq<Files>, seen: seq<Files>)
    requires Removes(start, paths, denied, done, now, seen0, seen) && done < |paths|
    ensures var p := paths[done];
            if p in now && p !in denied then
              Removes(start, paths, denied, done + 1, now - {p}, seen0, seen + [now - {p}])
            else !RemoveAll(start, paths, denied).ok && seen0 + RemoveAll(start, paths, denied).states == seen &&
                 LastState(start, RemoveAll(start, paths, denied).states) == now
  {
    var p := paths[done];
    assert paths[done..][1..] == paths[done + 1..];
    if p in now && p !in denied {
      var rest := RemoveAll(now - {p}, paths[done + 1..], denied).states;
      LastOfConcat(now, [now - {p}], rest);
      assert seen + ([now - {p}] + rest) == (seen + [now - {p}]) + rest;
    } else {
      assert seen + [] == seen;
    }
  }
}
