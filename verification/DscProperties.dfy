/** What `copy_dsc` and `remove_dsc` of src/fsys.cpp guarantee. */
module DscProperties {
  import opened Wrappers
  import opened Paths
  import opened FileSystem
  import opened Dsc

  /** Names without separators, apart from the manifest, its temporary and each other's
      temporaries; the target is another directory than the source's. */
  ghost predicate GoodPaths(source: string, target: string, names: seq<string>) {
    var base := Basename(source);
    && Dirname(source) != target
    && base != "" && Plain(base)
    && (forall f :: f in names ==> Plain(f) && f != base && f != Tmp(base) && base != Tmp(f))
    && (forall f, g :: f in names && g in names ==> f != Tmp(g))
  }

  /** The manifest is not a file of the target directory. */
  lemma SourceElsewhere(source: string, target: string, name: string)
    requires Dirname(source) != target && Basename(source) != "" && Plain(Basename(source)) && Plain(name)
    ensures source != Under(target, name)
  {
    if source == Under(target, name) {
      DirnameOfUnder(target, name);
      BasenameOfUnder(target, name);
      LastSeparator(target, name);
    }
  }

  lemma JobsSeparate(source: string, target: string, names: seq<string>, faults: seq<Faults>)
    requires GoodPaths(source, target, names)
    ensures Separate(DscJobs(source, target, names, faults))
  {
    var jobs, prefix, base := DscJobs(source, target, names, faults), Dirname(source), Basename(source);
    forall i, j | 0 <= i < |jobs| && 0 <= j < |jobs| ensures SeparatePair(jobs[i], jobs[j]) {
      var f := if i < |names| then names[i] else base;
      var g := if j < |names| then names[j] else base;
      assert i < |names| ==> f in names;
      assert j < |names| ==> g in names;
      TmpOfUnder(target, g);
      TmpLonger(base);
      FromElsewhere(source, target, f, g, i < |names|);
      FromElsewhere(source, target, f, Tmp(g), i < |names|);
      if Under(target, f) == Under(target, Tmp(g)) {
        UnderInjective(target, f, target, Tmp(g));
      }
      if Under(target, f) == Under(target, g) {
        UnderInjective(target, f, target, g);
      }
    }
  }

  lemma TmpLonger(s: string)
    ensures Tmp(s) != s
  {
    assert |Tmp(s)| == |s| + 4;
  }

  lemma FromElsewhere(source: string, target: string, f: string, g: string, listed: bool)
    requires Dirname(source) != target && Basename(source) != "" && Plain(Basename(source))
    requires Plain(f) && Plain(g)
    ensures (if listed then Under(Dirname(source), f) else source) != Under(target, g)
  {
    if listed {
      if Under(Dirname(source), f) == Under(target, g) {
        UnderInjective(Dirname(source), f, target, g);
      }
    } else {
      SourceElsewhere(source, target, g);
    }
  }

  /** The target holds the listed files and the manifest, no temporary of theirs is left,
      and nothing else differs. */
  ghost predicate Copied(before: Files, source: string, target: string, names: seq<string>, after: Files) {
    var all := names + [Basename(source)];
    && (forall f :: f in names ==>
      Under(Dirname(source), f) in before && Entry(after, Under(target, f)) == Entry(before, Under(Dirname(source), f)))
    && Entry(after, Under(target, Basename(source))) == Entry(before, source)
    && (forall f :: f in all ==> Entry(after, Tmp(Under(target, f))) == None)
    && (forall p :: (forall f :: f in all ==> p != Under(target, f) && p != Tmp(Under(target, f))) ==>
      Entry(after, p) == Entry(before, p))
  }

  lemma InstalledIsCopied(before: Files, source: string, target: string, names: seq<string>, faults: seq<Faults>,
                          after: Files)
    requires GoodPaths(source, target, names)
    requires AllInstalled(before, DscJobs(source, target, names, faults), after)
    requires forall f :: f in names ==> Under(Dirname(source), f) in before
    ensures Copied(before, source, target, names, after)
  {
    var jobs, base := DscJobs(source, target, names, faults), Basename(source);
    var all := names + [base];
    JobsSeparate(source, target, names, faults);
    forall f | f in all
      ensures Entry(after, Under(target, f)) ==
              Entry(before, if f in names then Under(Dirname(source), f) else source)
      ensures Entry(after, Tmp(Under(target, f))) == None
    {
      var i :| 0 <= i < |all| && all[i] == f;
      assert jobs[i].to == Under(target, f);
      TmpLonger(Under(target, f));
      InstalledTail(before, jobs, Under(target, f), i);
      InstalledTail(before, jobs, Tmp(Under(target, f)), i);
      assert i < |names| ==> f in names;
    }
    assert base in all && base !in names;
    forall p | forall f :: f in all ==> p != Under(target, f) && p != Tmp(Under(target, f))
      ensures Entry(after, p) == Entry(before, p)
    {
      forall i | 0 <= i < |jobs| ensures p != jobs[i].to && p != Tmp(jobs[i].to) {
        assert all[i] in all && jobs[i].to == Under(target, all[i]);
      }
      NotConcerned(before, jobs, p);
    }
  }

  /** `copy_dsc` succeeds iff every listed file is there and no call fails. */
  ghost predicate CanCopy(fs: Files, source: string, names: seq<string>, faults: seq<Faults>) {
    && (forall k :: 0 <= k < |names| ==> CopyOk(fs, Under(Dirname(source), names[k]), FaultAt(faults, k)))
    && CopyOk(fs, source, FaultAt(faults, |names|))
  }

  /** The manifest comes last: at every visible step, also of a copy that fails, the target's
      manifest is as it was, except in the last step of a copy that succeeds; that step holds
      every listed file with the source's content and mode, no temporary, and nothing else
      that differs. */
  lemma ManifestLast(fs: Files, source: string, target: string, faults: seq<Faults>)
    requires source in fs && GoodPaths(source, target, Names(fs[source]))
    ensures var o, names, manifest :=
              CopyDscOutcome(fs, source, target, faults), Names(fs[source]), Under(target, Basename(source));
            && (o.ok <==> CanCopy(fs, source, names, faults))
            && (o.ok ==> Copied(fs, source, target, names, LastState(fs, o.states)))
            && (forall i :: 0 <= i < |o.states| && (o.ok ==> i < |o.states| - 1) ==>
              Entry(o.states[i], manifest) == Entry(fs, manifest))
  {
    var names := Names(fs[source]);
    var o, jobs := CopyDscOutcome(fs, source, target, faults), DscJobs(source, target, names, faults);
    JobsSeparate(source, target, names, faults);
    JobsInstall(fs, jobs);
    CanCopyIff(fs, source, target, names, faults);
    if o.ok {
      forall f | f in names ensures Under(Dirname(source), f) in fs {
        var k :| 0 <= k < |names| && names[k] == f;
        assert CopyOk(fs, Under(Dirname(source), names[k]), FaultAt(faults, k));
      }
      InstalledIsCopied(fs, source, target, names, faults, LastState(fs, o.states));
    }
    forall k | 0 <= k < |jobs| - 1 ensures jobs[k].to != jobs[|jobs| - 1].to {
      assert names[k] in names;
      if jobs[k].to == jobs[|jobs| - 1].to {
        UnderInjective(target, names[k], target, Basename(source));
      }
    }
    forall i | 0 <= i < |o.states| && (o.ok ==> i < |o.states| - 1)
      ensures Entry(o.states[i], jobs[|jobs| - 1].to) == Entry(fs, jobs[|jobs| - 1].to)
    {
      LastJobLast(fs, jobs, i);
    }
  }

  lemma CanCopyIff(fs: Files, source: string, target: string, names: seq<string>, faults: seq<Faults>)
    ensures var jobs := DscJobs(source, target, names, faults);
            CanCopy(fs, source, names, faults) <==>
            forall i :: 0 <= i < |jobs| ==> CopyOk(fs, jobs[i].from, jobs[i].faults)
  {
    var jobs := DscJobs(source, target, names, faults);
    assert forall k :: 0 <= k < |names| ==>
        jobs[k].from == Under(Dirname(source), names[k]) && jobs[k].faults == FaultAt(faults, k);
    assert jobs[|names|].from == source && jobs[|names|].faults == FaultAt(faults, |names|);
  }

  /** Hence whoever sees a new manifest in the target finds every file it lists there. */
  lemma NewManifestIsComplete(fs: Files, source: string, target: string, faults: seq<Faults>, i: nat, f: string)
    requires source in fs && GoodPaths(source, target, Names(fs[source]))
    requires i < |CopyDscOutcome(fs, source, target, faults).states| && f in Names(fs[source])
    requires var manifest := Under(target, Basename(source));
             Entry(CopyDscOutcome(fs, source, target, faults).states[i], manifest) != Entry(fs, manifest)
    ensures var now := CopyDscOutcome(fs, source, target, faults).states[i];
            && Entry(now, Under(target, Basename(source))) == Some(fs[source])
            && Under(Dirname(source), f) in fs
            && Entry(now, Under(target, f)) == Some(fs[Under(Dirname(source), f)])
  {
    ManifestLast(fs, source, target, faults);
  }

  /////////////////////////////// removal ///////////////////////////////

  function PathSet(paths: seq<string>): set<string> {
    set p | p in paths
  }

  ghost predicate Distinct(names: seq<string>) {
    forall i, j :: 0 <= i < j < |names| ==> names[i] != names[j]
  }

  lemma PathSetCons(paths: seq<string>)
    requires paths != []
    ensures PathSet(paths) == {paths[0]} + PathSet(paths[1..])
  {
    assert paths == [paths[0]] + paths[1..];
  }

  lemma {:induction false} RemoveAllStates(fs: Files, paths: seq<string>, denied: set<string>)
    ensures var o := RemoveAll(fs, paths, denied);
            && |o.states| <= |paths|
            && (forall i :: 0 <= i < |o.states| ==> o.states[i] == fs - PathSet(paths[..i + 1]))
            && (o.ok ==> |o.states| == |paths| && LastState(fs, o.states) == fs - PathSet(paths))
    decreases |paths|
  {
    var o := RemoveAll(fs, paths, denied);
    if paths == [] {
      assert fs - PathSet(paths) == fs;
    } else if paths[0] in fs && paths[0] !in denied {
      var next, rest := fs - {paths[0]}, paths[1..];
      RemoveAllStates(next, rest, denied);
      forall i | 0 <= i < |o.states| ensures o.states[i] == fs - PathSet(paths[..i + 1]) {
        PathSetCons(paths[..i + 1]);
        assert paths[..i + 1][1..] == rest[..i];
        assert i > 0 ==> o.states[i] == next - PathSet(rest[..i]);
      }
      PathSetCons(paths);
      assert fs - PathSet(paths) == next - PathSet(rest);
    }
  }

  lemma DistinctCons(paths: seq<string>)
    requires paths != []
    ensures Distinct(paths) <==> paths[0] !in paths[1..] && Distinct(paths[1..])
  {
    var rest := paths[1..];
    assert forall i :: 0 < i < |paths| ==> paths[i] == rest[i - 1];
    if paths[0] in rest {
      var i :| 0 <= i < |rest| && rest[i] == paths[0];
      assert paths[i + 1] == paths[0];
    }
    if paths[0] !in rest && Distinct(rest) {
      forall i, j | 0 <= i < j < |paths| ensures paths[i] != paths[j] {
        assert paths[j] in rest;
      }
    }
  }

  lemma {:induction false} RemoveAllOk(fs: Files, paths: seq<string>, denied: set<string>)
    ensures RemoveAll(fs, paths, denied).ok <==> Distinct(paths) && forall p :: p in paths ==> p in fs && p !in denied
    decreases |paths|
  {
    if paths != [] {
      var first, rest := paths[0], paths[1..];
      DistinctCons(paths);
      RemoveAllOk(fs - {first}, rest, denied);
      assert paths == [first] + rest;
      assert first !in rest ==> forall p :: p in rest ==> (p in fs - {first} <==> p in fs);
    }
  }

  /** Removal takes one path away per step, in order, and succeeds exactly on distinct
      paths that are all there and none denied. */
  lemma RemoveAllSteps(fs: Files, paths: seq<string>, denied: set<string>)
    ensures var o := RemoveAll(fs, paths, denied);
            && |o.states| <= |paths|
            && (forall i :: 0 <= i < |o.states| ==> o.states[i] == fs - PathSet(paths[..i + 1]))
            && (o.ok ==> |o.states| == |paths| && LastState(fs, o.states) == fs - PathSet(paths))
            && (o.ok <==> Distinct(paths) && forall p :: p in paths ==> p in fs && p !in denied)
  {
    RemoveAllStates(fs, paths, denied);
    RemoveAllOk(fs, paths, denied);
  }

  lemma UnderAllSet(prefix: string, names: seq<string>)
    ensures forall p :: p in UnderAll(prefix, names) <==> exists f :: f in names && p == Under(prefix, f)
    ensures Distinct(UnderAll(prefix, names)) <==> Distinct(names)
  {
    var paths := UnderAll(prefix, names);
    forall p | p in paths ensures exists f :: f in names && p == Under(prefix, f) {
      var i :| 0 <= i < |paths| && paths[i] == p;
      assert names[i] in names && p == Under(prefix, names[i]);
    }
    forall f | f in names ensures Under(prefix, f) in paths {
      var i :| 0 <= i < |names| && names[i] == f;
      assert paths[i] == Under(prefix, f);
    }
    forall i, j | 0 <= i < j < |names| ensures paths[i] == paths[j] <==> names[i] == names[j] {
      assert paths[i][|prefix| + 1..] == names[i] && paths[j][|prefix| + 1..] == names[j];
    }
  }

  /** `remove_dsc` keeps the manifest to the end: as long as a listed file may still be
      there the manifest is, also when the removal fails. */
  lemma ManifestRemovedLast(fs: Files, source: string, denied: set<string>, i: nat)
    requires source in fs && source !in UnderAll(Dirname(source), Names(fs[source]))
    requires i < |RemoveDscOutcome(fs, source, denied).states|
    ensures var o, names := RemoveDscOutcome(fs, source, denied), Names(fs[source]);
            && (source !in o.states[i] <==> o.ok && i == |o.states| - 1)
            && (source !in o.states[i] ==> forall f :: f in names ==> Under(Dirname(source), f) !in o.states[i])
  {
    LastRemovedLast(fs, UnderAll(Dirname(source), Names(fs[source])), source, denied, i);
    UnderAllSet(Dirname(source), Names(fs[source]));
  }

  lemma LastRemovedLast(fs: Files, listed: seq<string>, last: string, denied: set<string>, i: nat)
    requires last in fs && last !in listed && i < |RemoveAll(fs, listed + [last], denied).states|
    ensures var o := RemoveAll(fs, listed + [last], denied);
            && (last !in o.states[i] <==> o.ok && i == |o.states| - 1)
            && (last !in o.states[i] ==> forall p :: p in listed ==> p !in o.states[i])
  {
    var paths := listed + [last];
    RemoveAllSteps(fs, paths, denied);
    if i < |listed| {
      assert paths[..i + 1] == listed[..i + 1];
    } else {
      assert paths[..i + 1] == paths && last in paths;
      RemovedAllIsOk(fs, paths, denied);
      assert forall p :: p in listed ==> p in paths;
    }
  }

  lemma {:induction false} RemovedAllIsOk(fs: Files, paths: seq<string>, denied: set<string>)
    requires |RemoveAll(fs, paths, denied).states| == |paths|
    ensures RemoveAll(fs, paths, denied).ok
    decreases |paths|
  {
    if paths != [] {
      RemovedAllIsOk(fs - {paths[0]}, paths[1..], denied);
    }
  }

  /** The target had none of the files that are to come, nor their temporaries. */
  ghost predicate Fresh(fs: Files, source: string, target: string, names: seq<string>) {
    forall f :: f in names + [Basename(source)] ==> Under(target, f) !in fs && Tmp(Under(target, f)) !in fs
  }

  /** Into a fresh target: `remove_dsc` of the copied manifest succeeds iff the listed names
      are distinct, and then it restores the file system exactly. */
  lemma RemoveUndoesCopy(fs: Files, source: string, target: string, faults: seq<Faults>)
    requires source in fs && GoodPaths(source, target, Names(fs[source]))
    requires Fresh(fs, source, target, Names(fs[source]))
    requires CopyDscOutcome(fs, source, target, faults).ok
    ensures var copied := LastState(fs, CopyDscOutcome(fs, source, target, faults).states);
            var o := RemoveDscOutcome(copied, Under(target, Basename(source)), {});
            && (o.ok <==> Distinct(Names(fs[source])))
            && (o.ok ==> LastState(copied, o.states) == fs)
  {
    var names, base := Names(fs[source]), Basename(source);
    var copied := LastState(fs, CopyDscOutcome(fs, source, target, faults).states);
    var manifest := Under(target, base);
    ManifestLast(fs, source, target, faults);
    DirnameOfUnder(target, base);
    assert copied[manifest] == fs[source];
    var listed := UnderAll(target, names);
    var paths := listed + [manifest];
    UnderAllSet(target, names);
    RemoveAllSteps(copied, paths, {});
    ManifestApart(target, names, base);
    AppendDistinct(listed, manifest);
    assert forall p :: p in listed ==> p in copied;
    var gone := PathSet(UnderAll(target, names) + [Under(target, Basename(source))]);
    forall p ensures Entry(copied - gone, p) == Entry(fs, p) {
      GoneIs(target, names, Basename(source), p);
      RestoredEntry(fs, source, target, names, copied, p);
    }
    SameEntries(copied - gone, fs);
  }

  lemma ManifestApart(target: string, names: seq<string>, base: string)
    requires Plain(base) && base !in names && forall f :: f in names ==> Plain(f)
    ensures Under(target, base) !in UnderAll(target, names)
  {
    UnderAllSet(target, names);
    if f :| f in names && Under(target, base) == Under(target, f) {
      UnderInjective(target, base, target, f);
    }
  }

  lemma AppendDistinct(paths: seq<string>, p: string)
    requires p !in paths
    ensures Distinct(paths + [p]) <==> Distinct(paths)
  {
    assert forall i :: 0 <= i < |paths| ==> (paths + [p])[i] == paths[i];
    assert forall i :: 0 <= i < |paths| ==> paths[i] in paths;
  }

  lemma GoneIs(target: string, names: seq<string>, base: string, p: string)
    ensures p in PathSet(UnderAll(target, names) + [Under(target, base)]) <==>
            exists f :: f in names + [base] && p == Under(target, f)
  {
    UnderAllSet(target, names);
    var listed := UnderAll(target, names);
    assert p in PathSet(listed + [Under(target, base)]) <==> p in listed || p == Under(target, base);
    if p in listed {
      var f :| f in names && p == Under(target, f);
      assert f in names + [base];
    }
    assert base in names + [base];
  }

  lemma RestoredEntry(fs: Files, source: string, target: string, names: seq<string>, copied: Files, p: string)
    requires Copied(fs, source, target, names, copied) && Fresh(fs, source, target, names)
    ensures if exists f :: f in names + [Basename(source)] && p == Under(target, f) then p !in fs
            else Entry(copied, p) == Entry(fs, p)
  {
    var all := names + [Basename(source)];
    if f :| f in all && p == Tmp(Under(target, f)) {
      assert Entry(copied, Tmp(Under(target, f))) == None;
    }
  }

  lemma SameEntries(a: Files, b: Files)
    requires forall p :: Entry(a, p) == Entry(b, p)
    ensures a == b
  {
    assert forall p :: p in a <==> Entry(a, p).Some?;
    assert forall p :: p in b <==> Entry(b, p).Some?;
    forall p | p in a ensures a[p] == b[p] {
      assert Entry(a, p) == Entry(b, p);
    }
  }

  /////////////////////////////// which files travel ///////////////////////////////

  /** The manifest `base` of the directory `dir`, written with it, or alone in the current one. */
  predicate LiesIn(source: string, dir: string, base: string) {
    Plain(base) && base != "" && dir != "" && (source == dir + "/" + base || (source == base && dir == "."))
  }

  lemma CutSource(source: string, dir: string, base: string)
    requires LiesIn(source, dir, base)
    ensures Dirname(source) == dir && Basename(source) == base
  {
    if source == base {
      PlainPath(base);
    } else {
      CutPath(dir, '/', base);
    }
  }

  /** Without the manifest neither copies nor removes anything, and both fail. */
  lemma NoManifest(fs: Files, source: string, target: string, faults: seq<Faults>, denied: set<string>)
    requires source !in fs
    ensures var c, r := CopyDscOutcome(fs, source, target, faults), RemoveDscOutcome(fs, source, denied);
            !c.ok && !r.ok && LastState(fs, c.states) == LastState(fs, r.states) == fs
  {
  }

  /** What travels with a manifest are the files that lie beside it: `copy_dsc` succeeds iff
      they and the manifest can be copied, and then the target has them, and the manifest, as
      they are there. */
  lemma CopiedFromBeside(fs: Files, source: string, dir: string, base: string, target: string, faults: seq<Faults>)
    requires source in fs && LiesIn(source, dir, base) && GoodPaths(source, target, Names(fs[source]))
    ensures var o, names := CopyDscOutcome(fs, source, target, faults), Names(fs[source]);
            && (o.ok <==>
                CopyOk(fs, source, FaultAt(faults, |names|)) &&
                forall k :: 0 <= k < |names| ==> CopyOk(fs, dir + "/" + names[k], FaultAt(faults, k)))
            && (o.ok ==>
                 var after := LastState(fs, o.states);
                 && Entry(after, target + "/" + base) == Some(fs[source])
                 && forall f :: f in names ==>
                      dir + "/" + f in fs && Entry(after, target + "/" + f) == Some(fs[dir + "/" + f]))
  {
    CutSource(source, dir, base);
    ManifestLast(fs, source, target, faults);
    var o, names := CopyDscOutcome(fs, source, target, faults), Names(fs[source]);
    assert forall k :: 0 <= k < |names| ==> Under(dir, names[k]) == dir + "/" + names[k];
    if o.ok {
      forall f | f in names
        ensures dir + "/" + f in fs && Entry(LastState(fs, o.states), target + "/" + f) == Some(fs[dir + "/" + f])
      {
        assert Under(dir, f) in fs;
      }
    }
  }

  function Beside(dir: string, names: seq<string>): set<string> {
    set f | f in names :: dir + "/" + f
  }

  /** And `remove_dsc` succeeds iff they are there, none listed twice nor the manifest among
      them, and then removes them and the manifest and nothing else. */
  lemma RemovedFromBeside(fs: Files, source: string, dir: string, base: string, denied: set<string>)
    requires source in fs && LiesIn(source, dir, base)
    ensures var o, names := RemoveDscOutcome(fs, source, denied), Names(fs[source]);
            && (o.ok <==>
                Distinct(names) && (source == base || base !in names) && source !in denied &&
                forall p :: p in Beside(dir, names) ==> p in fs && p !in denied)
            && (o.ok ==> LastState(fs, o.states) == fs - Beside(dir, names) - {source})
  {
    CutSource(source, dir, base);
    var names := Names(fs[source]);
    BesideSet(dir, names);
    NotAmongThem(source, dir, base, names);
    RemovedLast(fs, UnderAll(dir, names), source, denied);
  }

  lemma RemovedLast(fs: Files, listed: seq<string>, source: string, denied: set<string>)
    requires source in fs
    ensures var o := RemoveAll(fs, listed + [source], denied);
            && (o.ok <==>
                Distinct(listed) && source !in listed && source !in denied &&
                forall p :: p in listed ==> p in fs && p !in denied)
            && (o.ok ==> LastState(fs, o.states) == fs - PathSet(listed) - {source})
  {
    var paths := listed + [source];
    RemoveAllSteps(fs, paths, denied);
    EndsDistinct(listed, source);
    assert forall p :: p in paths <==> p in listed || p == source;
    assert fs - PathSet(paths) == fs - PathSet(listed) - {source};
  }

  lemma EndsDistinct(paths: seq<string>, p: string)
    ensures Distinct(paths + [p]) <==> Distinct(paths) && p !in paths
  {
    if p in paths {
      var i :| 0 <= i < |paths| && paths[i] == p;
      assert (paths + [p])[i] == (paths + [p])[|paths|];
    } else {
      AppendDistinct(paths, p);
    }
  }

  lemma BesideSet(dir: string, names: seq<string>)
    ensures PathSet(UnderAll(dir, names)) == Beside(dir, names)
    ensures Distinct(UnderAll(dir, names)) <==> Distinct(names)
  {
    UnderAllSet(dir, names);
    forall p ensures p in UnderAll(dir, names) <==> p in Beside(dir, names) {
      if f :| f in names && p == dir + "/" + f {
        assert p == Under(dir, f);
      }
    }
  }

  lemma NotAmongThem(source: string, dir: string, base: string, names: seq<string>)
    requires LiesIn(source, dir, base)
    ensures source in UnderAll(dir, names) <==> source != base && base in names
  {
    UnderAllSet(dir, names);
    if f :| f in names && source == Under(dir, f) {
      NotBesideItself(source, dir, base, f);
    }
    if source != base && base in names {
      assert source == Under(dir, base);
    }
  }

  lemma NotBesideItself(source: string, dir: string, base: string, f: string)
    requires LiesIn(source, dir, base) && source == dir + "/" + f
    ensures f == base && source != base
  {
    assert source[|dir|] == '/' && source[|dir|] in source && '/' in SEPARATORS;
    assert source[|dir| + 1..] == f;
    if source != base {
      assert source[|dir| + 1..] == base;
    }
  }
}
