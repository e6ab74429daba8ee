/** What deb-archive and deb-remove guarantee together.

    Copying brings a manifest and the files it lists to the target, removing takes them away
    again, and moving conserves them; what the tools refuse, and what they have done when they
    raise, is the subject of DebEnds. */
module DebProperties {
  import opened Wrappers
  import opened Strings
  import opened Paths
  import opened FileSystem
  import opened DscProperties
  import opened DebEffects

  /** A manifest in another directory than the target, listing plain names other than its
      own. */
  ghost predicate Copyable(fs: Files, file: string, target: string) {
    var origin, base := RubyDirname(file), RubyBasename(file);
    && file in fs && KnownExtension(base)
    && file == Under(origin, base) && origin != target && target != ""
    && Plain(base) && base !in Listed(fs, file)
    && (forall f :: f in Listed(fs, file) ==> Plain(f))
  }

  /** The manifest can be read to its end, and the target has none of that name. */
  ghost predicate Archivable(fs: Files, file: string, target: string) {
    Copyable(fs, file, target) && !ScannedOf(fs, file).raised && Under(target, RubyBasename(file)) !in fs
  }

  /** The target has none of the listed files either. */
  ghost predicate Movable(fs: Files, file: string, target: string) {
    && Archivable(fs, file, target)
    && (forall f :: f in Listed(fs, file) + [RubyBasename(file)] ==> Under(target, f) !in fs)
  }

  function Listed(fs: Files, file: string): seq<string> {
    ScannedOf(fs, file).names
  }

  lemma RubyParts(dir: string, name: string)
    requires Plain(name)
    ensures RubyBasename(Under(dir, name)) == name
    ensures dir != "" ==> RubyDirname(Under(dir, name)) == dir
  {
    var path := Under(dir, name);
    forall i | |dir| < i < |path| ensures path[i] !in "/" {
      assert path[i] == name[i - |dir| - 1] && name[i - |dir| - 1] in name;
      assert '/' in SEPARATORS;
    }
    FindLastOfIs(path, "/", |dir|);
    assert path[..|dir|] == dir && path[|dir| + 1..] == name;
  }

  /////////////////////////////// copy, then remove ///////////////////////////////

  /** What a copy leaves at its target: the source's content, with its mode or with that of
      the file it replaces or of a new one; where there is no source, what was there. */
  function CopyOf(fs: Files, from: string, to: string, o: Options): Maybe<File> {
    if from !in fs then Entry(fs, to)
    else Some(File(fs[from].content,
                   if o.preserve then fs[from].mode else if to in fs then fs[to].mode else o.umask(fs[from].mode)))
  }

  /** The targets hold the listed files that are there; all else is as it was. */
  ghost predicate CopiedTo(fs: Files, origin: string, target: string, names: seq<string>, o: Options, after: Files) {
    && (forall f :: f in names ==> Entry(after, Under(target, f)) == CopyOf(fs, Under(origin, f), Under(target, f), o))
    && (forall p :: (forall f :: f in names ==> p != Under(target, f)) ==> Entry(after, p) == Entry(fs, p))
  }

  lemma CopyOne(fs: Files, origin: string, target: string, names: seq<string>, f: string, before: Progress, o: Options)
    requires !o.move && origin != target && Plain(f) && forall g :: g in names ==> Plain(g)
    requires before.status == Running && CopiedTo(fs, origin, target, names, o, before.files)
    ensures var p := ArchiveEntry(before, Under(origin, f), Under(target, f), o);
            p.status == Running && CopiedTo(fs, origin, target, names + [f], o, p.files)
  {
    forall g | g in names + [f]
      ensures Under(origin, f) != Under(target, g) && (Under(target, f) == Under(target, g) ==> f == g)
    {
      if Under(origin, f) == Under(target, g) {
        UnderInjective(origin, f, target, g);
      }
      if Under(target, f) == Under(target, g) {
        UnderInjective(target, f, target, g);
      }
    }
    var from, to := Under(origin, f), Under(target, f);
    assert f in names + [f];
    assert Entry(before.files, from) == Entry(fs, from);
    CopyAgain(fs, from, to, before.files, f in names, o);
  }

  /** A file that is listed twice is copied twice, to the same effect. */
  lemma CopyAgain(fs: Files, from: string, to: string, before: Files, again: bool, o: Options)
    requires from != to && Entry(before, from) == Entry(fs, from)
    requires Entry(before, to) == if again then CopyOf(fs, from, to, o) else Entry(fs, to)
    ensures CopyOf(before, from, to, o) == CopyOf(fs, from, to, o)
    ensures from in before ==> Entry(CopyTo(before, from, to, o), to) == CopyOf(fs, from, to, o)
  {
  }

  lemma {:induction false} CopiesAll(fs: Files, origin: string, target: string, names: seq<string>, o: Options)
    requires !o.move && origin != target && forall f :: f in names ==> Plain(f)
    ensures var after := ArchiveNames(Progress(fs, Running), origin, target, names, o);
            after.status == Running && CopiedTo(fs, origin, target, names, o, after.files)
    decreases |names|
  {
    if names != [] {
      var init, f := names[..|names| - 1], names[|names| - 1];
      assert names == init + [f] && f in names;
      CopiesAll(fs, origin, target, init, o);
      RubyParts(origin, f);
      CopyOne(fs, origin, target, init, f, ArchiveNames(Progress(fs, Running), origin, target, init, o), o);
    }
  }

  /** The listed files are gone; all else is as it was. */
  ghost predicate Without(fs: Files, origin: string, names: seq<string>, after: Files) {
    && (forall f :: f in names ==> Under(origin, f) !in after)
    && (forall p :: (forall f :: f in names ==> p != Under(origin, f)) ==> Entry(after, p) == Entry(fs, p))
  }

  lemma {:induction false} RemovesExactly(fs: Files, origin: string, names: seq<string>)
    ensures Without(fs, origin, names, RemoveNames(fs, origin, names))
    decreases |names|
  {
    if names != [] {
      var init, f := names[..|names| - 1], names[|names| - 1];
      RemovesExactly(fs, origin, init);
      assert names == init + [f] && f in names;
    }
  }

  /** The copy of a manifest lists what the manifest lists. */
  lemma SameListing(fs: Files, file: string, fs': Files, file': string)
    requires file in fs && file' in fs' && fs'[file'].content == fs[file].content
    requires RubyBasename(file') == RubyBasename(file)
    ensures ScannedOf(fs', file') == ScannedOf(fs, file)
  {
  }

  /** deb-archive without `--move` copies the manifest and every listed file that is there,
      content and, if asked, mode, and changes nothing else; over a manifest that the target
      has already only with `--force`.  Where reading the manifest raises, what it listed up to
      there is copied all the same. */
  lemma ArchiveCopies(fs: Files, file: string, target: string, o: Options)
    requires Copyable(fs, file, target) && !o.move && (o.force || Under(target, RubyBasename(file)) !in fs)
    ensures ArchiveFile(fs, file, target, o).status == if ScannedOf(fs, file).raised then Raised else Running
    ensures CopiedTo(fs, RubyDirname(file), target, Listed(fs, file) + [RubyBasename(file)], o,
                     ArchiveFile(fs, file, target, o).files)
  {
    var base, origin, names := RubyBasename(file), RubyDirname(file), Listed(fs, file);
    var manifest := Under(target, base);
    var first := ArchiveEntry(Progress(fs, Running), file, manifest, o);
    assert base in names + [base];
    assert CopiedTo(fs, origin, target, [], o, fs);
    CopyOne(fs, origin, target, [], base, Progress(fs, Running), o);
    assert [] + [base] == [base];
    SameListing(fs, file, first.files, file) by {
      if file == manifest {
        UnderInjective(origin, base, target, base);
      }
    }
    CopiesAll(first.files, origin, target, names, o);
    var after := ArchiveNames(first, origin, target, names, o);
    ApartFrom(target, names, base);
    ComposeCopies(fs, origin, target, names, base, o, first.files, after.files);
  }

  lemma ComposeCopies(fs: Files, origin: string, target: string, names: seq<string>, base: string, o: Options,
                      first: Files, after: Files)
    requires origin != target && Plain(base)
    requires forall f :: f in names ==> Plain(f) && Under(target, base) != Under(target, f)
    requires CopiedTo(fs, origin, target, [base], o, first) && CopiedTo(first, origin, target, names, o, after)
    ensures CopiedTo(fs, origin, target, names + [base], o, after)
  {
    forall f | f in names ensures Entry(first, Under(origin, f)) == Entry(fs, Under(origin, f)) {
      if Under(origin, f) == Under(target, base) {
        UnderInjective(origin, f, target, base);
      }
    }
    assert base in [base] && base in names + [base];
    assert Entry(after, Under(target, base)) == Entry(first, Under(target, base));
    forall p | forall f :: f in names + [base] ==> p != Under(target, f) ensures Entry(after, p) == Entry(fs, p) {
      assert forall f :: f in names ==> f in names + [base];
      assert Entry(after, p) == Entry(first, p);
    }
  }

  /** Into a fresh target: deb-remove of the manifest that deb-archive copied restores the
      file system exactly. */
  lemma RemoveUndoesArchive(fs: Files, file: string, target: string, o: Options)
    requires Movable(fs, file, target) && !o.move
    ensures RemoveFile(ArchiveFile(fs, file, target, o).files, Under(target, RubyBasename(file))) ==
              Progress(fs, Running)
  {
    var base, origin, names := RubyBasename(file), RubyDirname(file), Listed(fs, file);
    var manifest, all := Under(target, base), names + [base];
    ArchiveCopies(fs, file, target, o);
    var copied := ArchiveFile(fs, file, target, o).files;
    assert base in all;
    RubyParts(target, base);
    SameListing(fs, file, copied, manifest);
    RemovesExactly(copied, target, names);
    ApartFrom(target, names, base);
    var listed := RemoveNames(copied, target, names);
    assert Entry(listed, manifest) == Entry(copied, manifest);
    RemovedAgain(fs, origin, target, names, base, o, copied, listed);
  }

  lemma RemovedAgain(fs: Files, origin: string, target: string, names: seq<string>, base: string, o: Options,
                     copied: Files, listed: Files)
    requires CopiedTo(fs, origin, target, names + [base], o, copied) && Without(copied, target, names, listed)
    requires forall f :: f in names + [base] ==> Under(target, f) !in fs
    ensures listed - {Under(target, base)} == fs
  {
    var after := listed - {Under(target, base)};
    assert base in names + [base];
    forall p ensures Entry(after, p) == Entry(fs, p) {
      if f :| f in names + [base] && p == Under(target, f) {
        assert p !in after;
      } else {
        assert forall f :: f in names ==> f in names + [base];
        assert Entry(listed, p) == Entry(copied, p);
      }
    }
    SameEntries(after, fs);
  }

  lemma ApartFrom(target: string, names: seq<string>, base: string)
    requires Plain(base) && base !in names && forall f :: f in names ==> Plain(f)
    ensures forall f :: f in names ==> Under(target, base) != Under(target, f)
  {
    forall f | f in names ensures Under(target, base) != Under(target, f) {
      if Under(target, base) == Under(target, f) {
        UnderInjective(target, base, target, f);
      }
    }
  }

  /////////////////////////////// several manifests ///////////////////////////////

  /** The names a manifest brings to the target. */
  function Brings(fs: Files, file: string): seq<string> {
    Listed(fs, file) + [RubyBasename(file)]
  }

  /** A path the first `n` manifests bring to the target. */
  ghost predicate Brought(fs: Files, files: seq<string>, n: nat, target: string, p: string)
    requires n <= |files|
  {
    exists i :: 0 <= i < n && BroughtBy(fs, files[i], target, p)
  }

  ghost predicate BroughtBy(fs: Files, file: string, target: string, p: string) {
    exists f :: f in Brings(fs, file) && p == Under(target, f)
  }

  /** Manifests that can be archived together into a target without any of their files; they
      may share files, but no manifest is brought twice. */
  ghost predicate Together(fs: Files, files: seq<string>, target: string) {
    && (forall i {:trigger Archivable(fs, files[i], target)} :: 0 <= i < |files| ==> Archivable(fs, files[i], target))
    && (forall i, j {:trigger NotBringing(fs, files[i], files[j])} :: 0 <= i < |files| && 0 <= j < |files| && i != j ==>
      NotBringing(fs, files[i], files[j]))
    && (forall p {:trigger Brought(fs, files, |files|, target, p)} ::
          Brought(fs, files, |files|, target, p) ==> p !in fs)
  }

  /** The manifest's place in the target is no place of what another one brings. */
  ghost predicate NotBroughtBy(fs: Files, file: string, other: string, target: string) {
    forall f :: f in Brings(fs, other) ==> Under(target, RubyBasename(file)) != Under(target, f)
  }

  predicate NotBringing(fs: Files, file: string, other: string) {
    RubyBasename(file) !in Brings(fs, other)
  }

  /** What the first `n` manifests did not bring is as it was. */
  ghost predicate OthersSame(fs: Files, files: seq<string>, n: nat, target: string, after: Files)
    requires n <= |files|
  {
    forall p {:trigger Entry(after, p)} :: !Brought(fs, files, n, target, p) ==> Entry(after, p) == Entry(fs, p)
  }

  /** The manifest is in the target. */
  predicate Arrived(fs: Files, file: string, target: string, after: Files) {
    var copy := Under(target, RubyBasename(file));
    file in fs && copy in after && after[copy].content == fs[file].content
  }

  ghost predicate ArchivedUpTo(fs: Files, files: seq<string>, n: nat, target: string, after: Files)
    requires n <= |files|
  {
    OthersSame(fs, files, n, target, after) && forall i :: 0 <= i < n ==> Arrived(fs, files[i], target, after)
  }

  /** A path of another directory is not brought. */
  lemma SourceNotBrought(fs: Files, files: seq<string>, n: nat, target: string, file: string)
    requires n <= |files| && Archivable(fs, file, target)
    requires forall i :: 0 <= i < n ==> Archivable(fs, files[i], target)
    ensures !Brought(fs, files, n, target, file)
  {
    forall i, f | 0 <= i < n && f in Brings(fs, files[i]) ensures file != Under(target, f) {
      assert Archivable(fs, files[i], target) && Plain(f);
      if file == Under(target, f) {
        UnderInjective(RubyDirname(file), RubyBasename(file), target, f);
      }
    }
  }

  /** A manifest of the target is brought only by its own source. */
  lemma ManifestNotBrought(fs: Files, files: seq<string>, n: nat, target: string, k: nat)
    requires n <= k < |files| && Together(fs, files, target)
    ensures !Brought(fs, files, n, target, Under(target, RubyBasename(files[k])))
  {
    forall i, f | 0 <= i < n && f in Brings(fs, files[i])
      ensures Under(target, RubyBasename(files[k])) != Under(target, f)
    {
      assert Archivable(fs, files[i], target) && Archivable(fs, files[k], target) && Plain(f);
      assert NotBringing(fs, files[k], files[i]);
      if Under(target, RubyBasename(files[k])) == Under(target, f) {
        UnderInjective(target, RubyBasename(files[k]), target, f);
      }
    }
  }

  lemma BroughtNext(fs: Files, files: seq<string>, n: nat, target: string, p: string)
    requires 0 < n <= |files|
    ensures Brought(fs, files, n, target, p) <==>
            Brought(fs, files, n - 1, target, p) || BroughtBy(fs, files[n - 1], target, p)
  {
  }

  lemma ArchivesNext(fs: Files, files: seq<string>, n: nat, target: string, o: Options, before: Files)
    requires 0 < n <= |files| && Together(fs, files, target) && !o.move
    requires ArchivedUpTo(fs, files, n - 1, target, before)
    ensures var p := ArchiveFile(before, files[n - 1], target, o);
            p.status == Running && ArchivedUpTo(fs, files, n, target, p.files)
  {
    var file := files[n - 1];
    StillArchivable(fs, files, n, target, before);
    ArchiveCopies(before, file, target, o);
    var after := ArchiveFile(before, file, target, o).files;
    OthersSameNext(fs, files, n, target, o, before, after);
    OwnPlace(fs, files, target, n - 1);
    ArrivedNow(fs, file, target, o, before, after);
    AllArrivedStill(fs, files, n, target, o, before, after);
  }

  lemma StillArchivable(fs: Files, files: seq<string>, n: nat, target: string, before: Files)
    requires 0 < n <= |files| && Together(fs, files, target) && OthersSame(fs, files, n - 1, target, before)
    ensures Archivable(before, files[n - 1], target) && Brings(before, files[n - 1]) == Brings(fs, files[n - 1])
    ensures Entry(before, files[n - 1]) == Entry(fs, files[n - 1])
  {
    var file := files[n - 1];
    assert Archivable(fs, file, target);
    SourceNotBrought(fs, files, n - 1, target, file);
    ManifestNotBrought(fs, files, n - 1, target, n - 1);
    NotBroughtSame(fs, files, n - 1, target, before, file);
    NotBroughtSame(fs, files, n - 1, target, before, Under(target, RubyBasename(file)));
    ArchivableSame(fs, file, target, before);
  }

  lemma NotBroughtSame(fs: Files, files: seq<string>, n: nat, target: string, before: Files, p: string)
    requires n <= |files| && OthersSame(fs, files, n, target, before) && !Brought(fs, files, n, target, p)
    ensures Entry(before, p) == Entry(fs, p)
  {
  }

  lemma ArchivableSame(fs: Files, file: string, target: string, before: Files)
    requires Archivable(fs, file, target) && Entry(before, file) == Entry(fs, file)
    requires Under(target, RubyBasename(file)) !in before
    ensures Archivable(before, file, target) && Brings(before, file) == Brings(fs, file)
  {
    SameListing(fs, file, before, file);
  }

  lemma OthersSameNext(fs: Files, files: seq<string>, n: nat, target: string, o: Options, before: Files, after: Files)
    requires 0 < n <= |files| && OthersSame(fs, files, n - 1, target, before)
    requires CopiedTo(before, RubyDirname(files[n - 1]), target, Brings(fs, files[n - 1]), o, after)
    ensures OthersSame(fs, files, n, target, after)
  {
    forall p | !Brought(fs, files, n, target, p) ensures Entry(after, p) == Entry(fs, p) {
      BroughtNext(fs, files, n, target, p);
      assert forall f :: f in Brings(fs, files[n - 1]) ==> p != Under(target, f);
      assert Entry(before, p) == Entry(fs, p);
    }
  }

  lemma AllArrivedStill(fs: Files, files: seq<string>, n: nat, target: string, o: Options, before: Files, after: Files)
    requires 0 < n <= |files| && Together(fs, files, target)
    requires forall i :: 0 <= i < n - 1 ==> Arrived(fs, files[i], target, before)
    requires CopiedTo(before, RubyDirname(files[n - 1]), target, Brings(fs, files[n - 1]), o, after)
    ensures forall i :: 0 <= i < n - 1 ==> Arrived(fs, files[i], target, after)
  {
    var next := files[n - 1];
    forall i | 0 <= i < n - 1 ensures Arrived(fs, files[i], target, after) {
      OtherManifest(fs, files, target, i, n - 1);
      ArrivedStill(fs, files[i], next, target, o, before, after);
    }
  }

  lemma OwnPlace(fs: Files, files: seq<string>, target: string, i: nat)
    requires i < |files| && Together(fs, files, target)
    ensures files[i] in fs && files[i] == Under(RubyDirname(files[i]), RubyBasename(files[i]))
  {
    assert Archivable(fs, files[i], target);
  }

  lemma ArrivedNow(fs: Files, file: string, target: string, o: Options, before: Files, after: Files)
    requires file in fs && file == Under(RubyDirname(file), RubyBasename(file))
    requires Entry(before, file) == Entry(fs, file)
    requires CopiedTo(before, RubyDirname(file), target, Brings(fs, file), o, after)
    ensures Arrived(fs, file, target, after)
  {
    assert RubyBasename(file) in Brings(fs, file);
  }

  lemma ArrivedStill(fs: Files, file: string, next: string, target: string, o: Options, before: Files, after: Files)
    requires Arrived(fs, file, target, before)
    requires NotBroughtBy(fs, file, next, target)
    requires CopiedTo(before, RubyDirname(next), target, Brings(fs, next), o, after)
    ensures Arrived(fs, file, target, after)
  {
    var copy := Under(target, RubyBasename(file));
    assert Entry(after, copy) == Entry(before, copy);
  }

  lemma OtherManifest(fs: Files, files: seq<string>, target: string, i: nat, j: nat)
    requires i < |files| && j < |files| && i != j && Together(fs, files, target)
    ensures NotBroughtBy(fs, files[i], files[j], target)
  {
    forall f | f in Brings(fs, files[j]) ensures Under(target, RubyBasename(files[i])) != Under(target, f) {
      assert Archivable(fs, files[j], target) && Archivable(fs, files[i], target) && Plain(f);
      assert NotBringing(fs, files[i], files[j]);
      if Under(target, RubyBasename(files[i])) == Under(target, f) {
        UnderInjective(target, RubyBasename(files[i]), target, f);
      }
    }
  }

  lemma {:induction false} ArchivesAll(fs: Files, files: seq<string>, n: nat, target: string, o: Options)
    requires n <= |files| && Together(fs, files, target) && !o.move
    ensures var p := ArchiveAll(Progress(fs, Running), files[..n], target, o);
            p.status == Running && ArchivedUpTo(fs, files, n, target, p.files)
  {
    if n > 0 {
      ArchivesAll(fs, files, n - 1, target, o);
      assert files[..n][..n - 1] == files[..n - 1];
      ArchivesNext(fs, files, n, target, o, ArchiveAll(Progress(fs, Running), files[..n - 1], target, o).files);
    }
  }

  /** The manifests as they lie in the target. */
  function InTarget(files: seq<string>, target: string): (copies: seq<string>)
    ensures |copies| == |files|
  {
    seq(|files|, i requires 0 <= i < |files| => Under(target, RubyBasename(files[i])))
  }

  /** After `n` removals: what those manifests brought is gone, the rest is as archived. */
  ghost predicate RemovedUpTo(fs: Files, files: seq<string>, n: nat, target: string, archived: Files, after: Files)
    requires n <= |files|
  {
    forall p :: Entry(after, p) == if Brought(fs, files, n, target, p) then None else Entry(archived, p)
  }

  lemma RemovesNext(fs: Files, files: seq<string>, n: nat, target: string, archived: Files, before: Files)
    requires 0 < n <= |files| && Together(fs, files, target)
    requires ArchivedUpTo(fs, files, |files|, target, archived)
    requires RemovedUpTo(fs, files, n - 1, target, archived, before)
    ensures var p := RemoveFile(before, Under(target, RubyBasename(files[n - 1])));
            p.status == Running && RemovedUpTo(fs, files, n, target, archived, p.files)
  {
    var file := files[n - 1];
    ManifestThere(fs, files, n, target, archived);
    ManifestLeft(fs, files, n - 1, target, archived, before, file);
    assert Archivable(fs, file, target);
    RemoveOne(fs, file, target, before);
    RemovesExactly(before, target, Listed(fs, file));
    RemovedNext(fs, files, n, target, archived, before, RemoveNames(before, target, Listed(fs, file)));
  }

  lemma ManifestThere(fs: Files, files: seq<string>, n: nat, target: string, archived: Files)
    requires 0 < n <= |files| && Together(fs, files, target) && ArchivedUpTo(fs, files, |files|, target, archived)
    ensures Arrived(fs, files[n - 1], target, archived)
    ensures !Brought(fs, files, n - 1, target, Under(target, RubyBasename(files[n - 1])))
  {
    ManifestNotBrought(fs, files, n - 1, target, n - 1);
  }

  /** A manifest that those removed before did not bring is still there. */
  lemma ManifestLeft(fs: Files, files: seq<string>, n: nat, target: string, archived: Files, before: Files,
                     file: string)
    requires n <= |files| && !Brought(fs, files, n, target, Under(target, RubyBasename(file)))
    requires Arrived(fs, file, target, archived) && RemovedUpTo(fs, files, n, target, archived, before)
    ensures Arrived(fs, file, target, before)
  {
    NotRemovedYet(fs, files, n, target, archived, before, Under(target, RubyBasename(file)));
  }

  lemma NotRemovedYet(fs: Files, files: seq<string>, n: nat, target: string, archived: Files, before: Files, p: string)
    requires n <= |files| && RemovedUpTo(fs, files, n, target, archived, before) && !Brought(fs, files, n, target, p)
    ensures Entry(before, p) == Entry(archived, p)
  {
  }

  lemma RemoveOne(fs: Files, file: string, target: string, before: Files)
    requires Archivable(fs, file, target) && Arrived(fs, file, target, before)
    ensures var copy := Under(target, RubyBasename(file));
            RemoveFile(before, copy) == Progress(RemoveNames(before, target, Listed(fs, file)) - {copy}, Running)
  {
    var base, names := RubyBasename(file), Listed(fs, file);
    var copy := Under(target, base);
    RubyParts(target, base);
    SameListing(fs, file, before, copy);
    RemovesExactly(before, target, names);
    ApartFrom(target, names, base);
    assert Entry(RemoveNames(before, target, names), copy) == Entry(before, copy);
  }

  lemma RemovedNext(fs: Files, files: seq<string>, n: nat, target: string, archived: Files, before: Files,
                    listed: Files)
    requires 0 < n <= |files| && RemovedUpTo(fs, files, n - 1, target, archived, before)
    requires Without(before, target, Listed(fs, files[n - 1]), listed)
    ensures RemovedUpTo(fs, files, n, target, archived, listed - {Under(target, RubyBasename(files[n - 1]))})
  {
    var file := files[n - 1];
    var base, names := RubyBasename(file), Listed(fs, file);
    forall p ensures Entry(listed - {Under(target, base)}, p) ==
                     if Brought(fs, files, n, target, p) then None else Entry(archived, p)
    {
      BroughtNext(fs, files, n, target, p);
      assert BroughtBy(fs, file, target, p) <==>
             p == Under(target, base) || exists f :: f in names && p == Under(target, f) by {
        assert base in Brings(fs, file) && forall f :: f in names ==> f in Brings(fs, file);
      }
      if f :| f in names && p == Under(target, f) {
        assert p !in listed;
      } else {
        assert Entry(listed, p) == Entry(before, p);
      }
    }
  }

  lemma {:induction false} RemovesEach(fs: Files, files: seq<string>, n: nat, target: string, archived: Files)
    requires n <= |files| && Together(fs, files, target) && ArchivedUpTo(fs, files, |files|, target, archived)
    ensures var p := RemoveEach(Progress(archived, Running), InTarget(files, target)[..n]);
            p.status == Running && RemovedUpTo(fs, files, n, target, archived, p.files)
  {
    if n > 0 {
      var copies := InTarget(files, target);
      RemovesEach(fs, files, n - 1, target, archived);
      assert copies[..n][..n - 1] == copies[..n - 1];
      RemovesNext(fs, files, n, target, archived, RemoveEach(Progress(archived, Running), copies[..n - 1]).files);
    }
  }

  /** Any number of manifests, which may share files: deb-remove of all that deb-archive
      copied, in the same order, restores the file system exactly. */
  lemma RemoveUndoesArchiveAll(fs: Files, files: seq<string>, target: string, o: Options)
    requires Together(fs, files, target) && !o.move
    ensures var archived := ArchiveAll(Progress(fs, Running), files, target, o);
            && archived.status == Running
            && RemoveEach(archived, InTarget(files, target)) == Progress(fs, Running)
  {
    ArchivesAll(fs, files, |files|, target, o);
    assert files[..|files|] == files;
    var archived := ArchiveAll(Progress(fs, Running), files, target, o).files;
    var copies := InTarget(files, target);
    RemovesEach(fs, files, |files|, target, archived);
    assert copies[..|copies|] == copies;
    var after := RemoveEach(Progress(archived, Running), copies).files;
    forall p ensures Entry(after, p) == Entry(fs, p) {
      assert Brought(fs, files, |files|, target, p) ==> p !in fs;
    }
    SameEntries(after, fs);
  }

  /////////////////////////////// move ///////////////////////////////

  /** Everything listed that was under `origin` is under `target` instead; all else stays. */
  ghost predicate Moved(fs: Files, origin: string, target: string, names: seq<string>, after: Files) {
    && (forall f :: f in names ==>
      Entry(after, Under(origin, f)) == None && Entry(after, Under(target, f)) == Entry(fs, Under(origin, f)))
    && (forall p :: (forall f :: f in names ==> p != Under(origin, f) && p != Under(target, f)) ==>
      Entry(after, p) == Entry(fs, p))
  }

  lemma MoveOne(fs: Files, origin: string, target: string, names: seq<string>, f: string, before: Progress, o: Options)
    requires o.move && origin != target && Plain(f) && forall g :: g in names ==> Plain(g)
    requires before.status == Running && Moved(fs, origin, target, names, before.files)
    requires Under(target, f) !in fs
    ensures var p := ArchiveEntry(before, Under(origin, f), Under(target, f), o);
            p.status == Running && Moved(fs, origin, target, names + [f], p.files)
  {
    forall g | g in names + [f]
      ensures Under(origin, f) != Under(target, g) && Under(target, f) != Under(origin, g)
      ensures Under(origin, f) == Under(origin, g) || Under(target, f) == Under(target, g) ==> f == g
    {
      if Under(origin, f) == Under(target, g) {
        UnderInjective(origin, f, target, g);
      }
      if Under(target, f) == Under(origin, g) {
        UnderInjective(target, f, origin, g);
      }
      if Under(origin, f) == Under(origin, g) {
        UnderInjective(origin, f, origin, g);
      }
      if Under(target, f) == Under(target, g) {
        UnderInjective(target, f, target, g);
      }
    }
    assert f in names + [f];
    assert f !in names ==> Entry(before.files, Under(origin, f)) == Entry(fs, Under(origin, f));
    assert f !in names ==> Entry(before.files, Under(target, f)) == Entry(fs, Under(target, f));
  }

  lemma {:induction false} MovesAll(fs: Files, origin: string, target: string, names: seq<string>, o: Options)
    requires o.move && origin != target
    requires forall f :: f in names ==> Plain(f) && Under(target, f) !in fs
    ensures var after := ArchiveNames(Progress(fs, Running), origin, target, names, o);
            after.status == Running && Moved(fs, origin, target, names, after.files)
    decreases |names|
  {
    if names != [] {
      var init, f := names[..|names| - 1], names[|names| - 1];
      assert names == init + [f] && f in names;
      MovesAll(fs, origin, target, init, o);
      RubyParts(origin, f);
      MoveOne(fs, origin, target, init, f, ArchiveNames(Progress(fs, Running), origin, target, init, o), o);
    }
  }

  /** Moving conserves the files: each listed file and the manifest leave the origin and are
      in the target with content and mode, and every other path is as it was. */
  lemma MoveConserves(fs: Files, file: string, target: string, o: Options)
    requires Movable(fs, file, target) && o.move
    ensures ArchiveFile(fs, file, target, o).status == Running
    ensures Moved(fs, RubyDirname(file), target, Listed(fs, file) + [RubyBasename(file)],
                  ArchiveFile(fs, file, target, o).files)
  {
    var base, origin, names := RubyBasename(file), RubyDirname(file), Listed(fs, file);
    assert forall f :: f in names ==> f in names + [base];
    assert base in names + [base];
    MovesAll(fs, origin, target, names, o);
    var listed := ArchiveNames(Progress(fs, Running), origin, target, names, o);
    ApartFrom(origin, names, base);
    forall f | f in names ensures file != Under(target, f) {
      if file == Under(target, f) {
        UnderInjective(origin, base, target, f);
      }
    }
    assert Entry(listed.files, file) == Entry(fs, file);
    MoveOne(fs, origin, target, names, base, listed, o);
  }

  /** Moving a manifest with its files there and back again changes nothing. */
  lemma MoveThereAndBack(fs: Files, file: string, target: string, o: Options)
    requires Movable(fs, file, target) && o.move
    ensures var there := ArchiveFile(fs, file, target, o).files;
            ArchiveFile(there, Under(target, RubyBasename(file)), RubyDirname(file), o) == Progress(fs, Running)
  {
    var base, origin, names := RubyBasename(file), RubyDirname(file), Listed(fs, file);
    var all, manifest := names + [base], Under(target, base);
    assert base in all;
    MoveConserves(fs, file, target, o);
    var there := ArchiveFile(fs, file, target, o).files;
    assert Entry(there, manifest) == Entry(fs, file);
    RubyParts(target, base);
    SameListing(fs, file, there, manifest);
    OriginNotEmpty(file);
    forall f | f in all ensures Under(origin, f) !in there {
      assert Entry(there, Under(origin, f)) == None;
    }
    MoveConserves(there, manifest, origin, o);
    BackAgain(fs, origin, target, all, there, ArchiveFile(there, manifest, origin, o).files);
  }

  lemma BackAgain(fs: Files, origin: string, target: string, names: seq<string>, there: Files, back: Files)
    requires Moved(fs, origin, target, names, there) && Moved(there, target, origin, names, back)
    requires forall f :: f in names ==> Under(target, f) !in fs
    ensures back == fs
  {
    forall p ensures Entry(back, p) == Entry(fs, p) {
      if f :| f in names && (p == Under(origin, f) || p == Under(target, f)) {
        assert Entry(back, Under(origin, f)) == Entry(there, Under(target, f));
      }
    }
    SameEntries(back, fs);
  }

  lemma OriginNotEmpty(file: string)
    ensures RubyDirname(file) != ""
  {
  }
}
