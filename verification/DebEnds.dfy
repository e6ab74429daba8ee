/** How deb-archive and deb-remove end: what they refuse, what they raise on, what they do then. */
module DebEnds {
  import opened Wrappers
  import opened Strings
  import opened Paths
  import opened FileSystem
  import opened DebTools
  import opened DebEffects
  import opened DebProperties

  /** The three extensions the tools work on, each behind a name that is more than dots. */
  ghost predicate Handled(base: string) {
    exists stem, ext ::
      base == stem + ext && (ext == ".dsc" || ext == ".deb" || ext == ".changes") && MoreThanDots(stem)
  }

  predicate MoreThanDots(stem: string) {
    exists i :: 0 <= i < |stem| && stem[i] != '.'
  }

  lemma ExtensionIs(base: string, ext: string)
    ensures HasExtension(base, ext) <==> exists stem :: base == stem + ext && MoreThanDots(stem)
  {
    if HasExtension(base, ext) {
      var stem := base[..|base| - |ext|];
      var i :| 0 <= i < |base| - |ext| && base[i] != '.';
      assert base == stem + ext && stem[i] != '.';
    }
    if stem :| base == stem + ext && MoreThanDots(stem) {
      assert base[|base| - |ext|..] == ext;
      var i :| 0 <= i < |stem| && stem[i] != '.';
      assert base[i] == stem[i];
    }
  }

  lemma HandledIs(base: string)
    ensures Handled(base) <==> KnownExtension(base)
  {
    ExtensionIs(base, ".dsc");
    ExtensionIs(base, ".deb");
    ExtensionIs(base, ".changes");
  }

  /////////////////////////////// refusals ///////////////////////////////

  /** What deb-archive refuses. */
  ghost predicate Refused(fs: Files, file: string, target: string, o: Options) {
    || file !in fs || !Handled(RubyBasename(file))
    || (!o.force && target + "/" + RubyBasename(file) in fs)
  }

  /** deb-archive aborts exactly on a file that is missing, that it does not handle, or that
      the target has already, unless it is forced; and then it has changed nothing. */
  lemma ArchiveRefuses(fs: Files, file: string, target: string, o: Options)
    ensures var p := ArchiveFile(fs, file, target, o);
            && (p.status == Aborted <==> Refused(fs, file, target, o))
            && (p.status == Aborted ==> p.files == fs)
            && p.status != Exited
  {
    HandledIs(RubyBasename(file));
    if !Refused(fs, file, target, o) {
      var start := if o.move then fs else CopyTo(fs, file, Under(target, RubyBasename(file)), o);
      OnlyRaises(Progress(start, Running), RubyDirname(file), target, ScannedOf(start, file).names, o);
    }
  }

  lemma {:induction false} OnlyRaises(p: Progress, origin: string, target: string, names: seq<string>, o: Options)
    requires p.status == Running
    ensures var after := ArchiveNames(p, origin, target, names, o);
            after.status == Running || after.status == Raised
  {
    if names != [] {
      OnlyRaises(p, origin, target, names[..|names| - 1], o);
    }
  }

  /** deb-remove aborts exactly on a name it does not handle, and exits exactly on a file that
      is missing, and then it has changed nothing; it raises exactly where the scan does or
      the manifest lists itself. */
  lemma RemoveRefuses(fs: Files, file: string)
    ensures var p := RemoveFile(fs, file);
            && (p.status == Aborted <==> !Handled(RubyBasename(file)))
            && (p.status == Exited <==> Handled(RubyBasename(file)) && file !in fs)
            && (p.status == Aborted || p.status == Exited ==> p.files == fs)
            && (p.status == Raised <==>
                Handled(RubyBasename(file)) && file in fs &&
                (ScannedOf(fs, file).raised ||
                 exists f :: f in Listed(fs, file) && file == RubyDirname(file) + "/" + f))
  {
    HandledIs(RubyBasename(file));
    RemovesExactly(fs, RubyDirname(file), Listed(fs, file));
    var listed := RemoveNames(fs, RubyDirname(file), Listed(fs, file));
    if f :| f in Listed(fs, file) && file == RubyDirname(file) + "/" + f {
      assert file == Under(RubyDirname(file), f);
    }
    if forall f :: f in Listed(fs, file) ==> file != RubyDirname(file) + "/" + f {
      assert forall f :: f in Listed(fs, file) ==> file != Under(RubyDirname(file), f);
      assert Entry(listed, file) == Entry(fs, file);
    }
  }

  lemma {:induction false} ArchiveEndsAt(p: Progress, files: seq<string>, i: nat, target: string, o: Options,
                                         end: Progress)
    requires i < |files| && ArchiveAll(p, files[..i], target, o).status == Running && end.status != Running
    requires ArchiveFile(ArchiveAll(p, files[..i], target, o).files, files[i], target, o) == end
    ensures ArchiveAll(p, files, target, o) == end
    decreases |files|
  {
    var init := files[..|files| - 1];
    if i < |init| {
      assert init[..i] == files[..i] && init[i] == files[i];
      ArchiveEndsAt(p, init, i, target, o, end);
    }
  }

  /** The first argument that is refused ends the run: nothing behind it is touched. */
  lemma FirstRefusal(fs: Files, files: seq<string>, i: nat, target: string, o: Options)
    requires i < |files|
    requires var before := ArchiveAll(Progress(fs, Running), files[..i], target, o);
             before.status == Running && Refused(before.files, files[i], target, o)
    ensures ArchiveAll(Progress(fs, Running), files, target, o) ==
              Progress(ArchiveAll(Progress(fs, Running), files[..i], target, o).files, Aborted)
  {
    var before := ArchiveAll(Progress(fs, Running), files[..i], target, o);
    ArchiveRefuses(before.files, files[i], target, o);
    ArchiveEndsAt(Progress(fs, Running), files, i, target, o, Progress(before.files, Aborted));
  }

  lemma {:induction false} RemoveEndsAt(p: Progress, files: seq<string>, i: nat, end: Progress)
    requires i < |files| && RemoveEach(p, files[..i]).status == Running && end.status != Running
    requires RemoveFile(RemoveEach(p, files[..i]).files, files[i]) == end
    ensures RemoveEach(p, files) == end
    decreases |files|
  {
    var init := files[..|files| - 1];
    if i < |init| {
      assert init[..i] == files[..i] && init[i] == files[i];
      RemoveEndsAt(p, init, i, end);
    }
  }

  /** So does the first argument that deb-remove does not handle or does not find. */
  lemma FirstNotRemoved(fs: Files, files: seq<string>, i: nat)
    requires i < |files|
    requires var before := RemoveEach(Progress(fs, Running), files[..i]);
             before.status == Running && (!Handled(RubyBasename(files[i])) || files[i] !in before.files)
    ensures RemoveEach(Progress(fs, Running), files) ==
              Progress(RemoveEach(Progress(fs, Running), files[..i]).files,
                       if Handled(RubyBasename(files[i])) then Exited else Aborted)
  {
    var before := RemoveEach(Progress(fs, Running), files[..i]);
    RemoveRefuses(before.files, files[i]);
    RemoveEndsAt(Progress(fs, Running), files, i,
                 Progress(before.files, if Handled(RubyBasename(files[i])) then Exited else Aborted));
  }

  /////////////////////////////// the current directory ///////////////////////////////

  lemma RubyPlain(file: string)
    requires Plain(file)
    ensures RubyDirname(file) == "." && RubyBasename(file) == file
  {
    forall i | 0 <= i < |file| ensures file[i] !in "/" {
      assert file[i] in file && '/' in SEPARATORS;
    }
    FindLastOfIs(file, "/", -1);
    assert file[0..] == file;
  }

  /** A manifest named without a directory: its files are those of the current directory. */
  lemma ArchiveHere(fs: Files, file: string, target: string, o: Options)
    requires Plain(file) && !Refused(fs, file, target, o) && !o.move && target != "."
    requires !ScannedOf(fs, file).raised && forall f :: f in Listed(fs, file) ==> Plain(f) && f != file
    ensures var p := ArchiveFile(fs, file, target, o);
            && p.status == Running
            && Entry(p.files, target + "/" + file) == CopyOf(fs, file, target + "/" + file, o)
            && (forall f :: f in Listed(fs, file) ==>
                  Entry(p.files, target + "/" + f) == CopyOf(fs, "./" + f, target + "/" + f, o))
  {
    var dest, names := Under(target, file), Listed(fs, file);
    var first := CopyTo(fs, file, dest, o);
    HereNames(fs, file, target, o);
    CopiesAll(first, ".", target, names, o);
    HereApart(file, target, names);
    var after := ArchiveFile(fs, file, target, o).files;
    assert Entry(after, dest) == Entry(first, dest);
    forall f | f in names ensures Entry(after, target + "/" + f) == CopyOf(fs, "./" + f, target + "/" + f, o) {
      HereOne(fs, file, target, names, f, first, after, o);
    }
  }

  lemma HereOne(fs: Files, file: string, target: string, names: seq<string>, f: string, first: Files, after: Files,
                o: Options)
    requires file in fs && first == CopyTo(fs, file, Under(target, file), o) && f in names
    requires CopiedTo(first, ".", target, names, o, after)
    requires Under(target, file) != Under(target, f) && Under(target, file) != Under(".", f)
    ensures Entry(after, target + "/" + f) == CopyOf(fs, "./" + f, target + "/" + f, o)
  {
    assert Under(target, f) == target + "/" + f && Under(".", f) == "./" + f;
    assert Entry(after, Under(target, f)) == CopyOf(first, Under(".", f), Under(target, f), o);
  }

  lemma HereApart(file: string, target: string, names: seq<string>)
    requires Plain(file) && target != "." && forall f :: f in names ==> Plain(f) && f != file
    ensures forall f :: f in names ==> Under(target, file) != Under(target, f) && Under(target, file) != Under(".", f)
  {
    forall f | f in names ensures Under(target, file) != Under(target, f) && Under(target, file) != Under(".", f) {
      if Under(target, file) == Under(target, f) {
        UnderInjective(target, file, target, f);
      }
      if Under(target, file) == Under(".", f) {
        UnderInjective(target, file, ".", f);
      }
    }
  }

  lemma HereNames(fs: Files, file: string, target: string, o: Options)
    requires Plain(file) && !Refused(fs, file, target, o) && !o.move && target != "."
    requires !ScannedOf(fs, file).raised && forall f :: f in Listed(fs, file) ==> Plain(f)
    ensures var first := CopyTo(fs, file, Under(target, file), o);
            ArchiveFile(fs, file, target, o) ==
              ArchiveNames(Progress(first, Running), ".", target, Listed(fs, file), o)
    ensures ArchiveFile(fs, file, target, o).status == Running
  {
    HandledIs(file);
    RubyPlain(file);
    var first := CopyTo(fs, file, Under(target, file), o);
    ListedAfterCopy(fs, file, target, o);
    CopiesAll(first, ".", target, Listed(fs, file), o);
  }

  lemma ListedAfterCopy(fs: Files, file: string, target: string, o: Options)
    requires Plain(file) && file in fs
    ensures var first := CopyTo(fs, file, Under(target, file), o);
            file in first && ScannedOf(first, file) == ScannedOf(fs, file)
  {
    var dest := Under(target, file);
    var first := CopyTo(fs, file, dest, o);
    assert dest[|target|] == '/' && dest[|target|] in dest && '/' in SEPARATORS;
    SameListing(fs, file, first, file);
  }

  /** deb-remove takes away the manifest and the listed files that lie beside it. */
  lemma RemoveTakes(fs: Files, file: string)
    requires RemoveFile(fs, file).status == Running
    ensures var after := RemoveFile(fs, file).files;
            && file !in after
            && (forall f :: f in Listed(fs, file) ==> RubyDirname(file) + "/" + f !in after)
            && (forall p :: p != file && (forall f :: f in Listed(fs, file) ==> p != RubyDirname(file) + "/" + f) ==>
                  Entry(after, p) == Entry(fs, p))
  {
    RemovesExactly(fs, RubyDirname(file), Listed(fs, file));
    forall f | f in Listed(fs, file) ensures RubyDirname(file) + "/" + f !in RemoveFile(fs, file).files {
      assert Under(RubyDirname(file), f) == RubyDirname(file) + "/" + f;
    }
  }

  /////////////////////////////// packages and moves ///////////////////////////////

  /** A binary package lists nothing, whatever its bytes. */
  lemma DebListsNothing(fs: Files, stem: string, dir: string)
    requires Plain(stem) && MoreThanDots(stem)
    ensures ScannedOf(fs, dir + "/" + stem + ".deb") == Scanned([], false)
  {
    var base := stem + ".deb";
    assert Under(dir, base) == dir + "/" + stem + ".deb";
    RubyParts(dir, base);
    ExtensionIs(base, ".deb");
  }

  /** Moving onto itself raises and changes nothing. */
  lemma MoveOntoItself(fs: Files, file: string, target: string, o: Options)
    requires o.move && o.force && file in fs && Handled(RubyBasename(file)) && file == target + "/" + RubyBasename(file)
    requires ScannedOf(fs, file) == Scanned([], false)
    ensures ArchiveFile(fs, file, target, o) == Progress(fs, Raised)
  {
    HandledIs(RubyBasename(file));
  }

  /** A manifest that lists itself is moved with its files; the move of the manifest itself
      then raises unless it is forced. */
  lemma MoveListsItself(fs: Files, file: string, target: string, o: Options)
    requires o.move && !Refused(fs, file, target, o) && file == RubyDirname(file) + "/" + RubyBasename(file)
    requires RubyDirname(file) != target && Plain(RubyBasename(file))
    requires ScannedOf(fs, file) == Scanned([RubyBasename(file)], false)
    ensures ArchiveFile(fs, file, target, o) ==
              Progress(Renamed(fs, file, target + "/" + RubyBasename(file)), if o.force then Running else Raised)
  {
    var base, origin := RubyBasename(file), RubyDirname(file);
    HandledIs(base);
    if file == Under(target, base) {
      UnderInjective(origin, base, target, base);
    }
    OnlyEntry(fs, origin, target, base, o);
  }

  lemma OnlyEntry(fs: Files, origin: string, target: string, base: string, o: Options)
    requires o.move && Plain(base) && Under(origin, base) in fs && Under(origin, base) != Under(target, base)
    ensures ArchiveNames(Progress(fs, Running), origin, target, [base], o) ==
              Progress(Renamed(fs, Under(origin, base), Under(target, base)), Running)
  {
    assert [base][..0] == [];
    RubyParts(origin, base);
  }

  /////////////////////////////// what is done before it raises ///////////////////////////////

  /** Where deb-remove raises, what the manifest lists, up to a line it cannot read, is gone,
      and nothing else but perhaps the manifest. */
  lemma RemoveRaises(fs: Files, file: string)
    requires RemoveFile(fs, file).status == Raised
    ensures Without(fs, RubyDirname(file), Listed(fs, file), RemoveFile(fs, file).files)
  {
    RemovesExactly(fs, RubyDirname(file), Listed(fs, file));
  }

  /** Copying onto itself with force empties the manifest, and it then lists nothing. */
  lemma CopyOntoItself(fs: Files, file: string, target: string, o: Options)
    requires !o.move && o.force && file in fs && Handled(RubyBasename(file))
    requires file == target + "/" + RubyBasename(file)
    ensures ArchiveFile(fs, file, target, o) == Progress(fs[file := File("", fs[file].mode)], Running)
  {
    HandledIs(RubyBasename(file));
    assert Lines("") == [];
  }
}
