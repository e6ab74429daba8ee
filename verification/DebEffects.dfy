/** What utils/deb-archive.rb and utils/deb-remove.rb do to the file system. */
module DebEffects {
  import opened Wrappers
  import opened Strings
  import opened Paths
  import opened FileSystem
  import opened DebTools
  import opened Fsys

  /** Why a tool stopped: `Aborted` by a check, `Exited` quietly, `Raised` by Ruby. */
  datatype Status = Running | Aborted | Exited | Raised
  datatype Progress = Progress(files: Files, status: Status)

  /** `umask` stands for the process's mask applied to the mode of a new file. */
  datatype Options = Options(force: bool, move: bool, preserve: bool, umask: nat -> nat)

  /** `File.dirname` for paths without doubled or trailing separators. */
  function RubyDirname(path: string): string {
    var pos := FindLastOf(path, "/");
    if pos == -1 then "." else if pos == 0 then "/" else path[..pos]
  }

  /** `File.basename` for the same paths. */
  function RubyBasename(path: string): string {
    path[FindLastOf(path, "/") + 1..]
  }

  /** The name ends in the extension and has more than dots before it. */
  predicate HasExtension(base: string, ext: string) {
    |ext| <= |base| && base[|base| - |ext|..] == ext && exists i :: 0 <= i < |base| - |ext| && base[i] != '.'
  }

  predicate KnownExtension(base: string) {
    HasExtension(base, ".dsc") || HasExtension(base, ".deb") || HasExtension(base, ".changes")
  }

  /** `FileUtils.copy_file`: the destination is truncated before the source is read. */
  function CopyTo(fs: Files, from: string, to: string, o: Options): Files
    requires from in fs
  {
    var mode := if o.preserve then fs[from].mode else if to in fs then fs[to].mode else o.umask(fs[from].mode);
    fs[to := File(if from == to then "" else fs[from].content, mode)]
  }

  /** One listed file: skipped when it is not there. */
  function ArchiveEntry(p: Progress, from: string, to: string, o: Options): Progress {
    if p.status != Running || from !in p.files then p
    else if !o.move then p.(files := CopyTo(p.files, from, to, o))
    else if from == to then p.(status := Raised)
    else p.(files := Renamed(p.files, from, to))
  }

  function ArchiveNames(p: Progress, origin: string, target: string, names: seq<string>, o: Options): Progress {
    if names == [] then p
    else
      var from := Under(origin, names[|names| - 1]);
      ArchiveEntry(ArchiveNames(p, origin, target, names[..|names| - 1], o), from, Under(target, RubyBasename(from)), o)
  }

  function ScannedOf(fs: Files, file: string): Scanned {
    if HasExtension(RubyBasename(file), ".deb") || file !in fs then Scanned([], false) else RubyNames(fs[file])
  }

  /** One argument of deb-archive: the manifest is copied first, or moved last. */
  function ArchiveFile(fs: Files, file: string, target: string, o: Options): Progress {
    var dest := Under(target, RubyBasename(file));
    if file !in fs || !KnownExtension(RubyBasename(file)) || (dest in fs && !o.force) then Progress(fs, Aborted)
    else
      var start := if o.move then fs else CopyTo(fs, file, dest, o);
      var scanned := ScannedOf(start, file);
      var listed := ArchiveNames(Progress(start, Running), RubyDirname(file), target, scanned.names, o);
      if listed.status != Running then listed
      else if scanned.raised then listed.(status := Raised)
      else if !o.move then listed
      else if file !in listed.files then listed.(status := if o.force then Running else Raised)
      else ArchiveEntry(listed, file, dest, o)
  }

  function ArchiveAll(p: Progress, files: seq<string>, target: string, o: Options): Progress {
    if files == [] then p
    else
      var before := ArchiveAll(p, files[..|files| - 1], target, o);
      if before.status != Running then before
      else ArchiveFile(before.files, files[|files| - 1], target, o)
  }

  function RemoveNames(fs: Files, origin: string, names: seq<string>): Files {
    if names == [] then fs
    else RemoveNames(fs, origin, names[..|names| - 1]) - {Under(origin, names[|names| - 1])}
  }

  /** One argument of deb-remove: listed files that are there go first, the manifest last. */
  function RemoveFile(fs: Files, file: string): Progress {
    if !KnownExtension(RubyBasename(file)) then Progress(fs, Aborted)
    else if file !in fs then Progress(fs, Exited)
    else
      var scanned := ScannedOf(fs, file);
      var listed := RemoveNames(fs, RubyDirname(file), scanned.names);
      if scanned.raised || file !in listed then Progress(listed, Raised)
      else Progress(listed - {file}, Running)
  }

  function RemoveEach(p: Progress, files: seq<string>): Progress {
    if files == [] then p
    else
      var before := RemoveEach(p, files[..|files| - 1]);
      if before.status != Running then before else RemoveFile(before.files, files[|files| - 1])
  }

  /////////////////////////////// the scripts ///////////////////////////////

  /** So far `names` were read; `more` is what the rest of the manifest will give. */
  ghost predicate Reads(scanned: Scanned, names: seq<string>, more: Scanned) {
    scanned == Scanned(names + more.names, more.raised)
  }

  lemma ReadsNext(scanned: Scanned, names: seq<string>, name: string, more: Scanned)
    requires Reads(scanned, names, Scanned([name] + more.names, more.raised))
    ensures Reads(scanned, names + [name], more)
  {
    assert names + ([name] + more.names) == (names + [name]) + more.names;
  }

  lemma ReadsEnd(scanned: Scanned, names: seq<string>, raised: bool)
    requires Reads(scanned, names, Scanned([], raised))
    ensures scanned == Scanned(names, raised)
  {
    assert names + [] == names;
  }

  /** One turn of the flip-flop and the skips after it: the entry's name, if it has one. */
  method ReadEntry(lines: seq<string>, closed: bool, i: nat, on: bool, ghost scanned: Scanned, ghost names: seq<string>)
    returns (on': bool, entry: Maybe<string>, raised: bool)
    requires i < |lines| && Reads(scanned, names, RubyScan(lines[i..], closed, on))
    ensures raised ==> scanned == Scanned(names, true)
    ensures !raised ==>
              Reads(scanned, if entry.Some? then names + [entry.value] else names,
                    RubyScan(lines[i + 1..], closed, on'))
  {
    on', entry, raised := on, None, false;
    var line := lines[i];
    assert lines[i..][0] == line && lines[i..][1..] == lines[i + 1..];
    if !on {
      if !OpensBlock(line) {
        return;
      }
      on' := true;
    } else if line == "" {
      on' := false;
    }
    if line == "" || StripsToFiles(line, i + 1 < |lines| || closed) {
      return;
    }
    var words := Words(line);
    if words == [] {
      raised := true;
      ReadsEnd(scanned, names, true);
    } else {
      entry := Some(words[|words| - 1]);
      ReadsNext(scanned, names, entry.value, RubyScan(lines[i + 1..], closed, true));
    }
  }

  /** What deb-archive does with one entry. */
  method ArchiveOne(disk: Disk, from: string, to: string, o: Options) returns (status: Status)
    modifies disk
    ensures Progress(disk.files, status) == ArchiveEntry(Progress(old(disk.files), Running), from, to, o)
  {
    if from !in disk.files {
      return Running;
    }
    if !o.move {
      disk.Write(to, CopyTo(disk.files, from, to, o)[to]);
    } else {
      if from == to {
        return Raised;
      }
      disk.Rename(from, to);
    }
    return Running;
  }

  /** The loop over the lines of a manifest in deb-archive. */
  method ArchiveListed(disk: Disk, file: string, origin: string, target: string, o: Options) returns (status: Status)
    requires file in disk.files
    modifies disk
    ensures var scanned := RubyNames(old(disk.files)[file]);
            var listed := ArchiveNames(Progress(old(disk.files), Running), origin, target, scanned.names, o);
            disk.files == listed.files &&
            status == if listed.status == Running && scanned.raised then Raised else listed.status
  {
    var content := disk.files[file].content;
    var lines, closed := Lines(content), EndsInNewline(content);
    ghost var start, scanned := Progress(disk.files, Running), RubyNames(disk.files[file]);
    ghost var names: seq<string> := [];
    var on := false;
    assert lines[0..] == lines;
    assert [] + scanned.names == scanned.names;
    var i := 0;
    while i < |lines|
      invariant 0 <= i <= |lines|
      invariant ArchiveNames(start, origin, target, names, o) == Progress(disk.files, Running)
      invariant Reads(scanned, names, RubyScan(lines[i..], closed, on))
    {
      var entry, raised;
      on, entry, raised := ReadEntry(lines, closed, i, on, scanned, names);
      i := i + 1;
      if raised {
        return Raised;
      }
      if entry.Some? {
        assert (names + [entry.value])[..|names|] == names;
        names := names + [entry.value];
        var source := Under(origin, entry.value);
        status := ArchiveOne(disk, source, Under(target, RubyBasename(source)), o);
        if status != Running {
          ArchiveStops(start, origin, target, names, RubyScan(lines[i..], closed, on).names, o);
          return;
        }
      }
    }
    ReadsEnd(scanned, names, false);
    return Running;
  }

  /** The body of deb-archive's loop over its files. */
  method DebArchiveFile(disk: Disk, file: string, target: string, o: Options) returns (status: Status)
    modifies disk
    ensures Progress(disk.files, status) == ArchiveFile(old(disk.files), file, target, o)
  {
    var base := RubyBasename(file);
    var dest := Under(target, base);
    if file !in disk.files || !KnownExtension(base) || (dest in disk.files && !o.force) {
      return Aborted;
    }
    if !o.move {
      disk.Write(dest, CopyTo(disk.files, file, dest, o)[dest]);
    }
    if !HasExtension(base, ".deb") {
      status := ArchiveListed(disk, file, RubyDirname(file), target, o);
      if status != Running {
        return;
      }
    }
    if !o.move {
      return Running;
    }
    if file !in disk.files {
      return if o.force then Running else Raised;
    }
    status := ArchiveOne(disk, file, dest, o);
  }

  lemma {:induction false} ArchiveStops(p: Progress, origin: string, target: string, names: seq<string>,
                                        rest: seq<string>, o: Options)
    requires ArchiveNames(p, origin, target, names, o).status != Running
    ensures ArchiveNames(p, origin, target, names + rest, o) == ArchiveNames(p, origin, target, names, o)
  {
    if rest == [] {
      assert names + rest == names;
    } else {
      ArchiveStops(p, origin, target, names, rest[..|rest| - 1], o);
      assert (names + rest)[..|names + rest| - 1] == names + rest[..|rest| - 1];
    }
  }

  /** deb-archive: stops at the first file that aborts or raises. */
  method DebArchive(disk: Disk, files: seq<string>, target: string, o: Options) returns (status: Status)
    modifies disk
    ensures Progress(disk.files, status) == ArchiveAll(Progress(old(disk.files), Running), files, target, o)
  {
    status := Running;
    var i := 0;
    while i < |files|
      invariant 0 <= i <= |files|
      invariant Progress(disk.files, status) == ArchiveAll(Progress(old(disk.files), Running), files[..i], target, o)
    {
      assert files[..i + 1][..i] == files[..i];
      i := i + 1;
      if status == Running {
        status := DebArchiveFile(disk, files[i - 1], target, o);
      }
    }
    assert files[..i] == files;
  }

  /** The loop over the lines of a manifest in deb-remove. */
  method RemoveListed(disk: Disk, file: string, origin: string) returns (raised: bool)
    requires file in disk.files
    modifies disk
    ensures var scanned := RubyNames(old(disk.files)[file]);
            disk.files == RemoveNames(old(disk.files), origin, scanned.names) && raised == scanned.raised
  {
    var content := disk.files[file].content;
    var lines, closed := Lines(content), EndsInNewline(content);
    ghost var start, scanned := disk.files, RubyNames(disk.files[file]);
    ghost var names: seq<string> := [];
    var on := false;
    assert lines[0..] == lines;
    assert [] + scanned.names == scanned.names;
    var i := 0;
    while i < |lines|
      invariant 0 <= i <= |lines|
      invariant RemoveNames(start, origin, names) == disk.files
      invariant Reads(scanned, names, RubyScan(lines[i..], closed, on))
    {
      var entry;
      on, entry, raised := ReadEntry(lines, closed, i, on, scanned, names);
      i := i + 1;
      if raised {
        return;
      }
      if entry.Some? {
        assert (names + [entry.value])[..|names|] == names;
        names := names + [entry.value];
        var path := Under(origin, entry.value);
        assert path !in disk.files ==> disk.files - {path} == disk.files;
        if path in disk.files {
          var _ := disk.Remove(path, {});
        }
      }
    }
    ReadsEnd(scanned, names, false);
    return false;
  }

  /** The body of deb-remove's loop over its arguments. */
  method DebRemoveFile(disk: Disk, file: string) returns (status: Status)
    modifies disk
    ensures Progress(disk.files, status) == RemoveFile(old(disk.files), file)
  {
    var base := RubyBasename(file);
    if !KnownExtension(base) {
      return Aborted;
    }
    if file !in disk.files {
      return Exited;
    }
    if !HasExtension(base, ".deb") {
      var raised := RemoveListed(disk, file, RubyDirname(file));
      if raised {
        return Raised;
      }
    }
    var ok := disk.Remove(file, {});
    return if ok then Running else Raised;
  }

  /** deb-remove: stops at the first argument that aborts, is missing or raises. */
  method DebRemove(disk: Disk, files: seq<string>) returns (status: Status)
    modifies disk
    ensures Progress(disk.files, status) == RemoveEach(Progress(old(disk.files), Running), files)
  {
    status := Running;
    var i := 0;
    while i < |files|
      invariant 0 <= i <= |files|
      invariant Progress(disk.files, status) == RemoveEach(Progress(old(disk.files), Running), files[..i])
    {
      assert files[..i + 1][..i] == files[..i];
      i := i + 1;
      if status == Running {
        status := DebRemoveFile(disk, files[i - 1]);
      }
    }
    assert files[..i] == files;
  }
}
