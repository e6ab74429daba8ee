/** The path functions of src/fsys.cpp.

    `dirname` and `basename` cut a path at the last of the separators `/`, `\` and `:`.
    They work on the text alone, so they undo the joining of a directory and a name only
    for some of them: DirnameOfUnder and BasenameOfUnder say for which. */
module Paths {
  import opened Strings

  const SEPARATORS := "/\\:"

  function Dirname(path: string): string {
    var lpos, fpos := FindLastOf(path, SEPARATORS), FindFirstOf(path, SEPARATORS, 0);
    if lpos == -1 then "."
    else if lpos == fpos && lpos == |path| - 1 then "."
    else path[..lpos]
  }

  /** A path whose last separator stands at index 0 is returned as it is. */
  function Basename(path: string): string {
    var pos := FindLastOf(path, SEPARATORS);
    if pos == 0 then path else path[pos + 1..]
  }

  function Under(dir: string, name: string): string {
    dir + "/" + name
  }

  predicate Plain(name: string) {
    Free(name, SEPARATORS)
  }

  lemma LastSeparator(dir: string, name: string)
    requires Plain(name)
    ensures FindLastOf(Under(dir, name), SEPARATORS) == |dir|
  {
    var path := Under(dir, name);
    forall i | |dir| < i < |path| ensures path[i] !in SEPARATORS {
      assert path[i] == name[i - |dir| - 1] && name[i - |dir| - 1] in name;
    }
    FindLastOfIs(path, SEPARATORS, |dir|);
  }

  /** A path without a separator is a name in the current directory. */
  lemma PlainPath(path: string)
    requires Plain(path)
    ensures Dirname(path) == "." && Basename(path) == path
  {
    forall i | 0 <= i < |path| ensures path[i] !in SEPARATORS {
      assert path[i] in path;
    }
    FindLastOfIs(path, SEPARATORS, -1);
    assert path[0..] == path;
  }

  /** Any other path has a last separator, which may be any of the three: `dirname` is what
      stands in front of it, or the current directory if nothing but a first separator ends
      the path; `basename` is what stands behind it, or the whole path if it comes first. */
  lemma CutPath(dir: string, c: char, name: string)
    requires c in SEPARATORS && Plain(name)
    ensures Dirname(dir + [c] + name) == if name == "" && Plain(dir) then "." else dir
    ensures Basename(dir + [c] + name) == if dir == "" then [c] + name else name
  {
    var path := dir + [c] + name;
    forall i | |dir| < i < |path| ensures path[i] !in SEPARATORS {
      assert path[i] == name[i - |dir| - 1] && name[i - |dir| - 1] in name;
    }
    FindLastOfIs(path, SEPARATORS, |dir|);
    assert path[..|dir|] == dir && path[|dir| + 1..] == name;
    if Plain(dir) {
      forall i | 0 <= i < |dir| ensures path[i] !in SEPARATORS {
        assert path[i] == dir[i] && dir[i] in dir;
      }
      FindFirstOfIs(path, SEPARATORS, 0, |dir|);
    } else {
      FirstSpec(path, SEPARATORS, true, 0);
      var s :| s in dir && s in SEPARATORS;
      var i :| 0 <= i < |dir| && dir[i] == s;
      assert path[i] == s;
    }
  }

  /** `dirname` undoes joining exactly when the name is not empty, or the directory has a
      separator of its own, or it is the current directory. */
  lemma DirnameOfUnder(dir: string, name: string)
    requires Plain(name)
    ensures Dirname(Under(dir, name)) == dir <==> name != "" || !Plain(dir) || dir == "."
  {
    var path := Under(dir, name);
    LastSeparator(dir, name);
    assert path[..|dir|] == dir;
    var fpos := FindFirstOf(path, SEPARATORS, 0);
    FirstSpec(path, SEPARATORS, true, 0);
    if !Plain(dir) {
      var c :| c in dir && c in SEPARATORS;
      var i :| 0 <= i < |dir| && dir[i] == c;
      assert path[i] == c;
    } else {
      forall i | 0 <= i < |dir| ensures path[i] !in SEPARATORS {
        assert path[i] == dir[i] && dir[i] in dir;
      }
      FindFirstOfIs(path, SEPARATORS, 0, |dir|);
    }
  }

  /** `basename` undoes joining exactly when the directory is not empty. */
  lemma BasenameOfUnder(dir: string, name: string)
    requires Plain(name)
    ensures Basename(Under(dir, name)) == name <==> dir != ""
  {
    LastSeparator(dir, name);
    var path := Under(dir, name);
    assert path[|dir| + 1..] == name;
    assert dir == "" ==> |path| == |name| + 1;
  }

  lemma UnderInjective(dir: string, name: string, dir': string, name': string)
    requires Plain(name) && Plain(name') && Under(dir, name) == Under(dir', name')
    ensures dir == dir' && name == name'
  {
    LastSeparator(dir, name);
    LastSeparator(dir', name');
    var path := Under(dir, name);
    assert path[..|dir|] == dir && path[|dir| + 1..] == name;
    assert path[..|dir'|] == dir' && path[|dir'| + 1..] == name';
  }

  function Tmp(path: string): string {
    path + ".tmp"
  }

  lemma TmpOfUnder(dir: string, name: string)
    ensures Tmp(Under(dir, name)) == Under(dir, Tmp(name))
    ensures Plain(name) ==> Plain(Tmp(name))
  {
    assert (dir + "/" + name) + ".tmp" == dir + "/" + (name + ".tmp");
  }

  lemma TmpInjective(a: string, b: string)
    requires Tmp(a) == Tmp(b)
    ensures a == b
  {
    assert Tmp(a)[..|a|] == a && Tmp(b)[..|b|] == b;
  }
}
