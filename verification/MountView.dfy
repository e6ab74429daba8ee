/** What a path leads to while mounts are made. */
module MountView {
  import opened Wrappers
  import opened Strings
  import opened MountStack
  import opened Plans
  import opened BuildIt
  import opened ShellIt
  import opened TaskQueue
  import opened Driver

  /** The mount that a path leads into, the last one made on it or above it; -1 for none. */
  function LeadsTo(t: Table, path: string): (i: int)
    ensures -1 <= i < |t|
    ensures i >= 0 ==> Beneath(t[i], path)
    ensures forall j :: i < j < |t| ==> !Beneath(t[j], path)
  {
    if t == [] then -1
    else if Beneath(t[|t| - 1], path) then |t| - 1
    else LeadsTo(t[..|t| - 1], path)
  }

  /** No mount is made over an earlier one. */
  ghost predicate NothingHidden(made: seq<string>) {
    forall i, j :: 0 <= i < j < |made| ==> !Beneath(made[j], made[i])
  }

  /** That is so if and only if the path of every mount leads to that mount. */
  lemma NothingHiddenIff(start: Table, made: seq<string>)
    ensures NothingHidden(made) <==> forall i :: 0 <= i < |made| ==> LeadsTo(start + made, made[i]) == |start| + i
  {
    forall i | 0 <= i < |made| ensures LeadsTo(start + made, made[i]) == |start| + i <==> Uncovered(made, i) {
      LeadsToOwn(start, made, i);
    }
    assert NothingHidden(made) <==> forall i :: 0 <= i < |made| ==> Uncovered(made, i);
  }

  ghost predicate Uncovered(made: seq<string>, i: nat)
    requires i < |made|
  {
    forall j :: i < j < |made| ==> !Beneath(made[j], made[i])
  }

  lemma LeadsToOwn(start: Table, made: seq<string>, i: nat)
    requires i < |made|
    ensures LeadsTo(start + made, made[i]) == |start| + i <==> Uncovered(made, i)
  {
    var t := start + made;
    if Uncovered(made, i) {
      LeadsBehind(start, made, made[i], i);
    } else {
      var j :| i < j < |made| && Beneath(made[j], made[i]);
      assert t[|start| + j] == made[j];
    }
  }

  lemma SameRoot(root: string, a: string, b: string)
    ensures Beneath(root + a, root + b) <==> Beneath(a, b)
  {
    assert root + a + "/" == root + (a + "/");
    if root + a == root + b {
      assert a == (root + a)[|root|..] == (root + b)[|root|..] == b;
    }
    if root + (a + "/") <= root + b {
      assert (root + b)[|root|..] == b;
      assert (root + b)[..|root + (a + "/")|] == root + (a + "/");
      assert b[..|a| + 1] == a + "/";
    }
  }

  lemma Apart(a: string, b: string, k: nat)
    requires k < |a| && (k < |b| ==> a[k] != b[k])
    ensures !Beneath(a, b)
  {
    assert |b| > |a| ==> (a + "/")[k] == a[k];
  }

  function Rooted(root: string, paths: seq<string>): (r: seq<string>)
    ensures |r| == |paths| && forall i :: 0 <= i < |paths| ==> r[i] == root + paths[i]
  {
    seq(|paths|, i requires 0 <= i < |paths| => root + paths[i])
  }

  lemma HiddenRooted(root: string, paths: seq<string>)
    ensures NothingHidden(Rooted(root, paths)) <==> NothingHidden(paths)
  {
    var made := Rooted(root, paths);
    forall i, j | 0 <= i < j < |paths| ensures Beneath(made[j], made[i]) <==> Beneath(paths[j], paths[i]) {
      SameRoot(root, paths[j], paths[i]);
    }
  }

  lemma HiddenAppend(a: seq<string>, b: seq<string>)
    ensures NothingHidden(a + b) <==>
              NothingHidden(a) && NothingHidden(b) && forall x, y :: x in a && y in b ==> !Beneath(y, x)
  {
    var all := a + b;
    if NothingHidden(all) {
      assert forall i :: 0 <= i < |a| ==> a[i] == all[i];
      assert forall i :: 0 <= i < |b| ==> b[i] == all[|a| + i];
      forall x, y | x in a && y in b ensures !Beneath(y, x) {
        var i :| 0 <= i < |a| && a[i] == x;
        var j :| 0 <= j < |b| && b[j] == y;
        assert all[i] == x && all[|a| + j] == y;
      }
    } else {
      var i, j :| 0 <= i < j < |all| && Beneath(all[j], all[i]);
      if i < |a| <= j {
        assert all[i] in a && all[j] in b;
      } else if |a| <= i {
        assert all[i] == b[i - |a|] && all[j] == b[j - |a|];
      }
    }
  }

  /////////////////////////////// buildit ///////////////////////////////

  /** What `buildit` mounts, below the directory of the session. */
  const BUILD := ["", "/root", "/dev", "/sys", "/dev/pts", "/dev/shm",
                  "/var/tmp", "/var/origin", "/var/results", "/var/archive", "/proc"]

  lemma BuildMade(session: string)
    ensures Made(BuildPlan(session)) == Rooted(session, BUILD)
  {
    MadeUpTo(session, |BuildPlan(session)|);
    assert BuildPlan(session)[..|BuildPlan(session)|] == BuildPlan(session);
    assert session + "" == session;
  }

  /** They are made so that none hides an earlier one: each path leads to its own mount. */
  lemma BuildHidesNothing(start: Table, session: string)
    ensures var made := Made(BuildPlan(session));
            && made == Rooted(session, BUILD) && NothingHidden(made)
            && forall i :: 0 <= i < |made| ==> LeadsTo(start + made, made[i]) == |start| + i
  {
    BuildMade(session);
    BuildApart();
    HiddenRooted(session, BUILD);
    NothingHiddenIff(start, Made(BuildPlan(session)));
  }

  lemma BuildApart()
    ensures NothingHidden(BUILD)
  {
    forall i, j | 0 <= i < j < |BUILD| ensures !Beneath(BUILD[j], BUILD[i]) {
      var a, b := BUILD[j], BUILD[i];
      Apart(a, b, if |b| < 2 || a[1] != b[1] then 1 else 5);
    }
  }

  /** While a task has its `/tmp` mounted, that is what `/tmp` leads to; the packages are read
      from `/var/origin`, results go to `/var/results`, both as `buildit` mounted them.  Before
      and after, `/tmp` belongs to the root of the session. */
  lemma TasksSee(start: Table, session: string, path: string)
    ensures var t := start + Made(BuildPlan(session));
            var during := t + [TaskTmp(session)];
            && LeadsTo(during, session + ("/tmp/" + path)) == |start| + 11 == |t|
            && LeadsTo(during, session + ("/var/origin/" + path)) == |start| + 7
            && LeadsTo(during, session + ("/var/results/" + path)) == |start| + 8
            && LeadsTo(t, session + "/tmp") == |start|
  {
    BuildMade(session);
    TasksLead(path);
    WithTmp(start, session);
    LeadsRooted(start, session, BUILD, "/tmp");
    LeadsRooted(start, session, DURING, "/tmp/" + path);
    LeadsRooted(start, session, DURING, "/var/origin/" + path);
    LeadsRooted(start, session, DURING, "/var/results/" + path);
  }

  const DURING := BUILD + ["/tmp"]

  lemma WithTmp(start: Table, session: string)
    ensures start + Rooted(session, BUILD) + [TaskTmp(session)] == start + Rooted(session, DURING)
  {
  }

  lemma TasksLead(path: string)
    ensures LeadsTo(BUILD, "/tmp") == 0 && LeadsTo(DURING, "/tmp/" + path) == 11
    ensures LeadsTo(DURING, "/var/origin/" + path) == 7 && LeadsTo(DURING, "/var/results/" + path) == 8
  {
    Leads(BUILD, 0, "/tmp");
    Leads(DURING, 11, "/tmp/" + path);
    Leads(DURING, 7, "/var/origin/" + path);
    Leads(DURING, 8, "/var/results/" + path);
  }

  /** Where every later mount differs from a path in its second or its sixth character. */
  lemma Leads(paths: seq<string>, i: nat, path: string)
    requires i < |paths| && |path| > 1 && Beneath(paths[i], path)
    requires forall j :: i < j < |paths| ==>
               |paths[j]| > 1 && (paths[j][1] != path[1] || (|paths[j]| > 5 && (|path| > 5 ==> paths[j][5] != path[5])))
    ensures LeadsTo(paths, path) == i
  {
    forall j | i < j < |paths| ensures !Beneath(paths[j], path) {
      Apart(paths[j], path, if paths[j][1] != path[1] then 1 else 5);
    }
  }

  /** The directory of the session does not matter. */
  lemma LeadsRooted(start: Table, root: string, paths: seq<string>, path: string)
    requires LeadsTo(paths, path) >= 0
    ensures LeadsTo(start + Rooted(root, paths), root + path) == |start| + LeadsTo(paths, path)
  {
    var t, made := start + Rooted(root, paths), Rooted(root, paths);
    forall k | 0 <= k < |paths| ensures Beneath(made[k], root + path) <==> Beneath(paths[k], path) {
      SameRoot(root, paths[k], path);
    }
    LeadsBehind(start, made, root + path, LeadsTo(paths, path));
  }

  lemma LeadsBehind(start: Table, made: seq<string>, path: string, i: nat)
    requires i < |made| && Beneath(made[i], path) && forall j :: i < j < |made| ==> !Beneath(made[j], path)
    ensures LeadsTo(start + made, path) == |start| + i
  {
    var t := start + made;
    assert t[|start| + i] == made[i];
    assert forall k :: |start| + i < k < |t| ==> t[k] == made[k - |start|];
  }

  /////////////////////////////// shellit ///////////////////////////////

  /** What `shellit` always mounts. */
  function Fixed(xserver: bool): seq<string> {
    ["", "/root", "/dev", "/sys", "/dev/pts", "/dev/shm", "/tmp", "/var/tmp"] +
    (if xserver then ["/var/lib/dbus", "/var/run/dbus"] else []) + ["/var/archive"]
  }

  /** The names of the usable bindings, in the order of the configuration. */
  function UsableNames(bindings: seq<Binding>): seq<string> {
    if bindings == [] then []
    else
      var last := bindings[|bindings| - 1];
      UsableNames(bindings[..|bindings| - 1]) + if last.usable then [last.name] else []
  }

  lemma {:induction false} UsableIs(bindings: seq<Binding>, user: string, i: nat)
    requires i <= |bindings|
    ensures Usable(bindings, user, i) == Rooted(user + "/", UsableNames(bindings[i..]))
    decreases |bindings| - i
  {
    if i < |bindings| {
      UsableIs(bindings, user, i + 1);
      NamesCons(bindings[i..]);
      assert bindings[i..][1..] == bindings[i + 1..];
    }
  }

  lemma {:induction false} NamesCons(bindings: seq<Binding>)
    requires bindings != []
    ensures UsableNames(bindings) ==
              (if bindings[0].usable then [bindings[0].name] else []) + UsableNames(bindings[1..])
  {
    if |bindings| > 1 {
      var init := bindings[..|bindings| - 1];
      NamesCons(init);
      assert bindings[1..][..|bindings| - 2] == init[1..];
    } else {
      assert bindings[1..] == [] && bindings[..0] == [];
    }
  }

  /** A user below the first ordinary one has no home mounted; others have it, and unless the
      shell is to start in the current directory, the usable bindings beneath it, in order. */
  lemma HomeMounts(session: string, who: Login)
    ensures who.uid < 1000 ==> HomePaths(session, who) == []
    ensures who.uid >= 1000 && who.current ==> HomePaths(session, who) == [session + who.home]
    ensures who.uid >= 1000 && !who.current ==>
              HomePaths(session, who) ==
                [session + who.home] + Rooted(session + who.home + "/", UsableNames(who.bindings))
  {
    UsableIs(who.bindings, session + who.home, 0);
    assert who.bindings[0..] == who.bindings;
  }

  /** What a login adds, below the directory of the session. */
  function Late(who: Login): seq<string> {
    if who.uid < 1000 then []
    else [who.home] + if who.current then [] else Rooted(who.home + "/", UsableNames(who.bindings))
  }

  lemma ShellMade(session: string, who: Login)
    ensures Made(ShellPlan(session, who)) == Rooted(session, (Fixed(who.xserver) + Late(who)) + ["/proc"])
  {
    PlanSplits(session, who);
    PrefixMakes(session, who);
    MadeConcat(ShellPrefix(session, who), ProcLast(session));
    MadeProc(session);
    FixedMade(session, who);
    LateMade(session, who);
    Regroup(SystemMounts(session) + [session + "/tmp", session + "/var/tmp"], XPaths(session, who),
            [session + "/var/archive"], HomePaths(session, who));
    RootedConcat(session, Fixed(who.xserver), Late(who));
    RootedConcat(session, Fixed(who.xserver) + Late(who), ["/proc"]);
    assert Rooted(session, ["/proc"]) == [session + "/proc"];
  }

  lemma Regroup(a: seq<string>, b: seq<string>, c: seq<string>, d: seq<string>)
    ensures a + (b + (c + d)) == (a + (b + c)) + d
  {
  }

  lemma RootedConcat(root: string, a: seq<string>, b: seq<string>)
    ensures Rooted(root, a + b) == Rooted(root, a) + Rooted(root, b)
  {
  }

  lemma FixedMade(session: string, who: Login)
    ensures (SystemMounts(session) + [session + "/tmp", session + "/var/tmp"]) +
            (XPaths(session, who) + [session + "/var/archive"]) == Rooted(session, Fixed(who.xserver))
  {
    assert session + "" == session;
  }

  lemma LateMade(session: string, who: Login)
    ensures HomePaths(session, who) == Rooted(session, Late(who))
  {
    HomeMounts(session, who);
    if who.uid >= 1000 && !who.current {
      var names := UsableNames(who.bindings);
      forall i | 0 <= i < |names| ensures session + who.home + "/" + names[i] == session + (who.home + "/" + names[i]) {
      }
    }
  }

  /** The home hides no other mount, the bindings neither, and `/proc` hides none of them. */
  ghost predicate HomeApart(who: Login) {
    who.uid >= 1000 ==>
      && (forall x :: x in Fixed(who.xserver) ==> !Beneath(who.home, x))
      && !Beneath("/proc", who.home)
      && (!who.current ==>
           && (forall x, n :: x in Fixed(who.xserver) && n in UsableNames(who.bindings) ==>
                 !Beneath(who.home + "/" + n, x))
           && NothingHidden(UsableNames(who.bindings)))
  }

  /** The mounts of `shellit` hide none of each other if and only if home and bindings are
      apart in this way from the fixed ones and among themselves. */
  lemma ShellHidesNothing(session: string, who: Login)
    ensures NothingHidden(Made(ShellPlan(session, who))) <==> HomeApart(who)
  {
    ShellMade(session, who);
    var fixed, late := Fixed(who.xserver), Late(who);
    HiddenRooted(session, (fixed + late) + ["/proc"]);
    HiddenAppend(fixed + late, ["/proc"]);
    HiddenAppend(fixed, late);
    FixedApart(who.xserver);
    LateApart(who);
  }

  lemma FixedApart(xserver: bool)
    ensures NothingHidden(Fixed(xserver)) && forall x :: x in Fixed(xserver) ==> !Beneath("/proc", x)
  {
    var fixed := Fixed(xserver);
    forall i, j | 0 <= i < j < |fixed| ensures !Beneath(fixed[j], fixed[i]) {
      var a, b := fixed[j], fixed[i];
      Apart(a, b, if |b| < 2 || a[1] != b[1] then 1 else 5);
    }
    forall i | 0 <= i < |fixed| ensures !Beneath("/proc", fixed[i]) {
      Apart("/proc", fixed[i], 1);
    }
  }

  lemma LateApart(who: Login)
    ensures var fixed, late := Fixed(who.xserver), Late(who);
            HomeApart(who) <==>
              NothingHidden(late) && (forall x, y :: x in fixed && y in late ==> !Beneath(y, x)) &&
              (forall y :: y in late ==> !Beneath("/proc", y))
  {
    if who.uid >= 1000 {
      var home, names := who.home, UsableNames(who.bindings);
      assert "" in Fixed(who.xserver);
      assert home in Late(who);
      if !who.current {
        var bound := Rooted(home + "/", names);
        HiddenAppend([home], bound);
        HiddenRooted(home + "/", names);
        BoundIn(home, names);
      }
    }
  }

  lemma BoundIn(home: string, names: seq<string>)
    ensures var bound := Rooted(home + "/", names);
            && (forall y :: y in bound <==> exists n :: n in names && y == home + "/" + n)
            && (forall y :: y in bound ==> !Beneath(y, home))
            && (home != "" && !Beneath("/proc", home) ==> forall y :: y in bound ==> !Beneath("/proc", y))
  {
    var bound := Rooted(home + "/", names);
    forall n | n in names ensures home + "/" + n in bound {
      var i :| 0 <= i < |names| && names[i] == n;
      assert bound[i] == home + "/" + n;
    }
    forall y | y in bound
      ensures !Beneath(y, home) && (home != "" && !Beneath("/proc", home) ==> !Beneath("/proc", y))
    {
      var i :| 0 <= i < |bound| && bound[i] == y;
      ProcAbove(home, names[i]);
    }
  }

  lemma ProcAbove(home: string, name: string)
    ensures home != "" && Beneath("/proc", home + "/" + name) ==> Beneath("/proc", home)
  {
    var path := home + "/" + name;
    assert path[|home|] == '/';
    if home != "" && Beneath("/proc", path) {
      var proc := "/proc";
      assert forall k :: 0 < k < 5 ==> path[k] == proc[k] != '/';
      assert |home| >= 5 && home[..5] == path[..5];
      assert |home| > 5 ==> home[5] == path[5];
    }
  }

  ghost predicate DistinctNames(names: seq<string>) {
    && (forall n :: n in names ==> '/' !in n)
    && (forall i, j :: 0 <= i < j < |names| ==> names[i] != names[j])
  }

  lemma NamesApart(names: seq<string>)
    requires DistinctNames(names)
    ensures NothingHidden(names)
  {
    forall i, j | 0 <= i < j < |names| ensures !Beneath(names[j], names[i]) {
      assert names[i] in names;
      if Beneath(names[j], names[i]) {
        SlashBeneath(names[j], names[i]);
        assert false;
      }
    }
  }

  /** So it is for ordinary homes and distinct names without a slash. */
  lemma OrdinaryHome(session: string, who: Login)
    requires "/home/" <= who.home
    requires DistinctNames(UsableNames(who.bindings))
    ensures NothingHidden(Made(ShellPlan(session, who)))
  {
    var names := UsableNames(who.bindings);
    forall x | x in Fixed(who.xserver) ensures !Beneath(who.home, x) {
      Apart(who.home, x, 1);
    }
    forall x, n | x in Fixed(who.xserver) && n in names ensures !Beneath(who.home + "/" + n, x) {
      assert (who.home + "/" + n)[1] == who.home[1];
      Apart(who.home + "/" + n, x, 1);
    }
    Apart("/proc", who.home, 1);
    NamesApart(names);
    ShellHidesNothing(session, who);
  }

  lemma SlashBeneath(a: string, b: string)
    requires Beneath(a, b) && a != b
    ensures '/' in b
  {
    assert b[|a|] == '/';
  }
}
