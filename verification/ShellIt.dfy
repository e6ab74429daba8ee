/** The mounts of src/shellit.cpp. */
module ShellIt {
  import opened MountStack
  import opened Mount
  import opened Plans

  /** A binding `name` of the configuration, and whether both its directories exist. */
  datatype Binding = Binding(name: string, usable: bool)

  /** What `shellit` mounts depends on who calls it and on the configuration. */
  datatype Login = Login(xserver: bool, uid: nat, current: bool, home: string, bindings: seq<Binding>)

  const FIRST_USER := 1000

  function Usable(bindings: seq<Binding>, user: string, i: nat := 0): seq<string>
    decreases |bindings| - i
  {
    if i >= |bindings| then []
    else (if bindings[i].usable then [user + "/" + bindings[i].name] else []) + Usable(bindings, user, i + 1)
  }

  /** The late binds of `home_mount`, which is object 11, and of the `bind_mount` array. */
  function HomePaths(session: string, who: Login): seq<string> {
    if who.uid < FIRST_USER then []
    else [session + who.home] + if who.current then [] else Usable(who.bindings, session + who.home)
  }

  function XPaths(session: string, who: Login): seq<string> {
    if who.xserver then [session + "/var/lib/dbus", session + "/var/run/dbus"] else []
  }

  function ShellTail(session: string, who: Login): seq<Action> {
    Constructs([session + "/var/archive"]) +
    (Defaults(1 + |who.bindings| + 1) + (Binds(11, HomePaths(session, who)) + ProcLast(session)))
  }

  function ShellPlan(session: string, who: Login): seq<Action> {
    Constructs(SystemMounts(session) + [session + "/tmp", session + "/var/tmp"]) +
    (Defaults(2) + (Binds(8, XPaths(session, who)) + ShellTail(session, who)))
  }

  lemma {:induction false} UsableBound(bindings: seq<Binding>, user: string, i: nat := 0)
    requires i <= |bindings|
    ensures |Usable(bindings, user, i)| <= |bindings| - i
    ensures "" !in Usable(bindings, user, i)
    decreases |bindings| - i
  {
    if i < |bindings| {
      UsableBound(bindings, user, i + 1);
    }
  }

  lemma ShellTailInOrder(session: string, who: Login, hi: nat)
    requires session != ""
    ensures InOrder(ShellTail(session, who), 10, hi)
  {
    var home := HomePaths(session, who);
    var n := 11 + 1 + |who.bindings| + 1;
    UsableBound(who.bindings, session + who.home);
    ProcLastInOrder(session, n, if home == [] then 11 else 11 + |home|);
    BindsInOrder(11, home, ProcLast(session), n, 11);
    DefaultsInOrder(1 + |who.bindings| + 1, Binds(11, home) + ProcLast(session), 11, 11);
    ConstructsInOrder([session + "/var/archive"], ShellTail(session, who)[1..], 10, hi);
    assert ShellTail(session, who)[1..] ==
           Defaults(1 + |who.bindings| + 1) + (Binds(11, home) + ProcLast(session));
  }

  /** Whatever the options, the caller and the configuration, `shellit` binds in the order of
      declaration, each object once, and never runs out of the `bind_mount` array. */
  lemma ShellPlanInOrder(session: string, who: Login)
    requires session != ""
    ensures InOrder(ShellPlan(session, who), 0, 0)
  {
    var x := XPaths(session, who);
    var paths := SystemMounts(session) + [session + "/tmp", session + "/var/tmp"];
    ShellTailInOrder(session, who, if x == [] then 8 else 8 + |x|);
    BindsInOrder(8, x, ShellTail(session, who), 10, 8);
    DefaultsInOrder(2, Binds(8, x) + ShellTail(session, who), 8, 8);
    ConstructsInOrder(paths, Defaults(2) + (Binds(8, x) + ShellTail(session, who)), 0, 0);
  }

  /** All but the child's mount, and what adopts it. */
  function ShellPrefix(session: string, who: Login): seq<Action> {
    Constructs(SystemMounts(session) + [session + "/tmp", session + "/var/tmp"]) +
    (Defaults(2) + (Binds(8, XPaths(session, who)) + (Constructs([session + "/var/archive"]) +
    (Defaults(1 + |who.bindings| + 1) + Binds(11, HomePaths(session, who))))))
  }

  lemma PlanSplits(session: string, who: Login)
    ensures ShellPlan(session, who) == ShellPrefix(session, who) + ProcLast(session)
  {
  }

  lemma PrefixAdoptsNothing(session: string, who: Login)
    ensures NoAdopt(ShellPrefix(session, who))
  {
  }

  lemma PrefixMakes(session: string, who: Login)
    ensures Made(ShellPrefix(session, who)) ==
            (SystemMounts(session) + [session + "/tmp", session + "/var/tmp"]) +
            (XPaths(session, who) + ([session + "/var/archive"] + HomePaths(session, who)))
  {
    var x, home := XPaths(session, who), HomePaths(session, who);
    var late := Defaults(1 + |who.bindings| + 1) + Binds(11, home);
    var archive := Constructs([session + "/var/archive"]) + late;
    MadeConcat(Defaults(1 + |who.bindings| + 1), Binds(11, home));
    MadeDefaults(1 + |who.bindings| + 1);
    MadeBinds(11, home);
    assert Made(late) == home;
    MadeConstructs([session + "/var/archive"], late);
    MadeConcat(Binds(8, x), archive);
    MadeBinds(8, x);
    MadeConcat(Defaults(2), Binds(8, x) + archive);
    MadeDefaults(2);
    assert Made(Defaults(2) + (Binds(8, x) + archive)) == x + ([session + "/var/archive"] + home);
    MadeConstructs(SystemMounts(session) + [session + "/tmp", session + "/var/tmp"],
                   Defaults(2) + (Binds(8, x) + archive));
  }

  /** None of the fixed mounts is the session's `/proc`. */
  lemma ProcApart(session: string, who: Login)
    ensures session + "/proc" !in SystemMounts(session) + [session + "/tmp", session + "/var/tmp"]
    ensures session + "/proc" !in XPaths(session, who) + [session + "/var/archive"]
  {
    var proc := session + "/proc";
    var fixed := SystemMounts(session) + [session + "/tmp", session + "/var/tmp"];
    forall i | 0 <= i < |fixed| ensures fixed[i] != proc {
      if |fixed[i]| == |proc| {
        assert fixed[i][|session| + 1] != 'p' && proc[|session| + 1] == 'p';
      }
    }
    var other := XPaths(session, who) + [session + "/var/archive"];
    forall i | 0 <= i < |other| ensures other[i] != proc {
      assert |other[i]| > |proc|;
    }
  }

  /** Made in one order, unmounted in the other, wherever `shellit` stops.  Only when the
      child's mount was adopted and not made must the session's `/proc` not have been mounted
      before, nor be a home or a binding. */
  lemma ShellItRestores(start: Table, session: string, who: Login, k: nat)
    requires session != "" && k <= |ShellPlan(session, who)|
    requires k == |ShellPlan(session, who)| - 1 ==>
               session + "/proc" !in start && session + "/proc" !in HomePaths(session, who)
    ensures var end := From(Scope(start, []), ShellPlan(session, who)[..k]);
            end.Some? && Unwind(end.value.table, end.value.slots) == start
  {
    var plan, prefix := ShellPlan(session, who), ShellPrefix(session, who);
    ShellPlanInOrder(session, who);
    PlanSplits(session, who);
    PrefixAdoptsNothing(session, who);
    if k > 0 && plan[k - 1].Adopt? {
      assert k == |plan| - 1;
      assert plan[..k] == prefix + [Adopt(session + "/proc")];
      PrefixMakes(session, who);
      MadeConcat(prefix, [Adopt(session + "/proc")]);
      assert Made([Adopt(session + "/proc")]) == [];
      ProcApart(session, who);
    }
    UnwindRestores(start, plan, k);
  }

  predicate Apart(binds: seq<MountPoint>) {
    forall i, j :: 0 <= i < j < |binds| ==> binds[i] != binds[j]
  }

  /** The first `made` objects hold the first paths, the others nothing. */
  ghost predicate Bound(binds: seq<MountPoint>, paths: seq<string>, made: nat)
    requires made <= |paths|
    reads set o | o in binds
  {
    forall i :: 0 <= i < |binds| ==> binds[i].path == if i < made then paths[i] else ""
  }

  function Min(a: nat, b: nat): nat {
    if a < b then a else b
  }

  /** The usable bindings before `i` are those `made`. */
  ghost predicate Left(bindings: seq<Binding>, user: string, i: nat, made: seq<string>) {
    i <= |bindings| && made + Usable(bindings, user, i) == Usable(bindings, user)
  }

  lemma LeftNext(bindings: seq<Binding>, user: string, i: nat, made: seq<string>)
    requires i < |bindings| && Left(bindings, user, i, made)
    ensures var path := user + "/" + bindings[i].name;
            if bindings[i].usable then
              && Left(bindings, user, i + 1, made + [path])
              && |made| < |Usable(bindings, user)|
              && Usable(bindings, user)[..|made|] == made
            else Left(bindings, user, i + 1, made)
  {
    var path, rest := user + "/" + bindings[i].name, Usable(bindings, user, i + 1);
    if bindings[i].usable {
      assert Usable(bindings, user, i) == [path] + rest;
      assert made + ([path] + rest) == (made + [path]) + rest;
    } else {
      assert Usable(bindings, user, i) == [] + rest == rest;
    }
  }

  /** `bind_mount[entry].bind` behind those that hold the paths `made`. */
  method BindAt(table: MountTable, binds: seq<MountPoint>, entry: nat, to: string, fails: bool, ghost made: seq<string>)
    returns (ok: bool)
    requires Apart(binds) && entry < |binds| && entry == |made| && Bound(binds, made, entry)
    modifies table, set o | o in binds
    ensures ok == !fails && table.calls == old(table.calls)
    ensures table.mounted == if ok then old(table.mounted) + [to] else old(table.mounted)
    ensures if ok then Bound(binds, made + [to], entry + 1) else Bound(binds, made, entry)
  {
    ok := binds[entry].Bind(table, to, fails);
  }

  /** The array `bind_mount`, filled from the front as usable bindings are met. */
  method BindAll(table: MountTable, binds: seq<MountPoint>, user: string, bindings: seq<Binding>, failing: nat)
    returns (ok: bool)
    requires |binds| == |bindings| + 1 && Apart(binds)
    requires Bound(binds, [], 0)
    modifies table, set o | o in binds
    ensures var paths := Usable(bindings, user);
            var made := paths[..Min(failing, |paths|)];
            && ok == (failing >= |paths|)
            && table.mounted == old(table.mounted) + made
            && table.calls == old(table.calls)
            && Bound(binds, made, |made|)
  {
    ghost var made := [];
    var entry, i := 0, 0;
    while i < |bindings|
      invariant entry == |made| && entry <= i <= |bindings| && entry <= failing
      invariant Left(bindings, user, i, made)
      invariant table.mounted == old(table.mounted) + made && table.calls == old(table.calls)
      invariant Bound(binds, made, entry)
    {
      var pair := bindings[i];
      LeftNext(bindings, user, i, made);
      i := i + 1;
      if !pair.usable {
        continue;
      }
      ok := BindAt(table, binds, entry, user + "/" + pair.name, failing == entry, made);
      if !ok {
        return;
      }
      made := made + [user + "/" + pair.name];
      entry := entry + 1;
    }
    assert made + [] == made;
    ok := true;
  }

  /** `home_mount`, then the array; the mount number `failing` of them raises. */
  method BindHome(table: MountTable, home: MountPoint, binds: seq<MountPoint>, session: string, who: Login,
                  failing: nat)
    returns (ok: bool, ghost rest: seq<string>)
    requires session != "" && |binds| == |who.bindings| + 1 && Apart(binds)
    requires home.path == "" && home !in binds && Bound(binds, [], 0)
    modifies table, home, set o | o in binds
    ensures var paths := HomePaths(session, who);
            && ok == (failing >= |paths|)
            && (if home.path == "" then [] else [home.path]) + rest == paths[..Min(failing, |paths|)]
    ensures table.mounted == old(table.mounted) + ((if home.path == "" then [] else [home.path]) + rest)
    ensures table.calls == old(table.calls) && Bound(binds, rest, |rest|)
  {
    rest := [];
    if who.uid < FIRST_USER {
      return true, rest;
    }
    var user := session + who.home;
    ok := home.Bind(table, user, failing == 0);
    if !ok || who.current {
      NoRest(user);
      return;
    }
    ghost var usable := Usable(who.bindings, user);
    ok := BindAll(table, binds, user, who.bindings, failing - 1);
    rest := usable[..Min(failing - 1, |usable|)];
    FirstThenRest(user, usable, failing);
  }

  lemma NoRest(user: string)
    ensures [user] + [] == [user] && [user][..0] == [] && [user][..1] == [user]
  {
  }

  lemma FirstThenRest(first: string, rest: seq<string>, failing: nat)
    requires failing > 0
    ensures ([first] + rest)[..Min(failing, 1 + |rest|)] == [first] + rest[..Min(failing - 1, |rest|)]
  {
  }
}
