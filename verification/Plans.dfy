/** What the mount sequences of src/shellit.cpp and src/buildit.cpp are made of.

    Both programs construct the mounts of a session one after the other, let some objects
    mount later and leave `/proc` to the child they fork: a plan in the sense of MountStack,
    put together from the pieces below. */
module Plans {
  import opened MountStack

  function Constructs(paths: seq<string>): seq<Action> {
    seq(|paths|, i requires 0 <= i < |paths| => Construct(paths[i]))
  }

  function Defaults(count: nat): seq<Action> {
    seq(count, _ => Default)
  }

  /** Binds consecutive objects, from `slot` on. */
  function Binds(slot: nat, paths: seq<string>): seq<Action> {
    seq(|paths|, i requires 0 <= i < |paths| => Bind(slot + i, paths[i]))
  }

  /** The parent adopts `/proc` of the session, then the child it forks mounts it. */
  function ProcLast(session: string): seq<Action> {
    [Adopt(session + "/proc"), ChildMount(session + "/proc")]
  }

  function SystemMounts(session: string): seq<string> {
    [session, session + "/root", session + "/dev", session + "/sys", session + "/dev/pts", session + "/dev/shm"]
  }

  lemma {:induction false} ConstructsInOrder(paths: seq<string>, rest: seq<Action>, n: nat, hi: nat)
    requires "" !in paths
    requires InOrder(rest, n + |paths|, if paths == [] then hi else n + |paths|)
    ensures InOrder(Constructs(paths) + rest, n, hi)
    decreases |paths|
  {
    var plan := Constructs(paths) + rest;
    if paths == [] {
      assert plan == rest;
    } else {
      ConstructsInOrder(paths[1..], rest, n + 1, n + 1);
      assert plan[1..] == Constructs(paths[1..]) + rest;
    }
  }

  lemma {:induction false} DefaultsInOrder(count: nat, rest: seq<Action>, n: nat, hi: nat)
    requires InOrder(rest, n + count, hi)
    ensures InOrder(Defaults(count) + rest, n, hi)
  {
    var plan := Defaults(count) + rest;
    if count == 0 {
      assert plan == rest;
    } else {
      DefaultsInOrder(count - 1, rest, n + 1, hi);
      DefaultsTail(count, rest);
    }
  }

  lemma DefaultsTail(count: nat, rest: seq<Action>)
    requires count > 0
    ensures (Defaults(count) + rest)[0] == Default && (Defaults(count) + rest)[1..] == Defaults(count - 1) + rest
  {
  }

  lemma {:induction false} BindsInOrder(slot: nat, paths: seq<string>, rest: seq<Action>, n: nat, hi: nat)
    requires "" !in paths
    requires hi <= slot && slot + |paths| <= n
    requires InOrder(rest, n, if paths == [] then hi else slot + |paths|)
    ensures InOrder(Binds(slot, paths) + rest, n, hi)
    decreases |paths|
  {
    var plan := Binds(slot, paths) + rest;
    if paths == [] {
      assert plan == rest;
    } else {
      BindsInOrder(slot + 1, paths[1..], rest, n, slot + 1);
      assert plan[1..] == Binds(slot + 1, paths[1..]) + rest;
    }
  }

  lemma ProcLastInOrder(session: string, n: nat, hi: nat)
    ensures InOrder(ProcLast(session), n, hi)
  {
    assert ProcLast(session)[1..] == [ChildMount(session + "/proc")];
  }

  /////////////////////////////// the mounts made ///////////////////////////////

  lemma {:induction false} MadeConcat(a: seq<Action>, b: seq<Action>)
    ensures Made(a + b) == Made(a) + Made(b)
    decreases |a|
  {
    if a == [] {
      assert a + b == b && [] + Made(b) == Made(b);
    } else {
      MadeConcat(a[1..], b);
      FromCons(Scope([], []), a[0], a[1..] + b);
      FromCons(Scope([], []), a[0], a[1..]);
      assert a == [a[0]] + a[1..] && a + b == [a[0]] + (a[1..] + b);
      assert Made([a[0]]) + (Made(a[1..]) + Made(b)) == (Made([a[0]]) + Made(a[1..])) + Made(b);
    }
  }

  lemma {:induction false} MadeConstructs(paths: seq<string>, rest: seq<Action>)
    ensures Made(Constructs(paths) + rest) == paths + Made(rest)
    decreases |paths|
  {
    var plan := Constructs(paths) + rest;
    if paths == [] {
      assert plan == rest && [] + Made(rest) == Made(rest);
    } else {
      MadeConstructs(paths[1..], rest);
      assert plan[1..] == Constructs(paths[1..]) + rest;
      assert [paths[0]] + (paths[1..] + Made(rest)) == paths + Made(rest);
    }
  }

  lemma {:induction false} MadeDefaults(count: nat)
    ensures Made(Defaults(count)) == []
  {
    if count > 0 {
      assert Defaults(count)[1..] == Defaults(count - 1);
      MadeDefaults(count - 1);
    }
  }

  lemma {:induction false} MadeBinds(slot: nat, paths: seq<string>)
    ensures Made(Binds(slot, paths)) == paths
    decreases |paths|
  {
    if paths != [] {
      assert Binds(slot, paths)[1..] == Binds(slot + 1, paths[1..]);
      MadeBinds(slot + 1, paths[1..]);
    }
  }

  predicate NoAdopt(plan: seq<Action>) {
    forall i :: 0 <= i < |plan| ==> !plan[i].Adopt?
  }
}
