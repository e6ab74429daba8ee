/** Mount objects and their scopes: src/mount.cpp as the drivers src/shellit.cpp and
    src/buildit.cpp use it.

    A scope is the mount table and the live objects, each told by the path it holds; a plan is
    what a driver does with them, one action after the other; leaving the scope runs the
    destructors in reverse order of declaration. */
module MountStack {
  import opened Wrappers

  /** The mount table of the private name space, oldest mount first. */
  type Table = seq<string>

  predicate Beneath(path: string, other: string) {
    other == path || path + "/" <= other
  }

  function LastIndex(t: Table, path: string): (i: int)
    ensures -1 <= i < |t|
    ensures i >= 0 ==> t[i] == path
    ensures forall j :: i < j < |t| ==> t[j] != path
  {
    if t == [] then -1
    else if t[|t| - 1] == path then |t| - 1
    else LastIndex(t[..|t| - 1], path)
  }

  datatype Unmounting = Gone | Busy | NotMounted

  /** `umount` takes the topmost mount on the path, unless something is mounted beneath it. */
  function UmountResult(t: Table, path: string): Unmounting {
    var i := LastIndex(t, path);
    if i == -1 then NotMounted
    else if exists j :: i < j < |t| && Beneath(path, t[j]) then Busy
    else Gone
  }

  function Umount(t: Table, path: string): Table {
    var i := LastIndex(t, path);
    if UmountResult(t, path) == Gone then t[..i] + t[i + 1..] else t
  }

  /////////////////////////////// scopes ///////////////////////////////

  /** What a driver does with mount objects.  `Adopt` is a plain `mountpoint`: it will
      release a path that a child process mounts. */
  datatype Action =
    | Construct(where: string)
    | Default
    | Bind(slot: nat, where: string)
    | Adopt(where: string)
    | ChildMount(where: string)

  /** The live objects in order of declaration, by the path each holds, none being "". */
  datatype Scope = Scope(table: Table, slots: seq<string>)

  function Release(sc: Scope, i: nat): Scope
    requires i < |sc.slots|
  {
    if sc.slots[i] == "" then sc else Scope(Umount(sc.table, sc.slots[i]), sc.slots[i := ""])
  }

  predicate Possible(sc: Scope, a: Action) {
    a.Bind? ==> a.slot < |sc.slots|
  }

  /** An action that succeeds; a late `bind` first releases what its object holds. */
  function Do(sc: Scope, a: Action): Scope
    requires Possible(sc, a)
  {
    match a
    case Construct(where) => Scope(sc.table + [where], sc.slots + [where])
    case Default => sc.(slots := sc.slots + [""])
    case Bind(i, where) => var r := Release(sc, i); Scope(r.table + [where], r.slots[i := where])
    case Adopt(where) => sc.(slots := sc.slots + [where])
    case ChildMount(where) => sc.(table := sc.table + [where])
  }

  /** An action whose mount fails: a constructor that throws leaves no object. */
  function DoFailing(sc: Scope, a: Action): Scope
    requires Possible(sc, a)
  {
    if a.Bind? then Release(sc, a.slot) else sc
  }

  /** The state after all actions of a plan, none if one of them is not possible. */
  function From(sc: Scope, plan: seq<Action>): Maybe<Scope>
    decreases |plan|
  {
    if plan == [] then Some(sc)
    else if Possible(sc, plan[0]) then From(Do(sc, plan[0]), plan[1..])
    else None
  }

  /** The mounts a plan makes, in order. */
  function Made(plan: seq<Action>): seq<string> {
    if plan == [] then []
    else (match plan[0]
          case Construct(where) => [where]
          case Bind(_, where) => [where]
          case ChildMount(where) => [where]
          case _ => []) + Made(plan[1..])
  }

  /** Destructors run in reverse order of declaration, whatever ends the scope. */
  function Unwind(t: Table, slots: seq<string>): Table {
    if slots == [] then t
    else
      var path := slots[|slots| - 1];
      Unwind(if path == "" then t else Umount(t, path), slots[..|slots| - 1])
  }

  datatype Unmount = Unmount(path: string, result: Unmounting)

  /** The `umount` calls this makes, in order. */
  function UnwindCalls(t: Table, slots: seq<string>): seq<Unmount> {
    if slots == [] then []
    else
      var path, init := slots[|slots| - 1], slots[..|slots| - 1];
      if path == "" then UnwindCalls(t, init)
      else [Unmount(path, UmountResult(t, path))] + UnwindCalls(Umount(t, path), init)
  }

  /** The paths the objects hold, in order of declaration. */
  function Held(slots: seq<string>): seq<string> {
    if slots == [] then []
    else
      var path := slots[|slots| - 1];
      Held(slots[..|slots| - 1]) + if path == "" then [] else [path]
  }

  function AllGone(paths: seq<string>): seq<Unmount> {
    if paths == [] then [] else [Unmount(paths[|paths| - 1], Gone)] + AllGone(paths[..|paths| - 1])
  }

  /** Objects are bound in the order they were declared, each once; `n` objects exist, those
      from `hi` on hold nothing yet; only the last may adopt a child's mount. */
  predicate InOrder(plan: seq<Action>, n: nat, hi: nat) {
    if plan == [] then true
    else
      match plan[0]
      case Construct(where) => where != "" && InOrder(plan[1..], n + 1, n + 1)
      case Default => InOrder(plan[1..], n + 1, hi)
      case Bind(i, where) => hi <= i < n && where != "" && InOrder(plan[1..], n, i + 1)
      case Adopt(where) => where != "" && (plan[1..] == [] || plan[1..] == [ChildMount(where)])
      case ChildMount(_) => false
  }

  /** The table is what was there before, then what the objects hold. */
  ghost predicate Stacked(start: Table, sc: Scope, hi: nat) {
    && hi <= |sc.slots|
    && (forall i :: hi <= i < |sc.slots| ==> sc.slots[i] == "")
    && sc.table == start + Held(sc.slots)
  }

  lemma {:induction false} HeldAppend(slots: seq<string>, more: seq<string>)
    ensures Held(slots + more) == Held(slots) + Held(more)
    decreases |more|
  {
    if more == [] {
      assert slots + more == slots;
    } else {
      HeldAppend(slots, more[..|more| - 1]);
      assert (slots + more)[..|slots + more| - 1] == slots + more[..|more| - 1];
    }
  }

  lemma {:induction false} HeldNone(slots: seq<string>)
    requires forall i :: 0 <= i < |slots| ==> slots[i] == ""
    ensures Held(slots) == []
  {
    if slots != [] {
      HeldNone(slots[..|slots| - 1]);
    }
  }

  /** Binding the object at `i`, behind all that hold something. */
  lemma HeldBind(slots: seq<string>, i: nat, where: string)
    requires i < |slots| && where != "" && forall k :: i <= k < |slots| ==> slots[k] == ""
    ensures Held(slots[i := where]) == Held(slots) + [where]
  {
    var before, behind := slots[..i], slots[i + 1..];
    assert slots == before + ([""] + behind) && slots[i := where] == before + ([where] + behind);
    HeldAppend(before, [""] + behind);
    HeldAppend(before, [where] + behind);
    HeldAppend([""], behind);
    HeldAppend([where], behind);
    HeldNone(behind);
    HeldOne("");
    HeldOne(where);
  }

  /** The mount made last can always be taken away, and its removal restores the table. */
  lemma UmountLast(t: Table, path: string)
    ensures UmountResult(t + [path], path) == Gone && Umount(t + [path], path) == t
  {
    var all := t + [path];
    assert LastIndex(all, path) == |t|;
    assert all[..|t|] + all[|t| + 1..] == t;
  }

  lemma {:induction false} UnwindHeld(start: Table, slots: seq<string>)
    ensures Unwind(start + Held(slots), slots) == start
    ensures UnwindCalls(start + Held(slots), slots) == AllGone(Held(slots))
  {
    if slots == [] {
      assert start + Held(slots) == start;
    } else {
      var path, init := slots[|slots| - 1], slots[..|slots| - 1];
      UnwindHeld(start, init);
      if path == "" {
        assert Held(slots) == Held(init);
      } else {
        assert start + Held(slots) == (start + Held(init)) + [path];
        UmountLast(start + Held(init), path);
        assert Held(slots)[..|Held(slots)| - 1] == Held(init);
      }
    }
  }

  /** How one ordered action keeps the stack. */
  lemma StackedStep(start: Table, sc: Scope, hi: nat, a: Action)
    requires Stacked(start, sc, hi) && InOrder([a], |sc.slots|, hi) && !a.Adopt?
    ensures Possible(sc, a) && DoFailing(sc, a) == sc
    ensures Do(sc, a).table == sc.table + Made([a])
    ensures Stacked(start, Do(sc, a), NextHigh(sc, hi, a))
    ensures |Do(sc, a).slots| == |sc.slots| + (if a.Bind? then 0 else 1)
  {
    assert [a][1..] == [] && Made([]) == [];
    match a {
      case Construct(where) => StackedOnto(start, sc, where);
      case Default => StackedOnto(start, sc, "");
      case Bind(i, where) => HeldBind(sc.slots, i, where);
      case _ =>
    }
  }

  /** A new object behind the others, with its mount if it holds one. */
  lemma StackedOnto(start: Table, sc: Scope, where: string)
    requires sc.table == start + Held(sc.slots)
    ensures sc.table + (if where == "" then [] else [where]) == start + Held(sc.slots + [where])
  {
    HeldAppend(sc.slots, [where]);
    HeldOne(where);
  }

  function NextHigh(sc: Scope, hi: nat, a: Action): nat {
    match a
    case Construct(_) => |sc.slots| + 1
    case Bind(i, _) => i + 1
    case _ => hi
  }

  lemma HeldOne(path: string)
    ensures Held([path]) == if path == "" then [] else [path]
  {
    assert [path][..0] == [];
  }

  /** The last object waits for the child's mount; the others are stacked. */
  ghost predicate Awaiting(start: Table, sc: Scope) {
    && sc.slots != [] && sc.slots[|sc.slots| - 1] != ""
    && Stacked(start, Scope(sc.table, sc.slots[..|sc.slots| - 1]), |sc.slots| - 1)
  }

  /** The scope `end` reached by the first `k` actions of a plan. */
  ghost predicate Kept(start: Table, sc: Scope, plan: seq<Action>, k: nat, end: Scope)
    requires k <= |plan|
  {
    && From(sc, plan[..k]) == Some(end)
    && end.table == sc.table + Made(plan[..k])
    && (if k > 0 && plan[k - 1].Adopt?
        then Awaiting(start, end) && end.slots[|end.slots| - 1] == plan[k - 1].where
        else Stacked(start, end, |end.slots|))
    && (k < |plan| ==> Possible(end, plan[k]) && DoFailing(end, plan[k]) == end)
  }

  lemma {:induction false} PlanKeeps(start: Table, sc: Scope, hi: nat, plan: seq<Action>, k: nat) returns (end: Scope)
    requires Stacked(start, sc, hi) && InOrder(plan, |sc.slots|, hi) && k <= |plan|
    ensures Kept(start, sc, plan, k, end)
    decreases |plan|
  {
    if k == 0 {
      end := sc;
      assert plan[..0] == [] && sc.table + [] == sc.table;
      if plan != [] && !plan[0].Adopt? {
        OrderedHead(plan, |sc.slots|, hi);
        StackedStep(start, sc, hi, plan[0]);
      }
    } else if plan[0].Adopt? {
      end := AdoptKeeps(start, sc, hi, plan, k);
    } else {
      OrderedHead(plan, |sc.slots|, hi);
      StackedStep(start, sc, hi, plan[0]);
      end := PlanKeeps(start, Do(sc, plan[0]), NextHigh(sc, hi, plan[0]), plan[1..], k - 1);
      KeptCons(start, sc, plan, k, end);
    }
  }

  lemma KeptCons(start: Table, sc: Scope, plan: seq<Action>, k: nat, end: Scope)
    requires 0 < k <= |plan| && Possible(sc, plan[0]) && !plan[0].Adopt?
    requires Do(sc, plan[0]).table == sc.table + Made([plan[0]])
    requires Kept(start, Do(sc, plan[0]), plan[1..], k - 1, end)
    ensures Kept(start, sc, plan, k, end)
  {
    var a, rest := plan[0], plan[1..];
    FromCons(sc, a, rest[..k - 1]);
    assert plan[..k] == [a] + rest[..k - 1];
    assert sc.table + Made([a]) + Made(rest[..k - 1]) == sc.table + (Made([a]) + Made(rest[..k - 1]));
    assert k > 1 ==> plan[k - 1] == rest[k - 2];
    assert k < |plan| ==> plan[k] == rest[k - 1];
  }

  lemma AdoptKeeps(start: Table, sc: Scope, hi: nat, plan: seq<Action>, k: nat) returns (end: Scope)
    requires Stacked(start, sc, hi) && InOrder(plan, |sc.slots|, hi) && 0 < k <= |plan| && plan[0].Adopt?
    ensures Kept(start, sc, plan, k, end)
  {
    var where := plan[0].where;
    if k == 1 {
      end := Do(sc, plan[0]);
      assert plan[..1] == [Adopt(where)];
      FromOne(sc, Adopt(where));
      assert end.slots[..|end.slots| - 1] == sc.slots;
      assert k < |plan| ==> plan[k] == plan[1..][0];
    } else {
      end := AdoptedMounts(start, sc, where);
      assert plan[1..][0] == plan[1];
      assert plan[..2] == plan == [Adopt(where), ChildMount(where)];
    }
  }

  lemma AdoptedMounts(start: Table, sc: Scope, where: string) returns (end: Scope)
    requires Stacked(start, sc, |sc.slots|) && where != ""
    ensures From(sc, [Adopt(where), ChildMount(where)]) == Some(end)
    ensures end.table == sc.table + Made([Adopt(where), ChildMount(where)])
    ensures Stacked(start, end, |end.slots|)
  {
    var mid := Do(sc, Adopt(where));
    end := Do(mid, ChildMount(where));
    FromCons(sc, Adopt(where), [ChildMount(where)]);
    FromOne(mid, ChildMount(where));
    FromOne(sc, Adopt(where));
    assert [Adopt(where)] + [ChildMount(where)] == [Adopt(where), ChildMount(where)];
    assert [] + [where] == [where];
    HeldAppend(sc.slots, [where]);
    HeldOne(where);
  }

  lemma FromOne(sc: Scope, a: Action)
    ensures From(sc, [a]) == if Possible(sc, a) then Some(Do(sc, a)) else None
    ensures Made([a]) == if a.Default? || a.Adopt? then [] else [a.where]
  {
    FromCons(sc, a, []);
    assert [a] + [] == [a] && [a][1..] == [];
  }

  lemma FromCons(sc: Scope, a: Action, rest: seq<Action>)
    ensures From(sc, [a] + rest) == if Possible(sc, a) then From(Do(sc, a), rest) else None
    ensures Made([a] + rest) == Made([a]) + Made(rest)
  {
    assert ([a] + rest)[1..] == rest && [a][1..] == [];
  }

  lemma OrderedHead(plan: seq<Action>, n: nat, hi: nat)
    requires plan != [] && InOrder(plan, n, hi) && !plan[0].Adopt?
    ensures InOrder([plan[0]], n, hi)
  {
    assert [plan[0]][1..] == [];
  }

  lemma {:induction false} FromSnoc(sc: Scope, plan: seq<Action>, a: Action)
    ensures From(sc, plan + [a]) ==
              var mid := From(sc, plan);
              if mid.None? || !Possible(mid.value, a) then None else Some(Do(mid.value, a))
    decreases |plan|
  {
    if plan == [] {
      assert (plan + [a])[1..] == [];
    } else {
      assert (plan + [a])[0] == plan[0] && (plan + [a])[1..] == plan[1..] + [a];
      if Possible(sc, plan[0]) {
        FromSnoc(Do(sc, plan[0]), plan[1..], a);
      }
    }
  }

  /** Wherever an ordered plan is left, by a mount that fails, an exception or its end,
      unwinding unmounts exactly the mounts made, in reverse order, never a path with
      another mount beneath it, and leaves the table as it was.  Only when the child's mount
      was adopted but not made is there one call more, on a path that is not mounted. */
  lemma UnwindRestores(start: Table, plan: seq<Action>, k: nat)
    requires InOrder(plan, 0, 0) && k <= |plan|
    requires k > 0 && plan[k - 1].Adopt? ==> plan[k - 1].where !in start + Made(plan[..k])
    ensures From(Scope(start, []), plan[..k]).Some?
    ensures var end := From(Scope(start, []), plan[..k]).value;
            && end.table == start + Made(plan[..k])
            && (k < |plan| ==> Possible(end, plan[k]) && DoFailing(end, plan[k]) == end)
            && Unwind(end.table, end.slots) == start
            && UnwindCalls(end.table, end.slots) ==
               (if k > 0 && plan[k - 1].Adopt? then [Unmount(plan[k - 1].where, NotMounted)] else []) +
               AllGone(Made(plan[..k]))
  {
    assert start + Held([]) == start;
    var end := PlanKeeps(start, Scope(start, []), 0, plan, k);
    if k > 0 && plan[k - 1].Adopt? {
      UnwindAwaiting(start, end, Made(plan[..k]));
    } else {
      UnwindStacked(start, end, Made(plan[..k]));
      assert [] + AllGone(Made(plan[..k])) == AllGone(Made(plan[..k]));
    }
  }

  lemma PlanPossible(start: Table, plan: seq<Action>, k: nat)
    requires InOrder(plan, 0, 0) && k <= |plan|
    ensures var end := From(Scope(start, []), plan[..k]);
            end.Some? && (k < |plan| ==> Possible(end.value, plan[k]) && DoFailing(end.value, plan[k]) == end.value)
  {
    assert start + Held([]) == start;
    var end := PlanKeeps(start, Scope(start, []), 0, plan, k);
  }

  lemma UnwindStacked(start: Table, end: Scope, made: seq<string>)
    requires Stacked(start, end, |end.slots|) && end.table == start + made
    ensures Unwind(end.table, end.slots) == start
    ensures UnwindCalls(end.table, end.slots) == AllGone(made)
  {
    assert Held(end.slots) == (start + Held(end.slots))[|start|..] == (start + made)[|start|..] == made;
    UnwindHeld(start, end.slots);
  }

  lemma UnwindAwaiting(start: Table, end: Scope, made: seq<string>)
    requires Awaiting(start, end) && end.table == start + made
    requires end.slots[|end.slots| - 1] !in end.table
    ensures Unwind(end.table, end.slots) == start
    ensures UnwindCalls(end.table, end.slots) ==
            [Unmount(end.slots[|end.slots| - 1], NotMounted)] + AllGone(made)
  {
    var init := end.slots[..|end.slots| - 1];
    var path := end.slots[|end.slots| - 1];
    assert LastIndex(end.table, path) == -1;
    UnwindStacked(start, Scope(end.table, init), made);
  }
}
