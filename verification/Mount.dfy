/** The mount objects of src/mount.cpp and a scope of them, as a driver opens and leaves it. */
module Mount {
  import opened Wrappers
  import opened MountStack

  /** The kernel's side, with a record of the `umount` calls and of every table there was. */
  class MountTable {
    var mounted: Table
    ghost var calls: seq<Unmount>
    ghost var seen: seq<Table>

    constructor (mounted: Table)
      ensures this.mounted == mounted && calls == [] && seen == []
    {
      this.mounted, calls, seen := mounted, [], [];
    }

    method Attach(where: string)
      modifies this
      ensures mounted == old(mounted) + [where] && calls == old(calls)
      ensures seen == old(seen) + [mounted]
    {
      mounted := mounted + [where];
      seen := seen + [mounted];
    }

    /** `umount`, whose result the callers ignore. */
    method Detach(path: string)
      modifies this
      ensures mounted == Umount(old(mounted), path)
      ensures calls == old(calls) + [Unmount(path, UmountResult(old(mounted), path))]
      ensures seen == old(seen) + [mounted]
    {
      calls := calls + [Unmount(path, UmountResult(mounted, path))];
      mounted := Umount(mounted, path);
      seen := seen + [mounted];
    }
  }

  /** A `mountpoint`, or a `mount` derived from it. */
  class MountPoint {
    var path: string

    constructor (where: string)
      ensures path == where
    {
      path := where;
    }

    /** Also the destructor. */
    method Release(table: MountTable)
      modifies this, table
      ensures path == ""
      ensures old(path) == "" ==>
                table.mounted == old(table.mounted) && table.calls == old(table.calls) && table.seen == old(table.seen)
      ensures old(path) != "" ==>
                && table.mounted == Umount(old(table.mounted), old(path))
                && table.calls == old(table.calls) + [Unmount(old(path), UmountResult(old(table.mounted), old(path)))]
                && table.seen == old(table.seen) + [table.mounted]
    {
      if |path| > 0 {
        table.Detach(path);
        path := "";
      }
    }

    /** `bind`, and `temp`: what the object held before goes first, even if the mount then
        fails and raises. */
    method Bind(table: MountTable, where: string, fails: bool) returns (ok: bool)
      modifies this, table
      ensures ok == !fails && path == if ok then where else ""
      ensures old(path) == "" ==>
                && table.mounted == (if ok then old(table.mounted) + [where] else old(table.mounted))
                && table.calls == old(table.calls)
                && table.seen == old(table.seen) + if ok then [table.mounted] else []
      ensures old(path) != "" ==>
                var freed := Umount(old(table.mounted), old(path));
                && table.mounted == (if ok then freed + [where] else freed)
                && table.calls == old(table.calls) + [Unmount(old(path), UmountResult(old(table.mounted), old(path)))]
                && table.seen == old(table.seen) + [freed] + if ok then [table.mounted] else []
    {
      if |path| > 0 {
        Release(table);
      }
      if fails {
        return false;
      }
      table.Attach(where);
      path := where;
      return true;
    }
  }

  /** The objects are those of the scope, each its own. */
  ghost predicate Represents(objects: seq<MountPoint>, slots: seq<string>)
    reads set o | o in objects
  {
    && |objects| == |slots|
    && (forall i :: 0 <= i < |objects| ==> objects[i].path == slots[i])
    && (forall i, j :: 0 <= i < j < |objects| ==> objects[i] != objects[j])
  }

  /** One action of a driver, whose mount may fail; `ok` is false when it raises. */
  method Act(table: MountTable, objects: seq<MountPoint>, a: Action, fails: bool, ghost sc: Scope)
    returns (more: seq<MountPoint>, ok: bool)
    requires Represents(objects, sc.slots) && table.mounted == sc.table && Possible(sc, a)
    modifies table, set o | o in objects
    ensures ok == !fails
    ensures table.mounted == (if fails then DoFailing(sc, a) else Do(sc, a)).table
    ensures Represents(more, (if fails then DoFailing(sc, a) else Do(sc, a)).slots)
    ensures DoFailing(sc, a) == sc ==> table.calls == old(table.calls)
    ensures forall o :: o in more ==> o in objects || fresh(o)
  {
    more, ok := objects, !fails;
    if a.Bind? {
      ok := objects[a.slot].Bind(table, a.where, fails);
      return;
    }
    if fails {
      return;
    }
    if a.ChildMount? {
      table.Attach(a.where);
      return;
    }
    var o := new MountPoint(if a.Adopt? then a.where else "");
    if a.Construct? {
      ok := o.Bind(table, a.where, false);
    }
    more := objects + [o];
  }

  /** The end of a scope: the destructors, last object first. */
  method Leave(table: MountTable, objects: seq<MountPoint>, ghost slots: seq<string>)
    requires Represents(objects, slots)
    modifies table, set o | o in objects
    ensures table.mounted == Unwind(old(table.mounted), slots)
    ensures table.calls == old(table.calls) + UnwindCalls(old(table.mounted), slots)
  {
    var n := |objects|;
    assert slots[..n] == slots && slots[..0] == [];
    while n > 0
      invariant 0 <= n <= |objects|
      invariant forall i :: 0 <= i < n ==> objects[i].path == slots[i]
      invariant Remains(old(table.mounted), old(table.calls), slots, n, table.mounted, table.calls)
    {
      n := n - 1;
      UnwindStep(old(table.mounted), old(table.calls), slots, n, table.mounted, table.calls);
      objects[n].Release(table);
    }
    assert table.calls + [] == table.calls;
  }

  /** With `n` objects left, what remains to unwind ends where the whole unwinding ends. */
  ghost predicate Remains(start: Table, calls0: seq<Unmount>, slots: seq<string>, n: nat, now: Table,
                          calls: seq<Unmount>)
  {
    && n <= |slots|
    && Unwind(now, slots[..n]) == Unwind(start, slots)
    && calls + UnwindCalls(now, slots[..n]) == calls0 + UnwindCalls(start, slots)
  }

  lemma UnwindStep(start: Table, calls0: seq<Unmount>, slots: seq<string>, n: nat, now: Table, calls: seq<Unmount>)
    requires Remains(start, calls0, slots, n + 1, now, calls)
    ensures if slots[n] == "" then Remains(start, calls0, slots, n, now, calls)
            else Remains(start, calls0, slots, n, Umount(now, slots[n]),
                         calls + [Unmount(slots[n], UmountResult(now, slots[n]))])
  {
    assert slots[..n + 1][..n] == slots[..n];
    if slots[n] != "" {
      var call := [Unmount(slots[n], UmountResult(now, slots[n]))];
      var rest := UnwindCalls(Umount(now, slots[n]), slots[..n]);
      assert calls + (call + rest) == (calls + call) + rest;
    }
  }

  /** Performs a plan up to the action `stop`, whose mount fails, or to its end if there is
      no such action. */
  method Enter(table: MountTable, plan: seq<Action>, stop: nat)
    returns (objects: seq<MountPoint>, ghost sc: Scope)
    requires stop <= |plan| && InOrder(plan, 0, 0)
    modifies table
    ensures From(Scope(old(table.mounted), []), plan[..stop]) == Some(sc)
    ensures table.mounted == sc.table && table.calls == old(table.calls)
    ensures Represents(objects, sc.slots) && forall o :: o in objects ==> fresh(o)
  {
    sc := Scope(table.mounted, []);
    objects := [];
    var k, done := 0, true;
    PlanPossible(table.mounted, plan, stop);
    while k < stop
      invariant 0 <= k <= stop
      invariant From(Scope(old(table.mounted), []), plan[..k]) == Some(sc)
      invariant table.mounted == sc.table && table.calls == old(table.calls)
      invariant Represents(objects, sc.slots) && forall o :: o in objects ==> fresh(o)
    {
      PlanPossible(old(table.mounted), plan, k);
      objects, done := Act(table, objects, plan[k], false, sc);
      FromSnoc(Scope(old(table.mounted), []), plan[..k], plan[k]);
      assert plan[..k + 1] == plan[..k] + [plan[k]];
      sc := Do(sc, plan[k]);
      k := k + 1;
    }
    if k < |plan| {
      objects, done := Act(table, objects, plan[k], true, sc);
    }
  }

  /** A scope that is entered as far as `stop` and then left. */
  method Scoped(table: MountTable, plan: seq<Action>, stop: nat)
    requires stop <= |plan| && InOrder(plan, 0, 0)
    requires stop > 0 && plan[stop - 1].Adopt? ==> plan[stop - 1].where !in table.mounted + Made(plan[..stop])
    modifies table
    ensures table.mounted == old(table.mounted)
    ensures table.calls == old(table.calls) +
              ((if stop > 0 && plan[stop - 1].Adopt? then [Unmount(plan[stop - 1].where, NotMounted)] else []) +
               AllGone(Made(plan[..stop])))
  {
    UnwindRestores(table.mounted, plan, stop);
    var objects; ghost var sc;
    objects, sc := Enter(table, plan, stop);
    Leave(table, objects, sc.slots);
  }
}
