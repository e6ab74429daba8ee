/** `buildit` from its first mount to its end: the queue of src/buildit.cpp inside its mounts. */
module Driver {
  import opened Wrappers
  import opened MountStack
  import opened Mount
  import opened Plans
  import opened BuildIt
  import opened Staging
  import opened TaskQueue

  /** What `buildit` has mounted after the first `stop` actions, in order. */
  lemma MadeUpTo(session: string, stop: nat)
    requires stop <= |BuildPlan(session)|
    ensures var paths := BuildMounts(session);
            Made(BuildPlan(session)[..stop]) ==
              if stop < |paths| then paths[..stop]
              else if stop < |paths| + 2 then paths
              else paths + [session + "/proc"]
  {
    var paths, proc := BuildMounts(session), session + "/proc";
    if stop <= |paths| {
      MadeConstructs(paths[..stop], []);
      assert BuildPlan(session)[..stop] == Constructs(paths[..stop]) + [];
      assert paths[..|paths|] == paths && paths[..stop] + [] == paths[..stop];
    } else if stop == |paths| + 1 {
      MadeConstructs(paths, [Adopt(proc)]);
      FromOne(Scope([], []), Adopt(proc));
      assert BuildPlan(session)[..stop] == Constructs(paths) + [Adopt(proc)];
      assert paths + [] == paths;
    } else {
      MadeConstructs(paths, ProcLast(session));
      MadeProc(session);
      assert BuildPlan(session)[..stop] == BuildPlan(session);
    }
  }

  lemma MadeProc(session: string)
    ensures Made(ProcLast(session)) == [session + "/proc"]
  {
    assert ProcLast(session)[1..] == [ChildMount(session + "/proc")];
    FromOne(Scope([], []), ChildMount(session + "/proc"));
    assert [] + [session + "/proc"] == [session + "/proc"];
  }

  /** The `umount` calls of a `buildit` whose mounts came as far as `stop`: those of the
      queue, then of what is mounted, newest first. */
  ghost function DriverCalls(session: string, stop: nat, tasks: seq<Task>): seq<Unmount>
    requires stop <= |BuildPlan(session)|
  {
    var paths, proc := BuildMounts(session), session + "/proc";
    if stop == |paths| + 2 then QueueCalls(session, tasks) + AllGone(paths + [proc])
    else if stop == |paths| + 1 then [Unmount(proc, NotMounted)] + AllGone(paths)
    else AllGone(paths[..stop])
  }

  lemma LeavingCalls(session: string, stop: nat, tasks: seq<Task>, before: seq<Unmount>)
    requires stop <= |BuildPlan(session)|
    ensures var plan := BuildPlan(session);
            before + DriverCalls(session, stop, tasks) ==
              before + (if stop == |plan| then QueueCalls(session, tasks) else []) +
              ((if stop > 0 && plan[stop - 1].Adopt? then [Unmount(plan[stop - 1].where, NotMounted)] else []) +
               AllGone(Made(plan[..stop])))
  {
    MadeUpTo(session, stop);
    var paths, queue := BuildMounts(session), QueueCalls(session, tasks);
    var gone := AllGone(Made(BuildPlan(session)[..stop]));
    Joined(before, queue, gone);
    if stop == |paths| {
      assert paths[..stop] == paths;
    }
  }

  lemma Joined(before: seq<Unmount>, queue: seq<Unmount>, gone: seq<Unmount>)
    ensures before + [] == before && [] + gone == gone && before + (queue + gone) == before + queue + gone
  {
  }

  /** The queue inside any ordered mounts, if they come that far. */
  method RunInside(table: MountTable, plan: seq<Action>, stop: nat, session: string, update_tasks: seq<Task>,
                   pkgs: seq<string>, builds: seq<Task>)
    returns (status: Maybe<nat>, begun: nat)
    requires stop <= |plan| && InOrder(plan, 0, 0)
    requires stop > 0 && plan[stop - 1].Adopt? ==> plan[stop - 1].where !in table.mounted + Made(plan[..stop])
    requires |builds| == |pkgs| && forall p :: p in pkgs ==> Extension(p).Some?
    modifies table
    ensures table.mounted == old(table.mounted)
    ensures var tasks := update_tasks + Selected(pkgs, builds);
            && table.calls == old(table.calls) + (if stop == |plan| then QueueCalls(session, tasks) else []) +
                 ((if stop > 0 && plan[stop - 1].Adopt? then [Unmount(plan[stop - 1].where, NotMounted)] else []) +
                  AllGone(Made(plan[..stop])))
            && status == (if stop == |plan| then Some(FinalStatus(tasks)) else None)
            && begun == if stop == |plan| then Begun(tasks) else 0
  {
    UnwindRestores(table.mounted, plan, stop);
    var objects; ghost var sc;
    objects, sc := Enter(table, plan, stop);
    status, begun := RunIf(stop == |plan|, table, session, update_tasks, pkgs, builds);
    Leave(table, objects, sc.slots);
  }

  /** The queue, if it is reached. */
  method RunIf(reached: bool, table: MountTable, session: string, update_tasks: seq<Task>, pkgs: seq<string>,
               builds: seq<Task>)
    returns (status: Maybe<nat>, begun: nat)
    requires |builds| == |pkgs| && forall p :: p in pkgs ==> Extension(p).Some?
    modifies table
    ensures table.mounted == old(table.mounted)
    ensures var tasks := update_tasks + Selected(pkgs, builds);
            && table.calls == old(table.calls) + (if reached then QueueCalls(session, tasks) else [])
            && status == (if reached then Some(FinalStatus(tasks)) else None)
            && begun == if reached then Begun(tasks) else 0
  {
    status, begun := None, 0;
    if reached {
      var exit_code;
      exit_code, begun := RunQueue(table, session, update_tasks, pkgs, builds);
      status := Some(ExitStatus(Exited(exit_code)));
    }
  }

  /** The mounts, the queue and the destructors.  Whether a mount fails, a task does or nothing,
      the table is restored, and the calls are those of the tasks and then those of the mounts
      made, newest first; the status is that of the queue. */
  method Run(table: MountTable, session: string, stop: nat, update_tasks: seq<Task>, pkgs: seq<string>,
             builds: seq<Task>)
    returns (status: Maybe<nat>, begun: nat)
    requires session != "" && stop <= |BuildPlan(session)|
    requires stop == |BuildPlan(session)| - 1 ==> session + "/proc" !in table.mounted
    requires |builds| == |pkgs| && forall p :: p in pkgs ==> Extension(p).Some?
    modifies table
    ensures table.mounted == old(table.mounted)
    ensures var tasks := update_tasks + Selected(pkgs, builds);
            && table.calls == old(table.calls) + DriverCalls(session, stop, tasks)
            && status == (if stop == |BuildPlan(session)| then Some(FinalStatus(tasks)) else None)
            && begun == if stop == |BuildPlan(session)| then Begun(tasks) else 0
  {
    BuildPlanInOrder(session);
    ProcFree(table.mounted, session, stop);
    ghost var before, tasks := table.calls, update_tasks + Selected(pkgs, builds);
    status, begun := RunInside(table, BuildPlan(session), stop, session, update_tasks, pkgs, builds);
    LeavingCalls(session, stop, tasks, before);
  }
}
