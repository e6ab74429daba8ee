/** The mounts of src/buildit.cpp. */
module BuildIt {
  import opened MountStack
  import opened Plans

  function BuildMounts(session: string): seq<string> {
    SystemMounts(session) +
    [session + "/var/tmp", session + "/var/origin", session + "/var/results", session + "/var/archive"]
  }

  function BuildPlan(session: string): seq<Action> {
    Constructs(BuildMounts(session)) + ProcLast(session)
  }

  lemma BuildPlanInOrder(session: string)
    requires session != ""
    ensures InOrder(BuildPlan(session), 0, 0)
  {
    var paths := BuildMounts(session);
    ProcLastInOrder(session, |paths|, |paths|);
    ConstructsInOrder(paths, ProcLast(session), 0, 0);
  }

  /** Wherever `buildit` stops, at a mount that fails, before or after the child mounted
      `/proc`, or with the child's status, the table is what it was.  Only when the child's
      mount was adopted and not made must the session's `/proc` not have been mounted before. */
  lemma BuildItRestores(start: Table, session: string, k: nat)
    requires session != "" && k <= |BuildPlan(session)|
    requires k == |BuildPlan(session)| - 1 ==> session + "/proc" !in start
    ensures var end := From(Scope(start, []), BuildPlan(session)[..k]);
            end.Some? && Unwind(end.value.table, end.value.slots) == start
  {
    BuildPlanInOrder(session);
    ProcFree(start, session, k);
    UnwindRestores(start, BuildPlan(session), k);
  }

  /** What unwinding needs when the child's mount was adopted and not made. */
  lemma ProcFree(start: Table, session: string, k: nat)
    requires k <= |BuildPlan(session)|
    requires k == |BuildPlan(session)| - 1 ==> session + "/proc" !in start
    ensures var plan := BuildPlan(session);
            k > 0 && plan[k - 1].Adopt? ==> plan[k - 1].where !in start + Made(plan[..k])
  {
    var plan, paths := BuildPlan(session), BuildMounts(session);
    if k > 0 && plan[k - 1].Adopt? {
      assert k == |paths| + 1;
      assert plan[..k] == Constructs(paths) + [Adopt(session + "/proc")];
      MadeConstructs(paths, [Adopt(session + "/proc")]);
      assert [Adopt(session + "/proc")][1..] == [];
      ProcApart(session);
    }
  }

  lemma ProcApart(session: string)
    ensures session + "/proc" !in BuildMounts(session)
  {
    forall i | 0 <= i < |BuildMounts(session)| ensures BuildMounts(session)[i] != session + "/proc" {
      var p := BuildMounts(session)[i];
      if |p| == |session| + 5 {
        assert p[|session| + 1] != 'p' && (session + "/proc")[|session| + 1] == 'p';
      }
    }
  }
}
