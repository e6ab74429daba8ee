/** What the session protocol of src/lxcuser.cpp gives when its sections do not
    overlap, and what an overlap can cost. */
module LxcSerial {
  import opened Wrappers
  import opened LxcProtocol

  /** Inside `startup` (from open to start) or `shutdown` (from wait to unlink). */
  predicate InSection(p: Phase) {
    !p.Attached? && !Finished(p)
  }

  ghost predicate OneSection(st: State) {
    forall s, t :: s in st.phase && t in st.phase && InSection(st.phase[s]) && InSection(st.phase[t]) ==> s == t
  }

  ghost predicate Serial(r: Run) {
    forall i :: 0 <= i < |r.states| ==> OneSection(r.states[i])
  }

  ghost predicate NobodyDies(r: Run) {
    forall i :: 0 <= i < |r.steps| ==> !Deadly(r.steps[i].act)
  }

  /** No session is between two calls of a section. */
  predicate Calm(st: State) {
    forall s :: s in st.phase ==> !InSection(st.phase[s])
  }

  function Attachees(st: State): set<Sid> {
    set s | s in st.phase && st.phase[s].Attached?
  }

  /** In the session from the moment the container is known to be up for it until it
      leaves or stops the container. */
  predicate IsMember(p: Phase) {
    p.Attached? || p.Waited? || p.Sampled? || p.Closing?
  }

  function Members(st: State): set<Sid> {
    set s | s in st.phase && IsMember(st.phase[s])
  }

  /////////////////////////////// the plain machine ///////////////////////////////

  datatype Op = Enter(sid: Sid) | Leave(sid: Sid)
  datatype Effect = Started | Halted
  datatype Session = Session(members: set<Sid>, log: seq<Effect>)

  /** A set of sessions: the first to enter starts the container, the last to leave stops it. */
  function Apply(m: Session, op: Op): Session {
    match op
    case Enter(s) => Session(m.members + {s}, if m.members == {} then m.log + [Started] else m.log)
    case Leave(s) => Session(m.members - {s}, if m.members == {s} then m.log + [Halted] else m.log)
  }

  function Replay(ops: seq<Op>): Session {
    if ops == [] then Session({}, []) else Apply(Replay(ops[..|ops| - 1]), ops[|ops| - 1])
  }

  /** The plain machine issues start, stop, start, stop, ...: exactly one start and one
      stop per busy period, whatever enters and leaves. */
  lemma {:induction false} Alternates(ops: seq<Op>)
    ensures forall k :: 0 <= k < |Replay(ops).log| ==> Replay(ops).log[k] == if k % 2 == 0 then Started else Halted
    ensures Replay(ops).members == {} <==> |Replay(ops).log| % 2 == 0
  {
    if ops != [] {
      Alternates(ops[..|ops| - 1]);
    }
  }

  /** The entering or leaving that a protocol step completes. */
  function OpOf(st: State, step: Step): seq<Op>
    requires Enabled(st, step)
  {
    match step.act
    case Post => if st.phase[step.sid].count != 0 then [Enter(step.sid)] else []
    case Start(ok) => if ok then [Enter(step.sid)] else []
    case Close => if st.phase[step.sid].count != 0 then [Leave(step.sid)] else []
    case Stop => [Leave(step.sid)]
    case _ => []
  }

  function EffectOf(step: Step): seq<Effect> {
    match step.act
    case Start(ok) => if ok then [Started] else []
    case Stop => [Halted]
    case _ => []
  }

  ghost function Ops(r: Run, i: nat): seq<Op>
    requires IsRun(r) && i < |r.states|
  {
    if i == 0 then [] else Ops(r, i - 1) + OpOf(r.states[i - 1], r.steps[i - 1])
  }

  ghost function Effects(r: Run, i: nat): seq<Effect>
    requires IsRun(r) && i < |r.states|
  {
    if i == 0 then [] else Effects(r, i - 1) + EffectOf(r.steps[i - 1])
  }

  /////////////////////////////// the serial invariant ///////////////////////////////

  /** What holds for the one session that is inside a section while `att` are attached. */
  predicate SectionInv(att: set<Sid>, p: Phase) {
    match p
    case Peeked(_, n) => n == |att|
    case Starting(_) => att == {}
    case Sampled(_, n) => n == |att|
    case Closing(_) => att == {}
    case Stopped(_) => att == {}
    case _ => true
  }

  ghost predicate SerialInv(st: State) {
    && Counted(st)
    && (forall s :: s in st.phase ==> !st.phase[s].Died? && !st.phase[s].Killed?)
    && (forall s :: s in st.phase && !Finished(st.phase[s]) ==> st.bound == Some(st.phase[s].obj))
    && (forall s :: s in st.phase ==> SectionInv(Attachees(st), st.phase[s]))
    && (st.running <==> Members(st) != {})
    && (st.bound.Some? ==> exists s :: s in st.phase && !Finished(st.phase[s]))
  }

  /** Only the session in a section and the attached ones hold the object. */
  lemma HoldersAreAttachees(st: State, s: Sid)
    requires SerialInv(st) && OneSection(st)
    requires s in st.phase && InSection(st.phase[s]) && !st.phase[s].Starting?
    ensures Value(st, st.phase[s].obj) == |Attachees(st)|
  {
    var o := st.phase[s].obj;
    assert Holders(st, o) == Attachees(st);
  }

  lemma MembersStep(st: State, step: Step)
    requires Enabled(st, step)
    ensures var s, after := step.sid, Next(st, step);
            && Attachees(after) ==
               (if after.phase[s].Attached? then Attachees(st) + {s} else Attachees(st) - {s})
            && Members(after) == if IsMember(after.phase[s]) then Members(st) + {s} else Members(st) - {s}
  {
    OthersSame(st, step);
  }

  lemma OthersSame(st: State, step: Step)
    requires Enabled(st, step)
    ensures forall t :: t != step.sid ==>
              (t in Next(st, step).phase <==> t in st.phase) &&
              (t in st.phase ==> Next(st, step).phase[t] == st.phase[t])
  {
  }

  /** Who the members are, seen from the session that is inside a section. */
  lemma MembersInSection(st: State, s: Sid)
    requires OneSection(st) && s in st.phase && InSection(st.phase[s])
    ensures Members(st) == Attachees(st) + if IsMember(st.phase[s]) then {s} else {}
  {
  }

  /** What the moving session knows: its own part of the invariant and who the members are. */
  ghost predicate MoverInv(st: State, s: Sid) {
    && (st.running <==> Members(st) != {})
    && (s in st.phase ==>
      && SectionInv(Attachees(st), st.phase[s])
      && (InSection(st.phase[s]) ==>
        && (!st.phase[s].Starting? ==> Value(st, st.phase[s].obj) == |Attachees(st)|)
        && Members(st) == Attachees(st) + if IsMember(st.phase[s]) then {s} else {}))
  }

  lemma MoverKnows(st: State, s: Sid)
    requires SerialInv(st) && OneSection(st)
    ensures MoverInv(st, s)
  {
    if s in st.phase && InSection(st.phase[s]) {
      MembersInSection(st, s);
      if !st.phase[s].Starting? {
        HoldersAreAttachees(st, s);
      }
    }
  }

  /** The session that moves meets its part of the invariant. */
  lemma SectionMover(st: State, step: Step)
    requires Enabled(st, step) && MoverInv(st, step.sid) && step.act != Kill
    ensures SectionInv(Attachees(Next(st, step)), Next(st, step).phase[step.sid])
  {
    if !step.act.Open? && !Deadly(step.act) {
      Moved(st, step);
      var p := st.phase[step.sid];
      SectionPhase(Attachees(st), p, Value(st, p.obj));
      if !Next(st, step).phase[step.sid].Attached? && !p.Attached? {
        SameAttachees(st, step);
      }
    }
  }

  lemma SectionPhase(att: set<Sid>, p: Phase, v: nat)
    requires !Finished(p) && SectionInv(att, p) && (InSection(p) && !p.Starting? ==> v == |att|)
    ensures SectionInv(att, PhaseAfter(p, v))
  {
    assert |att| == 0 <==> att == {};
  }

  lemma SameAttachees(st: State, step: Step)
    requires Enabled(st, step) && !Next(st, step).phase[step.sid].Attached? && !step.act.Wait? && step.act != Kill
    ensures Attachees(Next(st, step)) == Attachees(st)
  {
    MembersStep(st, step);
    assert step.sid !in Attachees(st);
  }

  /** While one session is in a section, all that another can do is fail to open. */
  lemma OnlyRefused(st: State, step: Step, t: Sid)
    requires Enabled(st, step) && OneSection(st) && OneSection(Next(st, step)) && step.act != Kill
    requires t in st.phase && t != step.sid && InSection(st.phase[t])
    ensures step.act == Open(false) && Attachees(Next(st, step)) == Attachees(st)
  {
    var s, after := step.sid, Next(st, step);
    assert after.phase[t] == st.phase[t];
    assert !InSection(after.phase[s]);
    assert forall u :: u in after.phase <==> u in st.phase || u == s;
  }

  /** A session that does not move keeps it: while it is in a section, no other session attaches or leaves. */
  lemma SectionOther(st: State, step: Step, t: Sid)
    requires SerialInv(st) && OneSection(st) && Enabled(st, step) && OneSection(Next(st, step))
    requires t in st.phase && t != step.sid && step.act != Kill
    ensures t in Next(st, step).phase
    ensures SectionInv(Attachees(Next(st, step)), Next(st, step).phase[t])
  {
    var s, after := step.sid, Next(st, step);
    assert after.phase[t] == st.phase[t];
    if InSection(st.phase[t]) {
      OnlyRefused(st, step, t);
    }
  }

  /** A step does to the members what the plain machine does for it, with the same effect. */
  lemma SimulationStep(st: State, step: Step)
    requires Enabled(st, step) && MoverInv(st, step.sid) && !Deadly(step.act)
    ensures Simulates(Members(st), OpOf(st, step), Members(Next(st, step)), EffectOf(step))
  {
    var s := step.sid;
    match step.act
    case Post => SimulatePost(st, s);
    case Start(_) => MembersStep(st, step);
    case Close => SimulateClose(st, s);
    case Stop => MembersStep(st, step);
    case _ => SimulateRest(st, step);
  }

  lemma SimulateRest(st: State, step: Step)
    requires Enabled(st, step) && MoverInv(st, step.sid)
    requires !step.act.Post? && !step.act.Start? && !step.act.Close? && !step.act.Stop? && !step.act.Kill?
    ensures Simulates(Members(st), OpOf(st, step), Members(Next(st, step)), EffectOf(step))
  {
    MembersStep(st, step);
    assert Members(Next(st, step)) == Members(st);
  }

  /** Hence the container keeps running exactly while there are members. */
  lemma RunningStep(st: State, step: Step)
    requires Enabled(st, step) && (st.running <==> Members(st) != {}) && !Deadly(step.act)
    requires Simulates(Members(st), OpOf(st, step), Members(Next(st, step)), EffectOf(step))
    ensures Next(st, step).running <==> Members(Next(st, step)) != {}
  {
    var m, m', effect := Members(st), Members(Next(st, step)), EffectOf(step);
    SimulatedMembers(m, OpOf(st, step), m', effect);
    assert Next(st, step).running == if effect == [] then st.running else effect == [Started];
  }

  lemma SimulatedMembers(m: set<Sid>, ops: seq<Op>, m': set<Sid>, effect: seq<Effect>)
    requires Simulates(m, ops, m', effect)
    ensures effect == [] ==> (m == {} <==> m' == {})
    ensures effect != [] ==> (effect == [Started] <==> m' != {})
  {
    if ops != [] && ops[0].Leave? && m != {} && m != {ops[0].sid} {
      var t :| t in m && t != ops[0].sid;
      assert t in m';
    }
    assert effect != [] ==> effect == [effect[0]];
    assert ops != [] && ops[0].Enter? ==> ops[0].sid in m';
  }

  ghost predicate Simulates(m: set<Sid>, ops: seq<Op>, m': set<Sid>, effect: seq<Effect>) {
    if ops == [] then m' == m && effect == []
    else ops == [ops[0]] && Apply(Session(m, []), ops[0]) == Session(m', effect)
  }

  lemma SimulatePost(st: State, s: Sid)
    requires Enabled(st, Step(s, Post)) && MoverInv(st, s)
    ensures Simulates(Members(st), OpOf(st, Step(s, Post)), Members(Next(st, Step(s, Post))), [])
  {
    MembersStep(st, Step(s, Post));
    Moved(st, Step(s, Post));
    assert |Attachees(st)| == 0 <==> Attachees(st) == {};
    assert s !in Members(st);
    assert Members(st) == Attachees(st);
  }

  lemma SimulateClose(st: State, s: Sid)
    requires Enabled(st, Step(s, Close)) && MoverInv(st, s)
    ensures Simulates(Members(st), OpOf(st, Step(s, Close)), Members(Next(st, Step(s, Close))), [])
  {
    MembersStep(st, Step(s, Close));
    assert |Attachees(st)| == 0 <==> Attachees(st) == {};
    assert s !in Attachees(st);
    assert Members(st) == Attachees(st) + {s};
  }

  lemma NamesStep(st: State, step: Step)
    requires SerialInv(st) && OneSection(st) && Enabled(st, step) && !Deadly(step.act)
    ensures var after := Next(st, step);
            forall t :: t in after.phase && !Finished(after.phase[t]) ==> after.bound == Some(after.phase[t].obj)
  {
    if step.act.Unlink? {
      assert forall t :: t in st.phase ==> t !in Attachees(st);
    }
  }

  lemma NameWanted(st: State, step: Step)
    requires SerialInv(st) && Enabled(st, step) && !Deadly(step.act)
    ensures var after := Next(st, step);
            after.bound.Some? ==> exists t :: t in after.phase && !Finished(after.phase[t])
  {
    var s, after := step.sid, Next(st, step);
    if step.act.Close? && after.phase[s].Done? {
      var t :| t in Attachees(st);
      Unmoved(st, step, t);
    } else if step.act == Open(false) && st.bound.Some? {
      var t :| t in st.phase && !Finished(st.phase[t]);
      Unmoved(st, step, t);
    } else {
      assert after.bound.Some? ==> !Finished(after.phase[s]);
    }
  }

  lemma SerialStep(st: State, step: Step)
    requires SerialInv(st) && OneSection(st) && Enabled(st, step) && OneSection(Next(st, step))
    requires !Deadly(step.act)
    ensures SerialInv(Next(st, step))
  {
    CountedStep(st, step);
    MoverKnows(st, step.sid);
    SimulationStep(st, step);
    RunningStep(st, step);
    NamesStep(st, step);
    NameWanted(st, step);
    SectionsStep(st, step);
    NoDeaths(st, step);
  }

  lemma SectionsStep(st: State, step: Step)
    requires SerialInv(st) && OneSection(st) && Enabled(st, step) && OneSection(Next(st, step))
    requires MoverInv(st, step.sid)
    requires !Deadly(step.act)
    ensures var after := Next(st, step);
            forall t :: t in after.phase ==> SectionInv(Attachees(after), after.phase[t])
  {
    var after := Next(st, step);
    forall t | t in after.phase ensures SectionInv(Attachees(after), after.phase[t]) {
      if t == step.sid {
        SectionMover(st, step);
      } else {
        SectionOther(st, step, t);
      }
    }
  }

  lemma NoDeaths(st: State, step: Step)
    requires Enabled(st, step) && !Deadly(step.act)
    requires forall s :: s in st.phase ==> !st.phase[s].Died? && !st.phase[s].Killed?
    ensures forall s :: s in Next(st, step).phase ==> !Next(st, step).phase[s].Died? && !Next(st, step).phase[s].Killed?
  {
  }

  lemma {:induction false} SerialAlways(r: Run, i: nat)
    requires IsRun(r) && Serial(r) && NobodyDies(r) && i < |r.states|
    ensures SerialInv(r.states[i])
  {
    if i > 0 {
      SerialAlways(r, i - 1);
      SerialStep(r.states[i - 1], r.steps[i - 1]);
    }
  }

  /** Without overlapping sections and failing starts a run of the protocol is a run of
      the plain machine: it issues exactly the starts and stops of the plain machine, in
      that order, its members are the plain machine's, and the container runs exactly
      while there are members. */
  lemma {:induction false} Refines(r: Run, i: nat)
    requires IsRun(r) && Serial(r) && NobodyDies(r) && i < |r.states|
    ensures Replay(Ops(r, i)) == Session(Members(r.states[i]), Effects(r, i))
    ensures r.states[i].running <==> Members(r.states[i]) != {}
  {
    SerialAlways(r, i);
    if i > 0 {
      Refines(r, i - 1);
      var st, step := r.states[i - 1], r.steps[i - 1];
      SerialAlways(r, i - 1);
      MoverKnows(st, step.sid);
      SimulationStep(st, step);
      Replayed(Ops(r, i - 1), OpOf(st, step), Members(st), Members(r.states[i]), Effects(r, i - 1), EffectOf(step));
    }
  }

  lemma Replayed(before: seq<Op>, ops: seq<Op>, m: set<Sid>, m': set<Sid>, log: seq<Effect>, effect: seq<Effect>)
    requires Replay(before) == Session(m, log) && Simulates(m, ops, m', effect)
    ensures Replay(before + ops) == Session(m', log + effect)
  {
    if ops == [] {
      assert before + ops == before && log + effect == log;
    } else {
      assert (before + ops)[..|before + ops| - 1] == before;
      assert effect == [] ==> log + effect == log;
    }
  }

  /** Between sections: the container runs iff the name is bound iff sessions are
      attached, and all of them hold the object the name refers to, which counts them. */
  lemma CalmStates(r: Run, i: nat)
    requires IsRun(r) && Serial(r) && NobodyDies(r) && i < |r.states| && Calm(r.states[i])
    ensures var st := r.states[i];
            && (st.running <==> Attachees(st) != {})
            && (st.bound.Some? <==> Attachees(st) != {})
            && (forall s :: s in Attachees(st) ==> st.bound == Some(st.phase[s].obj))
            && (st.bound.Some? ==> Value(st, st.bound.value) == |Attachees(st)|)
  {
    SerialAlways(r, i);
    var st := r.states[i];
    assert Members(st) == Attachees(st);
    if st.bound.Some? {
      var s :| s in st.phase && !Finished(st.phase[s]);
      assert s in Attachees(st);
      assert Holders(st, st.bound.value) == Attachees(st);
    }
  }

  /** The container runs under every attached session and is never started twice. */
  lemma RunsUnderSession(r: Run, i: nat, s: Sid)
    requires IsRun(r) && Serial(r) && NobodyDies(r) && i < |r.states|
    requires s in r.states[i].phase && r.states[i].phase[s].Attached?
    ensures r.states[i].running
    ensures forall k :: 0 <= k < |Effects(r, i)| ==> Effects(r, i)[k] == if k % 2 == 0 then Started else Halted
  {
    Refines(r, i);
    assert s in Members(r.states[i]);
    Alternates(Ops(r, i));
  }

  /////////////////////////////// what an overlap can cost ///////////////////////////////

  lemma Extend(r: Run, step: Step) returns (r': Run)
    requires IsRun(r) && Enabled(Last(r), step)
    ensures IsRun(r') && r'.steps == r.steps + [step] && Last(r') == Next(Last(r), step)
  {
    r' := Run(r.states + [Next(Last(r), step)], r.steps + [step]);
  }

  lemma OneAttached() returns (r: Run)
    ensures IsRun(r) && NobodyDies(r)
    ensures Last(r) == State(map[0 := 1], Some(0), 1, true, map[0 := Attached(0)])
  {
    r := Run([INIT], []);
    r := Extend(r, Step(0, Open(true)));
    r := Extend(r, Step(0, Peek));
    r := Extend(r, Step(0, Post));
    r := Extend(r, Step(0, Start(true)));
  }

  lemma OverlapBegins() returns (r: Run)
    ensures IsRun(r) && NobodyDies(r)
    ensures Last(r) == State(map[0 := 0], Some(0), 1, true, map[0 := Sampled(0, 0), 1 := Peeked(0, 1)])
  {
    r := OneAttached();
    r := Extend(r, Step(1, Open(true)));
    r := Extend(r, Step(1, Peek));
    r := Extend(r, Step(0, Wait));
    r := Extend(r, Step(0, Sample));
  }

  /** Session 1 reads a count of 1, session 0 waits and reads 0, session 1 posts: session 0
      now stops the container of the attached session 1.  Every start succeeded. */
  lemma OverlapStopsUnderSession() returns (r: Run)
    ensures IsRun(r) && NobodyDies(r)
    ensures Last(r) == State(map[0 := 1], Some(0), 1, false, map[0 := Stopped(0), 1 := Attached(0)])
  {
    r := OverlapBegins();
    r := Extend(r, Step(1, Post));
    r := Extend(r, Step(0, Close));
    r := Extend(r, Step(0, Stop));
  }

  /** After the unlink that follows, the name is bound afresh: two attached sessions hold
      different objects, each counting one. */
  lemma OverlapSplitsTheCount() returns (r: Run)
    ensures IsRun(r) && NobodyDies(r)
    ensures Last(r) == State(map[0 := 1, 1 := 1], Some(1), 2, true,
                             map[0 := Done(0), 1 := Attached(0), 2 := Attached(1)])
  {
    r := OverlapStopsUnderSession();
    r := Extend(r, Step(0, Unlink));
    r := Extend(r, Step(2, Open(true)));
    assert Last(r) == State(map[0 := 1, 1 := 0], Some(1), 2, false,
                            map[0 := Done(0), 1 := Attached(0), 2 := Opened(1)]);
    r := CountAndStart(r);
  }

  lemma CountAndStart(r: Run) returns (r': Run)
    requires IsRun(r) && NobodyDies(r)
    requires Last(r) == State(map[0 := 1, 1 := 0], Some(1), 2, false,
                              map[0 := Done(0), 1 := Attached(0), 2 := Opened(1)])
    ensures IsRun(r') && NobodyDies(r')
    ensures Last(r') == State(map[0 := 1, 1 := 1], Some(1), 2, true,
                              map[0 := Done(0), 1 := Attached(0), 2 := Attached(1)])
  {
    r' := Extend(r, Step(2, Peek));
    r' := Extend(r', Step(2, Post));
    r' := Extend(r', Step(2, Start(true)));
  }

  /** Two sessions read 0 before either posts. */
  lemma BothReadZero() returns (r: Run)
    ensures IsRun(r) && Last(r) == State(map[0 := 0], Some(0), 1, false, map[0 := Peeked(0, 0), 1 := Peeked(0, 0)])
  {
    r := Run([INIT], []);
    r := Extend(r, Step(0, Open(true)));
    r := Extend(r, Step(0, Peek));
    r := Extend(r, Step(1, Open(true)));
    r := Extend(r, Step(1, Peek));
  }

  /** Both start the container, the second start fails. */
  lemma SecondStartFails() returns (r: Run)
    ensures IsRun(r) && Last(r) == State(map[0 := 2], Some(0), 1, true, map[0 := Attached(0), 1 := Died(0)])
  {
    r := BothReadZero();
    r := Extend(r, Step(0, Post));
    r := Extend(r, Step(1, Post));
    r := Extend(r, Step(0, Start(true)));
    r := Extend(r, Step(1, Start(false)));
  }

  /** When everybody is gone the container still runs and the name is still bound. */
  lemma OverlapLeavesContainerUp() returns (r: Run)
    ensures IsRun(r) && (forall s :: s in Last(r).phase ==> Finished(Last(r).phase[s]))
    ensures Last(r).running && Last(r).bound.Some?
  {
    r := SecondStartFails();
    r := Extend(r, Step(0, Wait));
    r := Extend(r, Step(0, Sample));
    r := Extend(r, Step(0, Close));
  }
}
