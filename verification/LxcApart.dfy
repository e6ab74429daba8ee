/** Exactly which overlap harms: a session that enters while another ends. */
module LxcApart {
  import opened Wrappers
  import opened LxcProtocol
  import opened LxcSerial

  // Neither overlapping start-ups, nor overlapping shut-downs, nor dead sessions make
  // src/lxcuser.cpp stop a container under a session or lose its count.

  /** In `startup` before the post. */
  predicate Entering(p: Phase) {
    p.Opened? || p.Peeked?
  }

  /** In `shutdown` and bound to stop: the count was read as zero, or can only be. */
  predicate Past(p: Phase) {
    (p.Sampled? && p.count == 0) || p.Closing? || p.Stopped?
  }

  predicate Ending(st: State, p: Phase) {
    (p.Waited? && Value(st, p.obj) == 0) || Past(p)
  }

  /** No session enters while another ends. */
  ghost predicate Apart(st: State) {
    forall s, t :: s in st.phase && t in st.phase ==> !(Entering(st.phase[s]) && Ending(st, st.phase[t]))
  }

  ghost predicate AlwaysApart(r: Run) {
    forall i :: 0 <= i < |r.states| ==> Apart(r.states[i])
  }

  /** A stop while a session is attached, or about to be. */
  ghost predicate StopsUnder(r: Run, k: nat) {
    && k < |r.steps| && k < |r.states| && r.steps[k].act == Stop
    && exists s :: s in r.states[k].phase && (r.states[k].phase[s].Attached? || r.states[k].phase[s].Starting?)
  }

  /** An attached session whose object the name does not refer to. */
  ghost predicate Astray(st: State) {
    exists s :: s in st.phase && st.phase[s].Attached? && st.bound != Some(st.phase[s].obj)
  }

  ghost predicate Harmed(r: Run) {
    (exists k :: StopsUnder(r, k)) || (exists i :: 0 <= i < |r.states| && Astray(r.states[i]))
  }

  /////////////////////////////// apart is safe ///////////////////////////////

  /** Enters an object or holds it, dead or alive. */
  predicate On(p: Phase) {
    Entering(p) || p.Starting? || p.Attached? || p.Died?
  }

  predicate Nobody(st: State) {
    forall s :: s in st.phase ==> !On(st.phase[s])
  }

  ghost predicate ApartInv(st: State) {
    && Counted(st)
    && (forall s :: s in st.phase && On(st.phase[s]) ==> st.bound == Some(st.phase[s].obj))
    && (forall t :: t in st.phase && Past(st.phase[t]) ==> Nobody(st))
    && (forall t :: t in st.phase && st.phase[t].Waited? ==> st.bound == Some(st.phase[t].obj) || Nobody(st))
  }

  /** A session that waits for a zero, or has read one, is alone. */
  lemma EndingAlone(st: State, t: Sid)
    requires ApartInv(st) && Apart(st) && t in st.phase && Ending(st, st.phase[t])
    ensures Nobody(st)
  {
    forall s | s in st.phase && !Past(st.phase[t]) ensures !On(st.phase[s]) {
      assert s !in Holders(st, st.phase[t].obj);
    }
  }

  /** An object that somebody waits for elsewhere counts nobody. */
  lemma ElsewhereIsZero(st: State, t: Sid)
    requires ApartInv(st) && t in st.phase && st.phase[t].Waited? && st.bound != Some(st.phase[t].obj)
    ensures Ending(st, st.phase[t])
  {
    assert Holders(st, st.phase[t].obj) == {};
  }

  lemma ApartOpen(st: State, step: Step)
    requires ApartInv(st) && Enabled(st, step) && step.act == Open(true) && Apart(Next(st, step))
    ensures ApartInv(Next(st, step))
  {
    var after, s := Next(st, step), step.sid;
    CountedStep(st, step);
    assert Entering(after.phase[s]);
    assert forall t :: t in after.phase ==> !Ending(after, after.phase[t]);
    forall t | t in after.phase && after.phase[t].Waited? ensures after.bound == Some(after.phase[t].obj) {
      if st.bound != Some(st.phase[t].obj) {
        ElsewhereIsZero(st, t);
      }
    }
  }

  /** Steps of a session that has the name's object, or none. */
  lemma ApartMove(st: State, step: Step)
    requires ApartInv(st) && Apart(st) && Enabled(st, step) && !step.act.Open?
    ensures ApartInv(Next(st, step))
  {
    var after := Next(st, step);
    CountedStep(st, step);
    MoveKeeps(st, step);
    forall t | t in after.phase ensures Fits(after, t) {
      if t == step.sid {
        MoverFits(st, step);
      } else {
        OtherFits(st, step, t);
      }
    }
  }

  /** What the invariant says of one session. */
  ghost predicate Fits(st: State, t: Sid)
    requires t in st.phase
  {
    && (On(st.phase[t]) ==> st.bound == Some(st.phase[t].obj))
    && (Past(st.phase[t]) ==> Nobody(st))
    && (st.phase[t].Waited? ==> st.bound == Some(st.phase[t].obj) || Nobody(st))
  }

  lemma MoverFits(st: State, step: Step)
    requires ApartInv(st) && Apart(st) && Enabled(st, step) && !step.act.Open?
    ensures step.sid in Next(st, step).phase && Fits(Next(st, step), step.sid)
  {
    var after, s := Next(st, step), step.sid;
    MoveKeeps(st, step);
    if Past(after.phase[s]) {
      EndingAlone(st, s);
    }
  }

  lemma OtherFits(st: State, step: Step, t: Sid)
    requires ApartInv(st) && Enabled(st, step) && !step.act.Open? && t in st.phase && t != step.sid
    ensures t in Next(st, step).phase && Fits(Next(st, step), t)
  {
    MoveKeeps(st, step);
    Unmoved(st, step, t);
  }

  lemma MoveKeeps(st: State, step: Step)
    requires Enabled(st, step) && !step.act.Open?
    ensures var after, s := Next(st, step), step.sid;
            && (On(after.phase[s]) ==> On(st.phase[s]) && after.phase[s].obj == st.phase[s].obj)
            && (Nobody(st) ==> Nobody(after))
            && after.bound == if step.act.Unlink? then None else st.bound
  {
  }

  lemma ApartStep(st: State, step: Step)
    requires ApartInv(st) && Apart(st) && Enabled(st, step) && Apart(Next(st, step))
    ensures ApartInv(Next(st, step))
  {
    if step.act == Open(true) {
      ApartOpen(st, step);
    } else if step.act.Open? {
      CountedStep(st, step);
      assert Nobody(st) ==> Nobody(Next(st, step));
    } else {
      ApartMove(st, step);
    }
  }

  lemma {:induction false} ApartAlways(r: Run, i: nat)
    requires IsRun(r) && AlwaysApart(r) && i < |r.states|
    ensures ApartInv(r.states[i])
  {
    if i > 0 {
      ApartAlways(r, i - 1);
      ApartStep(r.states[i - 1], r.steps[i - 1]);
    }
  }

  /** In a run in which no session enters while another ends, starts may fail and sessions
      may be killed: no stop comes under an attached or starting session, and the name always
      refers to the object of every attached session. */
  lemma ApartIsSafe(r: Run)
    requires IsRun(r) && AlwaysApart(r)
    ensures !Harmed(r)
  {
    forall k | 0 <= k < |r.steps| ensures !StopsUnder(r, k) {
      ApartAlways(r, k);
      assert Enabled(r.states[k], r.steps[k]);
    }
    forall i | 0 <= i < |r.states| ensures !Astray(r.states[i]) {
      ApartAlways(r, i);
    }
  }

  lemma SerialIsApart(r: Run)
    requires Serial(r)
    ensures AlwaysApart(r)
  {
    forall i | 0 <= i < |r.states| ensures Apart(r.states[i]) {
      assert OneSection(r.states[i]);
    }
  }

  lemma {:induction false} StaysAttached(r: Run, s: Sid, a: nat, i: nat, k: nat)
    requires IsRun(r) && a <= k <= i < |r.states|
    requires s in r.states[a].phase && r.states[a].phase[s].Attached?
    requires s in r.states[i].phase && r.states[i].phase[s].Attached?
    ensures s in r.states[k].phase && r.states[k].phase[s] == r.states[a].phase[s]
    decreases k - a
  {
    if a < k {
      AttachedNext(r, s, a);
      if Behind(r.states[a + 1].phase[s]) {
        NeverAgain(r, s, a + 1, i);
      }
      StaysAttached(r, s, a + 1, i, k);
    }
  }

  lemma AttachedNext(r: Run, s: Sid, i: nat)
    requires IsRun(r) && i < |r.steps| && s in r.states[i].phase && r.states[i].phase[s].Attached?
    ensures s in r.states[i + 1].phase
    ensures Behind(r.states[i + 1].phase[s]) || r.states[i + 1].phase[s] == r.states[i].phase[s]
  {
    assert Enabled(r.states[i], r.steps[i]) && r.states[i + 1] == Next(r.states[i], r.steps[i]);
    StaysOrLeaves(r.states[i], r.steps[i], s);
  }

  lemma StaysOrLeaves(st: State, step: Step, s: Sid)
    requires Enabled(st, step) && s in st.phase && st.phase[s].Attached?
    ensures s in Next(st, step).phase
    ensures Behind(Next(st, step).phase[s]) || Next(st, step).phase[s] == st.phase[s]
  {
  }

  predicate Behind(p: Phase) {
    Finished(p) || p.Waited? || p.Sampled? || p.Closing? || p.Stopped?
  }

  lemma {:induction false} NeverAgain(r: Run, s: Sid, a: nat, i: nat)
    requires IsRun(r) && a <= i < |r.states| && s in r.states[a].phase && Behind(r.states[a].phase[s])
    ensures s in r.states[i].phase && Behind(r.states[i].phase[s])
    decreases i - a
  {
    if a < i {
      BehindNext(r, s, a);
      NeverAgain(r, s, a + 1, i);
    }
  }

  lemma BehindNext(r: Run, s: Sid, i: nat)
    requires IsRun(r) && i < |r.steps| && s in r.states[i].phase && Behind(r.states[i].phase[s])
    ensures s in r.states[i + 1].phase && Behind(r.states[i + 1].phase[s])
  {
    assert Enabled(r.states[i], r.steps[i]) && r.states[i + 1] == Next(r.states[i], r.steps[i]);
    StaysBehind(r.states[i], r.steps[i], s);
  }

  lemma StaysBehind(st: State, step: Step, s: Sid)
    requires Enabled(st, step) && s in st.phase && Behind(st.phase[s])
    ensures s in Next(st, step).phase && Behind(Next(st, step).phase[s])
  {
  }

  /** As long as a session is attached its object keeps the name and nobody stops the
      container: once it runs it keeps running. */
  lemma NeverStoppedUnderSession(r: Run, s: Sid, a: nat, i: nat)
    requires IsRun(r) && AlwaysApart(r) && a <= i < |r.states|
    requires s in r.states[a].phase && r.states[a].phase[s].Attached?
    requires s in r.states[i].phase && r.states[i].phase[s].Attached?
    ensures r.states[i].bound == r.states[a].bound == Some(r.states[a].phase[s].obj)
    ensures forall k :: a <= k < i ==> r.steps[k].act != Stop && r.steps[k].act != Unlink
    ensures r.states[a].running ==> r.states[i].running
  {
    StaysAttached(r, s, a, i, i);
    ApartAlways(r, a);
    ApartAlways(r, i);
    KeepsRunning(r, s, a, i, i);
    forall k | a <= k < i ensures r.steps[k].act != Stop && r.steps[k].act != Unlink {
      NotStoppedNext(r, s, a, i, k);
    }
  }

  lemma {:induction false} KeepsRunning(r: Run, s: Sid, a: nat, i: nat, k: nat)
    requires IsRun(r) && AlwaysApart(r) && a <= k <= i < |r.states|
    requires s in r.states[a].phase && r.states[a].phase[s].Attached?
    requires s in r.states[i].phase && r.states[i].phase[s].Attached?
    ensures r.states[a].running ==> r.states[k].running
    decreases k
  {
    if a < k {
      KeepsRunning(r, s, a, i, k - 1);
      NotStoppedNext(r, s, a, i, k - 1);
    }
  }

  lemma NotStoppedNext(r: Run, s: Sid, a: nat, i: nat, k: nat)
    requires IsRun(r) && AlwaysApart(r) && a <= k < i < |r.states|
    requires s in r.states[a].phase && r.states[a].phase[s].Attached?
    requires s in r.states[i].phase && r.states[i].phase[s].Attached?
    ensures r.steps[k].act != Stop && r.steps[k].act != Unlink
    ensures r.states[k].running ==> r.states[k + 1].running
  {
    StaysAttached(r, s, a, i, k);
    ApartAlways(r, k);
    assert Enabled(r.states[k], r.steps[k]) && r.states[k + 1] == Next(r.states[k], r.steps[k]);
    StopIsAlone(r.states[k], r.steps[k], s);
  }

  lemma StopIsAlone(st: State, step: Step, s: Sid)
    requires ApartInv(st) && Enabled(st, step) && s in st.phase && st.phase[s].Attached?
    ensures step.act != Stop && step.act != Unlink
    ensures st.running ==> Next(st, step).running
  {
  }

  /////////////////////////////// sections in progress ///////////////////////////////

  /** `r'` goes on from `r`: no session opens, none begins to leave, and none dies, so all
      that happens is that sections in progress go on. */
  ghost predicate Completes(r: Run, r': Run) {
    && IsRun(r') && |r.states| == |r.steps| + 1 && r.states <= r'.states && r.steps <= r'.steps
    && forall k :: |r.steps| <= k < |r'.steps| ==> Completing(r'.steps[k].act)
  }

  predicate Completing(act: Act) {
    !act.Open? && act != Wait && !Deadly(act)
  }

  lemma CompletingStaysApart(st: State, step: Step)
    requires Apart(st) && Enabled(st, step) && Completing(step.act)
    ensures Apart(Next(st, step))
  {
    var after, s := Next(st, step), step.sid;
    forall t | t in after.phase && Ending(after, after.phase[t]) ensures Ending(st, st.phase[t]) {
    }
    forall t | t in after.phase && Entering(after.phase[t]) ensures Entering(st.phase[t]) {
    }
  }

  lemma {:induction false} CompletionStaysApart(r: Run, r': Run, i: nat)
    requires IsRun(r) && AlwaysApart(r) && Completes(r, r') && i < |r'.states|
    ensures Apart(r'.states[i])
  {
    if i < |r.states| {
      assert r'.states[i] == r.states[i];
    } else {
      CompletionStaysApart(r, r', i - 1);
      CompletingStaysApart(r'.states[i - 1], r'.steps[i - 1]);
    }
  }

  /** One more call of a session that is in a section. */
  lemma Proceed(r: Run, r': Run, s: Sid) returns (r'': Run)
    requires Completes(r, r') && s in Last(r').phase && InSection(Last(r').phase[s])
    ensures Completes(r, r'') && r''.steps == r'.steps + [Step(s, NextAct(Last(r').phase[s]))]
    ensures var p := Last(r').phase[s];
            Last(r'').phase == Last(r').phase[s := PhaseAfter(p, Value(Last(r'), p.obj))]
    ensures Last(r'').bound == if Last(r').phase[s].Stopped? then None else Last(r').bound
    ensures r''.states == r'.states + [Last(r'')]
  {
    var step := Step(s, NextAct(Last(r').phase[s]));
    r'' := Run(r'.states + [Next(Last(r'), step)], r'.steps + [step]);
    Moved(Last(r'), step);
  }

  /** The rest of `startup`, if its start succeeds. */
  lemma Attach(r: Run, r': Run, s: Sid) returns (r'': Run)
    requires Completes(r, r') && s in Last(r').phase && Entering(Last(r').phase[s])
    ensures Completes(r, r'') && Last(r'').bound == Last(r').bound
    ensures Last(r'').phase == Last(r').phase[s := Attached(Last(r').phase[s].obj)]
  {
    r'' := r';
    if Last(r'').phase[s].Opened? {
      r'' := Proceed(r, r'', s);
    }
    r'' := Proceed(r, r'', s);
    if Last(r'').phase[s].Starting? {
      r'' := Proceed(r, r'', s);
    }
  }

  /** A session that ends makes its calls up to the stop. */
  lemma UpToStop(r: Run, r': Run, t: Sid) returns (r'': Run)
    requires Completes(r, r') && t in Last(r').phase && Past(Last(r').phase[t]) && !Last(r').phase[t].Stopped?
    ensures Completes(r, r'') && Last(r'').bound == Last(r').bound
    ensures Last(r'').phase == Last(r').phase[t := Closing(Last(r').phase[t].obj)]
  {
    r'' := r';
    if Last(r'').phase[t].Sampled? {
      r'' := Proceed(r, r'', t);
    }
  }

  /** When a session enters while another ends, and that one has not stopped the container
      yet, their own remaining calls suffice for a stop under the attached session. */
  lemma EnteringIsStopped(r: Run, s: Sid, t: Sid) returns (r': Run)
    requires IsRun(r) && s in Last(r).phase && t in Last(r).phase
    requires Entering(Last(r).phase[s]) && Ending(Last(r), Last(r).phase[t]) && !Last(r).phase[t].Stopped?
    ensures Completes(r, r') && StopsUnder(r', |r'.steps| - 1)
    ensures Last(r').phase == Last(r).phase[s := Attached(Last(r).phase[s].obj)][t := Stopped(Last(r).phase[t].obj)]
  {
    var ready := AboutToStop(r, s, t);
    r' := Proceed(r, ready, t);
    assert r'.states[|ready.steps|] == Last(ready);
    assert Last(ready).phase[s].Attached?;
  }

  lemma AboutToStop(r: Run, s: Sid, t: Sid) returns (r': Run)
    requires IsRun(r) && s in Last(r).phase && t in Last(r).phase
    requires Entering(Last(r).phase[s]) && Ending(Last(r), Last(r).phase[t]) && !Last(r).phase[t].Stopped?
    ensures Completes(r, r')
    ensures Last(r').phase == Last(r).phase[s := Attached(Last(r).phase[s].obj)][t := Closing(Last(r).phase[t].obj)]
  {
    r' := r;
    if Last(r').phase[t].Waited? {
      r' := Proceed(r, r', t);
    }
    r' := Attach(r, r', s);
    r' := UpToStop(r, r', t);
  }

  /** When that one has stopped the container, its remaining unlink takes the name from the
      object of the attached session. */
  lemma EnteringLosesName(r: Run, s: Sid, t: Sid) returns (r': Run)
    requires IsRun(r) && s in Last(r).phase && t in Last(r).phase
    requires Entering(Last(r).phase[s]) && Last(r).phase[t].Stopped?
    ensures Completes(r, r') && Last(r').bound == None
    ensures Last(r').phase == Last(r).phase[s := Attached(Last(r).phase[s].obj)][t := Done(Last(r).phase[t].obj)]
  {
    r' := Attach(r, r, s);
    r' := Proceed(r, r', t);
  }

  /** And then the next session to come counts for itself: two attached sessions hold
      different objects. */
  lemma EnteringSplitsTheCount(r: Run, s: Sid, t: Sid, u: Sid) returns (r': Run)
    requires IsRun(r) && s in Last(r).phase && t in Last(r).phase && u !in Last(r).phase
    requires Entering(Last(r).phase[s]) && Last(r).phase[t].Stopped?
    ensures IsRun(r') && r.steps <= r'.steps
    ensures s in Last(r').phase && u in Last(r').phase
    ensures Last(r').phase[s].Attached? && Last(r').phase[u].Attached?
    ensures Last(r').phase[s].obj != Last(r').phase[u].obj
  {
    var lost := EnteringLosesName(r, s, t);
    CountedAlways(lost, |lost.steps|);
    var open := Extend(lost, Step(u, Open(true)));
    assert Last(open).phase == Last(lost).phase[u := Opened(Last(lost).next)];
    r' := Attach(open, open, u);
  }

  /** The boundary is exact.  As long as nobody entered while another ended, and after one
      more step: nobody does so now if and only if no way to go on with the sections in
      progress stops the container under a session or takes its name. */
  lemma ApartExactly(r: Run)
    requires IsRun(r) && forall i :: 0 <= i < |r.states| - 1 ==> Apart(r.states[i])
    ensures Apart(Last(r)) <==> forall r' :: Completes(r, r') ==> !Harmed(r')
  {
    if Apart(Last(r)) {
      forall r' | Completes(r, r') ensures !Harmed(r') {
        forall i | 0 <= i < |r'.states| ensures Apart(r'.states[i]) {
          CompletionStaysApart(r, r', i);
        }
        ApartIsSafe(r');
      }
    } else {
      var st := Last(r);
      var s, t :| s in st.phase && t in st.phase && Entering(st.phase[s]) && Ending(st, st.phase[t]);
      if st.phase[t].Stopped? {
        var r' := EnteringLosesName(r, s, t);
        assert Last(r').phase[s].Attached?;
        assert Astray(r'.states[|r'.states| - 1]);
        assert Completes(r, r') && Harmed(r');
      } else {
        var r' := EnteringIsStopped(r, s, t);
        assert Completes(r, r') && Harmed(r');
      }
    }
  }

  /////////////////////////////// what deaths cost ///////////////////////////////

  /** The container runs, or a session has yet to start it. */
  predicate Up(st: State) {
    st.running || exists s :: s in st.phase && st.phase[s].Starting?
  }

  /** Nobody is attached, or died holding an object, without the container. */
  ghost predicate Supported(st: State) {
    forall s :: s in st.phase && (st.phase[s].Attached? || st.phase[s].Died?) ==> Up(st)
  }

  /** A session that reads more than zero can rely on it until its post. */
  ghost predicate CountsTrue(st: State) {
    forall s :: s in st.phase && st.phase[s].Peeked? && st.phase[s].count > 0 ==> Value(st, st.phase[s].obj) > 0
  }

  /** A start that fails, or a kill of the session that was to make it. */
  predicate LosesStart(st: State, step: Step) {
    || step.act == Start(false)
    || (step.act == Kill && step.sid in st.phase && st.phase[step.sid].Starting?)
  }

  ghost predicate KeepsStarts(r: Run) {
    forall i :: 0 <= i < |r.steps| && i < |r.states| ==> !LosesStart(r.states[i], r.steps[i])
  }

  lemma CountStaysTrue(st: State, step: Step, t: Sid)
    requires Counted(st) && CountsTrue(st) && Enabled(st, step) && Apart(Next(st, step))
    requires t in Next(st, step).phase && Next(st, step).phase[t].Peeked? && Next(st, step).phase[t].count > 0
    ensures Value(Next(st, step), Next(st, step).phase[t].obj) > 0
  {
    var after, s := Next(st, step), step.sid;
    assert s in after.phase && Entering(after.phase[t]) && !Ending(after, after.phase[s]);
    if t != s {
      assert st.phase[t] == after.phase[t];
    }
  }

  lemma CountsStayTrue(st: State, step: Step)
    requires Counted(st) && CountsTrue(st) && Enabled(st, step) && Apart(Next(st, step))
    ensures CountsTrue(Next(st, step))
  {
    var after := Next(st, step);
    forall t | t in after.phase && after.phase[t].Peeked? && after.phase[t].count > 0
      ensures Value(after, after.phase[t].obj) > 0
    {
      CountStaysTrue(st, step, t);
    }
  }

  /** Where a session can hold without the container, some holder before had none. */
  lemma HolderBefore(st: State, step: Step, t: Sid) returns (h: Sid)
    requires Counted(st) && CountsTrue(st) && Enabled(st, step) && !LosesStart(st, step)
    requires t in Next(st, step).phase && (Next(st, step).phase[t].Attached? || Next(st, step).phase[t].Died?)
    requires step.act != Start(true)
    ensures h in st.phase && (st.phase[h].Attached? || st.phase[h].Died? || st.phase[h].Starting?)
  {
    h := t;
    if t == step.sid && step.act == Post {
      assert Holders(st, st.phase[t].obj) != {};
      h :| h in Holders(st, st.phase[t].obj);
    }
  }

  lemma UpRemains(st: State, step: Step)
    requires Enabled(st, step) && Up(st) && !LosesStart(st, step) && step.act != Stop
    ensures Up(Next(st, step))
  {
    var after, s := Next(st, step), step.sid;
    if !after.running {
      var u :| u in st.phase && st.phase[u].Starting?;
      assert u != s;
      Unmoved(st, step, u);
    }
  }

  lemma StopsAlone(st: State, step: Step)
    requires ApartInv(st) && Enabled(st, step) && step.act == Stop
    ensures Nobody(Next(st, step))
  {
    assert Past(st.phase[step.sid]);
  }

  /** No other step leaves a holder without the container. */
  lemma SupportedStep(st: State, step: Step)
    requires ApartInv(st) && CountsTrue(st) && Supported(st) && Enabled(st, step) && !LosesStart(st, step)
    ensures Supported(Next(st, step))
  {
    var after := Next(st, step);
    forall t | t in after.phase && (after.phase[t].Attached? || after.phase[t].Died?) ensures Up(after) {
      if step.act == Stop {
        StopsAlone(st, step);
        assert false;
      } else if step.act != Start(true) {
        var h := HolderBefore(st, step, t);
        UpRemains(st, step);
      }
    }
  }

  lemma {:induction false} CountsTrueAlways(r: Run, i: nat)
    requires IsRun(r) && AlwaysApart(r) && i < |r.states|
    ensures CountsTrue(r.states[i])
  {
    if i > 0 {
      CountsTrueAlways(r, i - 1);
      CountedAlways(r, i - 1);
      assert Apart(r.states[i]);
      assert Enabled(r.states[i - 1], r.steps[i - 1]) && r.states[i] == Next(r.states[i - 1], r.steps[i - 1]);
      CountsStayTrue(r.states[i - 1], r.steps[i - 1]);
    }
  }

  lemma {:induction false} SupportedAlways(r: Run, i: nat)
    requires IsRun(r) && AlwaysApart(r) && KeepsStarts(r) && i < |r.states|
    ensures Supported(r.states[i])
  {
    if i > 0 {
      SupportedAlways(r, i - 1);
      CountsTrueAlways(r, i - 1);
      ApartAlways(r, i - 1);
      assert !LosesStart(r.states[i - 1], r.steps[i - 1]);
      assert Enabled(r.states[i - 1], r.steps[i - 1]) && r.states[i] == Next(r.states[i - 1], r.steps[i - 1]);
      SupportedStep(r.states[i - 1], r.steps[i - 1]);
    }
  }

  /** If moreover no start is lost, by failing or by a kill of the session that was to make
      it, then whoever else is killed, the container runs, or is about to be started, under
      every attached session, and under every object that a dead session still counts on. */
  lemma UpUnderSession(r: Run, i: nat, s: Sid)
    requires IsRun(r) && AlwaysApart(r) && KeepsStarts(r) && i < |r.states|
    requires s in r.states[i].phase && (r.states[i].phase[s].Attached? || r.states[i].phase[s].Died?)
    ensures Up(r.states[i]) && r.states[i].bound == Some(r.states[i].phase[s].obj)
  {
    SupportedAlways(r, i);
    ApartAlways(r, i);
  }

  /** A lost start hurts exactly when nothing else has the container up: then who holds is
      left without it. */
  lemma LostStartIff(r: Run)
    requires IsRun(r) && r.steps != [] && LosesStart(r.states[|r.steps| - 1], r.steps[|r.steps| - 1])
    ensures Supported(Last(r)) <==> Up(Last(r))
  {
    var st, step := r.states[|r.steps| - 1], r.steps[|r.steps| - 1];
    assert Enabled(st, step) && Last(r) == Next(st, step);
    assert Last(r).phase[step.sid].Died?;
  }

  /** A session that comes next, up to its post. */
  lemma Newcomer(r: Run, u: Sid) returns (r': Run)
    requires IsRun(r) && u !in Last(r).phase
    ensures IsRun(r') && r'.steps == r.steps + [Step(u, Open(true)), Step(u, Peek), Step(u, Post)]
    ensures u in Last(r').phase
    ensures var st, p := Last(r), Last(r').phase[u];
            && Last(r').phase == st.phase[u := p] && Last(r').running == st.running
            && p == if st.bound.Some? && Value(st, st.bound.value) > 0 then Attached(st.bound.value)
                    else Starting(if st.bound.Some? then st.bound.value else st.next)
  {
    var st := Last(r);
    CountedAlways(r, |r.steps|);
    var open := Extend(r, Step(u, Open(true)));
    var peek := Extend(open, Step(u, Peek));
    r' := Extend(peek, Step(u, Post));
    var o := Last(open).phase[u].obj;
    assert Last(peek).phase[u] == Peeked(o, Value(Last(open), o));
  }

  lemma UpOfRest(st: State, after: State, u: Sid)
    requires u !in st.phase && u in after.phase && after.phase == st.phase[u := after.phase[u]]
    requires after.running == st.running && !after.phase[u].Starting?
    ensures Up(after) <==> Up(st)
  {
    if t :| t in st.phase && st.phase[t].Starting? {
      assert after.phase[t] == st.phase[t];
    }
  }

  /** The next session to come is attached without a container if and only if nothing is up
      and somebody, alive or dead, holds the object the name refers to. */
  lemma NewcomerStranded(r: Run, u: Sid) returns (r': Run)
    requires IsRun(r) && u !in Last(r).phase
    ensures IsRun(r') && r'.steps == r.steps + [Step(u, Open(true)), Step(u, Peek), Step(u, Post)]
    ensures u in Last(r').phase
    ensures Last(r').phase[u].Attached? && !Up(Last(r')) <==>
              !Up(Last(r)) && Last(r).bound.Some? && Holders(Last(r), Last(r).bound.value) != {}
  {
    r' := Newcomer(r, u);
    var st, after := Last(r), Last(r');
    CountedAlways(r, |r.steps|);
    if after.phase[u].Attached? {
      UpOfRest(st, after, u);
    }
    if st.bound.Some? && Holders(st, st.bound.value) != {} {
      assert Value(st, st.bound.value) > 0;
    }
  }

  /** In runs in which no session enters while another ends, this is exact: every holder, the
      dead included, has the container up, now, if and only if neither a session attached now
      nor the next one to come is without it. */
  lemma SupportedExactly(r: Run, u: Sid) returns (r': Run)
    requires IsRun(r) && AlwaysApart(r) && u !in Last(r).phase
    ensures IsRun(r') && r'.steps == r.steps + [Step(u, Open(true)), Step(u, Peek), Step(u, Post)]
    ensures Supported(Last(r)) <==>
              (forall s :: s in Last(r).phase && Last(r).phase[s].Attached? ==> Up(Last(r))) &&
              (u in Last(r').phase && Last(r').phase[u].Attached? ==> Up(Last(r')))
  {
    r' := NewcomerStranded(r, u);
    var st := Last(r);
    ApartAlways(r, |r.steps|);
    if d :| d in st.phase && st.phase[d].Died? && !Up(st) {
      assert d in Holders(st, st.phase[d].obj);
    }
    if !Up(st) && st.bound.Some? && Holders(st, st.bound.value) != {} {
      var h :| h in Holders(st, st.bound.value);
      assert !st.phase[h].Starting?;
    }
  }

  /** When all are over, none of them killed outside, the container is down and the name
      gone if and only if none died between post and wait. */
  lemma LeftBehindIff(r: Run)
    requires IsRun(r) && AlwaysApart(r)
    requires forall s :: s in Last(r).phase ==> Finished(Last(r).phase[s]) && !Last(r).phase[s].Killed?
    ensures !Last(r).running && Last(r).bound == None <==> forall s :: s in Last(r).phase ==> !Last(r).phase[s].Died?
  {
    NothingLeftBehind(r);
    ApartAlways(r, |r.steps|);
  }
}
