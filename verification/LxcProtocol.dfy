/** The session counting of src/lxcuser.cpp as a transition system. */
module LxcProtocol {
  import opened Wrappers

  // Any number of lxcuser processes share one semaphore name.  Every call made by
  // `startup` and `shutdown` is a step of its own, so a run is an arbitrary
  // interleaving.  Semaphore objects are kept apart from the name: `sem_unlink`
  // frees the name while holders keep the object they opened.

  type Sid = nat
  type Obj = nat

  /** Where a session stands between two calls. */
  datatype Phase =
    | Opened(obj: Obj)                 // startup: sem_open returned
    | Peeked(obj: Obj, count: nat)     // startup: sem_getvalue returned
    | Starting(obj: Obj)               // startup: posted after reading 0, lxc-start comes next
    | Attached(obj: Obj)               // startup returned, or a signal may come
    | Waited(obj: Obj)                 // shutdown: sem_wait returned
    | Sampled(obj: Obj, count: nat)    // shutdown: sem_getvalue returned
    | Closing(obj: Obj)                // shutdown: closed after reading 0, lxc-stop comes next
    | Stopped(obj: Obj)                // shutdown: lxc-stop returned, sem_unlink comes next
    | Done(obj: Obj)                   // left cleanly
    | Died(obj: Obj)                   // lxc-start failed or a kill between sem_post and sem_wait
    | Killed(obj: Obj)                 // killed before sem_post or behind sem_wait
    | Refused                          // sem_open failed: the process exits

  datatype Act =
    | Open(ok: bool) | Peek | Post | Start(ok: bool)
    | Wait | Sample | Close | Stop | Unlink
    | Kill                             // the process ends without another call

  datatype Step = Step(sid: Sid, act: Act)

  /** `value` holds every object ever created, `bound` what the name refers to. */
  datatype State = State(
    value: map<Obj, nat>, bound: Maybe<Obj>, next: Obj, running: bool, phase: map<Sid, Phase>)

  const INIT := State(map[], None, 0, false, map[])

  predicate Enabled(st: State, step: Step) {
    match step.act
    case Open(_) => step.sid !in st.phase
    case Peek => step.sid in st.phase && st.phase[step.sid].Opened?
    case Post => step.sid in st.phase && st.phase[step.sid].Peeked?
    case Start(_) => step.sid in st.phase && st.phase[step.sid].Starting?
    case Wait => // sem_wait blocks while the value is zero
      step.sid in st.phase && st.phase[step.sid].Attached? && Value(st, st.phase[step.sid].obj) > 0
    case Sample => step.sid in st.phase && st.phase[step.sid].Waited?
    case Close => step.sid in st.phase && st.phase[step.sid].Sampled?
    case Stop => step.sid in st.phase && st.phase[step.sid].Closing?
    case Unlink => step.sid in st.phase && st.phase[step.sid].Stopped?
    case Kill => step.sid in st.phase && !Finished(st.phase[step.sid])
  }

  function Value(st: State, o: Obj): nat {
    if o in st.value then st.value[o] else 0
  }

  function Move(st: State, s: Sid, p: Phase): State {
    st.(phase := st.phase[s := p])
  }

  function SetValue(st: State, o: Obj, n: nat): State {
    st.(value := st.value[o := n])
  }

  function Next(st: State, step: Step): (after: State)
    requires Enabled(st, step)
    ensures step.sid in after.phase
  {
    var s := step.sid;
    match step.act
    case Open(ok) =>
      if !ok then Move(st, s, Refused)
      else if st.bound.Some? then Move(st, s, Opened(st.bound.value))
      else Move(SetValue(st, st.next, 0).(bound := Some(st.next), next := st.next + 1), s, Opened(st.next))
    case Peek =>
      var o := st.phase[s].obj;
      Move(st, s, Peeked(o, Value(st, o)))
    case Post =>
      var o := st.phase[s].obj;
      Move(SetValue(st, o, Value(st, o) + 1), s, if st.phase[s].count != 0 then Attached(o) else Starting(o))
    case Start(ok) =>
      var o := st.phase[s].obj;
      if ok then Move(st.(running := true), s, Attached(o)) else Move(st, s, Died(o))
    case Wait =>
      var o := st.phase[s].obj;
      Move(SetValue(st, o, Value(st, o) - 1), s, Waited(o))
    case Sample =>
      var o := st.phase[s].obj;
      Move(st, s, Sampled(o, Value(st, o)))
    case Close =>
      var o := st.phase[s].obj;
      Move(st, s, if st.phase[s].count == 0 then Closing(o) else Done(o))
    case Stop => Move(st.(running := false), s, Stopped(st.phase[s].obj))
    case Unlink => Move(st.(bound := None), s, Done(st.phase[s].obj))
    case Kill =>
      var o := st.phase[s].obj;
      Move(st, s, if Holding(st.phase[s], o) then Died(o) else Killed(o))
  }

  /** An interleaving: the steps taken and the states between them. */
  datatype Run = Run(states: seq<State>, steps: seq<Step>)

  ghost predicate IsRun(r: Run) {
    && |r.states| == |r.steps| + 1
    && r.states[0] == INIT
    && forall i :: 0 <= i < |r.steps| ==>
      Enabled(r.states[i], r.steps[i]) && r.states[i + 1] == Next(r.states[i], r.steps[i])
  }

  function Last(r: Run): State
    requires |r.states| > 0
  {
    r.states[|r.states| - 1]
  }

  /////////////////////////////// counting ///////////////////////////////

  /** Sessions that posted to `o` and have not waited yet, dead ones included. */
  predicate Holding(p: Phase, o: Obj) {
    (p.Starting? || p.Attached? || p.Died?) && p.obj == o
  }

  function Holders(st: State, o: Obj): set<Sid> {
    set s | s in st.phase && Holding(st.phase[s], o)
  }

  /** Those of them that died after posting. */
  function Dead(st: State, o: Obj): set<Sid> {
    set s | s in st.phase && st.phase[s] == Died(o)
  }

  function Live(st: State, o: Obj): set<Sid> {
    Holders(st, o) - Dead(st, o)
  }

  ghost predicate Known(st: State) {
    && (forall o :: o in st.value ==> o < st.next)
    && (st.bound.Some? ==> st.bound.value in st.value)
    && (forall s :: s in st.phase && !st.phase[s].Refused? ==> st.phase[s].obj in st.value)
  }

  ghost predicate Counted(st: State) {
    && Known(st)
    && forall o :: o in st.value ==> st.value[o] == |Holders(st, o)|
  }

  /** A step moves one session, so it adds or removes at most that one holder. */
  lemma HoldersStep(st: State, step: Step, o: Obj)
    requires Enabled(st, step)
    ensures var s, after := step.sid, Next(st, step);
            Holders(after, o) == if Holding(after.phase[s], o) then Holders(st, o) + {s} else Holders(st, o) - {s}
  {
  }

  lemma KnownStep(st: State, step: Step)
    requires Known(st) && Enabled(st, step)
    ensures Known(Next(st, step))
  {
  }

  function Ticket(st: State, s: Sid, o: Obj): nat {
    if s in st.phase && Holding(st.phase[s], o) then 1 else 0
  }

  lemma ValueStep(st: State, step: Step, o: Obj)
    requires Counted(st) && Enabled(st, step)
    ensures Value(Next(st, step), o) + Ticket(st, step.sid, o) == Value(st, o) + Ticket(Next(st, step), step.sid, o)
  {
  }

  lemma Recount(holders: set<Sid>, s: Sid)
    ensures |holders + {s}| == |holders| + if s in holders then 0 else 1
    ensures |holders - {s}| == |holders| - if s in holders then 1 else 0
  {
    if s in holders {
      assert holders + {s} == holders && holders == (holders - {s}) + {s};
    } else {
      assert holders - {s} == holders;
    }
  }

  lemma NobodyHolds(st: State, o: Obj)
    requires Known(st) && o !in st.value
    ensures Holders(st, o) == {}
  {
  }

  lemma CountedOne(st: State, step: Step, o: Obj)
    requires Counted(st) && Enabled(st, step) && o in Next(st, step).value
    ensures Next(st, step).value[o] == |Holders(Next(st, step), o)|
  {
    HoldersStep(st, step, o);
    ValueStep(st, step, o);
    Recount(Holders(st, o), step.sid);
    if o !in st.value {
      NobodyHolds(st, o);
    }
  }

  lemma CountedStep(st: State, step: Step)
    requires Counted(st) && Enabled(st, step)
    ensures Counted(Next(st, step))
  {
    KnownStep(st, step);
    forall o | o in Next(st, step).value {
      CountedOne(st, step, o);
    }
  }

  lemma {:induction false} CountedAlways(r: Run, i: nat)
    requires IsRun(r) && i < |r.states|
    ensures Counted(r.states[i])
  {
    if i > 0 {
      CountedAlways(r, i - 1);
      CountedStep(r.states[i - 1], r.steps[i - 1]);
    }
  }

  /** Over every interleaving each semaphore object counts the sessions that posted
      to it and have not waited, plus those that died after posting; so `sem_wait`
      of an attached session never blocks, whatever became of the name. */
  lemma CountsSessions(r: Run, i: nat)
    requires IsRun(r) && i < |r.states|
    ensures forall o :: o in r.states[i].value ==>
              r.states[i].value[o] == |Live(r.states[i], o)| + |Dead(r.states[i], o)|
    ensures forall s :: s in r.states[i].phase && r.states[i].phase[s].Attached? ==>
              Enabled(r.states[i], Step(s, Wait))
  {
    CountedAlways(r, i);
    var st := r.states[i];
    forall o | o in st.value ensures st.value[o] == |Live(st, o)| + |Dead(st, o)| {
      assert Holders(st, o) == Live(st, o) + Dead(st, o);
    }
    forall s | s in st.phase && st.phase[s].Attached? ensures Enabled(st, Step(s, Wait)) {
      assert s in Holders(st, st.phase[s].obj);
    }
  }

  predicate Finished(p: Phase) {
    p.Done? || p.Died? || p.Killed? || p.Refused?
  }

  /** What a session does next. */
  function NextAct(p: Phase): Act
    requires !Finished(p)
  {
    match p
    case Opened(_) => Peek
    case Peeked(_, _) => Post
    case Starting(_) => Start(true)
    case Attached(_) => Wait
    case Waited(_) => Sample
    case Sampled(_, _) => Close
    case Closing(_) => Stop
    case Stopped(_) => Unlink
  }

  /** Where that call leads, if the value of its object is `v` before it. */
  function PhaseAfter(p: Phase, v: nat): Phase
    requires !Finished(p)
  {
    match p
    case Opened(o) => Peeked(o, v)
    case Peeked(o, n) => if n != 0 then Attached(o) else Starting(o)
    case Starting(o) => Attached(o)
    case Attached(o) => Waited(o)
    case Waited(o) => Sampled(o, v)
    case Sampled(o, n) => if n == 0 then Closing(o) else Done(o)
    case Closing(o) => Stopped(o)
    case Stopped(o) => Done(o)
  }

  /** The steps after which a session is dead. */
  predicate Deadly(act: Act) {
    act == Start(false) || act == Kill
  }

  /** A step that neither opens nor kills is the session's next call. */
  lemma Moved(st: State, step: Step)
    requires Enabled(st, step) && !step.act.Open? && !Deadly(step.act)
    ensures step.act == NextAct(st.phase[step.sid])
    ensures Next(st, step).phase ==
            st.phase[step.sid := PhaseAfter(st.phase[step.sid], Value(st, st.phase[step.sid].obj))]
  {
  }

  /** No reachable state is stuck: every unfinished session can take its next call. */
  lemma NoDeadlock(r: Run, i: nat, s: Sid)
    requires IsRun(r) && i < |r.states|
    requires s in r.states[i].phase && !Finished(r.states[i].phase[s])
    ensures Enabled(r.states[i], Step(s, NextAct(r.states[i].phase[s])))
  {
    CountsSessions(r, i);
  }

  /** Any unfinished session of any reachable state can be killed next: that changes nothing
      but its own phase, it counts on if it had posted and not waited, and else not. */
  lemma KillsAnybody(r: Run, s: Sid) returns (r': Run)
    requires IsRun(r) && s in Last(r).phase && !Finished(Last(r).phase[s])
    ensures IsRun(r') && r'.steps == r.steps + [Step(s, Kill)] && r'.states == r.states + [Last(r')]
    ensures var p := Last(r).phase[s];
            var dead := if p.Starting? || p.Attached? then Died(p.obj) else Killed(p.obj);
            Last(r') == Last(r).(phase := Last(r).phase[s := dead])
  {
    r' := Run(r.states + [Next(Last(r), Step(s, Kill))], r.steps + [Step(s, Kill)]);
  }

  /////////////////////////////// first post, last wait ///////////////////////////////

  /** Step `i` is a call `act` by a session that holds object `o`. */
  predicate Acts(r: Run, i: nat, act: Act, o: Obj) {
    && |r.states| == |r.steps| + 1 && i < |r.steps|
    && r.steps[i].act == act
    && r.steps[i].sid in r.states[i].phase
    && !r.states[i].phase[r.steps[i].sid].Refused?
    && r.states[i].phase[r.steps[i].sid].obj == o
  }

  ghost predicate FirstPost(r: Run, i: nat, o: Obj) {
    Acts(r, i, Post, o) && forall j :: 0 <= j < i ==> !Acts(r, j, Post, o)
  }

  ghost predicate LastWait(r: Run, i: nat, o: Obj) {
    Acts(r, i, Wait, o) && forall j :: i < j < |r.steps| ==> !Acts(r, j, Wait, o)
  }

  /** Nobody has posted to `o`, nor read anything but 0 from it. */
  ghost predicate Fresh(st: State, o: Obj) {
    && Value(st, o) == 0
    && forall s :: s in st.phase ==>
         !Holding(st.phase[s], o) &&
         (st.phase[s].Peeked? && st.phase[s].obj == o ==> st.phase[s].count == 0)
  }

  lemma FreshStep(st: State, step: Step, o: Obj)
    requires Fresh(st, o) && Enabled(st, step)
    requires step.act == Post ==> st.phase[step.sid].obj != o
    ensures Fresh(Next(st, step), o)
  {
  }

  /** Before the first post nobody can have read anything but 0 from `o`. */
  lemma {:induction false} Untouched(r: Run, i: nat, o: Obj)
    requires IsRun(r) && i < |r.states|
    requires forall j :: 0 <= j < i ==> !Acts(r, j, Post, o)
    ensures Fresh(r.states[i], o)
  {
    if i > 0 {
      Untouched(r, i - 1, o);
      assert !Acts(r, i - 1, Post, o);
      assert Enabled(r.states[i - 1], r.steps[i - 1]) && r.states[i] == Next(r.states[i - 1], r.steps[i - 1]);
      FreshStep(r.states[i - 1], r.steps[i - 1], o);
    }
  }

  /** A session only changes phase by its own steps. */
  lemma {:induction false} Leaves(r: Run, s: Sid, a: nat, n: nat) returns (k: nat)
    requires IsRun(r) && a <= n < |r.states|
    requires s in r.states[a].phase
    requires s in r.states[n].phase ==> r.states[n].phase[s] != r.states[a].phase[s]
    ensures a <= k < n && s in r.states[k].phase && r.states[k].phase[s] == r.states[a].phase[s]
    ensures r.steps[k].sid == s
    decreases n - a
  {
    assert a < n;
    assert Enabled(r.states[a], r.steps[a]) && r.states[a + 1] == Next(r.states[a], r.steps[a]);
    if r.steps[a].sid == s {
      k := a;
    } else {
      k := Leaves(r, s, a + 1, n);
    }
  }

  lemma {:induction false} FinishedForever(r: Run, s: Sid, a: nat, n: nat)
    requires IsRun(r) && a <= n < |r.states|
    requires s in r.states[a].phase && Finished(r.states[a].phase[s])
    ensures s in r.states[n].phase && r.states[n].phase[s] == r.states[a].phase[s]
    decreases n - a
  {
    if a < n {
      assert Enabled(r.states[a], r.steps[a]) && r.states[a + 1] == Next(r.states[a], r.steps[a]);
      FinishedForever(r, s, a + 1, n);
    }
  }

  /** All sessions that ever touched `o` left cleanly. */
  predicate CleanEnd(st: State, o: Obj) {
    forall s :: s in st.phase && !st.phase[s].Refused? && st.phase[s].obj == o ==> st.phase[s].Done?
  }

  lemma {:induction false} StaysOn(r: Run, s: Sid, a: nat, n: nat)
    requires IsRun(r) && a <= n < |r.states|
    requires s in r.states[a].phase && !r.states[a].phase[s].Refused?
    ensures s in r.states[n].phase && !r.states[n].phase[s].Refused?
    ensures r.states[n].phase[s].obj == r.states[a].phase[s].obj
    decreases n - a
  {
    if a < n {
      assert Enabled(r.states[a], r.steps[a]) && r.states[a + 1] == Next(r.states[a], r.steps[a]);
      StaysOn(r, s, a + 1, n);
    }
  }

  /** An unfinished session that leaves its object cleanly makes its next call. */
  lemma CleanCall(r: Run, s: Sid, a: nat, o: Obj) returns (k: nat)
    requires IsRun(r) && a < |r.states| && CleanEnd(Last(r), o)
    requires s in r.states[a].phase && !Finished(r.states[a].phase[s]) && r.states[a].phase[s].obj == o
    ensures a <= k && Acts(r, k, NextAct(r.states[a].phase[s]), o) && r.steps[k].sid == s
    ensures r.states[k].phase[s] == r.states[a].phase[s]
    ensures s in r.states[k + 1].phase &&
            r.states[k + 1].phase[s] == PhaseAfter(r.states[a].phase[s], Value(r.states[k], o))
  {
    var n := |r.steps|;
    StaysOn(r, s, a, n);
    k := Leaves(r, s, a, n);
    assert Enabled(r.states[k], r.steps[k]) && r.states[k + 1] == Next(r.states[k], r.steps[k]);
    if r.steps[k].act != NextAct(r.states[a].phase[s]) {
      FinishedForever(r, s, k + 1, n);
      assert false;
    }
  }

  /** The session that posts first to an object read 0 and issues the start; when
      every session on the object leaves cleanly, that start succeeded. */
  lemma FirstPosterStarts(r: Run, o: Obj, i: nat) returns (k: nat)
    requires IsRun(r) && FirstPost(r, i, o) && CleanEnd(Last(r), o)
    ensures r.states[i].phase[r.steps[i].sid] == Peeked(o, 0)
    ensures i < k && Acts(r, k, Start(true), o) && r.steps[k].sid == r.steps[i].sid
  {
    Untouched(r, i, o);
    assert r.states[i + 1] == Next(r.states[i], r.steps[i]);
    k := CleanCall(r, r.steps[i].sid, i + 1, o);
  }

  /** Once nobody waits on `o` any more, and all leave cleanly, nobody holds it. */
  lemma NobodyAfterLastWait(r: Run, o: Obj, i: nat, k: nat)
    requires IsRun(r) && LastWait(r, i, o) && CleanEnd(Last(r), o)
    requires i < k < |r.states|
    ensures Value(r.states[k], o) == 0
  {
    CountedAlways(r, k);
    var st, n := r.states[k], |r.steps|;
    if s :| s in Holders(st, o) {
      StaysOn(r, s, k, n);
      if st.phase[s].Died? {
        FinishedForever(r, s, k, n);
      } else {
        var m := HolderWaits(r, s, k, o);
      }
      assert false;
    }
    assert Holders(st, o) == {};
  }

  /** A holder that leaves cleanly waits on its object. */
  lemma HolderWaits(r: Run, s: Sid, k: nat, o: Obj) returns (m: nat)
    requires IsRun(r) && k < |r.states| && CleanEnd(Last(r), o)
    requires s in r.states[k].phase && (r.states[k].phase[s] == Attached(o) || r.states[k].phase[s] == Starting(o))
    ensures k <= m && Acts(r, m, Wait, o) && r.steps[m].sid == s
  {
    m := CleanCall(r, s, k, o);
    if r.states[k].phase[s] == Starting(o) {
      m := CleanCall(r, s, m + 1, o);
    }
  }

  lemma LastReadsZero(r: Run, o: Obj, i: nat) returns (sample: nat)
    requires IsRun(r) && LastWait(r, i, o) && CleanEnd(Last(r), o)
    ensures var s := r.steps[i].sid;
            && i < sample && Acts(r, sample, Sample, o) && r.steps[sample].sid == s
            && s in r.states[sample + 1].phase && r.states[sample + 1].phase[s] == Sampled(o, 0)
  {
    assert r.states[i + 1] == Next(r.states[i], r.steps[i]);
    sample := CleanCall(r, r.steps[i].sid, i + 1, o);
    NobodyAfterLastWait(r, o, i, sample);
  }

  /** A session that read 0 and leaves cleanly stops the container, then unlinks the name. */
  lemma ZeroStops(r: Run, o: Obj, s: Sid, a: nat) returns (stop: nat, unlink: nat)
    requires IsRun(r) && a < |r.states| && CleanEnd(Last(r), o)
    requires s in r.states[a].phase && r.states[a].phase[s] == Sampled(o, 0)
    ensures a <= stop < unlink
    ensures Acts(r, stop, Stop, o) && r.steps[stop].sid == s
    ensures Acts(r, unlink, Unlink, o) && r.steps[unlink].sid == s
  {
    var close := CleanCall(r, s, a, o);
    stop := CleanCall(r, s, close + 1, o);
    unlink := CleanCall(r, s, stop + 1, o);
  }

  /** The session that waits last on an object reads 0, stops the container and
      unlinks the name, whatever happens in between. */
  lemma LastWaiterStops(r: Run, o: Obj, i: nat) returns (sample: nat, stop: nat, unlink: nat)
    requires IsRun(r) && LastWait(r, i, o) && CleanEnd(Last(r), o)
    ensures i < sample < stop < unlink
    ensures var s := r.steps[i].sid;
            && Acts(r, sample, Sample, o) && r.steps[sample].sid == s
            && r.states[sample + 1].phase[s] == Sampled(o, 0)
            && Acts(r, stop, Stop, o) && r.steps[stop].sid == s
            && Acts(r, unlink, Unlink, o) && r.steps[unlink].sid == s
  {
    var s := r.steps[i].sid;
    sample := LastReadsZero(r, o, i);
    stop, unlink := ZeroStops(r, o, s, sample + 1);
  }

  /////////////////////////////// nothing left behind ///////////////////////////////

  /** Sessions that still owe the stop of the container, or can no longer pay it. */
  predicate OwesStop(p: Phase) {
    || p.Starting? || p.Attached? || p.Waited? || p.Closing? || (p.Sampled? && p.count == 0)
    || p.Died? || p.Killed?
  }

  /** Sessions that still owe the unlinking of `o`, or can no longer pay it. */
  predicate OwesUnlink(p: Phase, o: Obj) {
    && (p.Opened? || p.Peeked? || p.Stopped? || OwesStop(p))
    && p.obj == o
  }

  ghost predicate StopOwed(st: State) {
    st.running ==> exists s :: s in st.phase && OwesStop(st.phase[s])
  }

  ghost predicate UnlinkOwed(st: State) {
    st.bound.Some? ==> exists s :: s in st.phase && OwesUnlink(st.phase[s], st.bound.value)
  }

  ghost predicate Owed(st: State) {
    StopOwed(st) && UnlinkOwed(st)
  }

  /** Who reads more than zero owes nothing, but somebody else still holds the object. */
  lemma SomebodyElse(st: State, step: Step) returns (h: Sid)
    requires Counted(st) && Enabled(st, step) && step.act == Sample
    requires Value(st, st.phase[step.sid].obj) > 0
    ensures h != step.sid && h in st.phase && Holding(st.phase[h], st.phase[step.sid].obj)
  {
    assert Holders(st, st.phase[step.sid].obj) != {};
    h :| h in Holders(st, st.phase[step.sid].obj);
  }

  lemma Unmoved(st: State, step: Step, t: Sid)
    requires Enabled(st, step) && t in st.phase && t != step.sid
    ensures t in Next(st, step).phase && Next(st, step).phase[t] == st.phase[t]
  {
  }

  lemma StopOwedStep(st: State, step: Step)
    requires Counted(st) && StopOwed(st) && Enabled(st, step)
    ensures StopOwed(Next(st, step))
  {
    var after, s := Next(st, step), step.sid;
    assert s in after.phase;
    if after.running && !OwesStop(after.phase[s]) {
      var w :| w in st.phase && OwesStop(st.phase[w]);
      if w == s {
        w := SomebodyElse(st, step);
      }
      Unmoved(st, step, w);
    }
  }

  lemma UnlinkOwedStep(st: State, step: Step)
    requires Counted(st) && UnlinkOwed(st) && Enabled(st, step)
    ensures UnlinkOwed(Next(st, step))
  {
    var after, s := Next(st, step), step.sid;
    assert s in after.phase;
    if after.bound.Some? && !OwesUnlink(after.phase[s], after.bound.value) {
      var u :| u in st.phase && OwesUnlink(st.phase[u], st.bound.value);
      if u == s {
        u := SomebodyElse(st, step);
      }
      Unmoved(st, step, u);
    }
  }

  lemma {:induction false} OwedAlways(r: Run, i: nat)
    requires IsRun(r) && i < |r.states|
    ensures Owed(r.states[i])
  {
    if i > 0 {
      OwedAlways(r, i - 1);
      CountedAlways(r, i - 1);
      StopOwedStep(r.states[i - 1], r.steps[i - 1]);
      UnlinkOwedStep(r.states[i - 1], r.steps[i - 1]);
    }
  }

  /** When all sessions are over, every object counts exactly its dead, so it is back
      at zero if and only if none died on it; and if none died or was killed, the
      container is stopped and the name is gone. */
  lemma NothingLeftBehind(r: Run)
    requires IsRun(r) && forall s :: s in Last(r).phase ==> Finished(Last(r).phase[s])
    ensures forall o :: o in Last(r).value ==> (Last(r).value[o] == 0 <==> Dead(Last(r), o) == {})
    ensures (forall s :: s in Last(r).phase ==> !Last(r).phase[s].Died? && !Last(r).phase[s].Killed?) ==>
              !Last(r).running && Last(r).bound == None
  {
    CountsSessions(r, |r.steps|);
    OwedAlways(r, |r.steps|);
    var st := Last(r);
    forall o | o in st.value ensures st.value[o] == 0 <==> Dead(st, o) == {} {
      assert Live(st, o) == {};
    }
  }

  /** After a death on `o` its count never comes back to zero: no session that opens it
      later starts the container, and none that leaves it stops the container. */
  lemma DeathIsForever(r: Run, d: Sid, a: nat, k: nat)
    requires IsRun(r) && a <= k < |r.steps|
    requires d in r.states[a].phase && r.states[a].phase[d].Died?
    ensures var o := r.states[a].phase[d].obj;
            && Value(r.states[k], o) > 0
            && (Acts(r, k, Peek, o) ==> r.states[k + 1].phase[r.steps[k].sid].count > 0)
            && (Acts(r, k, Sample, o) ==> r.states[k + 1].phase[r.steps[k].sid].count > 0)
  {
    var o := r.states[a].phase[d].obj;
    FinishedForever(r, d, a, k);
    CountedAlways(r, k);
    assert d in Holders(r.states[k], o);
    assert r.states[k + 1] == Next(r.states[k], r.steps[k]);
  }
}
