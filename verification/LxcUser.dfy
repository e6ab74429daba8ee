/** `startup` and `shutdown` of src/lxcuser.cpp as code, with other sessions taking
    arbitrary steps between any two calls. */
module LxcUser {
  import opened Wrappers
  import opened LxcProtocol

  /** The part of the system all sessions share; `run` records how it came about. */
  class Host {
    var now: State
    ghost var run: Run

    ghost predicate Valid()
      reads this
    {
      IsRun(run) && Last(run) == now
    }

    constructor ()
      ensures Valid() && run.steps == [] && now == INIT
    {
      now := INIT;
      run := Run([INIT], []);
    }

    /** One system call of one session. */
    method Call(step: Step)
      requires Valid() && Enabled(now, step)
      modifies this
      ensures Valid() && run.steps == old(run.steps) + [step] && now == Next(old(now), step)
    {
      now := Next(now, step);
      run := Run(run.states + [now], run.steps + [step]);
    }

    /** What the other sessions do before session `s` makes its next call: of the steps
        in `schedule`, those that are theirs and are possible. */
    method Others(schedule: seq<Step>, s: Sid)
      requires Valid()
      modifies this
      ensures Valid()
      ensures Own(run.steps, s) == Own(old(run.steps), s)
      ensures s in now.phase <==> s in old(now).phase
      ensures s in now.phase ==> now.phase[s] == old(now).phase[s]
    {
      for i := 0 to |schedule|
        invariant Valid()
        invariant Own(run.steps, s) == Own(old(run.steps), s)
        invariant s in now.phase <==> s in old(now).phase
        invariant s in now.phase ==> now.phase[s] == old(now).phase[s]
      {
        Other(schedule[i], s);
      }
    }

    method Other(step: Step, s: Sid)
      requires Valid()
      modifies this
      ensures Valid()
      ensures Own(run.steps, s) == Own(old(run.steps), s)
      ensures s in now.phase <==> s in old(now).phase
      ensures s in now.phase ==> now.phase[s] == old(now).phase[s]
    {
      if step.sid != s && Enabled(now, step) {
        OwnSnoc(run.steps, step, s);
        Call(step);
      }
    }
  }

  /** The calls session `s` made. */
  ghost function Own(steps: seq<Step>, s: Sid): seq<Act> {
    if steps == [] then []
    else
      var step := steps[|steps| - 1];
      Own(steps[..|steps| - 1], s) + if step.sid == s then [step.act] else []
  }

  lemma OwnSnoc(steps: seq<Step>, step: Step, s: Sid)
    ensures Own(steps + [step], s) == if step.sid == s then Own(steps, s) + [step.act] else Own(steps, s)
  {
    assert (steps + [step])[..|steps|] == steps;
  }

  /** The calls of `startup` once `sem_open` and `lxc-start` go as said and `count` was read. */
  function StartupActs(openOk: bool, count: nat, startOk: bool): seq<Act> {
    if !openOk then [Open(false)]
    else if count != 0 then [Open(true), Peek, Post]
    else [Open(true), Peek, Post, Start(startOk)]
  }

  function ShutdownActs(count: nat): seq<Act> {
    if count == 0 then [Wait, Sample, Close, Stop, Unlink] else [Wait, Sample, Close]
  }

  /** One lxcuser process with its global semaphore pointer; `calls` records the calls it made. */
  class Process {
    const host: Host
    const sid: Sid
    var sem: Maybe<Obj>
    ghost var calls: seq<Act>

    constructor (host: Host, sid: Sid)
      requires host.Valid() && Own(host.run.steps, sid) == []
      ensures this.host == host && this.sid == sid && sem == None && calls == [] && Valid()
    {
      this.host, this.sid, sem, calls := host, sid, None, [];
    }

    ghost predicate Valid()
      reads this, host
    {
      host.Valid() && calls == Own(host.run.steps, sid)
    }

    /** The phase this session is in, none before its first call. */
    ghost function At(): Maybe<Phase>
      reads host
    {
      if sid in host.now.phase then Some(host.now.phase[sid]) else None
    }

    /** Makes the next call of this session, after the others had their turn. */
    method Next(act: Act, meanwhile: seq<Step>) returns (result: Phase)
      requires Valid() && MayCall(At(), act)
      modifies host, `calls
      ensures Valid()
      ensures calls == old(calls) + [act] && At() == Some(result)
      ensures CallResult(old(At()), act, result)
    {
      host.Others(meanwhile, sid);
      if !act.Open? && !act.Start? {
        NoDeadlock(host.run, |host.run.steps|, sid);
      }
      CallMoves(host.now, Step(sid, act));
      OwnSnoc(host.run.steps, Step(sid, act), sid);
      host.Call(Step(sid, act));
      calls := calls + [act];
      result := host.now.phase[sid];
    }

    /** `startup`: the returned code is that of the process exit it may cause.  Whatever
        other sessions do in between, the calls made are those of the source, in order. */
    method Startup(openOk: bool, startOk: bool, meanwhile: seq<seq<Step>>) returns (count: nat, exit: Maybe<int>)
      requires Valid() && At() == None && |meanwhile| == 4
      modifies this, host
      ensures Valid()
      ensures calls == old(calls) + StartupActs(openOk, count, startOk)
      ensures exit == if !openOk then Some(10) else if count == 0 && !startOk then Some(-1) else None
      ensures exit == None ==> sem.Some? && At() == Some(Attached(sem.value))
      ensures openOk && exit.Some? ==> sem.Some? && At() == Some(Died(sem.value))
    {
      var p := Next(Open(openOk), meanwhile[0]);
      if !openOk {
        return 0, Some(10);
      }
      sem := Some(p.obj);
      p := Next(Peek, meanwhile[1]);
      count := p.count;
      exit := PostAndStart(count, startOk, meanwhile[2], meanwhile[3]);
    }

    /** Posts, and starts the container if the count was zero. */
    method PostAndStart(count: nat, startOk: bool, first: seq<Step>, second: seq<Step>) returns (exit: Maybe<int>)
      requires Valid() && At().Some? && At().value.Peeked? && At().value.count == count
      modifies host, `calls
      ensures Valid()
      ensures calls == old(calls) + if count != 0 then [Post] else [Post, Start(startOk)]
      ensures exit == if count == 0 && !startOk then Some(-1) else None
      ensures At() == Some(if exit.None? then Attached(old(At()).value.obj) else Died(old(At()).value.obj))
    {
      var p := Next(Post, first);
      if count != 0 {
        return None;
      }
      p := Next(Start(startOk), second);
      return if startOk then None else Some(-1);
    }

    method StopContainer(first: seq<Step>, second: seq<Step>)
      requires Valid() && At().Some? && At().value.Closing?
      modifies host, `calls
      ensures Valid() && At() == Some(Done(old(At()).value.obj))
      ensures calls == old(calls) + [Stop, Unlink]
    {
      var p := Next(Stop, first);
      p := Next(Unlink, second);
    }

    /** `shutdown`, entered from an attached session by return or by signal: it never
        blocks, and it stops and unlinks exactly when the count it re-read is zero. */
    method Shutdown(code: int, meanwhile: seq<seq<Step>>) returns (count: int, exit: Maybe<int>)
      requires Valid() && |meanwhile| == 5
      requires sem.Some? ==> At() == Some(Attached(sem.value))
      modifies host, `calls
      ensures Valid()
      ensures sem.None? ==> count == -1 && calls == old(calls)
      ensures sem.Some? ==> count >= 0 && calls == old(calls) + ShutdownActs(count) && At() == Some(Done(sem.value))
      ensures exit == if code != 0 then Some(code) else None
    {
      count := -1;
      if sem.Some? {
        var p := Next(Wait, meanwhile[0]);
        p := Next(Sample, meanwhile[1]);
        count := p.count;
        p := Next(Close, meanwhile[2]);
      }
      if count == 0 {
        StopContainer(meanwhile[3], meanwhile[4]);
      }
      exit := if code != 0 then Some(code) else None;
    }
  }

  predicate MayCall(p: Maybe<Phase>, act: Act) {
    match p
    case None => act.Open?
    case Some(q) => !Finished(q) && (act == NextAct(q) || (q.Starting? && act.Start?))
  }

  /** How a call moves the session that makes it, whatever the others did. */
  ghost predicate CallResult(p: Maybe<Phase>, act: Act, p': Phase) {
    match p
    case None => if act == Open(true) then p'.Opened? else p'.Refused?
    case Some(q) => !q.Refused? && !p'.Refused? && p'.obj == q.obj && Moves(q, act, p')
  }

  ghost predicate Moves(p: Phase, act: Act, p': Phase) {
    match act
    case Open(_) => false
    case Peek => p'.Peeked?
    case Post => p.Peeked? && if p.count != 0 then p'.Attached? else p'.Starting?
    case Start(ok) => if ok then p'.Attached? else p'.Died?
    case Wait => p'.Waited?
    case Sample => p'.Sampled?
    case Close => p.Sampled? && if p.count == 0 then p'.Closing? else p'.Done?
    case Stop => p'.Stopped?
    case Unlink => p'.Done?
    case Kill => p'.Died? || p'.Killed?
  }

  lemma CallMoves(st: State, step: Step)
    requires Enabled(st, step)
    ensures step.sid in Next(st, step).phase
    ensures CallResult(if step.sid in st.phase then Some(st.phase[step.sid]) else None, step.act,
                       Next(st, step).phase[step.sid])
  {
  }
}
