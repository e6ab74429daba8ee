/** Exactly when the order of mounts and objects matters to src/mount.cpp. */
module MountOrder {
  import opened Wrappers
  import opened MountStack

  /** How often the path at `i` occurs behind it. */
  function Later(t: seq<string>, i: nat): nat
    requires i < |t|
  {
    multiset(t[i + 1..])[t[i]]
  }

  /** The object `i` of `held` takes away the mount `k` of `made`: of several mounts on one
      path the topmost goes with the last object. */
  predicate Releases(made: seq<string>, held: seq<string>, i: nat, k: nat) {
    i < |held| && k < |made| && held[i] == made[k] && Later(held, i) == Later(made, k)
  }

  /** The object `j` goes before `i`, although the mount of `i` was made beneath that of `j`. */
  predicate Cross(made: seq<string>, held: seq<string>, i: nat, j: nat, k: nat, l: nat) {
    && i < j && k < l
    && Releases(made, held, i, l) && Releases(made, held, j, k)
    && Beneath(held[j], held[i])
  }

  ghost predicate Crossed(made: seq<string>, held: seq<string>) {
    exists i: nat, j: nat, k: nat, l: nat :: Cross(made, held, i, j, k, l)
  }

  /////////////////////////////// occurrences ///////////////////////////////

  /** The occurrence of a path with `c` more behind it. */
  lemma {:induction false} Occurrence(t: seq<string>, path: string, c: nat) returns (i: nat)
    requires c < multiset(t)[path]
    ensures i < |t| && t[i] == path && Later(t, i) == c
  {
    var rest := t[1..];
    assert t == [t[0]] + rest;
    if c < multiset(rest)[path] {
      i := Occurrence(rest, path, c);
      assert rest[i + 1..] == t[i + 2..];
      i := i + 1;
    } else {
      i := 0;
    }
  }

  lemma LaterLess(t: seq<string>, i: nat)
    requires i < |t|
    ensures Later(t, i) < multiset(t)[t[i]]
  {
    assert t == t[..i] + [t[i]] + t[i + 1..];
  }

  /** The place where nothing equal follows is the topmost one. */
  lemma NoneLater(t: seq<string>, i: nat)
    requires i < |t| && Later(t, i) == 0
    ensures forall k :: i < k < |t| ==> t[k] != t[i]
  {
    forall k | i < k < |t| ensures t[k] != t[i] {
      assert t[i + 1..][k - i - 1] == t[k];
      assert t[k] in multiset(t[i + 1..]);
    }
  }

  lemma LaterInit(t: seq<string>, i: nat)
    requires i < |t| - 1
    ensures Later(t, i) == Later(t[..|t| - 1], i) + if t[i] == t[|t| - 1] then 1 else 0
  {
    var init, last := t[..|t| - 1], t[|t| - 1];
    assert t[i + 1..] == init[i + 1..] + [last];
  }

  function Without(t: seq<string>, top: nat): seq<string>
    requires top < |t|
  {
    t[..top] + t[top + 1..]
  }

  function Up(k: nat, top: nat): nat {
    if k < top then k else k + 1
  }

  lemma LaterBelow(t: seq<string>, top: nat, k: nat)
    requires k < top < |t|
    ensures Without(t, top)[k] == t[k]
    ensures Later(t, k) == Later(Without(t, top), k) + if t[k] == t[top] then 1 else 0
  {
    var a, b := t[k + 1..top], t[top + 1..];
    OneMore(a, t[top], b);
    assert t[k + 1..] == a + ([t[top]] + b);
    assert Without(t, top)[k + 1..] == a + b;
  }

  lemma LaterAbove(t: seq<string>, top: nat, k: nat)
    requires top <= k < |t| - 1
    ensures Without(t, top)[k] == t[k + 1] && Later(t, k + 1) == Later(Without(t, top), k)
  {
    assert Without(t, top)[k + 1..] == t[k + 2..];
  }

  lemma OneMore(a: seq<string>, x: string, b: seq<string>)
    ensures multiset(a + ([x] + b)) == multiset(a + b) + multiset{x}
  {
  }

  /////////////////////////////// one release ///////////////////////////////

  /** The last object takes away the mount at `top`, the topmost one on its path. */
  ghost predicate Top(made: seq<string>, held: seq<string>, top: nat) {
    held != [] && Releases(made, held, |held| - 1, top)
  }

  lemma TopOf(made: seq<string>, held: seq<string>) returns (top: nat)
    requires held != [] && multiset(made) == multiset(held)
    ensures Top(made, held, top)
  {
    LaterLess(held, |held| - 1);
    top := Occurrence(made, held[|held| - 1], Later(held, |held| - 1));
  }

  lemma TopIsLast(made: seq<string>, held: seq<string>, top: nat)
    requires Top(made, held, top)
    ensures made[top] == held[|held| - 1] && Later(made, top) == 0
    ensures forall k :: top < k < |made| ==> made[k] != made[top]
  {
    assert held[|held|..] == [];
    NoneLater(made, top);
  }

  /** Each mount is taken away by some object. */
  lemma HolderOf(made: seq<string>, held: seq<string>, k: nat) returns (i: nat)
    requires k < |made| && multiset(made) == multiset(held)
    ensures Releases(made, held, i, k)
  {
    LaterLess(made, k);
    i := Occurrence(held, made[k], Later(made, k));
  }

  ghost predicate CrossedAt(made: seq<string>, held: seq<string>, j: nat, k: nat) {
    exists i: nat, l: nat :: Cross(made, held, i, j, k, l)
  }

  lemma TopIndex(start: Table, made: seq<string>, held: seq<string>, top: nat)
    requires Top(made, held, top)
    ensures LastIndex(start + made, held[|held| - 1]) == |start| + top
  {
    TopIsLast(made, held, top);
    var all := start + made;
    assert all[|start| + top] == made[top];
    assert forall k :: |start| + top < k < |all| ==> all[k] == made[k - |start|];
  }

  /** The object released first finds its path busy if and only if another one crosses it. */
  lemma BusyIff(start: Table, made: seq<string>, held: seq<string>, top: nat)
    requires multiset(made) == multiset(held) && Top(made, held, top)
    ensures UmountResult(start + made, held[|held| - 1]) ==
              if CrossedAt(made, held, |held| - 1, top) then Busy else Gone
  {
    var last, all := |held| - 1, start + made;
    TopIndex(start, made, held, top);
    if CrossedAt(made, held, last, top) {
      var i: nat, l: nat :| Cross(made, held, i, last, top, l);
      assert all[|start| + l] == made[l];
    } else if k :| |start| + top < k < |all| && Beneath(held[last], all[k]) {
      AboveCrosses(made, held, top, k - |start|);
      assert false;
    }
  }

  lemma AboveCrosses(made: seq<string>, held: seq<string>, top: nat, l: nat)
    requires multiset(made) == multiset(held) && Top(made, held, top)
    requires top < l < |made| && Beneath(held[|held| - 1], made[l])
    ensures CrossedAt(made, held, |held| - 1, top)
  {
    TopIsLast(made, held, top);
    var i := HolderOf(made, held, l);
    assert Cross(made, held, i, |held| - 1, top, l);
  }

  lemma LastReleases(made: seq<string>, held: seq<string>, top: nat, k: nat)
    requires Top(made, held, top) && Top(made, held, k)
    ensures k == top
  {
    TopIsLast(made, held, top);
    TopIsLast(made, held, k);
  }

  /** What the others take away stays the same. */
  lemma StillReleases(made: seq<string>, held: seq<string>, top: nat, i: nat, k: nat)
    requires Top(made, held, top) && i < |held| - 1 && k < |made| - 1
    ensures Releases(Without(made, top), held[..|held| - 1], i, k) <==> Releases(made, held, i, Up(k, top))
  {
    LaterInit(held, i);
    TopIsLast(made, held, top);
    if k < top {
      LaterBelow(made, top, k);
    } else {
      LaterAbove(made, top, k);
    }
  }

  lemma OthersKeep(made: seq<string>, held: seq<string>, top: nat, i: nat)
    requires Top(made, held, top) && i < |held| - 1
    ensures !Releases(made, held, i, top)
  {
    LaterInit(held, i);
    TopIsLast(made, held, top);
  }

  lemma Down(made: seq<string>, held: seq<string>, top: nat, i: nat, k: nat) returns (k': nat)
    requires Top(made, held, top) && i < |held| - 1 && Releases(made, held, i, k)
    ensures Up(k', top) == k && Releases(Without(made, top), held[..|held| - 1], i, k')
  {
    OthersKeep(made, held, top, i);
    k' := if k < top then k else k - 1;
    StillReleases(made, held, top, i, k');
  }

  lemma CrossDown(made: seq<string>, held: seq<string>, top: nat, i: nat, j: nat, k: nat, l: nat)
    requires Top(made, held, top) && Cross(made, held, i, j, k, l)
    ensures CrossedAt(made, held, |held| - 1, top) || Crossed(Without(made, top), held[..|held| - 1])
  {
    if j == |held| - 1 {
      LastReleases(made, held, top, k);
    } else {
      var k' := Down(made, held, top, j, k);
      var l' := Down(made, held, top, i, l);
      assert Cross(Without(made, top), held[..|held| - 1], i, j, k', l');
    }
  }

  lemma CrossUp(made: seq<string>, held: seq<string>, top: nat, i: nat, j: nat, k: nat, l: nat)
    requires Top(made, held, top) && Cross(Without(made, top), held[..|held| - 1], i, j, k, l)
    ensures Crossed(made, held)
  {
    StillReleases(made, held, top, i, l);
    StillReleases(made, held, top, j, k);
    assert Cross(made, held, i, j, Up(k, top), Up(l, top));
  }

  /** When its path is free, what remains is crossed as before. */
  lemma Released(made: seq<string>, held: seq<string>, top: nat)
    requires Top(made, held, top)
    ensures Crossed(made, held) <==>
              CrossedAt(made, held, |held| - 1, top) || Crossed(Without(made, top), held[..|held| - 1])
  {
    if i: nat, j: nat, k: nat, l: nat :| Cross(made, held, i, j, k, l) {
      CrossDown(made, held, top, i, j, k, l);
    }
    var less, init := Without(made, top), held[..|held| - 1];
    if i: nat, j: nat, k: nat, l: nat :| Cross(less, init, i, j, k, l) {
      CrossUp(made, held, top, i, j, k, l);
    }
  }

  lemma RestMatches(made: seq<string>, held: seq<string>, top: nat)
    requires multiset(made) == multiset(held) && Top(made, held, top)
    ensures multiset(Without(made, top)) == multiset(held[..|held| - 1])
  {
    var init := held[..|held| - 1];
    OneMore(made[..top], made[top], made[top + 1..]);
    assert made == made[..top] + ([made[top]] + made[top + 1..]);
    assert held == init + [made[top]];
    Cancel(multiset(Without(made, top)), multiset(init), made[top]);
  }

  lemma Cancel(a: multiset<string>, b: multiset<string>, x: string)
    requires a + multiset{x} == b + multiset{x}
    ensures a == b
  {
    forall p ensures a[p] == b[p] {
      assert (a + multiset{x})[p] == (b + multiset{x})[p];
    }
  }

  /////////////////////////////// when unwinding restores ///////////////////////////////

  /** Objects that hold nothing do not matter. */
  lemma {:induction false} OnlyHeld(t: Table, slots: seq<string>)
    ensures "" !in Held(slots)
    ensures Unwind(t, slots) == Unwind(t, Held(slots))
    ensures UnwindCalls(t, slots) == UnwindCalls(t, Held(slots))
  {
    if slots != [] {
      var path, init := slots[|slots| - 1], slots[..|slots| - 1];
      if path == "" {
        OnlyHeld(t, init);
        assert Held(slots) == Held(init);
      } else {
        OnlyHeld(Umount(t, path), init);
        HeldLast(init, path);
      }
    }
  }

  lemma HeldLast(init: seq<string>, path: string)
    ensures (Held(init) + [path])[..|Held(init)|] == Held(init)
  {
  }

  ghost predicate NoneLeft(calls: seq<Unmount>) {
    forall k :: 0 <= k < |calls| ==> calls[k].result == Gone
  }

  lemma NoneLeftCons(call: Unmount, rest: seq<Unmount>)
    ensures NoneLeft([call] + rest) <==> call.result == Gone && NoneLeft(rest)
  {
    var calls := [call] + rest;
    assert calls[0] == call;
    assert forall k :: 0 <= k < |rest| ==> calls[k + 1] == rest[k];
  }

  /** Each object takes at most one mount away, and one that finds its path busy takes none. */
  lemma {:induction false} AtMostOneEach(t: Table, held: seq<string>)
    ensures |Unwind(t, held)| + |held| >= |t|
    ensures !NoneLeft(UnwindCalls(t, held)) ==> |Unwind(t, held)| + |held| > |t|
  {
    if held != [] {
      var path, init := held[|held| - 1], held[..|held| - 1];
      AtMostOneEach(if path == "" then t else Umount(t, path), init);
      if path != "" {
        NoneLeftCons(Unmount(path, UmountResult(t, path)), UnwindCalls(Umount(t, path), init));
      }
    }
  }

  lemma {:induction false} HeldRestores(start: Table, made: seq<string>, held: seq<string>)
    requires multiset(made) == multiset(held) && "" !in held
    ensures !Crossed(made, held) ==> Unwind(start + made, held) == start
    ensures NoneLeft(UnwindCalls(start + made, held)) <==> !Crossed(made, held)
    decreases |held|
  {
    if held == [] {
      assert |made| == |multiset(made)| == 0;
      assert start + made == start;
    } else {
      var top := TopOf(made, held);
      BusyIff(start, made, held, top);
      Released(made, held, top);
      FirstRelease(start, made, held, top);
      if !CrossedAt(made, held, |held| - 1, top) {
        RestMatches(made, held, top);
        HeldRestores(start, Without(made, top), held[..|held| - 1]);
      }
    }
  }

  /** One release: a free path goes and the rest follows, a busy one stays. */
  lemma FirstRelease(start: Table, made: seq<string>, held: seq<string>, top: nat)
    requires Top(made, held, top) && held[|held| - 1] != ""
    ensures var t, init, less := start + made, held[..|held| - 1], start + Without(made, top);
            if UmountResult(t, held[|held| - 1]) == Gone
            then Unwind(t, held) == Unwind(less, init) &&
                 (NoneLeft(UnwindCalls(t, held)) <==> NoneLeft(UnwindCalls(less, init)))
            else !NoneLeft(UnwindCalls(t, held))
  {
    UnwindLast(start + made, held);
    UmountTop(start, made, held, top);
  }

  lemma UmountTop(start: Table, made: seq<string>, held: seq<string>, top: nat)
    requires Top(made, held, top)
    ensures var t, path := start + made, held[|held| - 1];
            UmountResult(t, path) == Gone ==> Umount(t, path) == start + Without(made, top)
  {
    TopIndex(start, made, held, top);
    TakeAway(start, made, top);
  }

  lemma UnwindLast(t: Table, held: seq<string>)
    requires held != [] && held[|held| - 1] != ""
    ensures var path, init := held[|held| - 1], held[..|held| - 1];
            && Unwind(t, held) == Unwind(Umount(t, path), init)
            && (NoneLeft(UnwindCalls(t, held)) <==>
                UmountResult(t, path) == Gone && NoneLeft(UnwindCalls(Umount(t, path), init)))
  {
    var path, init := held[|held| - 1], held[..|held| - 1];
    NoneLeftCons(Unmount(path, UmountResult(t, path)), UnwindCalls(Umount(t, path), init));
  }

  lemma TakeAway(start: Table, made: seq<string>, top: nat)
    requires top < |made|
    ensures (start + made)[..|start| + top] + (start + made)[|start| + top + 1..] == start + Without(made, top)
  {
  }

  /** Unwinding the objects that hold exactly the mounts made on top of `start`, whatever
      `start` holds and however often a path occurs, restores `start` if and only if no object
      is released before one declared in front of it whose later mount is beneath its own; and
      if and only if no `umount` finds its path busy. */
  lemma UnwindRestoresIff(start: Table, made: seq<string>, slots: seq<string>)
    requires multiset(made) == multiset(Held(slots))
    ensures Unwind(start + made, slots) == start <==> !Crossed(made, Held(slots))
    ensures NoneLeft(UnwindCalls(start + made, slots)) <==> !Crossed(made, Held(slots))
  {
    var held := Held(slots);
    OnlyHeld(start + made, slots);
    HeldRestores(start, made, held);
    assert |made| == |multiset(made)| == |held|;
    AtMostOneEach(start + made, held);
  }

  /** With distinct paths crossing is told by where each path stands in both lists. */
  lemma DistinctCrossed(made: seq<string>, held: seq<string>)
    requires multiset(made) == multiset(held) && (forall k, l :: 0 <= k < l < |held| ==> held[k] != held[l])
    ensures Crossed(made, held) <==>
              exists i, j :: 0 <= i < j < |held| && Beneath(held[j], held[i]) &&
                LastIndex(made, held[i]) > LastIndex(made, held[j])
  {
    if i: nat, j: nat, k: nat, l: nat :| Cross(made, held, i, j, k, l) {
      DistinctPlace(made, held, i, l);
      DistinctPlace(made, held, j, k);
    }
    if i, j :| 0 <= i < j < |held| && Beneath(held[j], held[i]) && LastIndex(made, held[i]) > LastIndex(made, held[j]) {
      var l := MountOf(made, held, i);
      var k := MountOf(made, held, j);
      assert Cross(made, held, i, j, k, l);
    }
  }

  lemma DistinctPlace(made: seq<string>, held: seq<string>, i: nat, k: nat)
    requires (forall k, l :: 0 <= k < l < |held| ==> held[k] != held[l]) && Releases(made, held, i, k)
    ensures LastIndex(made, held[i]) == k
  {
    assert held[i] !in held[i + 1..];
    NoneLater(made, k);
  }

  lemma MountOf(made: seq<string>, held: seq<string>, i: nat) returns (k: nat)
    requires (forall k, l :: 0 <= k < l < |held| ==> held[k] != held[l]) && multiset(made) == multiset(held)
    requires i < |held|
    ensures Releases(made, held, i, k) && LastIndex(made, held[i]) == k
  {
    LaterLess(held, i);
    k := Occurrence(made, held[i], Later(held, i));
    DistinctPlace(made, held, i, k);
  }

  /** When the mounts were made in the order of the objects nothing is crossed. */
  lemma InOrderNotCrossed(made: seq<string>)
    ensures !Crossed(made, made)
  {
    forall i: nat, j: nat, k: nat, l: nat ensures !Cross(made, made, i, j, k, l) {
      if Cross(made, made, i, j, k, l) {
        OneReleaser(made, i, l);
        OneReleaser(made, j, k);
      }
    }
  }

  lemma OneReleaser(t: seq<string>, i: nat, k: nat)
    requires Releases(t, t, i, k)
    ensures i == k
  {
    if i < k {
      LaterOfEarlier(t, i, k);
    } else if k < i {
      LaterOfEarlier(t, k, i);
    }
  }

  lemma LaterOfEarlier(t: seq<string>, i: nat, k: nat)
    requires i < k < |t| && t[i] == t[k]
    ensures Later(t, i) > Later(t, k)
  {
    assert t[i + 1..] == t[i + 1..k] + [t[k]] + t[k + 1..];
  }

  /////////////////////////////// plans ///////////////////////////////

  /** Each object is bound when it holds nothing, in any order; an adopted mount is made. */
  predicate Once(plan: seq<Action>, slots: seq<string>)
    decreases |plan|
  {
    if plan == [] then true
    else
      match plan[0]
      case Construct(where) => where != "" && Once(plan[1..], slots + [where])
      case Default => Once(plan[1..], slots + [""])
      case Bind(i, where) => i < |slots| && slots[i] == "" && where != "" && Once(plan[1..], slots[i := where])
      case Adopt(where) =>
        where != "" && |plan| > 1 && plan[1] == ChildMount(where) && Once(plan[2..], slots + [where])
      case ChildMount(_) => false
  }

  /** The scope holds exactly what was made on top of `start`. */
  ghost predicate Holds(start: Table, made: seq<string>, sc: Scope) {
    sc.table == start + made && multiset(made) == multiset(Held(sc.slots))
  }

  lemma {:induction false} PlanHolds(start: Table, made: seq<string>, sc: Scope, plan: seq<Action>) returns (end: Scope)
    requires Holds(start, made, sc) && Once(plan, sc.slots)
    ensures From(sc, plan) == Some(end) && Holds(start, made + Made(plan), end)
    decreases |plan|
  {
    if plan == [] {
      end := sc;
      assert made + [] == made;
    } else if plan[0].Adopt? {
      HoldsOnto(start, made, sc, plan[0].where);
      end := PlanHolds(start, made + [plan[0].where], Do(Do(sc, plan[0]), plan[1]), plan[2..]);
      AdoptedFirst(sc, made, plan);
    } else {
      HoldsStep(start, made, sc, plan[0]);
      end := PlanHolds(start, made + Made([plan[0]]), Do(sc, plan[0]), plan[1..]);
      ActionFirst(sc, made, plan);
    }
  }

  lemma AdoptedFirst(sc: Scope, made: seq<string>, plan: seq<Action>)
    requires |plan| > 1 && plan[0].Adopt? && plan[1] == ChildMount(plan[0].where)
    ensures From(sc, plan) == From(Do(Do(sc, plan[0]), plan[1]), plan[2..])
    ensures made + Made(plan) == made + [plan[0].where] + Made(plan[2..])
  {
    var rest := plan[1..];
    assert rest[0] == plan[1] && rest[1..] == plan[2..];
    assert Made(rest) == [plan[0].where] + Made(plan[2..]);
    assert Made(plan) == [] + Made(rest) == Made(rest);
  }

  lemma ActionFirst(sc: Scope, made: seq<string>, plan: seq<Action>)
    requires plan != [] && Possible(sc, plan[0])
    ensures From(sc, plan) == From(Do(sc, plan[0]), plan[1..])
    ensures made + Made(plan) == made + Made([plan[0]]) + Made(plan[1..])
  {
    FromCons(sc, plan[0], plan[1..]);
    assert plan == [plan[0]] + plan[1..];
  }

  lemma HoldsOnto(start: Table, made: seq<string>, sc: Scope, where: string)
    requires Holds(start, made, sc) && where != ""
    ensures Holds(start, made + [where], Scope(sc.table + [where], sc.slots + [where]))
  {
    HeldAppend(sc.slots, [where]);
    HeldOne(where);
    Appended(start, made, where);
  }

  lemma Appended(start: Table, made: seq<string>, where: string)
    ensures start + made + [where] == start + (made + [where])
    ensures multiset(made + [where]) == multiset(made) + multiset{where}
  {
  }

  lemma HoldsEmpty(start: Table, made: seq<string>, sc: Scope)
    requires Holds(start, made, sc)
    ensures Holds(start, made + [], Scope(sc.table, sc.slots + [""]))
  {
    HeldAppend(sc.slots, [""]);
    HeldOne("");
    assert Held(sc.slots) + [] == Held(sc.slots) && made + [] == made;
  }

  lemma HoldsBound(start: Table, made: seq<string>, sc: Scope, i: nat, where: string)
    requires Holds(start, made, sc) && i < |sc.slots| && sc.slots[i] == "" && where != ""
    ensures Holds(start, made + [where], Scope(sc.table + [where], sc.slots[i := where]))
  {
    HeldFilled(sc.slots, i, where);
    Appended(start, made, where);
  }

  lemma HoldsStep(start: Table, made: seq<string>, sc: Scope, a: Action)
    requires Holds(start, made, sc) && Possible(sc, a) && !a.Adopt? && !a.ChildMount?
    requires a.Construct? || a.Bind? ==> a.where != ""
    requires a.Bind? ==> sc.slots[a.slot] == ""
    ensures Holds(start, made + Made([a]), Do(sc, a))
  {
    FromOne(sc, a);
    match a {
      case Construct(where) => HoldsOnto(start, made, sc, where);
      case Default => HoldsEmpty(start, made, sc);
      case Bind(i, where) => HoldsBound(start, made, sc, i, where);
    }
  }

  lemma HeldFilled(slots: seq<string>, i: nat, where: string)
    requires i < |slots| && slots[i] == "" && where != ""
    ensures multiset(Held(slots[i := where])) == multiset(Held(slots)) + multiset{where}
  {
    var before, behind := slots[..i], slots[i + 1..];
    assert slots == before + ([""] + behind) && slots[i := where] == before + ([where] + behind);
    HeldAppend(before, [""] + behind);
    HeldAppend(before, [where] + behind);
    HeldAppend([""], behind);
    HeldAppend([where], behind);
    HeldOne("");
    HeldOne(where);
    OneMore(Held(before), where, Held(behind));
    assert [] + Held(behind) == Held(behind);
  }

  /** Leaving the scope of a plan that mounts through each object once, in any order, restores
      the table if and only if the plan crosses nothing. */
  lemma PlanRestoresIff(start: Table, plan: seq<Action>) returns (end: Scope)
    requires Once(plan, [])
    ensures From(Scope(start, []), plan) == Some(end) && end.table == start + Made(plan)
    ensures Unwind(end.table, end.slots) == start <==> !Crossed(Made(plan), Held(end.slots))
  {
    assert start + [] == start && [] + Made(plan) == Made(plan);
    end := PlanHolds(start, [], Scope(start, []), plan);
    UnwindRestoresIff(start, Made(plan), end.slots);
  }

  /** Its smallest instance: a path on an object declared behind the one that is bound later
      to a path beneath it.  Unwinding finds the outer path busy and leaves it mounted. */
  lemma OutOfOrderLeaks(outer: string, inner: string, start: Table)
    requires outer != "" && inner != outer && Beneath(outer, inner)
    ensures var plan := [Default, Default, Bind(1, outer), Bind(0, inner)];
            var end := From(Scope(start, []), plan);
            && Once(plan, []) && end == Some(Scope(start + [outer] + [inner], [inner, outer]))
            && Crossed(Made(plan), Held(end.value.slots))
            && Unwind(end.value.table, end.value.slots) == start + [outer]
  {
    LeakPlan(outer, inner, start);
    LeakOnce(outer, inner);
    LeakMade(outer, inner);
    LeakHeld(outer, inner);
    LeakCrossed(outer, inner);
    LeakUnwinds(outer, inner, start);
  }

  lemma LeakPlan(outer: string, inner: string, start: Table)
    ensures var plan := [Default, Default, Bind(1, outer), Bind(0, inner)];
            From(Scope(start, []), plan) == Some(Scope(start + [outer] + [inner], [inner, outer]))
  {
    var s1, s2, s3 := Scope(start, [""]), Scope(start, ["", ""]), Scope(start + [outer], ["", outer]);
    var plan := [Default, Default, Bind(1, outer), Bind(0, inner)];
    assert Do(s2, Bind(1, outer)) == s3;
    assert Do(s3, Bind(0, inner)) == Scope(start + [outer] + [inner], [inner, outer]);
    FromOne(s3, Bind(0, inner));
    assert plan[1..][1..][1..] == [Bind(0, inner)];
    assert Do(Scope(start, []), Default) == s1 && Do(s1, Default) == s2;
    assert plan[1..][0] == Default && plan[1..][1..][0] == Bind(1, outer);
    assert From(s1, plan[1..]) == From(s2, plan[1..][1..]);
  }

  lemma LeakOnce(outer: string, inner: string)
    requires outer != "" && inner != ""
    ensures Once([Default, Default, Bind(1, outer), Bind(0, inner)], [])
  {
    var plan := [Default, Default, Bind(1, outer), Bind(0, inner)];
    assert [] + [""] == [""] && [""] + [""] == ["", ""] && ["", ""][1 := outer] == ["", outer];
    assert plan[1..][1..] == [Bind(1, outer), Bind(0, inner)];
    assert plan[1..][1..][1..] == [Bind(0, inner)] && [Bind(0, inner)][1..] == [];
    assert Once([Bind(0, inner)], ["", outer]);
    assert Once(plan[1..][1..], ["", ""]);
    assert Once(plan[1..], [""]);
  }

  lemma LeakMade(outer: string, inner: string)
    ensures Made([Default, Default, Bind(1, outer), Bind(0, inner)]) == [outer, inner]
  {
    var plan := [Default, Default, Bind(1, outer), Bind(0, inner)];
    assert plan[1..][1..][1..] == [Bind(0, inner)];
    FromOne(Scope([], []), Bind(0, inner));
    assert Made(plan[1..][1..]) == [outer] + [inner];
    assert Made(plan[1..]) == [] + [outer, inner];
  }

  lemma LeakHeld(outer: string, inner: string)
    requires outer != "" && inner != ""
    ensures Held([inner, outer]) == [inner, outer]
  {
    assert [inner, outer] == [inner] + [outer];
    HeldAppend([inner], [outer]);
    HeldOne(inner);
    HeldOne(outer);
  }

  lemma LeakCrossed(outer: string, inner: string)
    requires inner != outer && Beneath(outer, inner)
    ensures Crossed([outer, inner], [inner, outer])
  {
    var made, held := [outer, inner], [inner, outer];
    assert held[1..] == [outer] && held[2..] == [] && made[1..] == [inner] && made[2..] == [];
    assert Releases(made, held, 0, 1) && Releases(made, held, 1, 0);
    assert Cross(made, held, 0, 1, 0, 1);
  }

  lemma LeakUnwinds(outer: string, inner: string, start: Table)
    requires outer != "" && inner != "" && inner != outer && Beneath(outer, inner)
    ensures Unwind(start + [outer] + [inner], [inner, outer]) == start + [outer]
  {
    var t := start + [outer] + [inner];
    assert LastIndex(t, outer) == |start| && Beneath(outer, t[|start| + 1]);
    assert Umount(t, outer) == t;
    UmountLast(start + [outer], inner);
    assert [inner, outer][..1] == [inner] && [inner][..0] == [];
    assert Unwind(t, [inner, outer]) == Unwind(t, [inner]);
    assert Unwind(t, [inner]) == Unwind(start + [outer], []);
  }
}
