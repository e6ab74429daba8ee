/** Why src/args.cpp throws: exactly which word of a command line is at fault, and for what. */
module ArgsFailures {
  import opened Wrappers
  import opened CommandLine
  import opened Grammar

  /////////////////////////////// faults ///////////////////////////////

  /** An assignment that throws, and what it leaves of the option. */
  predicate AssignFault(kind: Kind, cell: Cell, v: Maybe<string>, strtol: Strtol, cell': Cell, reason: Reason) {
    match reason
    case AlreadyUsed => kind == Flag(true) && cell.used > 0 && cell' == cell
    case AlreadyAssigned => Uses(kind) && cell.used > 0 && cell' == cell
    case InvalidNumber =>
      && kind == Number && cell.used == 0 && v.Some? && !strtol(v.value).1
      && cell' == Cell(1, NumberValue(strtol(v.value).0))
    case InvalidCharacter =>
      && kind == CharCode && cell.used == 0 && v.Some? && |v.value| > 1
      && (!strtol(v.value).1 || !(0 <= strtol(v.value).0 < 256)) && cell' == cell.(used := 1)
    case PastTheEnd => kind == CharCode && cell.used == 0 && v == Some("") && cell' == cell.(used := 1)
    case _ => false
  }

  /** The first option whose long name the word begins with. */
  ghost predicate Names(specs: seq<Spec>, body: string, i: nat) {
    && i < |specs| && specs[i].long.Some? && specs[i].long.value <= body
    && forall k :: 0 <= k < i && specs[k].long.Some? ==> !(specs[k].long.value <= body)
  }

  ghost predicate Nameless(specs: seq<Spec>, body: string) {
    forall k :: 0 <= k < |specs| && specs[k].long.Some? ==> !(specs[k].long.value <= body)
  }

  /** A long name with a value it does not take, without the value it takes, or with one that
      cannot be assigned. */
  predicate LongFault(spec: Spec, cell: Cell, body: string, more: seq<string>, strtol: Strtol, cell': Cell,
                      reason: Reason)
    requires spec.long.Some? && spec.long.value <= body
  {
    var behind := body[|spec.long.value|..];
    if behind != "" && behind[0] == '=' then
      if !Uses(spec.kind) then reason == InvalidArgument && cell' == cell
      else AssignFault(spec.kind, cell, Some(behind[1..]), strtol, cell', reason)
    else if !Uses(spec.kind) then AssignFault(spec.kind, cell, None, strtol, cell', reason)
    else if more == [] then reason == MissingArgument && cell' == cell
    else AssignFault(spec.kind, cell, Some(more[0]), strtol, cell', reason)
  }

  /** The first option with the letter. */
  ghost predicate Lettered(specs: seq<Spec>, c: char, i: nat) {
    i < |specs| && specs[i].short == c != '\0' && forall k :: 0 <= k < i ==> specs[k].short != c
  }

  /** A letter that is no option's, that lacks its value, or whose assignment throws. */
  ghost predicate LetterFault(specs: seq<Spec>, cells: seq<Cell>, c: char, more: seq<string>, strtol: Strtol,
                              cells': seq<Cell>, reason: Reason)
    requires |cells| == |specs|
  {
    || (reason == UnknownOption && cells' == cells && forall i :: !Lettered(specs, c, i))
    || (exists i: nat :: Lettered(specs, c, i) &&
          if Uses(specs[i].kind) && more == [] then reason == ArgumentMissing && cells' == cells
          else AssignFaultAt(specs, cells, i, if Uses(specs[i].kind) then Some(more[0]) else None, strtol,
                             cells', reason))
  }

  /** The option at `i` is the only one that changes. */
  predicate AssignFaultAt(specs: seq<Spec>, cells: seq<Cell>, i: nat, v: Maybe<string>, strtol: Strtol,
                          cells': seq<Cell>, reason: Reason)
    requires i < |specs| == |cells|
  {
    && |cells'| == |cells| && cells' == cells[i := cells'[i]]
    && AssignFault(specs[i].kind, cells[i], v, strtol, cells'[i], reason)
  }

  /** A word with one dash: letters that are assigned, then one at fault. */
  datatype Cluster = Cluster(good: string, letter: char, tail: string, uses: seq<Use>, extra: seq<string>,
                             left: seq<string>, mid: seq<Cell>)

  /** Letters whose assignments succeed. */
  ghost predicate LettersLead(specs: seq<Spec>, cells: seq<Cell>, letters: string, uses: seq<Use>, extra: seq<string>,
                              strtol: Strtol, mid: seq<Cell>)
    requires |cells| == |specs|
  {
    && LegalCluster(specs, letters, uses, extra) && |mid| == |specs|
    && (ClusterUsesLegal(specs, letters, uses, extra); ApplyUses(specs, cells, uses, strtol) == Some(mid))
  }

  ghost predicate ClusterFaultAt(p: Cluster, specs: seq<Spec>, cells: seq<Cell>, letters: string, more: seq<string>,
                                 strtol: Strtol, cells': seq<Cell>, reason: Reason)
    requires |cells| == |specs|
  {
    && letters == p.good + [p.letter] + p.tail && more == p.extra + p.left
    && LettersLead(specs, cells, p.good, p.uses, p.extra, strtol, p.mid)
    && LetterFault(specs, p.mid, p.letter, p.left, strtol, cells', reason)
  }

  /** An option word at fault: by its long name; by having none behind two dashes; or by a
      letter behind one. */
  ghost predicate WordFault(specs: seq<Spec>, cells: seq<Cell>, word: string, more: seq<string>, strtol: Strtol,
                            cells': seq<Cell>, reason: Reason)
    requires |cells| == |specs| && word != ""
  {
    var body := if "--" <= word then word[2..] else word[1..];
    || (exists i: nat :: Names(specs, body, i) && |cells'| == |cells| && cells' == cells[i := cells'[i]] &&
          LongFault(specs[i], cells[i], body, more, strtol, cells'[i], reason))
    || (Nameless(specs, body) && "--" <= word && reason == UnknownCommandOption && cells' == cells)
    || (Nameless(specs, body) && !("--" <= word) &&
        exists p :: ClusterFaultAt(p, specs, cells, body, more, strtol, cells', reason))
  }

  lemma AssignFails(kind: Kind, cell: Cell, v: Maybe<string>, strtol: Strtol, reason: Reason)
    requires Uses(kind) <==> v.Some?
    ensures var a := Assign(kind, cell, v, strtol);
            a.failure == Some(reason) <==> AssignFault(kind, cell, v, strtol, a.cell, reason)
    ensures forall cell' :: AssignFault(kind, cell, v, strtol, cell', reason) ==>
              Assign(kind, cell, v, strtol) == Assigned(cell', Some(reason))
  {
  }

  lemma NamesIs(specs: seq<Spec>, body: string)
    ensures forall i :: Names(specs, body, i) <==> i == FindLong(specs, body) < |specs|
    ensures Nameless(specs, body) <==> FindLong(specs, body) == |specs|
  {
    var r := FindLong(specs, body);
    assert forall k :: 0 <= k < r ==> !LongMatches(specs[k], body);
    assert r < |specs| ==> LongMatches(specs[r], body);
  }

  lemma LetteredIs(specs: seq<Spec>, c: char)
    ensures forall i :: Lettered(specs, c, i) <==> i == FindShort(specs, c) < |specs|
  {
    var r := FindShort(specs, c);
    assert forall k :: 0 <= k < r ==> !ShortMatches(specs[k], c);
    assert r < |specs| ==> ShortMatches(specs[r], c);
  }

  lemma LongFails(specs: seq<Spec>, cells: seq<Cell>, i: nat, body: string, more: seq<string>, strtol: Strtol,
                  cells': seq<Cell>, reason: Reason)
    requires |cells| == |specs| && i < |specs| && LongMatches(specs[i], body)
    ensures LongStep(specs, cells, i, body, more, strtol) == Fail(cells', reason) <==>
              |cells'| == |cells| && cells' == cells[i := cells'[i]] &&
              LongFault(specs[i], cells[i], body, more, strtol, cells'[i], reason)
  {
    var len, kind := |specs[i].long.value|, specs[i].kind;
    if len < |body| && body[len] == '=' {
      assert body[len..][1..] == body[len + 1..];
      if Uses(kind) {
        AssignFails(kind, cells[i], Some(body[len + 1..]), strtol, reason);
      }
    } else if !Uses(kind) {
      AssignFails(kind, cells[i], None, strtol, reason);
    } else if more != [] {
      AssignFails(kind, cells[i], Some(more[0]), strtol, reason);
    }
  }

  /////////////////////////////// clusters ///////////////////////////////

  /** What the first letter of a cluster leads to. */
  lemma FirstLetter(specs: seq<Spec>, cells: seq<Cell>, letters: string, more: seq<string>, strtol: Strtol)
    requires |cells| == |specs| && letters != "" && FindShort(specs, letters[0]) < |specs|
    requires Uses(specs[FindShort(specs, letters[0])].kind) ==> more != []
    ensures var i := FindShort(specs, letters[0]);
            var takes := Uses(specs[i].kind);
            var a := Assign(specs[i].kind, cells[i], if takes then Some(more[0]) else None, strtol);
            ClusterStep(specs, cells, letters, more, strtol) ==
              if a.failure.Some? then Fail(cells[i := a.cell], a.failure.value)
              else ClusterStep(specs, cells[i := a.cell], letters[1..], if takes then more[1..] else more, strtol)
  {
  }

  lemma LetterFails(specs: seq<Spec>, cells: seq<Cell>, letters: string, more: seq<string>, strtol: Strtol,
                    cells': seq<Cell>, reason: Reason)
    requires |cells| == |specs| && letters != "" && LetterFault(specs, cells, letters[0], more, strtol, cells', reason)
    ensures ClusterStep(specs, cells, letters, more, strtol) == Fail(cells', reason)
  {
    LetteredIs(specs, letters[0]);
    var i := FindShort(specs, letters[0]);
    if i < |specs| && (Uses(specs[i].kind) ==> more != []) {
      var v := if Uses(specs[i].kind) then Some(more[0]) else None;
      assert Lettered(specs, letters[0], i) && AssignFaultAt(specs, cells, i, v, strtol, cells', reason);
      FirstLetter(specs, cells, letters, more, strtol);
      AssignFails(specs[i].kind, cells[i], v, strtol, reason);
      assert AssignFault(specs[i].kind, cells[i], v, strtol, cells'[i], reason);
    } else if i < |specs| {
      assert Lettered(specs, letters[0], i);
    }
  }

  lemma LetterAtFault(specs: seq<Spec>, cells: seq<Cell>, letters: string, more: seq<string>, strtol: Strtol)
    requires |cells| == |specs| && letters != ""
    ensures var i := FindShort(specs, letters[0]);
            var s := ClusterStep(specs, cells, letters, more, strtol);
            (i == |specs| || (Uses(specs[i].kind) && more == []) ||
             Assign(specs[i].kind, cells[i], if Uses(specs[i].kind) then Some(more[0]) else None, strtol)
               .failure.Some?) ==>
              s.Fail? && LetterFault(specs, cells, letters[0], more, strtol, s.cells, s.reason)
  {
    LetteredIs(specs, letters[0]);
    var i := FindShort(specs, letters[0]);
    if i < |specs| {
      assert Lettered(specs, letters[0], i);
      if Uses(specs[i].kind) ==> more != [] {
        var v := if Uses(specs[i].kind) then Some(more[0]) else None;
        var a := Assign(specs[i].kind, cells[i], v, strtol);
        FirstLetter(specs, cells, letters, more, strtol);
        if a.failure.Some? {
          AssignFails(specs[i].kind, cells[i], v, strtol, a.failure.value);
          assert AssignFaultAt(specs, cells, i, v, strtol, cells[i := a.cell], a.failure.value);
        }
      }
    }
  }

  /** Letters that can be assigned are, and the rest of the cluster is then read. */
  lemma {:induction false} GoodLetters(specs: seq<Spec>, cells: seq<Cell>, good: string, behind: string, uses: seq<Use>,
                                       extra: seq<string>, left: seq<string>, strtol: Strtol, mid: seq<Cell>)
    requires |cells| == |specs| && LettersLead(specs, cells, good, uses, extra, strtol, mid)
    ensures ClusterStep(specs, cells, good + behind, extra + left, strtol) ==
              ClusterStep(specs, mid, behind, left, strtol)
    decreases |good|
  {
    ClusterUsesLegal(specs, good, uses, extra);
    if good == "" {
      assert good + behind == behind && extra + left == left;
    } else {
      var u := uses[0];
      assert uses == [u] + uses[1..];
      var a := Assign(specs[u.id].kind, cells[u.id], u.value, strtol);
      var extra' := if u.value.None? then extra else extra[1..];
      assert (good + behind)[0] == good[0] && (good + behind)[1..] == good[1..] + behind;
      assert u.value.Some? ==> (extra + left)[0] == extra[0] && (extra + left)[1..] == extra' + left;
      FirstLetter(specs, cells, good + behind, extra + left, strtol);
      GoodLetters(specs, cells[u.id := a.cell], good[1..], behind, uses[1..], extra', left, strtol, mid);
    }
  }

  lemma ClusterFails(p: Cluster, specs: seq<Spec>, cells: seq<Cell>, letters: string, more: seq<string>,
                     strtol: Strtol, cells': seq<Cell>, reason: Reason)
    requires |cells| == |specs| && ClusterFaultAt(p, specs, cells, letters, more, strtol, cells', reason)
    ensures ClusterStep(specs, cells, letters, more, strtol) == Fail(cells', reason)
  {
    var behind := [p.letter] + p.tail;
    assert letters == p.good + behind;
    GoodLetters(specs, cells, p.good, behind, p.uses, p.extra, p.left, strtol, p.mid);
    LetterFails(specs, p.mid, behind, p.left, strtol, cells', reason);
  }

  lemma {:induction false} ClusterFault(specs: seq<Spec>, cells: seq<Cell>, letters: string, more: seq<string>,
                                        strtol: Strtol)
    returns (p: Cluster)
    requires |cells| == |specs| && ClusterStep(specs, cells, letters, more, strtol).Fail?
    ensures var s := ClusterStep(specs, cells, letters, more, strtol);
            ClusterFaultAt(p, specs, cells, letters, more, strtol, s.cells, s.reason)
    decreases |letters|
  {
    var i := FindShort(specs, letters[0]);
    LetterAtFault(specs, cells, letters, more, strtol);
    if i == |specs| || (Uses(specs[i].kind) && more == []) ||
       Assign(specs[i].kind, cells[i], if Uses(specs[i].kind) then Some(more[0]) else None, strtol).failure.Some? {
      p := Cluster("", letters[0], letters[1..], [], [], more, cells);
      assert letters == "" + [letters[0]] + letters[1..] && more == [] + more;
    } else {
      FirstLetter(specs, cells, letters, more, strtol);
      var takes := Uses(specs[i].kind);
      var v := if takes then Some(more[0]) else None;
      var next := cells[i := Assign(specs[i].kind, cells[i], v, strtol).cell];
      var q := ClusterFault(specs, next, letters[1..], if takes then more[1..] else more, strtol);
      p := OneMoreLetter(specs, cells, letters, more, strtol, i, q);
      var s := ClusterStep(specs, cells, letters, more, strtol);
      assert ClusterFaultAt(p, specs, cells, letters, more, strtol, s.cells, s.reason);
    }
  }

  lemma OneMoreLetter(specs: seq<Spec>, cells: seq<Cell>, letters: string, more: seq<string>, strtol: Strtol, i: nat,
                      q: Cluster)
    returns (p: Cluster)
    requires |cells| == |specs| && letters != "" && i == FindShort(specs, letters[0]) < |specs|
    requires Uses(specs[i].kind) ==> more != []
    requires var takes := Uses(specs[i].kind);
             var a := Assign(specs[i].kind, cells[i], if takes then Some(more[0]) else None, strtol);
             && a.failure.None?
             && letters[1..] == q.good + [q.letter] + q.tail && (if takes then more[1..] else more) == q.extra + q.left
             && LettersLead(specs, cells[i := a.cell], q.good, q.uses, q.extra, strtol, q.mid)
    ensures letters == p.good + [p.letter] + p.tail && more == p.extra + p.left
    ensures LettersLead(specs, cells, p.good, p.uses, p.extra, strtol, p.mid)
    ensures p.mid == q.mid && p.letter == q.letter && p.left == q.left
  {
    var takes := Uses(specs[i].kind);
    var v := if takes then Some(more[0]) else None;
    var extra := if takes then [more[0]] + q.extra else q.extra;
    p := Cluster([letters[0]] + q.good, q.letter, q.tail, [Use(i, v)] + q.uses, extra, q.left, q.mid);
    LeadCons(specs, cells, letters[0], i, v, q, strtol);
    LettersCons(letters, q.good, q.letter, q.tail);
    if takes {
      ExtraCons(more, q.extra, q.left);
    }
  }

  lemma LettersCons(letters: string, good: string, c: char, tail: string)
    requires letters != "" && letters[1..] == good + [c] + tail
    ensures letters == ([letters[0]] + good) + [c] + tail
  {
    assert letters == [letters[0]] + letters[1..];
  }

  lemma ExtraCons(more: seq<string>, extra: seq<string>, left: seq<string>)
    requires more != [] && more[1..] == extra + left
    ensures more == ([more[0]] + extra) + left
  {
    assert more == [more[0]] + more[1..];
  }

  lemma LeadCons(specs: seq<Spec>, cells: seq<Cell>, c: char, i: nat, v: Maybe<string>, q: Cluster, strtol: Strtol)
    requires |cells| == |specs| && i == FindShort(specs, c) < |specs| && (Uses(specs[i].kind) <==> v.Some?)
    requires var a := Assign(specs[i].kind, cells[i], v, strtol);
             a.failure.None? && LettersLead(specs, cells[i := a.cell], q.good, q.uses, q.extra, strtol, q.mid)
    ensures LettersLead(specs, cells, [c] + q.good, [Use(i, v)] + q.uses,
                        if v.Some? then [v.value] + q.extra else q.extra, strtol, q.mid)
  {
    var good, uses := [c] + q.good, [Use(i, v)] + q.uses;
    var extra := if v.Some? then [v.value] + q.extra else q.extra;
    assert good[1..] == q.good && uses[1..] == q.uses && (v.Some? ==> extra[1..] == q.extra);
    ClusterUsesLegal(specs, good, uses, extra);
  }

  /////////////////////////////// words ///////////////////////////////

  lemma WordBody(word: string)
    requires word != "" && word[0] == '-'
    ensures Dashes(word) == if "--" <= word then 2 else 1
  {
    assert "--" <= word <==> |word| > 1 && word[1] == '-';
  }

  /** An option word throws for a reason if and only if it is at fault for that reason. */
  lemma WordFailsIff(specs: seq<Spec>, cells: seq<Cell>, word: string, more: seq<string>, strtol: Strtol,
                     cells': seq<Cell>, reason: Reason)
    requires |cells| == |specs| && word != "" && word[0] == '-'
    ensures WordStep(specs, cells, word, more, strtol) == Fail(cells', reason) <==>
              WordFault(specs, cells, word, more, strtol, cells', reason)
  {
    WordBody(word);
    var body := word[Dashes(word)..];
    var i := FindLong(specs, body);
    NamesIs(specs, body);
    if i < |specs| {
      assert Names(specs, body, i);
      LongFails(specs, cells, i, body, more, strtol, cells', reason);
    } else if Dashes(word) == 1 {
      ClusterFailsIff(specs, cells, body, more, strtol, cells', reason);
    }
  }

  lemma ClusterFailsIff(specs: seq<Spec>, cells: seq<Cell>, letters: string, more: seq<string>, strtol: Strtol,
                        cells': seq<Cell>, reason: Reason)
    requires |cells| == |specs|
    ensures ClusterStep(specs, cells, letters, more, strtol) == Fail(cells', reason) <==>
              exists p :: ClusterFaultAt(p, specs, cells, letters, more, strtol, cells', reason)
  {
    if ClusterStep(specs, cells, letters, more, strtol) == Fail(cells', reason) {
      var p := ClusterFault(specs, cells, letters, more, strtol);
    }
    if p :| ClusterFaultAt(p, specs, cells, letters, more, strtol, cells', reason) {
      ClusterFails(p, specs, cells, letters, more, strtol, cells', reason);
    }
  }

  /////////////////////////////// command lines ///////////////////////////////

  /** The first of the words is at fault: a second number, a number that is none, or an
      option word. */
  ghost predicate LineFault(specs: seq<Spec>, mode: Mode, st: State, line: seq<string>, strtol: Strtol, st': State,
                            reason: Reason)
    requires |st.cells| == |specs|
  {
    && line != [] && line[0] != "--"
    && var text := NumericText(mode, line[0]);
       if text.Some? then
         st'.cells == st.cells &&
         if st.value != 0 then reason == NumericAlreadySet && st'.value == st.value
         else reason == NonNumeric && !strtol(text.value).1 && st'.value == strtol(text.value).0
       else
         line[0] != "" && line[0][0] == '-' && st'.value == st.value &&
         WordFault(specs, st.cells, line[0], line[1..], strtol, st'.cells, reason)
  }

  /** The words up to `rest` are tokens that are assigned, no terminator among them. */
  ghost predicate ReadSoFar(specs: seq<Spec>, mode: Mode, st: State, argv: seq<string>, strtol: Strtol,
                            tokens: seq<Token>, rest: seq<string>, mid: State)
    requires |st.cells| == |specs|
  {
    && argv == Words(tokens) + rest && |mid.cells| == |specs|
    && (forall t :: t in tokens ==> LegalToken(specs, mode, t) && !t.Terminator?)
    && Apply(specs, mode, st, tokens, strtol) == Some(mid)
  }

  lemma LineFails(specs: seq<Spec>, mode: Mode, st: State, line: seq<string>, strtol: Strtol, st': State,
                  reason: Reason)
    requires |st.cells| == |specs| && LineFault(specs, mode, st, line, strtol, st', reason)
    ensures Parse(specs, mode, st, line, strtol) == Failed(st', reason)
  {
    if NumericText(mode, line[0]).None? {
      WordFailsIff(specs, st.cells, line[0], line[1..], strtol, st'.cells, reason);
    }
  }

  lemma {:induction false} ParsesOn(specs: seq<Spec>, mode: Mode, st: State, tokens: seq<Token>, rest: seq<string>,
                                    strtol: Strtol, mid: State)
    requires |st.cells| == |specs| && ReadSoFar(specs, mode, st, Words(tokens) + rest, strtol, tokens, rest, mid)
    ensures Parse(specs, mode, st, Words(tokens) + rest, strtol) == Parse(specs, mode, mid, rest, strtol)
    decreases |tokens|
  {
    if tokens == [] {
      assert Words(tokens) + rest == rest;
    } else {
      var t, tail := tokens[0], tokens[1..];
      var more := Words(tail) + rest;
      assert LegalToken(specs, mode, t) && forall u :: u in tail ==> u in tokens;
      FirstWords(tokens, rest);
      if t.NumericWord? {
        ParseNumber(specs, mode, st, t.word, more, strtol);
        ParsesOn(specs, mode, st.(value := ApplyNumber(mode, st.value, t.word, strtol).value), tail, rest, strtol, mid);
      } else {
        TokenUsesLegal(specs, mode, t);
        ParseOption(specs, mode, st, t.word, t.extra + more, strtol);
        WordAccepts(specs, mode, st.cells, t, more, strtol);
        ParsesOn(specs, mode, st.(cells := ApplyUses(specs, st.cells, t.uses, strtol).value), tail, rest, strtol, mid);
      }
    }
  }

  lemma {:induction false} ParseFault(specs: seq<Spec>, mode: Mode, st: State, argv: seq<string>, strtol: Strtol)
    returns (tokens: seq<Token>, rest: seq<string>, mid: State)
    requires |st.cells| == |specs| && Parse(specs, mode, st, argv, strtol).Failed?
    ensures ReadSoFar(specs, mode, st, argv, strtol, tokens, rest, mid)
    ensures var o := Parse(specs, mode, st, argv, strtol); LineFault(specs, mode, mid, rest, strtol, o.state, o.reason)
    decreases |argv|
  {
    var word, more := argv[0], argv[1..];
    assert argv == [word] + more;
    if NumericText(mode, word).Some? && ApplyNumber(mode, st.value, word, strtol).Some? {
      tokens, rest, mid := BehindNumber(specs, mode, st, word, more, strtol);
    } else if NumericText(mode, word).None? && WordStep(specs, st.cells, word, more, strtol).Go? {
      tokens, rest, mid := BehindOption(specs, mode, st, word, more, strtol);
    } else {
      tokens, rest, mid := [], argv, st;
      assert Words([]) + argv == argv;
      FirstAtFault(specs, mode, st, argv, strtol);
    }
  }

  lemma FirstAtFault(specs: seq<Spec>, mode: Mode, st: State, argv: seq<string>, strtol: Strtol)
    requires |st.cells| == |specs| && Parse(specs, mode, st, argv, strtol).Failed?
    requires if NumericText(mode, argv[0]).Some? then ApplyNumber(mode, st.value, argv[0], strtol).None?
             else WordStep(specs, st.cells, argv[0], argv[1..], strtol).Fail?
    ensures var o := Parse(specs, mode, st, argv, strtol); LineFault(specs, mode, st, argv, strtol, o.state, o.reason)
  {
    if NumericText(mode, argv[0]).None? {
      var s := WordStep(specs, st.cells, argv[0], argv[1..], strtol);
      WordFailsIff(specs, st.cells, argv[0], argv[1..], strtol, s.cells, s.reason);
    }
  }

  lemma {:induction false} BehindNumber(specs: seq<Spec>, mode: Mode, st: State, word: string, more: seq<string>,
                                        strtol: Strtol)
    returns (tokens: seq<Token>, rest: seq<string>, mid: State)
    requires |st.cells| == |specs| && word != "--" && NumericText(mode, word).Some?
    requires ApplyNumber(mode, st.value, word, strtol).Some? && Parse(specs, mode, st, [word] + more, strtol).Failed?
    ensures ReadSoFar(specs, mode, st, [word] + more, strtol, tokens, rest, mid)
    ensures var o := Parse(specs, mode, st, [word] + more, strtol);
            LineFault(specs, mode, mid, rest, strtol, o.state, o.reason)
    decreases |more| + 1, 0
  {
    var token := NumericWord(word);
    var next := st.(value := ApplyNumber(mode, st.value, word, strtol).value);
    ParseNumber(specs, mode, st, word, more, strtol);
    tokens, rest, mid := ParseFault(specs, mode, next, more, strtol);
    ApplyOne(specs, mode, st, token, strtol);
    SoFarCons(specs, mode, st, strtol, token, next, more, tokens, rest, mid);
    tokens := [token] + tokens;
  }

  lemma {:induction false} BehindOption(specs: seq<Spec>, mode: Mode, st: State, word: string, more: seq<string>,
                                        strtol: Strtol)
    returns (tokens: seq<Token>, rest: seq<string>, mid: State)
    requires |st.cells| == |specs| && IsOptionWord(mode, word) && WordStep(specs, st.cells, word, more, strtol).Go?
    requires Parse(specs, mode, st, [word] + more, strtol).Failed?
    ensures ReadSoFar(specs, mode, st, [word] + more, strtol, tokens, rest, mid)
    ensures var o := Parse(specs, mode, st, [word] + more, strtol);
            LineFault(specs, mode, mid, rest, strtol, o.state, o.reason)
    decreases |more| + 1, 0
  {
    var s := WordStep(specs, st.cells, word, more, strtol);
    var next := st.(cells := s.cells);
    ParseOption(specs, mode, st, word, more, strtol);
    var token := WordReads(specs, mode, st.cells, word, more, strtol);
    tokens, rest, mid := ParseFault(specs, mode, next, s.rest, strtol);
    OptionSoFar(specs, mode, st, token, s.cells, s.rest, strtol, tokens, rest, mid);
    tokens := [token] + tokens;
  }

  lemma OptionSoFar(specs: seq<Spec>, mode: Mode, st: State, token: Token, cells: seq<Cell>, left: seq<string>,
                    strtol: Strtol, tokens: seq<Token>, rest: seq<string>, mid: State)
    requires |st.cells| == |specs| == |cells| && LegalToken(specs, mode, token) && token.OptionWord?
    requires (TokenUsesLegal(specs, mode, token); ApplyUses(specs, st.cells, token.uses, strtol) == Some(cells))
    requires ReadSoFar(specs, mode, st.(cells := cells), left, strtol, tokens, rest, mid)
    ensures ReadSoFar(specs, mode, st, [token.word] + (token.extra + left), strtol, [token] + tokens, rest, mid)
  {
    ApplyOne(specs, mode, st, token, strtol);
    SoFarCons(specs, mode, st, strtol, token, st.(cells := cells), left, tokens, rest, mid);
    assert ([token.word] + token.extra) + left == [token.word] + (token.extra + left);
  }

  lemma SoFarCons(specs: seq<Spec>, mode: Mode, st: State, strtol: Strtol, token: Token, next: State,
                  argv: seq<string>, tokens: seq<Token>, rest: seq<string>, mid: State)
    requires |st.cells| == |specs| == |next.cells| && LegalToken(specs, mode, token) && !token.Terminator?
    requires Apply(specs, mode, st, [token], strtol) == Some(next)
    requires ReadSoFar(specs, mode, next, argv, strtol, tokens, rest, mid)
    ensures ReadSoFar(specs, mode, st, Words([token]) + argv, strtol, [token] + tokens, rest, mid)
  {
    var all := [token] + tokens;
    assert all[1..] == tokens && [token][1..] == [];
    WordsCons(token, tokens, rest);
  }

  /** The parse throws for a reason if and only if the line reads as tokens that can be
      assigned up to a word that is at fault for that reason. */
  lemma ParseFailsIff(specs: seq<Spec>, mode: Mode, st: State, argv: seq<string>, strtol: Strtol, st': State,
                      reason: Reason)
    requires |st.cells| == |specs|
    ensures Parse(specs, mode, st, argv, strtol) == Failed(st', reason) <==>
              exists tokens, rest, mid :: ReadSoFar(specs, mode, st, argv, strtol, tokens, rest, mid) &&
                LineFault(specs, mode, mid, rest, strtol, st', reason)
  {
    if Parse(specs, mode, st, argv, strtol) == Failed(st', reason) {
      var tokens, rest, mid := ParseFault(specs, mode, st, argv, strtol);
    }
    forall tokens, rest, mid | ReadSoFar(specs, mode, st, argv, strtol, tokens, rest, mid) &&
        LineFault(specs, mode, mid, rest, strtol, st', reason)
      ensures Parse(specs, mode, st, argv, strtol) == Failed(st', reason)
    {
      ParsesOn(specs, mode, st, tokens, rest, strtol, mid);
      LineFails(specs, mode, mid, rest, strtol, st', reason);
    }
  }

  /////////////////////////////// numeric words ///////////////////////////////

  predicate Digit(c: char) {
    c in "0123456789"
  }

  /** A sign the mode allows and a digit, and anything behind them; the sign is part of the
      number only if it is a minus. */
  predicate Signed(mode: Mode, word: string, text: string, c: char, rest: string) {
    && Digit(c)
    && ((mode in {DASH, ALL} && word == "-" + [c] + rest && text == word) ||
        (mode in {PLUS, ALL} && word == "+" + [c] + rest && text == [c] + rest))
  }

  lemma NumericIff(mode: Mode, word: string, text: string)
    ensures NumericText(mode, word) == Some(text) <==> exists c, rest :: Signed(mode, word, text, c, rest)
  {
    if NumericText(mode, word) == Some(text) {
      var c, rest := word[1], word[2..];
      assert Digit(c) && word == [word[0]] + [c] + rest && word[1..] == [c] + rest;
      assert Signed(mode, word, text, c, rest);
    }
    if c, rest :| Signed(mode, word, text, c, rest) {
      assert word[1] == c && word[1..] == [c] + rest;
    }
  }

  /////////////////////////////// groups ///////////////////////////////

  /** A parse never touches an option group, whether it succeeds or throws. */
  ghost predicate SameGroups(specs: seq<Spec>, cells: seq<Cell>, cells': seq<Cell>)
    requires |cells| == |specs|
  {
    |cells'| == |cells| && forall i :: 0 <= i < |specs| && specs[i].kind.Group? ==> cells'[i] == cells[i]
  }

  lemma LongKeepsGroups(specs: seq<Spec>, cells: seq<Cell>, i: nat, body: string, more: seq<string>, strtol: Strtol)
    requires |cells| == |specs| && i < |specs| && LongMatches(specs[i], body)
    ensures SameGroups(specs, cells, LongStep(specs, cells, i, body, more, strtol).cells)
  {
  }

  lemma {:induction false} ClusterKeepsGroups(specs: seq<Spec>, cells: seq<Cell>, letters: string, more: seq<string>,
                                              strtol: Strtol)
    requires |cells| == |specs|
    ensures SameGroups(specs, cells, ClusterStep(specs, cells, letters, more, strtol).cells)
    decreases |letters|
  {
    if letters != "" {
      var i := FindShort(specs, letters[0]);
      if i < |specs| && (Uses(specs[i].kind) ==> more != []) {
        var takes := Uses(specs[i].kind);
        var a := Assign(specs[i].kind, cells[i], if takes then Some(more[0]) else None, strtol);
        FirstLetter(specs, cells, letters, more, strtol);
        if a.failure.None? {
          ClusterKeepsGroups(specs, cells[i := a.cell], letters[1..], if takes then more[1..] else more, strtol);
        }
      }
    }
  }

  lemma {:induction false} GroupsUntouched(specs: seq<Spec>, mode: Mode, st: State, argv: seq<string>, strtol: Strtol)
    requires |st.cells| == |specs|
    ensures SameGroups(specs, st.cells, Parse(specs, mode, st, argv, strtol).state.cells)
    decreases |argv|
  {
    if argv != [] && argv[0] != "--" {
      var word, more := argv[0], argv[1..];
      assert argv == [word] + more;
      if NumericText(mode, word).Some? {
        GroupsUntouched(specs, mode, st.(value := strtol(NumericText(mode, word).value).0), more, strtol);
      } else if word != "" && word[0] == '-' {
        var body := word[Dashes(word)..];
        if FindLong(specs, body) < |specs| {
          LongKeepsGroups(specs, st.cells, FindLong(specs, body), body, more, strtol);
        }
        ClusterKeepsGroups(specs, st.cells, body, more, strtol);
        var s := WordStep(specs, st.cells, word, more, strtol);
        if s.Go? {
          GroupsUntouched(specs, mode, st.(cells := s.cells), s.rest, strtol);
        }
      }
    }
  }
}
