/** What a parse of src/args.cpp guarantees about option states. */
module ArgsProperties {
  import opened Wrappers
  import opened CommandLine
  import opened Grammar

  /////////////////////////////// used counts ///////////////////////////////

  function Count(uses: seq<Use>, id: nat): nat {
    if uses == [] then 0 else (if uses[0].id == id then 1 else 0) + Count(uses[1..], id)
  }

  /** The value of the first use of the option, if it is used at all. */
  function FirstValue(uses: seq<Use>, id: nat): Maybe<string> {
    if uses == [] then None
    else if uses[0].id == id then uses[0].value
    else FirstValue(uses[1..], id)
  }

  predicate Repeatable(kind: Kind) {
    kind == Flag(false)
  }

  /** The value an option holds after it was given `text`. */
  function Converted(kind: Kind, text: string, strtol: Strtol): Maybe<Value> {
    match kind
    case Text => Some(TextValue(text))
    case Number => if strtol(text).1 then Some(NumberValue(strtol(text).0)) else None
    case CharCode =>
      if |text| == 1 then Some(CodeValue(text[0]))
      else if text != "" && strtol(text).1 && 0 <= strtol(text).0 <= 255 then Some(CodeValue(strtol(text).0 as char))
      else None
    case _ => None
  }

  /** The uses can be assigned: what may be used once is, and from fresh, and every value converts. */
  ghost predicate Assignable(specs: seq<Spec>, cells: seq<Cell>, uses: seq<Use>, strtol: Strtol)
    requires |cells| == |specs|
  {
    && (forall u :: u in uses ==> LegalUse(specs, u) && !specs[u.id].kind.Group?)
    && (forall i :: 0 <= i < |specs| && !Repeatable(specs[i].kind) && Count(uses, i) > 0 ==>
      Count(uses, i) == 1 && cells[i].used == 0)
    && (forall u :: u in uses && u.value.Some? ==> Converted(specs[u.id].kind, u.value.value, strtol).Some?)
  }

  /** The state of an option after the uses: how often it was used, and its one value. */
  function CellAfter(spec: Spec, cell: Cell, uses: seq<Use>, id: nat, strtol: Strtol): Cell {
    Cell(cell.used + Count(uses, id),
         var text := FirstValue(uses, id);
         if text.Some? && Converted(spec.kind, text.value, strtol).Some?
         then Converted(spec.kind, text.value, strtol).value else cell.value)
  }

  function CellsAfter(specs: seq<Spec>, cells: seq<Cell>, uses: seq<Use>, strtol: Strtol): (r: seq<Cell>)
    requires |cells| == |specs|
    ensures |r| == |specs|
  {
    seq(|specs|, i requires 0 <= i < |specs| => CellAfter(specs[i], cells[i], uses, i, strtol))
  }

  /** Assigning once either fails or does what one use should. */
  lemma AssignOnce(kind: Kind, cell: Cell, v: Maybe<string>, strtol: Strtol)
    requires (Uses(kind) <==> v.Some?) && !kind.Group?
    ensures var a := Assign(kind, cell, v, strtol);
            && (a.failure.None? <==>
              (Repeatable(kind) || cell.used == 0) && (v.Some? ==> Converted(kind, v.value, strtol).Some?))
            && (a.failure.None? ==>
              a.cell == Cell(cell.used + 1, if v.Some? then Converted(kind, v.value, strtol).value else cell.value))
  {
  }

  lemma {:induction false} CountOne(uses: seq<Use>, id: nat)
    ensures Count(uses, id) == 0 <==> forall u :: u in uses ==> u.id != id
    ensures Count(uses, id) == 0 ==> FirstValue(uses, id) == None
    ensures FirstValue(uses, id).Some? ==> Use(id, FirstValue(uses, id)) in uses
  {
    if uses != [] {
      CountOne(uses[1..], id);
      assert uses == [uses[0]] + uses[1..];
    }
  }

  /** Uses succeed together iff they are assignable, and then every option's state is told
      by how often and with what value it was used. */
  lemma {:induction false} UsesApplied(specs: seq<Spec>, cells: seq<Cell>, uses: seq<Use>, strtol: Strtol)
    requires |cells| == |specs|
    requires forall u :: u in uses ==> LegalUse(specs, u) && !specs[u.id].kind.Group?
    ensures ApplyUses(specs, cells, uses, strtol).Some? <==> Assignable(specs, cells, uses, strtol)
    ensures ApplyUses(specs, cells, uses, strtol).Some? ==>
              ApplyUses(specs, cells, uses, strtol).value == CellsAfter(specs, cells, uses, strtol)
    decreases |uses|
  {
    if uses == [] {
      assert CellsAfter(specs, cells, uses, strtol) == cells;
    } else {
      var u, rest := uses[0], uses[1..];
      assert uses == [u] + rest && u in uses;
      assert LegalUse(specs, u) && !specs[u.id].kind.Group?;
      var a := Assign(specs[u.id].kind, cells[u.id], u.value, strtol);
      AssignOnce(specs[u.id].kind, cells[u.id], u.value, strtol);
      var next := cells[u.id := a.cell];
      UsesApplied(specs, next, rest, strtol);
      AssignableCons(specs, cells, u, rest, strtol);
      if a.failure.None? && Assignable(specs, next, rest, strtol) {
        forall i | 0 <= i < |specs|
          ensures CellAfter(specs[i], cells[i], uses, i, strtol) == CellAfter(specs[i], next[i], rest, i, strtol)
        {
          CountOne(rest, i);
        }
        assert CellsAfter(specs, cells, uses, strtol) == CellsAfter(specs, next, rest, strtol);
      }
    }
  }

  lemma AssignableCons(specs: seq<Spec>, cells: seq<Cell>, u: Use, rest: seq<Use>, strtol: Strtol)
    requires |cells| == |specs| && LegalUse(specs, u) && !specs[u.id].kind.Group?
    ensures var a := Assign(specs[u.id].kind, cells[u.id], u.value, strtol);
            Assignable(specs, cells, [u] + rest, strtol) <==>
            a.failure.None? && Assignable(specs, cells[u.id := a.cell], rest, strtol)
  {
    var all, kind := [u] + rest, specs[u.id].kind;
    var a := Assign(kind, cells[u.id], u.value, strtol);
    var next := cells[u.id := a.cell];
    AssignOnce(kind, cells[u.id], u.value, strtol);
    assert all[0] == u && all[1..] == rest;
    assert forall i :: 0 <= i < |specs| ==> Count(all, i) == (if u.id == i then 1 else 0) + Count(rest, i);
    if Assignable(specs, cells, all, strtol) {
      assert u in all;
      assert Count(all, u.id) > 0;
      assert a.failure.None?;
      assert forall v :: v in rest ==> v in all;
      assert Assignable(specs, next, rest, strtol);
    }
    if a.failure.None? && Assignable(specs, next, rest, strtol) {
      if !Repeatable(kind) {
        assert Count(rest, u.id) == 0;
      }
      assert forall i :: 0 <= i < |specs| && i != u.id ==> next[i] == cells[i];
    }
  }

  /////////////////////////////// after a parse ///////////////////////////////

  predicate GroupsNameless(specs: seq<Spec>) {
    forall i :: 0 <= i < |specs| && specs[i].kind.Group? ==> specs[i].short == '\0' && specs[i].long.None?
  }

  lemma {:induction false} ClusterNoGroup(specs: seq<Spec>, letters: string, uses: seq<Use>, extra: seq<string>)
    requires GroupsNameless(specs) && LegalCluster(specs, letters, uses, extra)
    ensures forall u :: u in uses ==> u.id < |specs| && !specs[u.id].kind.Group?
    decreases |letters|
  {
    if letters != "" {
      ClusterNoGroup(specs, letters[1..], uses[1..], if uses[0].value.None? then extra else extra[1..]);
      assert uses == [uses[0]] + uses[1..];
    }
  }

  lemma {:induction false} AllUsesLegal(specs: seq<Spec>, mode: Mode, tokens: seq<Token>)
    requires GroupsNameless(specs) && forall t :: t in tokens ==> LegalToken(specs, mode, t)
    ensures forall u :: u in AllUses(tokens) ==> LegalUse(specs, u) && !specs[u.id].kind.Group?
  {
    if tokens != [] {
      var t := tokens[0];
      assert t in tokens;
      if t.OptionWord? {
        TokenUsesLegal(specs, mode, t);
        var body := t.word[Dashes(t.word)..];
        if FindLong(specs, body) == |specs| {
          ClusterNoGroup(specs, body, t.uses, t.extra);
        }
      }
      AllUsesLegal(specs, mode, tokens[1..]);
    }
  }

  lemma {:induction false} ApplyUsesConcat(specs: seq<Spec>, cells: seq<Cell>, a: seq<Use>, b: seq<Use>, strtol: Strtol)
    requires |cells| == |specs| && forall u :: u in a + b ==> LegalUse(specs, u)
    ensures forall u :: u in a ==> LegalUse(specs, u)
    ensures forall u :: u in b ==> LegalUse(specs, u)
    ensures ApplyUses(specs, cells, a + b, strtol) ==
              var mid := ApplyUses(specs, cells, a, strtol);
              if mid.None? then None else ApplyUses(specs, mid.value, b, strtol)
    decreases |a|
  {
    assert forall u :: u in a ==> u in a + b;
    assert forall u :: u in b ==> u in a + b;
    if a == [] {
      assert a + b == b;
    } else {
      var u := a[0];
      assert u in a && LegalUse(specs, u);
      assert (a + b)[0] == u && (a + b)[1..] == a[1..] + b;
      var r := Assign(specs[u.id].kind, cells[u.id], u.value, strtol);
      ApplyUsesConcat(specs, cells[u.id := r.cell], a[1..], b, strtol);
    }
  }

  lemma {:induction false} ApplyIsUses(specs: seq<Spec>, mode: Mode, st: State, tokens: seq<Token>, strtol: Strtol)
    requires |st.cells| == |specs| && GroupsNameless(specs)
    requires forall t :: t in tokens ==> LegalToken(specs, mode, t)
    requires Apply(specs, mode, st, tokens, strtol).Some?
    ensures forall u :: u in AllUses(tokens) ==> LegalUse(specs, u)
    ensures ApplyUses(specs, st.cells, AllUses(tokens), strtol) ==
              Some(Apply(specs, mode, st, tokens, strtol).value.cells)
    decreases |tokens|
  {
    AllUsesLegal(specs, mode, tokens);
    if tokens != [] {
      var t, rest := tokens[0], tokens[1..];
      assert LegalToken(specs, mode, t);
      match t {
        case Terminator =>
          ApplyIsUses(specs, mode, st, rest, strtol);
          assert [] + AllUses(rest) == AllUses(rest);
        case NumericWord(word) =>
          ApplyIsUses(specs, mode, st.(value := ApplyNumber(mode, st.value, word, strtol).value), rest, strtol);
          assert [] + AllUses(rest) == AllUses(rest);
        case OptionWord(_, uses, _) =>
          TokenUsesLegal(specs, mode, t);
          ApplyIsUses(specs, mode, st.(cells := ApplyUses(specs, st.cells, uses, strtol).value), rest, strtol);
          ApplyUsesConcat(specs, st.cells, uses, AllUses(rest), strtol);
      }
    }
  }

  /** After a successful parse all options in the consumed words were assignable: each value
      converts, and an option that is no repeatable flag was not used before and occurs once.
      Each option's state is told by its uses; from unused options it was used as often as it
      occurs, and holds the value of its one occurrence or what it held before. */
  lemma UsedCounts(specs: seq<Spec>, mode: Mode, st: State, argv: seq<string>, strtol: Strtol)
    returns (tokens: seq<Token>)
    requires |st.cells| == |specs| && GroupsNameless(specs) && Parse(specs, mode, st, argv, strtol).Parsed?
    ensures var o := Parse(specs, mode, st, argv, strtol);
            && Reads(specs, mode, st, argv, strtol, tokens, o.positionals, o.state)
            && Assignable(specs, st.cells, AllUses(tokens), strtol)
            && o.state.cells == CellsAfter(specs, st.cells, AllUses(tokens), strtol)
    ensures var o := Parse(specs, mode, st, argv, strtol);
            forall i :: 0 <= i < |specs| && st.cells[i].used == 0 ==>
              && o.state.cells[i].used == Count(AllUses(tokens), i)
              && (!Repeatable(specs[i].kind) ==> Count(AllUses(tokens), i) <= 1)
              && o.state.cells[i] == CellAfter(specs[i], st.cells[i], AllUses(tokens), i, strtol)
  {
    tokens := ParseReads(specs, mode, st, argv, strtol);
    LegalTokens(specs, mode, tokens, Parse(specs, mode, st, argv, strtol).positionals);
    AllUsesLegal(specs, mode, tokens);
    ApplyIsUses(specs, mode, st, tokens, strtol);
    UsesApplied(specs, st.cells, AllUses(tokens), strtol);
  }

  /////////////////////////////// round trip ///////////////////////////////

  /** Long names are not empty, hold no `=`, and none is a prefix of another. */
  ghost predicate GoodNames(specs: seq<Spec>) {
    && (forall i :: 0 <= i < |specs| && specs[i].long.Some? ==>
      specs[i].long.value != "" && '=' !in specs[i].long.value)
    && (forall i, j :: 0 <= i < |specs| && 0 <= j < |specs| && i != j && specs[i].long.Some? && specs[j].long.Some? ==>
      !(specs[i].long.value <= specs[j].long.value))
  }

  function Body(specs: seq<Spec>, u: Use): string
    requires u.id < |specs| && specs[u.id].long.Some?
  {
    specs[u.id].long.value + match u.value case None => "" case Some(v) => "=" + v
  }

  function Render(specs: seq<Spec>, uses: seq<Use>): seq<string>
    requires forall u :: u in uses ==> u.id < |specs| && specs[u.id].long.Some?
  {
    if uses == [] then []
    else
      assert uses[0] in uses;
      ["--" + Body(specs, uses[0])] + Render(specs, uses[1..])
  }

  lemma FindLongIs(specs: seq<Spec>, body: string, i: nat)
    requires i < |specs| && LongMatches(specs[i], body) && forall j :: 0 <= j < i ==> !LongMatches(specs[j], body)
    ensures FindLong(specs, body) == i
  {
  }

  lemma NotLonger(specs: seq<Spec>, id: nat, j: nat, tail: string)
    requires GoodNames(specs) && id < |specs| && j < |specs| && id != j
    requires specs[id].long.Some? && (tail == "" || tail[0] == '=')
    ensures !LongMatches(specs[j], specs[id].long.value + tail)
  {
    var name := specs[id].long.value;
    if specs[j].long.Some? {
      var other := specs[j].long.value;
      if |other| > |name| && tail != "" {
        assert other[|name|] in other;
      }
    }
  }

  /** A rendered name is found, with any value behind its `=`. */
  lemma NameFound(specs: seq<Spec>, id: nat, tail: string)
    requires GoodNames(specs) && id < |specs| && specs[id].long.Some? && (tail == "" || tail[0] == '=')
    ensures FindLong(specs, specs[id].long.value + tail) == id
  {
    var name := specs[id].long.value;
    var body := name + tail;
    forall j | 0 <= j < id ensures !LongMatches(specs[j], body) {
      NotLonger(specs, id, j, tail);
    }
    FindLongIs(specs, body, id);
  }

  lemma RenderedToken(specs: seq<Spec>, mode: Mode, u: Use)
    requires GoodNames(specs) && LegalUse(specs, u) && specs[u.id].long.Some?
    ensures LegalToken(specs, mode, OptionWord("--" + Body(specs, u), [u], []))
  {
    var word, body, name := "--" + Body(specs, u), Body(specs, u), specs[u.id].long.value;
    assert word[2..] == body && word[1] == '-';
    match u.value {
      case None =>
        NameFound(specs, u.id, "");
      case Some(v) =>
        NameFound(specs, u.id, "=" + v);
        assert body[|name|] == '=' && body[|name| + 1..] == v;
    }
  }

  function Tokens(specs: seq<Spec>, uses: seq<Use>): seq<Token>
    requires forall u :: u in uses ==> u.id < |specs| && specs[u.id].long.Some?
  {
    if uses == [] then [Terminator]
    else
      assert uses[0] in uses;
      [OptionWord("--" + Body(specs, uses[0]), [uses[0]], [])] + Tokens(specs, uses[1..])
  }

  lemma {:induction false} RenderedWords(specs: seq<Spec>, uses: seq<Use>)
    requires forall u :: u in uses ==> u.id < |specs| && specs[u.id].long.Some?
    ensures Words(Tokens(specs, uses)) == Render(specs, uses) + ["--"]
    decreases |uses|
  {
    var tokens := Tokens(specs, uses);
    if uses == [] {
      assert tokens[1..] == [];
    } else {
      assert uses[0] in uses && tokens[1..] == Tokens(specs, uses[1..]);
      RenderedWords(specs, uses[1..]);
      var word, more := "--" + Body(specs, uses[0]), Words(tokens[1..]);
      assert [word] + [] + more == [word] + more;
    }
  }

  lemma {:induction false} RenderedTokens(specs: seq<Spec>, mode: Mode, st: State, uses: seq<Use>, rest: seq<string>,
                                          strtol: Strtol)
    requires |st.cells| == |specs| && GoodNames(specs)
    requires forall u :: u in uses ==> LegalUse(specs, u)
    requires forall u :: u in uses ==> u.id < |specs| && specs[u.id].long.Some?
    ensures Legal(specs, mode, Tokens(specs, uses), rest)
    ensures forall t :: t in Tokens(specs, uses) ==> LegalToken(specs, mode, t)
    ensures Apply(specs, mode, st, Tokens(specs, uses), strtol) ==
              var cells := ApplyUses(specs, st.cells, uses, strtol);
              if cells.Some? then Some(st.(cells := cells.value)) else None
    decreases |uses|
  {
    var tokens := Tokens(specs, uses);
    if uses == [] {
      assert tokens[1..] == [];
    } else {
      var u := uses[0];
      assert LegalUse(specs, u);
      RenderedToken(specs, mode, u);
      var a := Assign(specs[u.id].kind, st.cells[u.id], u.value, strtol);
      var next := st.(cells := st.cells[u.id := a.cell]);
      RenderedTokens(specs, mode, next, uses[1..], rest, strtol);
      assert tokens[1..] == Tokens(specs, uses[1..]);
      OneUse(specs, st.cells, u, strtol);
    }
  }

  lemma OneUse(specs: seq<Spec>, cells: seq<Cell>, u: Use, strtol: Strtol)
    requires |cells| == |specs| && LegalUse(specs, u)
    ensures var a := Assign(specs[u.id].kind, cells[u.id], u.value, strtol);
            ApplyUses(specs, cells, [u], strtol) == if a.failure.Some? then None else Some(cells[u.id := a.cell])
  {
    assert [u][1..] == [];
  }

  /** Any assignment written as `--name=value` and `--name`, then `--`, then any positionals,
      is parsed back exactly, in every mode. */
  lemma RoundTrip(specs: seq<Spec>, mode: Mode, st: State, uses: seq<Use>, positionals: seq<string>, strtol: Strtol)
    requires |st.cells| == |specs| && GoodNames(specs) && Assignable(specs, st.cells, uses, strtol)
    requires forall u :: u in uses ==> specs[u.id].long.Some?
    ensures Parse(specs, mode, st, Render(specs, uses) + ["--"] + positionals, strtol) ==
            Parsed(st.(cells := CellsAfter(specs, st.cells, uses, strtol)), positionals)
  {
    RenderedTokens(specs, mode, st, uses, positionals, strtol);
    RenderedWords(specs, uses);
    UsesApplied(specs, st.cells, uses, strtol);
    ParseAccepts(specs, mode, st, Tokens(specs, uses), positionals, strtol);
  }

  /** A value in the next word is as good as one behind `=`. */
  lemma SeparateValue(specs: seq<Spec>, mode: Mode, st: State, id: nat, v: string, rest: seq<string>, strtol: Strtol)
    requires |st.cells| == |specs| && GoodNames(specs) && id < |specs| && specs[id].long.Some? && Uses(specs[id].kind)
    ensures Parse(specs, mode, st, ["--" + specs[id].long.value + "=" + v] + rest, strtol) ==
            Parse(specs, mode, st, ["--" + specs[id].long.value] + ([v] + rest), strtol)
  {
    var name := specs[id].long.value;
    var joined, plain := "--" + name + "=" + v, "--" + name;
    assert joined[2..] == name + ("=" + v) && plain[2..] == name + "";
    NameFound(specs, id, "=" + v);
    NameFound(specs, id, "");
    assert (name + ("=" + v))[|name| + 1..] == v;
    assert ([v] + rest)[1..] == rest;
    ParseOption(specs, mode, st, joined, rest, strtol);
    ParseOption(specs, mode, st, plain, [v] + rest, strtol);
  }

  /////////////////////////////// cluster unfolding ///////////////////////////////

  /** The letters of a cluster as words of their own, each followed by its value. */
  function Unfold(specs: seq<Spec>, letters: string, rest: seq<string>): seq<string>
    decreases |letters|
  {
    if letters == "" then rest
    else
      var i := FindShort(specs, letters[0]);
      if i == |specs| || !Uses(specs[i].kind) then [['-', letters[0]]] + Unfold(specs, letters[1..], rest)
      else if rest == [] then [['-', letters[0]]]
      else [['-', letters[0]]] + ([rest[0]] + Unfold(specs, letters[1..], rest[1..]))
  }

  ghost predicate PureLetters(specs: seq<Spec>, letters: string) {
    && '-' !in letters
    && forall c :: c in letters ==> FindLong(specs, [c]) == |specs|
  }

  function After(specs: seq<Spec>, st: State, s: Step, strtol: Strtol): Outcome
    requires |st.cells| == |specs| == |s.cells|
  {
    match s
    case Fail(cells, reason) => Failed(st.(cells := cells), reason)
    case Go(cells, rest) => Parse(specs, NONE, st.(cells := cells), rest, strtol)
  }

  lemma OneLetter(specs: seq<Spec>, st: State, c: char, rest: seq<string>, strtol: Strtol)
    requires |st.cells| == |specs| && c != '-' && FindLong(specs, [c]) == |specs|
    ensures Parse(specs, NONE, st, [['-', c]] + rest, strtol) ==
            After(specs, st, ClusterStep(specs, st.cells, [c], rest, strtol), strtol)
  {
    var word := ['-', c];
    assert word[1..] == [c];
    ParseOption(specs, NONE, st, word, rest, strtol);
  }

  lemma ClusterOne(specs: seq<Spec>, cells: seq<Cell>, c: char, rest: seq<string>, strtol: Strtol)
    requires |cells| == |specs|
    ensures var i := FindShort(specs, c);
            ClusterStep(specs, cells, [c], rest, strtol) ==
              if i == |specs| then Fail(cells, UnknownOption)
              else if Uses(specs[i].kind) && rest == [] then Fail(cells, ArgumentMissing)
              else if Uses(specs[i].kind) then AssignAt(specs, cells, i, Some(rest[0]), rest[1..], strtol)
              else AssignAt(specs, cells, i, None, rest, strtol)
  {
    assert [c][1..] == "";
  }

  lemma {:induction false} UnfoldSteps(specs: seq<Spec>, st: State, letters: string, rest: seq<string>, strtol: Strtol)
    requires |st.cells| == |specs| && PureLetters(specs, letters)
    ensures After(specs, st, ClusterStep(specs, st.cells, letters, rest, strtol), strtol) ==
            Parse(specs, NONE, st, Unfold(specs, letters, rest), strtol)
    decreases |letters|
  {
    if letters != "" {
      var c, more := letters[0], letters[1..];
      assert letters == [c] + more && c in letters;
      var i := FindShort(specs, c);
      var takes := i < |specs| && Uses(specs[i].kind);
      if takes && rest == [] {
        OneLetter(specs, st, c, [], strtol);
        assert [['-', c]] + [] == [['-', c]];
        ClusterOne(specs, st.cells, c, [], strtol);
      } else {
        var left := if takes then rest[1..] else rest;
        var tail := Unfold(specs, more, left);
        var words := if takes then [rest[0]] + tail else tail;
        OneLetter(specs, st, c, words, strtol);
        ClusterOne(specs, st.cells, c, words, strtol);
        if i < |specs| {
          var s := AssignAt(specs, st.cells, i, if takes then Some(rest[0]) else None, tail, strtol);
          assert takes ==> words[1..] == tail;
          UnfoldSteps(specs, st.(cells := s.cells), more, left, strtol);
        }
      }
    }
  }

  /** A cluster of letters, in a mode without numeric words, parses like its letters given
      one by one, each with its value: same options, same positionals, same failure. */
  lemma ClusterUnfolds(specs: seq<Spec>, st: State, letters: string, rest: seq<string>, strtol: Strtol)
    requires |st.cells| == |specs| && PureLetters(specs, letters) && FindLong(specs, letters) == |specs|
    ensures Parse(specs, NONE, st, ["-" + letters] + rest, strtol) ==
            Parse(specs, NONE, st, Unfold(specs, letters, rest), strtol)
  {
    var word := "-" + letters;
    assert word[1..] == letters;
    assert |word| > 1 ==> word[1] == letters[0] && letters[0] in letters;
    ParseOption(specs, NONE, st, word, rest, strtol);
    UnfoldSteps(specs, st, letters, rest, strtol);
  }
}
