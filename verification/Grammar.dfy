/** What a command line means, and that src/args.cpp accepts exactly that. */
module Grammar {
  import opened Wrappers
  import opened CommandLine

  /** One option is used, with its value if it takes one. */
  datatype Use = Use(id: nat, value: Maybe<string>)

  /** A word and the words it consumes as values. */
  datatype Token =
    | OptionWord(word: string, uses: seq<Use>, extra: seq<string>)
    | NumericWord(word: string)
    | Terminator

  function Words(tokens: seq<Token>): seq<string> {
    if tokens == [] then []
    else
      (match tokens[0]
       case OptionWord(word, _, extra) => [word] + extra
       case NumericWord(word) => [word]
       case Terminator => ["--"]) + Words(tokens[1..])
  }

  function AllUses(tokens: seq<Token>): seq<Use> {
    if tokens == [] then []
    else (if tokens[0].OptionWord? then tokens[0].uses else []) + AllUses(tokens[1..])
  }

  /////////////////////////////// legal tokens ///////////////////////////////

  predicate LegalUse(specs: seq<Spec>, u: Use) {
    u.id < |specs| && (Uses(specs[u.id].kind) <==> u.value.Some?)
  }

  /** A long name, with the value behind `=` or in the next word. */
  predicate LegalLong(specs: seq<Spec>, body: string, uses: seq<Use>, extra: seq<string>) {
    var i := FindLong(specs, body);
    && i < |specs| && uses == [Use(i, if uses == [] then None else uses[0].value)] && LegalUse(specs, uses[0])
    && var name := specs[i].long.value;
       if |name| < |body| && body[|name|] == '=' then
         uses[0].value == Some(body[|name| + 1..]) && extra == []
       else extra == if uses[0].value.Some? then [uses[0].value.value] else []
  }

  /** Letters of options, the values in the next words. */
  predicate LegalCluster(specs: seq<Spec>, letters: string, uses: seq<Use>, extra: seq<string>) {
    if letters == "" then uses == [] && extra == []
    else
      && uses != [] && uses[0].id == FindShort(specs, letters[0]) && LegalUse(specs, uses[0])
      && match uses[0].value
         case None => LegalCluster(specs, letters[1..], uses[1..], extra)
         case Some(v) => extra != [] && extra[0] == v && LegalCluster(specs, letters[1..], uses[1..], extra[1..])
  }

  predicate IsOptionWord(mode: Mode, word: string) {
    word != "" && word[0] == '-' && word != "--" && NumericText(mode, word).None?
  }

  predicate LegalToken(specs: seq<Spec>, mode: Mode, token: Token) {
    match token
    case OptionWord(word, uses, extra) =>
      && IsOptionWord(mode, word)
      && var body := word[Dashes(word)..];
         if FindLong(specs, body) < |specs| then LegalLong(specs, body, uses, extra)
         else Dashes(word) == 1 && LegalCluster(specs, body, uses, extra)
    case NumericWord(word) => word != "--" && NumericText(mode, word).Some?
    case Terminator => true
  }

  /** Where the options may end without a terminator. */
  predicate EndsOptions(mode: Mode, rest: seq<string>) {
    rest == [] || ((rest[0] == "" || rest[0][0] != '-') && NumericText(mode, rest[0]).None?)
  }

  /** A terminator ends the options; without one they end at the first other word. */
  predicate Legal(specs: seq<Spec>, mode: Mode, tokens: seq<Token>, rest: seq<string>) {
    if tokens == [] then EndsOptions(mode, rest)
    else if tokens[0].Terminator? then tokens[1..] == []
    else LegalToken(specs, mode, tokens[0]) && Legal(specs, mode, tokens[1..], rest)
  }

  /////////////////////////////// what tokens assign ///////////////////////////////

  function ApplyUses(specs: seq<Spec>, cells: seq<Cell>, uses: seq<Use>, strtol: Strtol): (r: Maybe<seq<Cell>>)
    requires |cells| == |specs| && forall u :: u in uses ==> LegalUse(specs, u)
    ensures r.Some? ==> |r.value| == |specs|
    decreases |uses|
  {
    if uses == [] then Some(cells)
    else
      assert LegalUse(specs, uses[0]);
      var u := uses[0];
      var a := Assign(specs[u.id].kind, cells[u.id], u.value, strtol);
      if a.failure.Some? then None else ApplyUses(specs, cells[u.id := a.cell], uses[1..], strtol)
  }

  /** The first numeric word that is not zero is the last one allowed. */
  function ApplyNumber(mode: Mode, value: int, word: string, strtol: Strtol): Maybe<int>
    requires NumericText(mode, word).Some?
  {
    var (number, whole) := strtol(NumericText(mode, word).value);
    if value != 0 || !whole then None else Some(number)
  }

  lemma {:induction false} ClusterUsesLegal(specs: seq<Spec>, letters: string, uses: seq<Use>, extra: seq<string>)
    requires LegalCluster(specs, letters, uses, extra)
    ensures forall u :: u in uses ==> LegalUse(specs, u)
    decreases |letters|
  {
    if letters != "" {
      ClusterUsesLegal(specs, letters[1..], uses[1..], if uses[0].value.None? then extra else extra[1..]);
      assert uses == [uses[0]] + uses[1..];
    }
  }

  lemma TokenUsesLegal(specs: seq<Spec>, mode: Mode, token: Token)
    requires LegalToken(specs, mode, token) && token.OptionWord?
    ensures forall u :: u in token.uses ==> LegalUse(specs, u)
  {
    var body := token.word[Dashes(token.word)..];
    if FindLong(specs, body) == |specs| {
      ClusterUsesLegal(specs, body, token.uses, token.extra);
    }
  }

  /** All assignments one after the other; none if one of them fails. */
  function Apply(specs: seq<Spec>, mode: Mode, st: State, tokens: seq<Token>, strtol: Strtol): (r: Maybe<State>)
    requires |st.cells| == |specs|
    requires forall t :: t in tokens ==> LegalToken(specs, mode, t)
    ensures r.Some? ==> |r.value.cells| == |specs|
    decreases |tokens|
  {
    if tokens == [] then Some(st)
    else
      assert LegalToken(specs, mode, tokens[0]);
      match tokens[0]
      case Terminator => Apply(specs, mode, st, tokens[1..], strtol)
      case NumericWord(word) =>
        (match ApplyNumber(mode, st.value, word, strtol)
         case None => None
         case Some(n) => Apply(specs, mode, st.(value := n), tokens[1..], strtol))
      case OptionWord(_, uses, _) =>
        TokenUsesLegal(specs, mode, tokens[0]);
        (match ApplyUses(specs, st.cells, uses, strtol)
         case None => None
         case Some(cells) => Apply(specs, mode, st.(cells := cells), tokens[1..], strtol))
  }

  lemma {:induction false} LegalTokens(specs: seq<Spec>, mode: Mode, tokens: seq<Token>, rest: seq<string>)
    requires Legal(specs, mode, tokens, rest)
    ensures forall t :: t in tokens ==> LegalToken(specs, mode, t)
  {
    if tokens != [] {
      if tokens[0].Terminator? {
        assert tokens == [tokens[0]] + [];
      } else {
        LegalTokens(specs, mode, tokens[1..], rest);
        assert tokens == [tokens[0]] + tokens[1..];
      }
    }
  }

  /** `tokens` is a reading of the words up to `rest`, ending in state `st'`. */
  ghost predicate Reads(specs: seq<Spec>, mode: Mode, st: State, argv: seq<string>, strtol: Strtol,
                        tokens: seq<Token>, rest: seq<string>, st': State)
    requires |st.cells| == |specs|
  {
    && Legal(specs, mode, tokens, rest)
    && argv == Words(tokens) + rest
    && (LegalTokens(specs, mode, tokens, rest); Apply(specs, mode, st, tokens, strtol) == Some(st'))
  }

  /////////////////////////////// accepted = legal ///////////////////////////////

  lemma {:induction false} ClusterReads(specs: seq<Spec>, cells: seq<Cell>, letters: string, rest: seq<string>,
                                        strtol: Strtol)
    returns (uses: seq<Use>, extra: seq<string>)
    requires |cells| == |specs| && ClusterStep(specs, cells, letters, rest, strtol).Go?
    ensures LegalCluster(specs, letters, uses, extra)
    ensures rest == extra + ClusterStep(specs, cells, letters, rest, strtol).rest
    ensures forall u :: u in uses ==> LegalUse(specs, u)
    ensures ApplyUses(specs, cells, uses, strtol) == Some(ClusterStep(specs, cells, letters, rest, strtol).cells)
    decreases |letters|
  {
    if letters == "" {
      uses, extra := [], [];
    } else {
      var i := FindShort(specs, letters[0]);
      var takes := Uses(specs[i].kind);
      var s := if takes then AssignAt(specs, cells, i, Some(rest[0]), rest[1..], strtol)
               else AssignAt(specs, cells, i, None, rest, strtol);
      uses, extra := ClusterReads(specs, s.cells, letters[1..], s.rest, strtol);
      var u := Use(i, if takes then Some(rest[0]) else None);
      assert ([u] + uses)[1..] == uses;
      if takes {
        assert ([rest[0]] + extra)[1..] == extra;
        extra := [rest[0]] + extra;
      }
      uses := [u] + uses;
    }
  }

  lemma {:induction false} ClusterAccepts(specs: seq<Spec>, cells: seq<Cell>, letters: string, uses: seq<Use>,
                                          extra: seq<string>, rest: seq<string>, strtol: Strtol)
    requires |cells| == |specs| && LegalCluster(specs, letters, uses, extra)
    requires forall u :: u in uses ==> LegalUse(specs, u)
    ensures var s := ClusterStep(specs, cells, letters, extra + rest, strtol);
            match ApplyUses(specs, cells, uses, strtol)
            case None => s.Fail?
            case Some(cells') => s == Go(cells', rest)
    decreases |letters|
  {
    if letters == "" {
      assert extra + rest == rest;
    } else {
      var u := uses[0];
      assert uses == [u] + uses[1..];
      var a := Assign(specs[u.id].kind, cells[u.id], u.value, strtol);
      if a.failure.None? {
        var extra' := if u.value.None? then extra else extra[1..];
        if u.value.Some? {
          assert (extra + rest)[1..] == extra' + rest;
        }
        ClusterAccepts(specs, cells[u.id := a.cell], letters[1..], uses[1..], extra', rest, strtol);
      }
    }
  }

  /** A word the parse accepts is a legal token. */
  lemma WordReads(specs: seq<Spec>, mode: Mode, cells: seq<Cell>, word: string, rest: seq<string>, strtol: Strtol)
    returns (token: Token)
    requires |cells| == |specs| && IsOptionWord(mode, word) && WordStep(specs, cells, word, rest, strtol).Go?
    ensures token.OptionWord? && token.word == word && LegalToken(specs, mode, token)
    ensures rest == token.extra + WordStep(specs, cells, word, rest, strtol).rest
    ensures forall u :: u in token.uses ==> LegalUse(specs, u)
    ensures ApplyUses(specs, cells, token.uses, strtol) == Some(WordStep(specs, cells, word, rest, strtol).cells)
  {
    var body := word[Dashes(word)..];
    var i := FindLong(specs, body);
    if i < |specs| {
      var name := specs[i].long.value;
      if |name| < |body| && body[|name|] == '=' {
        token := OptionWord(word, [Use(i, Some(body[|name| + 1..]))], []);
      } else if Uses(specs[i].kind) {
        token := OptionWord(word, [Use(i, Some(rest[0]))], [rest[0]]);
      } else {
        token := OptionWord(word, [Use(i, None)], []);
      }
    } else {
      var uses, extra := ClusterReads(specs, cells, body, rest, strtol);
      token := OptionWord(word, uses, extra);
    }
  }

  /** A legal token is a word the parse accepts, if its assignments succeed. */
  lemma WordAccepts(specs: seq<Spec>, mode: Mode, cells: seq<Cell>, token: Token, rest: seq<string>, strtol: Strtol)
    requires |cells| == |specs| && token.OptionWord? && LegalToken(specs, mode, token)
    requires forall u :: u in token.uses ==> LegalUse(specs, u)
    ensures var s := WordStep(specs, cells, token.word, token.extra + rest, strtol);
            match ApplyUses(specs, cells, token.uses, strtol)
            case None => s.Fail?
            case Some(cells') => s == Go(cells', rest)
  {
    var body := token.word[Dashes(token.word)..];
    var i := FindLong(specs, body);
    if i < |specs| {
      LongAccepts(specs, cells, i, body, token.uses, token.extra, rest, strtol);
    } else {
      ClusterAccepts(specs, cells, body, token.uses, token.extra, rest, strtol);
    }
  }

  lemma LongAccepts(specs: seq<Spec>, cells: seq<Cell>, i: nat, body: string, uses: seq<Use>, extra: seq<string>,
                    rest: seq<string>, strtol: Strtol)
    requires |cells| == |specs| && i == FindLong(specs, body) < |specs| && LegalLong(specs, body, uses, extra)
    requires forall u :: u in uses ==> LegalUse(specs, u)
    ensures var s := LongStep(specs, cells, i, body, extra + rest, strtol);
            match ApplyUses(specs, cells, uses, strtol)
            case None => s.Fail?
            case Some(cells') => s == Go(cells', rest)
  {
    var u := uses[0];
    assert uses[1..] == [];
    var a := Assign(specs[u.id].kind, cells[u.id], u.value, strtol);
    assert ApplyUses(specs, cells, uses, strtol) ==
           if a.failure.Some? then None else Some(cells[u.id := a.cell]) by {
      assert LegalUse(specs, u);
      assert ApplyUses(specs, cells[u.id := a.cell], uses[1..], strtol) == Some(cells[u.id := a.cell]);
    }
    assert extra == [] ==> extra + rest == rest;
    assert extra != [] ==> (extra + rest)[1..] == rest;
  }

  /** Prefixing a reading with one more token that is not a terminator. */
  lemma ReadsCons(specs: seq<Spec>, mode: Mode, st: State, strtol: Strtol, token: Token, next: State,
                  argv: seq<string>, tokens: seq<Token>, rest: seq<string>, st': State)
    requires |st.cells| == |specs| == |next.cells| && Reads(specs, mode, next, argv, strtol, tokens, rest, st')
    requires LegalToken(specs, mode, token) && !token.Terminator?
    requires Apply(specs, mode, st, [token], strtol) == Some(next)
    ensures Reads(specs, mode, st, Words([token]) + argv, strtol, [token] + tokens, rest, st')
  {
    var all := [token] + tokens;
    assert all[1..] == tokens && [token][1..] == [];
    WordsCons(token, tokens, rest);
  }

  lemma WordsCons(token: Token, tokens: seq<Token>, rest: seq<string>)
    ensures Words([token] + tokens) + rest == Words([token]) + (Words(tokens) + rest)
  {
    assert ([token] + tokens)[1..] == tokens && [token][1..] == [];
    assert Words([token]) + [] == Words([token]);
  }

  lemma ApplyOne(specs: seq<Spec>, mode: Mode, st: State, token: Token, strtol: Strtol)
    requires |st.cells| == |specs| && LegalToken(specs, mode, token)
    ensures Words([token]) ==
            match token
            case OptionWord(word, _, extra) => [word] + extra
            case NumericWord(word) => [word]
            case Terminator => ["--"]
    ensures token.OptionWord? ==>
              (forall u :: u in token.uses ==> LegalUse(specs, u)) &&
              var cells := ApplyUses(specs, st.cells, token.uses, strtol);
              Apply(specs, mode, st, [token], strtol) ==
                if cells.Some? then Some(st.(cells := cells.value)) else None
    ensures token.NumericWord? ==>
              var n := ApplyNumber(mode, st.value, token.word, strtol);
              Apply(specs, mode, st, [token], strtol) == if n.Some? then Some(st.(value := n.value)) else None
  {
    assert [token][1..] == [];
    if token.OptionWord? {
      TokenUsesLegal(specs, mode, token);
    }
  }

  /** Every successful parse has a legal reading, with the positionals as the rest. */
  lemma {:induction false} ParseReads(specs: seq<Spec>, mode: Mode, st: State, argv: seq<string>, strtol: Strtol)
    returns (tokens: seq<Token>)
    requires |st.cells| == |specs| && Parse(specs, mode, st, argv, strtol).Parsed?
    ensures var o := Parse(specs, mode, st, argv, strtol);
            Reads(specs, mode, st, argv, strtol, tokens, o.positionals, o.state)
    decreases |argv|
  {
    if argv == [] {
      return [];
    }
    var word, rest := argv[0], argv[1..];
    var o := Parse(specs, mode, st, argv, strtol);
    assert argv == [word] + rest;
    if word == "--" {
      tokens := [Terminator];
      assert tokens[1..] == [];
    } else if NumericText(mode, word).Some? {
      tokens := NumberReads(specs, mode, st, word, rest, strtol);
    } else if word == "" || word[0] != '-' {
      tokens := [];
      assert Words(tokens) + argv == argv;
    } else {
      tokens := OptionReads(specs, mode, st, word, rest, strtol);
    }
  }

  lemma {:induction false} NumberReads(specs: seq<Spec>, mode: Mode, st: State, word: string, rest: seq<string>,
                                       strtol: Strtol)
    returns (tokens: seq<Token>)
    requires |st.cells| == |specs| && word != "--" && NumericText(mode, word).Some?
    requires Parse(specs, mode, st, [word] + rest, strtol).Parsed?
    ensures var o := Parse(specs, mode, st, [word] + rest, strtol);
            Reads(specs, mode, st, [word] + rest, strtol, tokens, o.positionals, o.state)
    decreases |rest| + 1, 0
  {
    var o := Parse(specs, mode, st, [word] + rest, strtol);
    assert ([word] + rest)[1..] == rest;
    var next := st.(value := strtol(NumericText(mode, word).value).0);
    var more := ParseReads(specs, mode, next, rest, strtol);
    ApplyOne(specs, mode, st, NumericWord(word), strtol);
    ReadsCons(specs, mode, st, strtol, NumericWord(word), next, rest, more, o.positionals, o.state);
    tokens := [NumericWord(word)] + more;
  }

  lemma {:induction false} OptionReads(specs: seq<Spec>, mode: Mode, st: State, word: string, rest: seq<string>,
                                       strtol: Strtol)
    returns (tokens: seq<Token>)
    requires |st.cells| == |specs| && IsOptionWord(mode, word) && Parse(specs, mode, st, [word] + rest, strtol).Parsed?
    ensures var o := Parse(specs, mode, st, [word] + rest, strtol);
            Reads(specs, mode, st, [word] + rest, strtol, tokens, o.positionals, o.state)
    decreases |rest| + 1, 0
  {
    var o := Parse(specs, mode, st, [word] + rest, strtol);
    ParseOption(specs, mode, st, word, rest, strtol);
    var s := WordStep(specs, st.cells, word, rest, strtol);
    var token := WordReads(specs, mode, st.cells, word, rest, strtol);
    var more := ParseReads(specs, mode, st.(cells := s.cells), s.rest, strtol);
    OptionFirst(specs, mode, st, token, s.cells, s.rest, strtol, more, o.positionals, o.state);
    tokens := [token] + more;
  }

  /** A legal option word in front of a reading. */
  lemma OptionFirst(specs: seq<Spec>, mode: Mode, st: State, token: Token, cells: seq<Cell>, left: seq<string>,
                    strtol: Strtol, more: seq<Token>, positionals: seq<string>, st': State)
    requires |st.cells| == |specs| == |cells| && LegalToken(specs, mode, token) && token.OptionWord?
    requires (TokenUsesLegal(specs, mode, token); ApplyUses(specs, st.cells, token.uses, strtol) == Some(cells))
    requires Reads(specs, mode, st.(cells := cells), left, strtol, more, positionals, st')
    ensures Reads(specs, mode, st, [token.word] + (token.extra + left), strtol, [token] + more, positionals, st')
  {
    ApplyOne(specs, mode, st, token, strtol);
    ReadsCons(specs, mode, st, strtol, token, st.(cells := cells), left, more, positionals, st');
    assert ([token.word] + token.extra) + left == [token.word] + (token.extra + left);
  }

  lemma ParseOption(specs: seq<Spec>, mode: Mode, st: State, word: string, rest: seq<string>, strtol: Strtol)
    requires |st.cells| == |specs| && IsOptionWord(mode, word)
    ensures var s, o := WordStep(specs, st.cells, word, rest, strtol), Parse(specs, mode, st, [word] + rest, strtol);
            o == if s.Fail? then Failed(st.(cells := s.cells), s.reason)
                 else Parse(specs, mode, st.(cells := s.cells), s.rest, strtol)
  {
    assert ([word] + rest)[1..] == rest;
  }

  /** The parse does what the tokens read, or throws where an assignment fails. */
  ghost predicate ParsedAsRead(specs: seq<Spec>, mode: Mode, st: State, tokens: seq<Token>, rest: seq<string>,
                               strtol: Strtol)
    requires |st.cells| == |specs| && Legal(specs, mode, tokens, rest)
  {
    var o := Parse(specs, mode, st, Words(tokens) + rest, strtol);
    var applied := (LegalTokens(specs, mode, tokens, rest); Apply(specs, mode, st, tokens, strtol));
    if applied.None? then o.Failed? else o == Parsed(applied.value, rest)
  }

  lemma TerminatorParsed(specs: seq<Spec>, mode: Mode, st: State, tokens: seq<Token>, rest: seq<string>, strtol: Strtol)
    requires |st.cells| == |specs| && Legal(specs, mode, tokens, rest)
    requires tokens != [] && tokens[0].Terminator?
    ensures ParsedAsRead(specs, mode, st, tokens, rest, strtol)
  {
    LegalTokens(specs, mode, tokens, rest);
    assert tokens[1..] == [] && Words(tokens) == ["--"] + [];
    assert (Words(tokens) + rest)[1..] == rest;
  }

  lemma NumberParsed(specs: seq<Spec>, mode: Mode, st: State, tokens: seq<Token>, rest: seq<string>, strtol: Strtol)
    requires |st.cells| == |specs| && Legal(specs, mode, tokens, rest)
    requires tokens != [] && tokens[0].NumericWord?
    requires var n := ApplyNumber(mode, st.value, tokens[0].word, strtol);
             n.Some? ==> ParsedAsRead(specs, mode, st.(value := n.value), tokens[1..], rest, strtol)
    ensures ParsedAsRead(specs, mode, st, tokens, rest, strtol)
  {
    LegalTokens(specs, mode, tokens, rest);
    FirstWords(tokens, rest);
    ParseNumber(specs, mode, st, tokens[0].word, Words(tokens[1..]) + rest, strtol);
  }

  lemma FirstWords(tokens: seq<Token>, rest: seq<string>)
    requires tokens != [] && !tokens[0].Terminator?
    ensures var more := Words(tokens[1..]) + rest;
            Words(tokens) + rest == [tokens[0].word] + if tokens[0].OptionWord? then tokens[0].extra + more else more
  {
    if tokens[0].OptionWord? {
      var word, extra, tail := [tokens[0].word], tokens[0].extra, Words(tokens[1..]);
      assert word + extra + tail + rest == word + (extra + (tail + rest));
    }
  }

  lemma ParseNumber(specs: seq<Spec>, mode: Mode, st: State, word: string, rest: seq<string>, strtol: Strtol)
    requires |st.cells| == |specs| && word != "--" && NumericText(mode, word).Some?
    ensures var n, o := ApplyNumber(mode, st.value, word, strtol), Parse(specs, mode, st, [word] + rest, strtol);
            if n.None? then o.Failed? else o == Parse(specs, mode, st.(value := n.value), rest, strtol)
  {
    assert ([word] + rest)[1..] == rest;
  }

  lemma OptionParsed(specs: seq<Spec>, mode: Mode, st: State, tokens: seq<Token>, rest: seq<string>, strtol: Strtol)
    requires |st.cells| == |specs| && Legal(specs, mode, tokens, rest)
    requires tokens != [] && tokens[0].OptionWord?
    requires (TokenUsesLegal(specs, mode, tokens[0]);
              var cells := ApplyUses(specs, st.cells, tokens[0].uses, strtol);
              cells.Some? ==> ParsedAsRead(specs, mode, st.(cells := cells.value), tokens[1..], rest, strtol))
    ensures ParsedAsRead(specs, mode, st, tokens, rest, strtol)
  {
    LegalTokens(specs, mode, tokens, rest);
    TokenUsesLegal(specs, mode, tokens[0]);
    var more := Words(tokens[1..]) + rest;
    FirstWords(tokens, rest);
    ParseOption(specs, mode, st, tokens[0].word, tokens[0].extra + more, strtol);
    WordAccepts(specs, mode, st.cells, tokens[0], more, strtol);
  }

  /** Every legal reading is what the parse does; if an assignment of it fails, the parse throws. */
  lemma {:induction false} ParseAccepts(specs: seq<Spec>, mode: Mode, st: State, tokens: seq<Token>, rest: seq<string>,
                                        strtol: Strtol)
    requires |st.cells| == |specs| && Legal(specs, mode, tokens, rest)
    ensures ParsedAsRead(specs, mode, st, tokens, rest, strtol)
    decreases |tokens|
  {
    if tokens == [] {
      assert Words(tokens) + rest == rest;
    } else {
      match tokens[0] {
        case Terminator => TerminatorParsed(specs, mode, st, tokens, rest, strtol);
        case NumericWord(word) =>
          var n := ApplyNumber(mode, st.value, word, strtol);
          if n.Some? {
            ParseAccepts(specs, mode, st.(value := n.value), tokens[1..], rest, strtol);
          }
          NumberParsed(specs, mode, st, tokens, rest, strtol);
        case OptionWord(word, uses, extra) =>
          TokenUsesLegal(specs, mode, tokens[0]);
          var cells := ApplyUses(specs, st.cells, uses, strtol);
          if cells.Some? {
            ParseAccepts(specs, mode, st.(cells := cells.value), tokens[1..], rest, strtol);
          }
          OptionParsed(specs, mode, st, tokens, rest, strtol);
      }
    }
  }

  /** The parse accepts a command line with a state and positionals iff the line has a legal
      reading that leads to that state and leaves those positionals. */
  lemma AcceptsExactlyLegal(specs: seq<Spec>, mode: Mode, st: State, argv: seq<string>, strtol: Strtol,
                            st': State, rest: seq<string>)
    requires |st.cells| == |specs|
    ensures Parse(specs, mode, st, argv, strtol) == Parsed(st', rest) <==>
            exists tokens :: Reads(specs, mode, st, argv, strtol, tokens, rest, st')
  {
    if Parse(specs, mode, st, argv, strtol) == Parsed(st', rest) {
      var tokens := ParseReads(specs, mode, st, argv, strtol);
    }
    forall tokens | Reads(specs, mode, st, argv, strtol, tokens, rest, st')
      ensures Parse(specs, mode, st, argv, strtol) == Parsed(st', rest)
    {
      ParseAccepts(specs, mode, st, tokens, rest, strtol);
    }
  }
}
