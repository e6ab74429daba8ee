/** The option objects and the parse loops of src/args.cpp. */
module Args {
  import opened Wrappers
  import opened CommandLine

  class Option {
    const spec: Spec
    var used: nat
    var value: Value

    constructor (short: char, long: Maybe<string>, kind: Kind, default: Value)
      ensures spec == Spec(short, if long.Some? then Some(StripDashes(long.value)) else None, kind)
      ensures used == 0 && value == default
    {
      var name := long;
      while name.Some? && name.value != "" && name.value[0] == '-'
        invariant name.Some? <==> long.Some?
        invariant name.Some? ==> StripDashes(name.value) == StripDashes(long.value)
        decreases if name.Some? then |name.value| else 0
      {
        name := Some(name.value[1..]);
      }
      spec := Spec(short, name, kind);
      used, value := 0, default;
    }

    function State(): Cell
      reads this
    {
      Cell(used, value)
    }

    /** `assign` of the option's kind; a failure is the reason of the exception it throws. */
    method Assign(v: Maybe<string>, strtol: Strtol) returns (failure: Maybe<Reason>)
      requires Uses(spec.kind) ==> v.Some?
      modifies this
      ensures Assigned(State(), failure) == CommandLine.Assign(spec.kind, old(State()), v, strtol)
    {
      match spec.kind {
        case Flag(single) =>
          if single && used > 0 {
            return Some(AlreadyUsed);
          }
          used := used + 1;
        case Group =>
        case Text =>
          if used > 0 {
            return Some(AlreadyAssigned);
          }
          value := TextValue(v.value);
          used := used + 1;
        case CharCode =>
          if used > 0 {
            return Some(AlreadyAssigned);
          }
          used := used + 1;
          if v.value == "" {
            return Some(PastTheEnd);
          }
          if |v.value| == 1 {
            value := CodeValue(v.value[0]);
            return None;
          }
          var (number, whole) := strtol(v.value);
          if !whole || number < 0 || number > 255 {
            return Some(InvalidCharacter);
          }
          value := CodeValue(number as char);
        case Number =>
          if used > 0 {
            return Some(AlreadyAssigned);
          }
          used := used + 1;
          var (number, whole) := strtol(v.value);
          value := NumberValue(number);
          if !whole {
            return Some(InvalidNumber);
          }
      }
      failure := None;
    }
  }

  /** The list the options register themselves in, in order of construction. */
  class Registry {
    var options: seq<Option>

    constructor ()
      ensures options == []
    {
      options := [];
    }

    ghost predicate Valid()
      reads this
    {
      forall i, j :: 0 <= i < j < |options| ==> options[i] != options[j]
    }

    method Register(short: char, long: Maybe<string>, kind: Kind, default: Value) returns (option: Option)
      requires Valid()
      modifies this
      ensures Valid() && fresh(option) && options == old(options) + [option]
      ensures option.spec == Spec(short, if long.Some? then Some(StripDashes(long.value)) else None, kind)
      ensures option.State() == Cell(0, default)
    {
      option := new Option(short, long, kind, default);
      options := options + [option];
    }

    function Specs(): (specs: seq<Spec>)
      reads this
      ensures |specs| == |options|
      ensures forall i :: 0 <= i < |options| ==> specs[i] == options[i].spec
    {
      seq(|options|, i requires 0 <= i < |options| reads this => options[i].spec)
    }

    function Cells(): (cells: seq<Cell>)
      reads this, options
      ensures |cells| == |options|
      ensures forall i :: 0 <= i < |options| ==> cells[i] == options[i].State()
    {
      seq(|options|, i requires 0 <= i < |options| reads this, options => options[i].State())
    }

    /** `op->assign(op_value)` for the option at `i`. */
    method AssignTo(i: nat, v: Maybe<string>, strtol: Strtol, ghost rest: seq<string>) returns (failure: Maybe<Reason>)
      requires Valid() && i < |options| && (Uses(options[i].spec.kind) ==> v.Some?)
      modifies options
      ensures AssignAt(Specs(), old(Cells()), i, v, rest, strtol) ==
              if failure.Some? then Fail(Cells(), failure.value) else Go(Cells(), rest)
    {
      ghost var before := Cells();
      failure := options[i].Assign(v, strtol);
      assert Cells() == before[i := options[i].State()];
    }

    /** The loop over the registered options that looks for a long name. */
    method LookUpLong(body: string) returns (op: nat)
      ensures op == FindLong(Specs(), body)
    {
      op := 0;
      while op < |options|
        invariant 0 <= op <= |options|
        invariant FindLong(Specs(), body) == FindLong(Specs(), body, op)
      {
        if LongMatches(options[op].spec, body) {
          break;
        }
        op := op + 1;
      }
    }

    method LookUpShort(c: char) returns (op: nat)
      ensures op == FindShort(Specs(), c)
    {
      op := 0;
      while op < |options|
        invariant 0 <= op <= |options|
        invariant FindShort(Specs(), c) == FindShort(Specs(), c, op)
      {
        if ShortMatches(options[op].spec, c) {
          break;
        }
        op := op + 1;
      }
    }
  }

  /** The argument vector: the entry behind the last word is the null pointer, and nothing
      behind that may be read. */
  function At(argv: seq<string>, list: nat): Maybe<string>
    requires list <= |argv|
  {
    if list < |argv| then Some(argv[list]) else None
  }

  class Args {
    const registry: Registry
    var value: int
    var positionals: seq<string>

    constructor (registry: Registry)
      ensures this.registry == registry && value == 0 && positionals == []
    {
      this.registry, value, positionals := registry, 0, [];
    }

    ghost function Now(): CommandLine.State
      reads this, registry, registry.options
    {
      CommandLine.State(registry.Cells(), value)
    }

    /** A word whose long name was found; `list` stands behind the word. */
    method TakeLong(op: nat, body: string, argv: seq<string>, list: nat, strtol: Strtol)
      returns (list': nat, failure: Maybe<Reason>)
      requires registry.Valid() && op < |registry.options| && list <= |argv|
      requires LongMatches(registry.options[op].spec, body)
      modifies registry.options
      ensures list <= list' && (failure.None? ==> list' <= |argv|)
      ensures LongStep(registry.Specs(), old(registry.Cells()), op, body, argv[list..], strtol) ==
              if failure.Some? then Fail(registry.Cells(), failure.value) else Go(registry.Cells(), argv[list'..])
    {
      list' := list;
      var option := registry.options[op];
      var len := |option.spec.long.value|;
      var opValue: Maybe<string> := None;
      if len < |body| && body[len] == '=' {
        opValue := Some(body[len + 1..]);
      } else if Uses(option.spec.kind) {
        opValue := At(argv, list');
        list' := list' + 1;
      }
      if opValue.Some? && !Uses(option.spec.kind) {
        return list', Some(InvalidArgument);
      }
      if opValue.None? && Uses(option.spec.kind) {
        return list', Some(MissingArgument);
      }
      failure := registry.AssignTo(op, opValue, strtol, argv[list'..]);
      assert list' > list ==> argv[list..][1..] == argv[list'..];
    }

    /** One letter, the first of `letters`, with the next word as its value if it takes one. */
    method TakeLetter(letter: char, argv: seq<string>, list: nat, strtol: Strtol, ghost letters: string)
      returns (list': nat, failure: Maybe<Reason>)
      requires registry.Valid() && list <= |argv| && letters != "" && letters[0] == letter
      modifies registry.options
      ensures list <= list' && (failure.None? ==> list' <= |argv|)
      ensures ClusterStep(registry.Specs(), old(registry.Cells()), letters, argv[list..], strtol) ==
              if failure.Some? then Fail(registry.Cells(), failure.value)
              else ClusterStep(registry.Specs(), registry.Cells(), letters[1..], argv[list'..], strtol)
    {
      list', failure := list, None;
      var op := registry.LookUpShort(letter);
      if op == |registry.options| {
        return list', Some(UnknownOption);
      }
      var opValue: Maybe<string> := None;
      if Uses(registry.options[op].spec.kind) {
        opValue := At(argv, list');
        list' := list' + 1;
        if opValue.None? {
          return list', Some(ArgumentMissing);
        }
        assert argv[list..][1..] == argv[list'..];
      }
      failure := registry.AssignTo(op, opValue, strtol, argv[list'..]);
    }

    /** The loop over the letters of a word with one dash. */
    method TakeCluster(word: string, argv: seq<string>, list: nat, strtol: Strtol)
      returns (list': nat, failure: Maybe<Reason>)
      requires registry.Valid() && list <= |argv|
      modifies registry.options
      ensures list <= list' && (failure.None? ==> list' <= |argv|)
      ensures ClusterStep(registry.Specs(), old(registry.Cells()), word, argv[list..], strtol) ==
              if failure.Some? then Fail(registry.Cells(), failure.value) else Go(registry.Cells(), argv[list'..])
    {
      list', failure := list, None;
      ghost var whole := ClusterStep(registry.Specs(), registry.Cells(), word, argv[list..], strtol);
      var arg := 0;
      assert word[0..] == word;
      while arg < |word|
        invariant 0 <= arg <= |word| && list <= list' <= |argv| && failure == None
        invariant whole == ClusterStep(registry.Specs(), registry.Cells(), word[arg..], argv[list'..], strtol)
      {
        assert word[arg..][0] == word[arg] && word[arg..][1..] == word[arg + 1..];
        list', failure := TakeLetter(word[arg], argv, list', strtol, word[arg..]);
        if failure.Some? {
          return;
        }
        arg := arg + 1;
      }
      assert word[arg..] == "";
    }

    /** A word that starts with a dash: long names first, then the letters. */
    method TakeWord(arg: string, argv: seq<string>, list: nat, strtol: Strtol)
      returns (list': nat, failure: Maybe<Reason>)
      requires registry.Valid() && list <= |argv| && arg != "" && arg[0] == '-'
      modifies registry.options
      ensures list <= list' && (failure.None? ==> list' <= |argv|)
      ensures WordStep(registry.Specs(), old(registry.Cells()), arg, argv[list..], strtol) ==
              if failure.Some? then Fail(registry.Cells(), failure.value) else Go(registry.Cells(), argv[list'..])
    {
      var body := arg[Dashes(arg)..];
      var op := registry.LookUpLong(body);
      if op < |registry.options| {
        list', failure := TakeLong(op, body, argv, list, strtol);
      } else if Dashes(arg) == 2 {
        return list, Some(UnknownCommandOption);
      } else {
        list', failure := TakeCluster(body, argv, list, strtol);
      }
    }

    /** A numeric word, of which there may be one unless it is zero. */
    method TakeNumber(text: string, strtol: Strtol) returns (failure: Maybe<Reason>)
      modifies `value
      ensures old(value) != 0 ==> value == old(value) && failure == Some(NumericAlreadySet)
      ensures old(value) == 0 ==>
                value == strtol(text).0 && failure == if strtol(text).1 then None else Some(NonNumeric)
    {
      if value != 0 {
        return Some(NumericAlreadySet);
      }
      var (number, complete) := strtol(text);
      value := number;
      return if complete then None else Some(NonNumeric);
    }

    /** The parse goes on behind a numeric word. */
    method NumericWord(text: string, argv: seq<string>, list: nat, mode: Mode, strtol: Strtol)
      returns (failure: Maybe<Reason>)
      requires registry.Valid() && list < |argv| && argv[list] != "--" && NumericText(mode, argv[list]) == Some(text)
      modifies `value
      ensures registry.Valid()
      ensures CommandLine.Parse(registry.Specs(), mode, old(Now()), argv[list..], strtol) ==
              if failure.Some? then Failed(Now(), failure.value)
              else CommandLine.Parse(registry.Specs(), mode, Now(), argv[list + 1..], strtol)
    {
      assert argv[list..][0] == argv[list] && argv[list..][1..] == argv[list + 1..];
      failure := TakeNumber(text, strtol);
    }

    /** And behind an option word with its values. */
    method OptionWord(argv: seq<string>, list: nat, mode: Mode, strtol: Strtol)
      returns (list': nat, failure: Maybe<Reason>)
      requires registry.Valid() && list < |argv| && argv[list] != "--" && NumericText(mode, argv[list]).None?
      requires argv[list] != "" && argv[list][0] == '-'
      modifies registry.options
      ensures list < list' && (failure.None? ==> list' <= |argv|)
      ensures CommandLine.Parse(registry.Specs(), mode, old(Now()), argv[list..], strtol) ==
              if failure.Some? then Failed(Now(), failure.value)
              else CommandLine.Parse(registry.Specs(), mode, Now(), argv[list'..], strtol)
    {
      assert argv[list..][0] == argv[list] && argv[list..][1..] == argv[list + 1..];
      list', failure := TakeWord(argv[list], argv, list + 1, strtol);
    }

    /** The constructor's loop over the argument vector, the program's name left out: the
        cursor never passes the null pointer on success and never reads behind it. */
    method Parse(argv: seq<string>, mode: Mode, strtol: Strtol) returns (offset: nat, failure: Maybe<Reason>)
      requires registry.Valid()
      modifies `value, `positionals, registry.options
      ensures CommandLine.Parse(registry.Specs(), mode, old(Now()), argv, strtol) ==
              if failure.Some? then Failed(Now(), failure.value) else Parsed(Now(), positionals)
      ensures failure.None? ==> offset <= |argv| && positionals == argv[offset..]
    {
      var list := 0;
      ghost var whole := CommandLine.Parse(registry.Specs(), mode, Now(), argv, strtol);
      assert argv[0..] == argv;
      while At(argv, list).Some?
        invariant list <= |argv|
        invariant whole == CommandLine.Parse(registry.Specs(), mode, Now(), argv[list..], strtol)
        decreases |argv| - list
      {
        var arg := argv[list];
        if arg == "--" {
          assert argv[list..][0] == arg && argv[list..][1..] == argv[list + 1..];
          list := list + 1;
          break;
        }
        var text := NumericText(mode, arg);
        if text.Some? {
          failure := NumericWord(text.value, argv, list, mode, strtol);
          list := list + 1;
          if failure.Some? {
            return list, failure;
          }
          continue;
        }
        if arg == "" || arg[0] != '-' {
          assert argv[list..][0] == arg;
          break;
        }
        list, failure := OptionWord(argv, list, mode, strtol);
        if failure.Some? {
          return list, failure;
        }
      }
      offset, failure := list, None;
      positionals := argv[list..];
    }
  }
}
