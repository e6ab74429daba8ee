/** The parse of src/args.cpp as a function of the registered options and the words.

    Words are C strings, so they hold no NUL; `strtol` stands for the C function of that
    name with base 0: the value, and whether the whole text was a number. */
module CommandLine {
  import opened Wrappers

  type Strtol = string -> (int, bool)

  datatype Mode = NONE | PLUS | DASH | ALL
  datatype Kind = Flag(single: bool) | Group | Text | Number | CharCode

  /** What an option is registered with; a short option NUL is none. */
  datatype Spec = Spec(short: char, long: Maybe<string>, kind: Kind)

  datatype Value = Nothing | TextValue(text: string) | NumberValue(num: int) | CodeValue(code: char)

  /** What a parse changes of an option. */
  datatype Cell = Cell(used: nat, value: Value)

  datatype Reason =
    | AlreadyUsed | AlreadyAssigned | InvalidCharacter | InvalidNumber | PastTheEnd
    | InvalidArgument | MissingArgument | UnknownCommandOption | UnknownOption | ArgumentMissing
    | NumericAlreadySet | NonNumeric

  /** Options of these kinds take a value, the others never do. */
  predicate Uses(kind: Kind) {
    kind.Text? || kind.Number? || kind.CharCode?
  }

  /** Registration strips the dashes the long name is written with. */
  function StripDashes(long: string): (name: string)
    ensures name == "" || name[0] != '-'
    ensures |name| <= |long| && name == long[|long| - |name|..]
    ensures forall i :: 0 <= i < |long| - |name| ==> long[i] == '-'
  {
    if long != "" && long[0] == '-' then StripDashes(long[1..]) else long
  }

  /////////////////////////////// assignment ///////////////////////////////

  datatype Assigned = Assigned(cell: Cell, failure: Maybe<Reason>)

  function Assign(kind: Kind, cell: Cell, v: Maybe<string>, strtol: Strtol): Assigned
    requires Uses(kind) ==> v.Some?
  {
    match kind
    case Flag(single) =>
      if single && cell.used > 0 then Assigned(cell, Some(AlreadyUsed))
      else Assigned(cell.(used := cell.used + 1), None)
    case Group => Assigned(cell, None)
    case Text =>
      if cell.used > 0 then Assigned(cell, Some(AlreadyAssigned))
      else Assigned(Cell(cell.used + 1, TextValue(v.value)), None)
    case CharCode =>
      if cell.used > 0 then Assigned(cell, Some(AlreadyAssigned))
      else if v.value == "" then Assigned(cell.(used := cell.used + 1), Some(PastTheEnd)) // reads behind the NUL
      else if |v.value| == 1 then Assigned(Cell(cell.used + 1, CodeValue(v.value[0])), None)
      else
        var (number, whole) := strtol(v.value);
        if !whole || number < 0 || number > 255 then Assigned(cell.(used := cell.used + 1), Some(InvalidCharacter))
        else Assigned(Cell(cell.used + 1, CodeValue(number as char)), None)
    case Number =>
      if cell.used > 0 then Assigned(cell, Some(AlreadyAssigned))
      else
        var (number, whole) := strtol(v.value);
        Assigned(Cell(cell.used + 1, NumberValue(number)), if whole then None else Some(InvalidNumber))
  }

  /////////////////////////////// look-up ///////////////////////////////

  predicate LongMatches(spec: Spec, body: string) {
    spec.long.Some? && spec.long.value <= body
  }

  /** The first option whose long name is a prefix of the word, or the number of options. */
  function FindLong(specs: seq<Spec>, body: string, i: nat := 0): (r: nat)
    requires i <= |specs|
    ensures i <= r <= |specs|
    ensures forall k :: i <= k < r ==> !LongMatches(specs[k], body)
    ensures r < |specs| ==> LongMatches(specs[r], body)
    decreases |specs| - i
  {
    if i == |specs| || LongMatches(specs[i], body) then i else FindLong(specs, body, i + 1)
  }

  predicate ShortMatches(spec: Spec, c: char) {
    spec.short == c && c != '\0'
  }

  function FindShort(specs: seq<Spec>, c: char, i: nat := 0): (r: nat)
    requires i <= |specs|
    ensures i <= r <= |specs|
    ensures forall k :: i <= k < r ==> !ShortMatches(specs[k], c)
    ensures r < |specs| ==> ShortMatches(specs[r], c)
    decreases |specs| - i
  {
    if i == |specs| || ShortMatches(specs[i], c) then i else FindShort(specs, c, i + 1)
  }

  /////////////////////////////// one word ///////////////////////////////

  /** After a word: on with the remaining words, or a thrown reason. */
  datatype Step = Go(cells: seq<Cell>, rest: seq<string>) | Fail(cells: seq<Cell>, reason: Reason)

  function AssignAt(specs: seq<Spec>, cells: seq<Cell>, i: nat, v: Maybe<string>, rest: seq<string>, strtol: Strtol)
    : (s: Step)
    requires |cells| == |specs| && i < |specs| && (Uses(specs[i].kind) ==> v.Some?)
    ensures |s.cells| == |specs| && (s.Go? ==> s.rest == rest)
  {
    var a := Assign(specs[i].kind, cells[i], v, strtol);
    if a.failure.Some? then Fail(cells[i := a.cell], a.failure.value) else Go(cells[i := a.cell], rest)
  }

  function LongStep(specs: seq<Spec>, cells: seq<Cell>, i: nat, body: string, rest: seq<string>, strtol: Strtol)
    : (s: Step)
    requires |cells| == |specs| && i < |specs| && LongMatches(specs[i], body)
    ensures |s.cells| == |specs| && (s.Go? ==> |s.rest| <= |rest|)
  {
    var len, uses := |specs[i].long.value|, Uses(specs[i].kind);
    if len < |body| && body[len] == '=' then
      if !uses then Fail(cells, InvalidArgument)
      else AssignAt(specs, cells, i, Some(body[len + 1..]), rest, strtol)
    else if !uses then AssignAt(specs, cells, i, None, rest, strtol)
    else if rest == [] then Fail(cells, MissingArgument)
    else AssignAt(specs, cells, i, Some(rest[0]), rest[1..], strtol)
  }

  function ClusterStep(specs: seq<Spec>, cells: seq<Cell>, letters: string, rest: seq<string>, strtol: Strtol)
    : (s: Step)
    requires |cells| == |specs|
    ensures |s.cells| == |specs| && (s.Go? ==> |s.rest| <= |rest|)
    decreases |letters|
  {
    if letters == "" then Go(cells, rest)
    else
      var i := FindShort(specs, letters[0]);
      if i == |specs| then Fail(cells, UnknownOption)
      else if Uses(specs[i].kind) && rest == [] then Fail(cells, ArgumentMissing)
      else
        var s := if Uses(specs[i].kind) then AssignAt(specs, cells, i, Some(rest[0]), rest[1..], strtol)
                 else AssignAt(specs, cells, i, None, rest, strtol);
        if s.Fail? then s else ClusterStep(specs, s.cells, letters[1..], s.rest, strtol)
  }

  function Dashes(word: string): (n: nat)
    requires word != "" && word[0] == '-'
    ensures n <= |word|
  {
    if |word| > 1 && word[1] == '-' then 2 else 1
  }

  /** Long names are tried first, for words with one dash as well. */
  function WordStep(specs: seq<Spec>, cells: seq<Cell>, word: string, rest: seq<string>, strtol: Strtol): (s: Step)
    requires |cells| == |specs| && word != "" && word[0] == '-'
    ensures |s.cells| == |specs| && (s.Go? ==> |s.rest| <= |rest|)
  {
    var body := word[Dashes(word)..];
    var i := FindLong(specs, body);
    if i < |specs| then LongStep(specs, cells, i, body, rest, strtol)
    else if Dashes(word) == 2 then Fail(cells, UnknownCommandOption)
    else ClusterStep(specs, cells, body, rest, strtol)
  }

  /////////////////////////////// the parse ///////////////////////////////

  predicate IsDigit(c: char) {
    '0' <= c <= '9'
  }

  /** The text of a numeric word, where the mode allows them. */
  function NumericText(mode: Mode, word: string): Maybe<string> {
    if (mode.DASH? || mode.ALL?) && |word| > 1 && word[0] == '-' && IsDigit(word[1]) then Some(word)
    else if (mode.PLUS? || mode.ALL?) && |word| > 1 && word[0] == '+' && IsDigit(word[1]) then Some(word[1..])
    else None
  }

  /** The options' cells and the numeric value. */
  datatype State = State(cells: seq<Cell>, value: int)

  datatype Outcome = Parsed(state: State, positionals: seq<string>) | Failed(state: State, reason: Reason)

  function Parse(specs: seq<Spec>, mode: Mode, st: State, argv: seq<string>, strtol: Strtol): Outcome
    requires |st.cells| == |specs|
    decreases |argv|
  {
    if argv == [] then Parsed(st, [])
    else
      var word, rest := argv[0], argv[1..];
      if word == "--" then Parsed(st, rest)
      else if NumericText(mode, word).Some? then
        var (number, whole) := strtol(NumericText(mode, word).value);
        if st.value != 0 then Failed(st, NumericAlreadySet)
        else if !whole then Failed(st.(value := number), NonNumeric)
        else Parse(specs, mode, st.(value := number), rest, strtol)
      else if word == "" || word[0] != '-' then Parsed(st, argv)
      else
        match WordStep(specs, st.cells, word, rest, strtol)
        case Fail(cells, reason) => Failed(st.(cells := cells), reason)
        case Go(cells, left) => Parse(specs, mode, st.(cells := cells), left, strtol)
  }
}
