/** The configuration loader of src/keyfile.cpp.

    A file is a list of lines, each of which is skipped, names a section, binds a key in the
    section named last, or makes the load raise; a load lays its bindings over the table there
    was.  What each line means by its characters is the subject of KeyLines. */
module KeyFile {
  import opened Wrappers
  import opened Strings

  const WHITESPACE := " \t\n\r"

  type Sections = map<string, map<string, string>>

  predicate IsAlnum(c: char) {
    '0' <= c <= '9' || 'a' <= c <= 'z' || 'A' <= c <= 'Z'
  }

  /** What a line means; `Raises` is a line whose value part is empty, for which
      `value.substr(npos)` throws. */
  datatype Line = Skip | Header(name: string) | Binding(key: string, value: string) | Raises

  /** The line without white space at either end, none if nothing is left. */
  function Trim(input: string): (t: Maybe<string>)
    ensures t.None? <==> forall i :: 0 <= i < |input| ==> input[i] in WHITESPACE
    ensures t.Some? ==> IsTrimmed(t.value)
  {
    var begin := FindFirstNotOf(input, WHITESPACE);
    var end := FindLastNotOf(input, WHITESPACE);
    Inside(input, WHITESPACE);
    if begin == |input| then None else Some(input[begin..end + 1])
  }

  predicate IsTrimmed(t: string) {
    t != "" && t[0] !in WHITESPACE && t[|t| - 1] !in WHITESPACE
  }

  function Classify(input: string): Line {
    match Trim(input)
    case None => Skip
    case Some(t) => ClassifyTrimmed(t)
  }

  function ClassifyTrimmed(t: string): Line
    requires t != ""
  {
    if t[0] == '[' && t[|t| - 1] == ']' then Header(t[1..|t| - 1])
    else if !IsAlnum(t[0]) then Skip
    else
      var pos := FindFirstOf(t, "=", 0);
      if pos == |t| then Skip
      else if pos == |t| - 1 then Raises
      else
        var key, value := t[..pos], t[pos + 1..];
        var end, begin := FindLastNotOf(key, WHITESPACE), FindFirstNotOf(value, WHITESPACE);
        Binding(key[..end + 1], value[begin..])
  }

  /** The loader between two lines. */
  datatype Loading = Loading(section: string, sections: Sections, raised: bool)

  function Bind(m: Sections, section: string, key: string, value: string): Sections {
    m[section := (if section in m then m[section] else map[])[key := value]]
  }

  function LoadLine(st: Loading, line: Line): Loading {
    if st.raised then st
    else match line
      case Skip => st
      case Header(name) => st.(section := name)
      case Binding(key, value) => st.(sections := Bind(st.sections, st.section, key, value))
      case Raises => st.(raised := true)
  }

  function LoadLines(st: Loading, lines: seq<Line>): Loading {
    if lines == [] then st else LoadLine(LoadLines(st, lines[..|lines| - 1]), lines[|lines| - 1])
  }

  function Meanings(inputs: seq<string>): (lines: seq<Line>)
    ensures |lines| == |inputs|
    ensures forall i :: 0 <= i < |inputs| ==> lines[i] == Classify(inputs[i])
  {
    if inputs == [] then [] else [Classify(inputs[0])] + Meanings(inputs[1..])
  }

  /** Loading always starts in the section "_". */
  function LoadFile(m: Sections, inputs: seq<string>): Loading {
    LoadLines(Loading("_", m, false), Meanings(inputs))
  }

  /** The part of the loop that reads a line. */
  method ReadLine(raw: string) returns (line: Line)
    ensures line == Classify(raw)
  {
    var begin := FindFirstNotOf(raw, WHITESPACE);
    if begin == |raw| {
      return Skip;
    }
    var end := FindLastNotOf(raw, WHITESPACE);
    Inside(raw, WHITESPACE);
    line := ReadTrimmed(raw[begin..end + 1]);
  }

  /** The rest of it, once white space is gone from both ends. */
  method ReadTrimmed(input: string) returns (line: Line)
    requires IsTrimmed(input)
    ensures line == ClassifyTrimmed(input)
  {
    BeginsWithIsPrefix(input, "[");
    EndsWithIsSuffix(input, "]");
    if BeginsWith(input, "[") && EndsWith(input, "]") {
      return Header(input[1..|input| - 1]);
    }
    if !IsAlnum(input[0]) {
      return Skip;
    }
    var pos := FindFirstOf(input, "=", 0);
    if pos < 1 || pos == |input| {
      return Skip;
    }
    var key, value := input[..pos], input[pos + 1..];
    var end := FindLastNotOf(key, WHITESPACE);
    Inside(key, WHITESPACE);
    assert key[0] !in WHITESPACE;
    if end != -1 {
      key := key[..end + 1];
    }
    var begin := FindFirstNotOf(value, WHITESPACE);
    ValueNotBlank(input, pos);
    if begin == |value| {
      return Raises;
    }
    return Binding(key, value[begin..]);
  }

  datatype Outcome = NotLoaded | Loaded | OutOfRange

  class Keyfile {
    var sections: Sections

    constructor ()
      ensures sections == map[]
    {
      sections := map[];
    }

    /** `load`: `files` are the readable files, `home` the value of HOME. */
    method Load(path: string, files: map<string, string>, home: string) returns (outcome: Outcome)
      modifies this
      ensures var name := FileName(path, home);
              if name.Some? && name.value in files then
                var st := LoadFile(old(sections), Lines(files[name.value]));
                sections == st.sections && outcome == if st.raised then OutOfRange else Loaded
              else
                sections == old(sections) && outcome == NotLoaded
    {
      var filename := path;
      if path != "" && path[0] == '~' {
        filename := home + path[1..];
      } else if path == "" || path[0] != '/' {
        return NotLoaded;
      }
      if filename !in files {
        return NotLoaded;
      }
      var loaded := LoadOpened(Lines(files[filename]));
      return if loaded then Loaded else OutOfRange;
    }

    /** Its loop over the lines of the open file. */
    method LoadOpened(lines: seq<string>) returns (loaded: bool)
      modifies this
      ensures var st := LoadFile(old(sections), lines); sections == st.sections && loaded == !st.raised
    {
      ghost var start, meanings := Loading("_", sections, false), Meanings(lines);
      var section := "_";
      var i := 0;
      while i < |lines|
        invariant 0 <= i <= |lines|
        invariant Loading(section, sections, false) == LoadLines(start, meanings[..i])
      {
        LoadSnoc(start, meanings, i);
        var line := ReadLine(lines[i]);
        i := i + 1;
        match line {
          case Skip =>
          case Header(name) => section := name;
          case Binding(key, value) => sections := Bind(sections, section, key, value);
          case Raises =>
            StopsThere(start, meanings, i);
            return false;
        }
      }
      assert meanings[..i] == meanings;
      return true;
    }
  }

  /** The file `load` opens; only absolute and home-relative paths are tried. */
  function FileName(path: string, home: string): Maybe<string> {
    if path != "" && path[0] == '~' then Some(home + path[1..])
    else if path != "" && path[0] == '/' then Some(path)
    else None
  }

  /** In a trimmed line only an empty value part is blank. */
  lemma ValueNotBlank(t: string, pos: nat)
    requires IsTrimmed(t) && pos < |t|
    ensures FindFirstNotOf(t[pos + 1..], WHITESPACE) == |t| - pos - 1 <==> pos == |t| - 1
  {
    var value := t[pos + 1..];
    Inside(value, WHITESPACE);
    if pos < |t| - 1 {
      assert value[|value| - 1] == t[|t| - 1];
    }
  }

  lemma {:induction false} LoadConcat(st: Loading, a: seq<Line>, b: seq<Line>)
    ensures LoadLines(st, a + b) == LoadLines(LoadLines(st, a), b)
  {
    if b == [] {
      assert a + b == a;
    } else {
      LoadConcat(st, a, b[..|b| - 1]);
      assert (a + b)[..|a + b| - 1] == a + b[..|b| - 1];
    }
  }

  lemma {:induction false} RaisedForever(st: Loading, lines: seq<Line>)
    requires st.raised
    ensures LoadLines(st, lines) == st
  {
    if lines != [] {
      RaisedForever(st, lines[..|lines| - 1]);
    }
  }

  lemma MeaningsConcat(a: seq<string>, b: seq<string>)
    ensures Meanings(a + b) == Meanings(a) + Meanings(b)
  {
  }

  lemma StopsThere(st: Loading, lines: seq<Line>, i: nat)
    requires i <= |lines| && LoadLines(st, lines[..i]).raised
    ensures LoadLines(st, lines) == LoadLines(st, lines[..i])
  {
    LoadConcat(st, lines[..i], lines[i..]);
    RaisedForever(LoadLines(st, lines[..i]), lines[i..]);
    assert lines == lines[..i] + lines[i..];
  }

  lemma LoadOne(st: Loading, line: Line)
    ensures LoadLines(st, [line]) == LoadLine(st, line)
  {
    assert [line][..0] == [];
  }

  lemma LoadSnoc(st: Loading, lines: seq<Line>, i: nat)
    requires i < |lines|
    ensures LoadLines(st, lines[..i + 1]) == LoadLine(LoadLines(st, lines[..i]), lines[i])
  {
    assert lines[..i + 1][..i] == lines[..i];
  }

  lemma LoadCons(st: Loading, first: Line, rest: seq<Line>)
    ensures LoadLines(st, [first] + rest) == LoadLines(LoadLine(st, first), rest)
  {
    LoadConcat(st, [first], rest);
    LoadOne(st, first);
  }

  /////////////////////////////// the overlay ///////////////////////////////

  datatype Triple = Triple(section: string, key: string, value: string)

  /** The bindings a file makes, in file order, up to a line that raises. */
  function Bindings(section: string, lines: seq<Line>): seq<Triple>
    decreases |lines|
  {
    if lines == [] then []
    else match lines[0]
      case Skip => Bindings(section, lines[1..])
      case Header(name) => Bindings(name, lines[1..])
      case Binding(key, value) => [Triple(section, key, value)] + Bindings(section, lines[1..])
      case Raises => []
  }

  function Lookup(m: Sections, section: string, key: string): Maybe<string> {
    if section in m && key in m[section] then Some(m[section][key]) else None
  }

  /** The value of the last binding of `key` in `section`. */
  function LastValue(bs: seq<Triple>, section: string, key: string): Maybe<string> {
    if bs == [] then None
    else
      var b := bs[|bs| - 1];
      if b.section == section && b.key == key then Some(b.value)
      else LastValue(bs[..|bs| - 1], section, key)
  }

  function Overlay(m: Sections, bs: seq<Triple>): Sections {
    if bs == [] then m
    else
      var b := bs[|bs| - 1];
      Bind(Overlay(m, bs[..|bs| - 1]), b.section, b.key, b.value)
  }

  lemma {:induction false} OverlayCons(m: Sections, b: Triple, bs: seq<Triple>)
    ensures Overlay(m, [b] + bs) == Overlay(Bind(m, b.section, b.key, b.value), bs)
  {
    if bs == [] {
      assert [b] + bs == [b] && [b][..0] == [];
    } else {
      OverlayCons(m, b, bs[..|bs| - 1]);
      assert ([b] + bs)[..|bs|] == [b] + bs[..|bs| - 1];
    }
  }

  lemma {:induction false} LoadIsOverlay(section: string, m: Sections, lines: seq<Line>)
    ensures var st := LoadLines(Loading(section, m, false), lines);
            && st.sections == Overlay(m, Bindings(section, lines))
            && (st.raised <==> exists i :: 0 <= i < |lines| && lines[i] == Raises)
    decreases |lines|
  {
    if lines != [] {
      var first, rest := lines[0], lines[1..];
      assert lines == [first] + rest;
      var st := Loading(section, m, false);
      LoadCons(st, first, rest);
      match first {
        case Skip => LoadIsOverlay(section, m, rest);
        case Header(name) => LoadIsOverlay(name, m, rest);
        case Binding(key, value) =>
          LoadIsOverlay(section, Bind(m, section, key, value), rest);
          OverlayCons(m, Triple(section, key, value), Bindings(section, rest));
        case Raises =>
          RaisedForever(LoadLine(st, first), rest);
          assert lines[0] == Raises;
      }
    }
  }

  lemma {:induction false} OverlayLookup(m: Sections, bs: seq<Triple>, section: string, key: string)
    ensures Lookup(Overlay(m, bs), section, key) ==
              if LastValue(bs, section, key).Some? then LastValue(bs, section, key) else Lookup(m, section, key)
    ensures section in Overlay(m, bs) <==> section in m || exists b :: b in bs && b.section == section
  {
    if bs != [] {
      var before, b := bs[..|bs| - 1], bs[|bs| - 1];
      OverlayLookup(m, before, section, key);
      assert bs == before + [b];
    }
  }

  /** After loading, each key of each section holds the last value the file binds it to,
      else what it held before; a section exists iff it existed or is bound into; and
      loading raises iff some line has a key but no value. */
  lemma LoadRefinesOverlay(m: Sections, inputs: seq<string>, section: string, key: string)
    ensures var after, bs := LoadFile(m, inputs), Bindings("_", Meanings(inputs));
            && Lookup(after.sections, section, key) ==
                 (if LastValue(bs, section, key).Some? then LastValue(bs, section, key) else Lookup(m, section, key))
            && (section in after.sections <==> section in m || exists b :: b in bs && b.section == section)
            && (after.raised <==> exists i :: 0 <= i < |inputs| && Classify(inputs[i]) == Raises)
  {
    LoadIsOverlay("_", m, Meanings(inputs));
    OverlayLookup(m, Bindings("_", Meanings(inputs)), section, key);
    assert forall i :: 0 <= i < |inputs| ==> Meanings(inputs)[i] == Classify(inputs[i]);
  }

  /** Two tables with the same sections and the same look-ups are equal. */
  lemma SameLookups(a: Sections, b: Sections)
    requires forall s :: s in a <==> s in b
    requires forall s, k :: Lookup(a, s, k) == Lookup(b, s, k)
    ensures a == b
  {
    forall s | s in a ensures a[s] == b[s] {
      forall k ensures k in a[s] <==> k in b[s]
               ensures k in a[s] ==> a[s][k] == b[s][k] {
        assert Lookup(a, s, k) == Lookup(b, s, k);
      }
    }
  }

  /** Loading a file twice is loading it once. */
  lemma LoadIdempotent(m: Sections, lines: seq<string>)
    ensures LoadFile(LoadFile(m, lines).sections, lines) == LoadFile(m, lines)
  {
    var once := LoadFile(m, lines);
    var twice := LoadFile(once.sections, lines);
    forall s, k ensures Lookup(twice.sections, s, k) == Lookup(once.sections, s, k) {
      LoadRefinesOverlay(m, lines, s, k);
      LoadRefinesOverlay(once.sections, lines, s, k);
    }
    forall s ensures s in twice.sections <==> s in once.sections {
      LoadRefinesOverlay(m, lines, s, "");
      LoadRefinesOverlay(once.sections, lines, s, "");
    }
    SameLookups(twice.sections, once.sections);
    SectionIgnoresTable("_", m, once.sections, Meanings(lines));
  }

  lemma {:induction false} SectionIgnoresTable(section: string, m: Sections, m': Sections, lines: seq<Line>)
    ensures var a, b := LoadLines(Loading(section, m, false), lines), LoadLines(Loading(section, m', false), lines);
            a.section == b.section && a.raised == b.raised
  {
    if lines != [] {
      SectionIgnoresTable(section, m, m', lines[..|lines| - 1]);
    }
  }

  /** The file names a section, or raises, before it binds anything. */
  predicate HeaderFirst(lines: seq<Line>) {
    lines != [] ==>
      match lines[0]
      case Skip => HeaderFirst(lines[1..])
      case Header(_) => true
      case Binding(_, _) => false
      case Raises => true
  }

  /** The bindings made before the first section header, in the section a load starts with. */
  function Early(section: string, lines: seq<Line>): seq<Triple>
    decreases |lines|
  {
    if lines == [] then []
    else match lines[0]
      case Skip => Early(section, lines[1..])
      case Binding(key, value) => [Triple(section, key, value)] + Early(section, lines[1..])
      case _ => []
  }

  /** The bindings made from there on. */
  function Late(lines: seq<Line>): seq<Triple>
    decreases |lines|
  {
    if lines == [] then []
    else match lines[0]
      case Header(name) => Bindings(name, lines[1..])
      case Raises => []
      case _ => Late(lines[1..])
  }

  lemma {:induction false} EarlyThenLate(section: string, lines: seq<Line>)
    ensures Bindings(section, lines) == Early(section, lines) + Late(lines)
    decreases |lines|
  {
    if lines != [] && (lines[0].Skip? || lines[0].Binding?) {
      EarlyThenLate(section, lines[1..]);
    }
  }

  lemma {:induction false} LastValueConcat(a: seq<Triple>, b: seq<Triple>, section: string, key: string)
    ensures LastValue(a + b, section, key) ==
              if LastValue(b, section, key).Some? then LastValue(b, section, key) else LastValue(a, section, key)
    decreases |b|
  {
    if b == [] {
      assert a + b == a;
    } else {
      assert (a + b)[..|a + b| - 1] == a + b[..|b| - 1];
      LastValueConcat(a, b[..|b| - 1], section, key);
    }
  }

  /** The last value a key gets before the first header. */
  function EarlyValue(lines: seq<Line>, key: string): Maybe<string>
    decreases |lines|
  {
    if lines == [] then None
    else match lines[0]
      case Skip => EarlyValue(lines[1..], key)
      case Binding(k, v) =>
        var later := EarlyValue(lines[1..], key);
        if later.None? && k == key then Some(v) else later
      case _ => None
  }

  lemma {:induction false} EarlyIn(start: string, lines: seq<Line>, section: string, key: string)
    ensures LastValue(Early(start, lines), section, key) == if section == start then EarlyValue(lines, key) else None
    decreases |lines|
  {
    if lines != [] && (lines[0].Skip? || lines[0].Binding?) {
      var rest := lines[1..];
      EarlyIn(start, rest, section, key);
      if lines[0].Binding? {
        var b := Triple(start, lines[0].key, lines[0].value);
        LastValueConcat([b], Early(start, rest), section, key);
        assert [b][..0] == [];
      }
    }
  }

  /** What a load that starts in the section `start` leaves: late bindings first, then early
      ones, then what was there. */
  lemma LoadedValue(start: string, m: Sections, lines: seq<Line>, section: string, key: string)
    ensures Lookup(LoadLines(Loading(start, m, false), lines).sections, section, key) ==
              if LastValue(Late(lines), section, key).Some? then LastValue(Late(lines), section, key)
              else if section == start && EarlyValue(lines, key).Some? then EarlyValue(lines, key)
              else Lookup(m, section, key)
  {
    LoadIsOverlay(start, m, lines);
    OverlayLookup(m, Bindings(start, lines), section, key);
    EarlyThenLate(start, lines);
    LastValueConcat(Early(start, lines), Late(lines), section, key);
    EarlyIn(start, lines, section, key);
  }

  /** A section that was not there before has a key. */
  lemma LoadedSection(start: string, m: Sections, lines: seq<Line>, section: string)
    ensures var after := LoadLines(Loading(start, m, false), lines).sections;
            section in after <==> section in m || exists key :: Lookup(after, section, key).Some?
  {
    var after, bs := LoadLines(Loading(start, m, false), lines).sections, Bindings(start, lines);
    LoadIsOverlay(start, m, lines);
    OverlayLookup(m, bs, section, "");
    if section in after && section !in m {
      var b :| b in bs && b.section == section;
      LastValueOf(bs, section, b.key);
      OverlayLookup(m, bs, section, b.key);
      assert Lookup(after, section, b.key).Some?;
    }
  }

  /** A key bound before the first header has its value in a section anyhow. */
  predicate Settled(m: Sections, lines: seq<Line>, section: string, key: string) {
    EarlyValue(lines, key).None? || LastValue(Late(lines), section, key).Some? ||
    Lookup(m, section, key) == EarlyValue(lines, key)
  }

  /** Two starting sections lead to the same table exactly if every key bound before the first
      header is, in both sections, bound again later or has that value already. */
  lemma SectionIrrelevantIff(s: string, s': string, m: Sections, lines: seq<Line>)
    requires s != s'
    ensures SameTables(s, s', m, lines) <==>
              forall key :: Settled(m, lines, s, key) && Settled(m, lines, s', key)
  {
    var a, b := LoadLines(Loading(s, m, false), lines).sections, LoadLines(Loading(s', m, false), lines).sections;
    if a == b {
      forall key ensures Settled(m, lines, s, key) && Settled(m, lines, s', key) {
        LoadedValue(s, m, lines, s, key);
        LoadedValue(s', m, lines, s, key);
        LoadedValue(s, m, lines, s', key);
        LoadedValue(s', m, lines, s', key);
      }
    }
    if forall key :: Settled(m, lines, s, key) && Settled(m, lines, s', key) {
      SettledLoads(s, s', m, lines);
    }
  }

  lemma SettledLoads(s: string, s': string, m: Sections, lines: seq<Line>)
    requires forall key :: Settled(m, lines, s, key) && Settled(m, lines, s', key)
    ensures LoadLines(Loading(s, m, false), lines).sections == LoadLines(Loading(s', m, false), lines).sections
  {
    var a, b := LoadLines(Loading(s, m, false), lines).sections, LoadLines(Loading(s', m, false), lines).sections;
    forall t, key ensures Lookup(a, t, key) == Lookup(b, t, key) {
      assert Settled(m, lines, s, key) && Settled(m, lines, s', key);
      LoadedValue(s, m, lines, t, key);
      LoadedValue(s', m, lines, t, key);
    }
    forall t ensures t in a <==> t in b {
      LoadedSection(s, m, lines, t);
      LoadedSection(s', m, lines, t);
    }
    SameLookups(a, b);
  }

  /** The starting section makes no difference to the table. */
  predicate SameTables(s: string, s': string, m: Sections, lines: seq<Line>) {
    LoadLines(Loading(s, m, false), lines).sections == LoadLines(Loading(s', m, false), lines).sections
  }

  predicate Rebound(lines: seq<Line>, section: string, key: string) {
    EarlyValue(lines, key).Some? ==> LastValue(Late(lines), section, key).Some?
  }

  /** Over all tables: exactly if every key bound before the first header is bound again
      later in both sections. */
  lemma SectionAlwaysIrrelevantIff(s: string, s': string, lines: seq<Line>)
    requires s != s'
    ensures (forall m :: SameTables(s, s', m, lines)) <==>
              forall key :: Rebound(lines, s, key) && Rebound(lines, s', key)
  {
    if forall m :: SameTables(s, s', m, lines) {
      assert SameTables(s, s', map[], lines);
      SectionIrrelevantIff(s, s', map[], lines);
      forall key ensures Rebound(lines, s, key) && Rebound(lines, s', key) {
        assert Settled(map[], lines, s, key) && Settled(map[], lines, s', key);
      }
    }
    if forall key :: Rebound(lines, s, key) && Rebound(lines, s', key) {
      forall m ensures SameTables(s, s', m, lines) {
        forall key ensures Settled(m, lines, s, key) && Settled(m, lines, s', key) {
          assert Rebound(lines, s, key) && Rebound(lines, s', key);
        }
        SectionIrrelevantIff(s, s', m, lines);
      }
    }
  }

  lemma {:induction false} RaisedAlike(a: Loading, b: Loading, lines: seq<Line>)
    requires a.raised == b.raised
    ensures LoadLines(a, lines).raised == LoadLines(b, lines).raised
  {
    if lines != [] {
      RaisedAlike(a, b, lines[..|lines| - 1]);
    }
  }

  /** Where the first file raises, so does the concatenation, with the same table.  Otherwise
      loading one file after another is loading their concatenation exactly if the first file
      ends in the section a load starts with, or every key the second file binds before its
      first header is settled in both sections. */
  lemma LoadTwoFilesIff(m: Sections, f1: seq<string>, f2: seq<string>)
    ensures LoadFile(m, f1).raised ==> LoadFile(m, f1 + f2) == LoadFile(m, f1)
    ensures var first, lines := LoadFile(m, f1), Meanings(f2);
            var both, second := LoadFile(m, f1 + f2), LoadFile(first.sections, f2);
            !first.raised ==>
              && both.raised == second.raised
              && (both.sections == second.sections <==>
                  first.section == "_" ||
                  forall key :: Settled(first.sections, lines, first.section, key) &&
                    Settled(first.sections, lines, "_", key))
  {
    var first, lines := LoadFile(m, f1), Meanings(f2);
    MeaningsConcat(f1, f2);
    LoadConcat(Loading("_", m, false), Meanings(f1), lines);
    if first.raised {
      RaisedForever(first, lines);
      return;
    }
    RaisedAlike(first, Loading("_", first.sections, false), lines);
    assert first == Loading(first.section, first.sections, false);
    if first.section != "_" {
      SectionIrrelevantIff(first.section, "_", first.sections, lines);
    }
  }

  lemma {:induction false} NothingEarly(lines: seq<Line>, key: string)
    requires HeaderFirst(lines)
    ensures EarlyValue(lines, key).None?
    decreases |lines|
  {
    if lines != [] && lines[0].Skip? {
      NothingEarly(lines[1..], key);
    }
  }

  /** In particular if the second file reaches a section header before any binding. */
  lemma LoadTwoFiles(m: Sections, f1: seq<string>, f2: seq<string>)
    requires !LoadFile(m, f1).raised && HeaderFirst(Meanings(f2))
    ensures var both, second := LoadFile(m, f1 + f2), LoadFile(LoadFile(m, f1).sections, f2);
            both.sections == second.sections && both.raised == second.raised
  {
    LoadTwoFilesIff(m, f1, f2);
    forall key ensures EarlyValue(Meanings(f2), key).None? {
      NothingEarly(Meanings(f2), key);
    }
  }

  /** A pair of files for which the two differ: the bindings go to the last section of the
      first file instead. */
  lemma HeaderNeeded()
    ensures var f1, f2 := ["[a]"], ["k=v"];
            LoadFile(LoadFile(map[], f1).sections, f2).sections == map["_" := map["k" := "v"]] &&
            LoadFile(map[], f1 + f2).sections == map["a" := map["k" := "v"]]
  {
    HeaderLine("a");
    assert "[" + "a" + "]" == "[a]";
    KeyEqualsValue();
    assert Meanings(["[a]"]) == [Header("a")] && Meanings(["k=v"]) == [Binding("k", "v")];
    MeaningsConcat(["[a]"], ["k=v"]);
    HeaderNeededLines(Header("a"), Binding("k", "v"));
  }

  lemma KeyEqualsValue()
    ensures Classify("k=v") == Binding("k", "v")
  {
    EntryLine(Entry("k", "", "", "v"));
    assert EntryText(Entry("k", "", "", "v")) == "k=v";
  }

  lemma HeaderNeededLines(h: Line, e: Line)
    requires h == Header("a") && e == Binding("k", "v")
    ensures LoadLines(Loading("_", map[], false), [h]).sections == map[]
    ensures LoadLines(Loading("_", map[], false), [e]).sections == map["_" := map["k" := "v"]]
    ensures LoadLines(Loading("_", map[], false), [h] + [e]).sections == map["a" := map["k" := "v"]]
  {
    LoadCons(Loading("_", map[], false), h, [e]);
    LoadOne(Loading("_", map[], false), h);
    LoadOne(Loading("_", map[], false), e);
    LoadOne(Loading("a", map[], false), e);
  }

  /////////////////////////////// round trip ///////////////////////////////

  /** Lines that load nothing removed, the others trimmed. */
  function Core(inputs: seq<string>): seq<string> {
    if inputs == [] then []
    else if Classify(inputs[0]) == Skip then Core(inputs[1..])
    else [Trim(inputs[0]).value] + Core(inputs[1..])
  }

  lemma TrimOfTrimmed(t: string)
    requires IsTrimmed(t)
    ensures Trim(t) == Some(t)
  {
    assert FindFirstNotOf(t, WHITESPACE) == 0 && FindLastNotOf(t, WHITESPACE) == |t| - 1;
    assert t[0..|t|] == t;
  }

  /** Blank lines, comments and indentation make no difference. */
  lemma {:induction false} NoiseIsIgnored(st: Loading, inputs: seq<string>)
    ensures LoadLines(st, Meanings(inputs)) == LoadLines(st, Meanings(Core(inputs)))
    decreases |inputs|
  {
    if inputs != [] {
      var first, rest := inputs[0], inputs[1..];
      LoadCons(st, Classify(first), Meanings(rest));
      NoiseIsIgnored(LoadLine(st, Classify(first)), rest);
      if Classify(first) != Skip {
        TrimOfTrimmed(Trim(first).value);
        assert Meanings(Core(inputs)) == [Classify(first)] + Meanings(Core(rest));
        LoadCons(st, Classify(first), Meanings(Core(rest)));
      }
    }
  }

  /** Surrounding white space is all that trimming removes. */
  lemma Indentation(before: string, t: string, after: string)
    requires IsTrimmed(t)
    requires forall c :: c in before + after ==> c in WHITESPACE
    ensures Trim(before + t + after) == Some(t)
  {
    var line := before + t + after;
    var begin, end := FindFirstNotOf(line, WHITESPACE), FindLastNotOf(line, WHITESPACE);
    forall i | 0 <= i < |before| ensures line[i] in WHITESPACE {
      assert line[i] == (before + after)[i];
    }
    forall i | |before + t| <= i < |line| ensures line[i] in WHITESPACE {
      assert line[i] == (before + after)[i - |t|];
    }
    assert line[|before|] == t[0] && line[|before + t| - 1] == t[|t| - 1];
    FindFirstNotOfIs(line, WHITESPACE, |before|);
    FindLastNotOfIs(line, WHITESPACE, |before + t| - 1);
    assert line[begin..end + 1] == t;
  }

  /** A printed binding, with the white space around its `=`. */
  datatype Entry = Entry(key: string, pre: string, post: string, value: string)
  datatype Block = Block(name: string, entries: seq<Entry>)

  predicate Blank(s: string) {
    forall c :: c in s ==> c in WHITESPACE
  }

  /** Keys start alphanumeric, hold no `=` and do not end in white space. */
  predicate GoodKey(key: string) {
    key != "" && IsAlnum(key[0]) && key[|key| - 1] !in WHITESPACE && '=' !in key && '\n' !in key
  }

  /** Values are trimmed, hence not empty. */
  predicate GoodValue(value: string) {
    IsTrimmed(value) && '\n' !in value
  }

  predicate GoodEntry(e: Entry) {
    GoodKey(e.key) && GoodValue(e.value) && Blank(e.pre) && Blank(e.post) && '\n' !in e.pre && '\n' !in e.post
  }

  predicate GoodBlock(b: Block) {
    '\n' !in b.name && GoodEntries(b.entries)
  }

  predicate GoodEntries(es: seq<Entry>) {
    forall e :: e in es ==> GoodEntry(e)
  }

  function EntryText(e: Entry): string {
    e.key + e.pre + "=" + e.post + e.value
  }

  function EntryTexts(es: seq<Entry>): seq<string> {
    if es == [] then [] else [EntryText(es[0])] + EntryTexts(es[1..])
  }

  function Print(blocks: seq<Block>): seq<string> {
    if blocks == [] then []
    else ["[" + blocks[0].name + "]"] + EntryTexts(blocks[0].entries) + Print(blocks[1..])
  }

  function EntryTriples(name: string, es: seq<Entry>): seq<Triple> {
    if es == [] then [] else [Triple(name, es[0].key, es[0].value)] + EntryTriples(name, es[1..])
  }

  function Triples(blocks: seq<Block>): seq<Triple> {
    if blocks == [] then [] else EntryTriples(blocks[0].name, blocks[0].entries) + Triples(blocks[1..])
  }

  lemma HeaderLine(name: string)
    ensures Classify("[" + name + "]") == Header(name)
  {
    var t := "[" + name + "]";
    assert t[|t| - 1] == ']';
    TrimOfTrimmed(t);
    assert t[1..|t| - 1] == name;
  }

  lemma EntryLine(e: Entry)
    requires GoodEntry(e)
    ensures Classify(EntryText(e)) == Binding(e.key, e.value)
  {
    var left, right := e.key + e.pre, e.post + e.value;
    assert EntryText(e) == left + "=" + right;
    assert '=' !in left by {
      assert forall c :: c in e.pre ==> c in WHITESPACE;
    }
    assert left[0] == e.key[0] && right[|right| - 1] == e.value[|e.value| - 1];
    BindingLine(left, right);
    KeyPart(e.key, e.pre);
    ValuePart(e.post, e.value);
  }

  lemma BindingLine(left: string, right: string)
    requires left != "" && IsAlnum(left[0]) && '=' !in left
    requires right != "" && right[|right| - 1] !in WHITESPACE
    ensures Classify(left + "=" + right) ==
              Binding(left[..FindLastNotOf(left, WHITESPACE) + 1], right[FindFirstNotOf(right, WHITESPACE)..])
  {
    var t := left + "=" + right;
    assert t[0] == left[0] && t[|t| - 1] == right[|right| - 1];
    TrimOfTrimmed(t);
    FirstEquals(left, right);
    assert t[..|left|] == left && t[|left| + 1..] == right;
    ClassifyAt(t, |left|);
  }

  lemma FirstEquals(left: string, right: string)
    requires '=' !in left
    ensures FindFirstOf(left + "=" + right, "=", 0) == |left|
  {
    var t := left + "=" + right;
    forall i | 0 <= i < |left| ensures t[i] !in "=" {
      assert t[i] == left[i];
    }
    FindFirstOfIs(t, "=", 0, |left|);
  }

  lemma ClassifyAt(t: string, pos: nat)
    requires t != "" && IsAlnum(t[0]) && pos == FindFirstOf(t, "=", 0) < |t| - 1
    ensures ClassifyTrimmed(t) ==
              Binding(t[..pos][..FindLastNotOf(t[..pos], WHITESPACE) + 1],
                      t[pos + 1..][FindFirstNotOf(t[pos + 1..], WHITESPACE)..])
  {
  }

  lemma KeyPart(key: string, pre: string)
    requires key != "" && key[|key| - 1] !in WHITESPACE && Blank(pre)
    ensures (key + pre)[..FindLastNotOf(key + pre, WHITESPACE) + 1] == key
  {
    var left := key + pre;
    assert left[|key| - 1] == key[|key| - 1];
    forall i | |key| <= i < |left| ensures left[i] in WHITESPACE {
      assert left[i] in pre;
    }
    FindLastNotOfIs(left, WHITESPACE, |key| - 1);
  }

  lemma ValuePart(post: string, value: string)
    requires value != "" && value[0] !in WHITESPACE && Blank(post)
    ensures (post + value)[FindFirstNotOf(post + value, WHITESPACE)..] == value
  {
    var right := post + value;
    assert right[|post|] == value[0];
    forall i | 0 <= i < |post| ensures right[i] in WHITESPACE {
      assert right[i] in post;
    }
    FindFirstNotOfIs(right, WHITESPACE, |post|);
  }

  function EntryLines(es: seq<Entry>): seq<Line> {
    if es == [] then [] else [Binding(es[0].key, es[0].value)] + EntryLines(es[1..])
  }

  function BlockLines(blocks: seq<Block>): seq<Line> {
    if blocks == [] then []
    else [Header(blocks[0].name)] + (EntryLines(blocks[0].entries) + BlockLines(blocks[1..]))
  }

  lemma {:induction false} EntryMeanings(es: seq<Entry>)
    requires GoodEntries(es)
    ensures Meanings(EntryTexts(es)) == EntryLines(es)
  {
    if es != [] {
      assert GoodEntry(es[0]);
      EntryLine(es[0]);
      EntryMeanings(es[1..]);
    }
  }

  lemma {:induction false} PrintMeanings(blocks: seq<Block>)
    requires forall b :: b in blocks ==> GoodBlock(b)
    ensures Meanings(Print(blocks)) == BlockLines(blocks)
    decreases |blocks|
  {
    if blocks != [] {
      var b := blocks[0];
      assert GoodBlock(b);
      HeaderLine(b.name);
      EntryMeanings(b.entries);
      PrintMeanings(blocks[1..]);
      MeaningsConcat(["[" + b.name + "]"] + EntryTexts(b.entries), Print(blocks[1..]));
      MeaningsConcat(["[" + b.name + "]"], EntryTexts(b.entries));
    }
  }

  lemma {:induction false} EntryBindings(name: string, es: seq<Entry>, rest: seq<Line>)
    ensures Bindings(name, EntryLines(es) + rest) == EntryTriples(name, es) + Bindings(name, rest)
  {
    if es == [] {
      assert EntryLines(es) + rest == rest;
    } else {
      EntryBindings(name, es[1..], rest);
      var line := Binding(es[0].key, es[0].value);
      assert EntryLines(es) + rest == [line] + (EntryLines(es[1..]) + rest);
      BindingFirst(name, line, EntryLines(es[1..]) + rest);
      var t, ts, more := Triple(name, es[0].key, es[0].value), EntryTriples(name, es[1..]), Bindings(name, rest);
      assert [t] + (ts + more) == ([t] + ts) + more;
    }
  }

  lemma BindingFirst(name: string, line: Line, more: seq<Line>)
    requires line.Binding?
    ensures Bindings(name, [line] + more) == [Triple(name, line.key, line.value)] + Bindings(name, more)
  {
    assert ([line] + more)[1..] == more;
  }

  /** The bindings of a printed document are its entries, in order, and it never raises. */
  lemma {:induction false} PrintedBindings(section: string, blocks: seq<Block>)
    ensures Bindings(section, BlockLines(blocks)) == Triples(blocks)
    ensures Raises !in BlockLines(blocks)
    decreases |blocks|
  {
    if blocks != [] {
      var b, rest := blocks[0], BlockLines(blocks[1..]);
      EntryBindings(b.name, b.entries, rest);
      EntriesNeverRaise(b.entries);
      PrintedBindings(b.name, blocks[1..]);
      assert BlockLines(blocks)[1..] == EntryLines(b.entries) + rest;
    }
  }

  lemma {:induction false} EntriesNeverRaise(es: seq<Entry>)
    ensures Raises !in EntryLines(es)
  {
    if es != [] {
      EntriesNeverRaise(es[1..]);
    }
  }

  /** The document lists exactly the bindings of the table, each once. */
  ghost predicate Lists(blocks: seq<Block>, m: Sections) {
    && (forall b :: b in blocks ==> GoodBlock(b))
    && (forall t :: t in Triples(blocks) ==> Lookup(m, t.section, t.key) == Some(t.value))
    && (forall s, k :: Lookup(m, s, k).Some? ==> exists t :: t in Triples(blocks) && t.section == s && t.key == k)
  }

  lemma {:induction false} LastValueOf(bs: seq<Triple>, section: string, key: string)
    ensures LastValue(bs, section, key).Some? ==> Triple(section, key, LastValue(bs, section, key).value) in bs
    ensures LastValue(bs, section, key).None? ==> forall b :: b in bs ==> b.section != section || b.key != key
  {
    if bs != [] {
      LastValueOf(bs[..|bs| - 1], section, key);
      assert bs == bs[..|bs| - 1] + [bs[|bs| - 1]];
    }
  }

  function DropEmpty(m: Sections): Sections {
    map s | s in m && m[s] != map[] :: m[s]
  }

  ghost predicate GoodTable(m: Sections) {
    forall s :: s in m ==> '\n' !in s && GoodEntriesOf(m[s])
  }

  ghost predicate GoodEntriesOf(es: map<string, string>) {
    forall k :: k in es ==> GoodKey(k) && GoodValue(es[k])
  }

  /** Every such table can be printed. */
  lemma {:induction false} Printable(m: Sections) returns (blocks: seq<Block>)
    requires GoodTable(m)
    ensures Lists(blocks, m)
    decreases |m|
  {
    if m == map[] {
      blocks := [];
    } else {
      var s :| s in m;
      var rest := m - {s};
      var es := PrintableEntries(s, m[s]);
      var others := Printable(rest);
      blocks := [Block(s, es)] + others;
      assert Triples(blocks) == EntryTriples(s, es) + Triples(others);
      forall t | t in Triples(blocks) ensures Lookup(m, t.section, t.key) == Some(t.value) {
        assert t in Triples(others) ==> Lookup(rest, t.section, t.key) == Some(t.value);
      }
      forall s', k | Lookup(m, s', k).Some?
        ensures exists t :: t in Triples(blocks) && t.section == s' && t.key == k
      {
        if s' == s {
          assert Triple(s, k, m[s][k]) in Triples(blocks);
        } else {
          assert Lookup(rest, s', k).Some?;
          var t :| t in Triples(others) && t.section == s' && t.key == k;
          assert t in Triples(blocks);
        }
      }
    }
  }

  lemma {:induction false} PrintableEntries(name: string, m: map<string, string>) returns (es: seq<Entry>)
    requires GoodEntriesOf(m)
    ensures GoodEntries(es)
    ensures forall t :: t in EntryTriples(name, es) ==> t.section == name && t.key in m && m[t.key] == t.value
    ensures forall k :: k in m ==> Triple(name, k, m[k]) in EntryTriples(name, es)
    decreases |m|
  {
    if m == map[] {
      es := [];
    } else {
      var k :| k in m;
      var others := PrintableEntries(name, m - {k});
      es := [Entry(k, "", "", m[k])] + others;
      assert EntryTriples(name, es) == [Triple(name, k, m[k])] + EntryTriples(name, others);
    }
  }

  /** Printing a table in any order, with any comments, blank lines and indentation, and
      loading the text into an empty keyfile gives the table back, less its empty sections. */
  lemma RoundTrip(m: Sections, blocks: seq<Block>, lines: seq<string>)
    requires Lists(blocks, m)
    requires Core(lines) == Print(blocks) && forall l :: l in lines ==> '\n' !in l
    ensures LoadFile(map[], Lines(Text(lines))) == LoadFile(map[], lines)
    ensures LoadFile(map[], lines).sections == DropEmpty(m) && !LoadFile(map[], lines).raised
  {
    LinesOfText(lines);
    NoiseIsIgnored(Loading("_", map[], false), lines);
    PrintMeanings(blocks);
    PrintedBindings("_", blocks);
    LoadIsOverlay("_", map[], BlockLines(blocks));
    OverlayOfList(m, Triples(blocks));
  }

  lemma OverlayOfList(m: Sections, bs: seq<Triple>)
    requires forall t :: t in bs ==> Lookup(m, t.section, t.key) == Some(t.value)
    requires forall s, k :: Lookup(m, s, k).Some? ==> exists t :: t in bs && t.section == s && t.key == k
    ensures Overlay(map[], bs) == DropEmpty(m)
  {
    var after := Overlay(map[], bs);
    forall s, k ensures Lookup(after, s, k) == Lookup(DropEmpty(m), s, k) {
      OverlayLookup(map[], bs, s, k);
      LastValueOf(bs, s, k);
      assert Lookup(DropEmpty(m), s, k) == Lookup(m, s, k);
    }
    forall s ensures s in after <==> s in DropEmpty(m) {
      OverlayLookup(map[], bs, s, "");
      if s in m && m[s] != map[] {
        var k :| k in m[s];
        assert Lookup(m, s, k).Some?;
      }
      assert forall b :: b in bs && b.section == s ==> Lookup(m, b.section, b.key) == Some(b.value);
    }
    SameLookups(after, DropEmpty(m));
  }
}
