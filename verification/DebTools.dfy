/** The manifest scanner and the effects of utils/deb-archive.rb and utils/deb-remove.rb. */
module DebTools {
  import opened Wrappers
  import opened Strings
  import opened FileSystem
  import opened Dsc

  const RUBY_SPACE := " \t\n\r\U{B}\U{C}"

  /////////////////////////////// the scanner ///////////////////////////////

  /** `line.split(' ')`: the maximal runs of characters that are not white space. */
  function Words(s: string): seq<string>
    decreases |s|
  {
    var b := FindFirstNotOf(s, RUBY_SPACE);
    if b == |s| then []
    else
      var e := FindFirstOf(s, RUBY_SPACE, b);
      [s[b..e]] + Words(s[e..])
  }

  function RubyStrip(s: string): string {
    var first, last := FindFirstNotOf(s, RUBY_SPACE), FindLastNotOf(s, RUBY_SPACE);
    Inside(s, RUBY_SPACE);
    if first == |s| then "" else s[first..last + 1]
  }

  /** `line.strip! =~ /^Files/`: a line that needs no stripping, which only an unterminated
      last line can be, gives nil and does not match. */
  predicate StripsToFiles(line: string, terminated: bool) {
    (terminated || RubyStrip(line) != line) && "Files" <= RubyStrip(line)
  }

  /** `raised`: a line of white space inside the block has no last word to prepend to. */
  datatype Scanned = Scanned(names: seq<string>, raised: bool)

  /** The flip-flop `/^Files/ ... /^$/`; `closed` tells whether the last line ends in a
      newline, `on` is the flip-flop's state. */
  function RubyScan(lines: seq<string>, closed: bool, on: bool): Scanned {
    if lines == [] then Scanned([], false)
    else
      var line, rest := lines[0], lines[1..];
      if !on && !OpensBlock(line) then RubyScan(rest, closed, false)
      else if line == "" then RubyScan(rest, closed, false)
      else if StripsToFiles(line, rest != [] || closed) then RubyScan(rest, closed, true)
      else if Words(line) == [] then Scanned([], true)
      else
        var more := RubyScan(rest, closed, true);
        Scanned([Words(line)[|Words(line)| - 1]] + more.names, more.raised)
  }

  predicate EndsInNewline(content: string) {
    content == "" || content[|content| - 1] == '\n'
  }

  function RubyNames(manifest: File): Scanned {
    RubyScan(Lines(manifest.content), EndsInNewline(manifest.content), false)
  }

  /////////////////////////////// both scanners, line by line ///////////////////////////////

  /** A block of space-led lines that a header opened reaches the end of the lines. */
  ghost predicate InFiles(lines: seq<string>) {
    exists h :: 0 <= h < |lines| && "Files:" <= lines[h] && forall k :: h < k < |lines| ==> SpaceLed(lines[k])
  }

  predicate SpaceLed(line: string) {
    " " <= line
  }

  /** One more line adds its last field to what `copy_dsc` and `remove_dsc` extract exactly if
      it is led by a space and only such lines separate it from a header. */
  lemma ScanExactly(lines: seq<string>, line: string)
    ensures Scan([], false) == []
    ensures Scan(lines + [line], false) ==
              Scan(lines, false) + if SpaceLed(line) && InFiles(lines) then [LastField(line)] else []
  {
    ScanSnoc(lines, line, false);
  }

  lemma {:induction false} ScanSnoc(lines: seq<string>, line: string, files: bool)
    ensures Scan([], files) == []
    ensures Scan(lines + [line], files) ==
              Scan(lines, files) +
                if SpaceLed(line) && (InFiles(lines) || (files && forall k :: 0 <= k < |lines| ==> SpaceLed(lines[k])))
                then [LastField(line)] else []
    decreases |lines|
  {
    HeaderIs(line);
    if lines == [] {
      assert [] + [line] == [line] && [line][1..] == [];
    } else {
      var rest := lines[1..];
      var on := IsFilesHeader(lines[0]) || (IsContinuation(lines[0]) && files);
      HeaderIs(lines[0]);
      assert (lines + [line])[0] == lines[0] && (lines + [line])[1..] == rest + [line];
      ScanSnoc(rest, line, on);
      BlockCons(lines, on);
    }
  }

  lemma HeaderIs(line: string)
    ensures IsFilesHeader(line) <==> "Files:" <= line
    ensures IsContinuation(line) <==> SpaceLed(line)
    ensures IsFilesHeader(line) ==> !SpaceLed(line)
  {
  }

  lemma BlockCons(lines: seq<string>, on: bool)
    requires lines != []
    ensures InFiles(lines) <==>
              InFiles(lines[1..]) ||
              ("Files:" <= lines[0] && forall k :: 0 <= k < |lines[1..]| ==> SpaceLed(lines[1..][k]))
  {
    var rest := lines[1..];
    if InFiles(lines) {
      var h :| 0 <= h < |lines| && "Files:" <= lines[h] && forall k :: h < k < |lines| ==> SpaceLed(lines[k]);
      if h > 0 {
        assert rest[h - 1] == lines[h];
        assert forall k :: h - 1 < k < |rest| ==> SpaceLed(rest[k]);
        assert InFiles(rest);
      } else {
        assert forall k :: 0 <= k < |rest| ==> rest[k] == lines[k + 1];
      }
    }
    if InFiles(rest) {
      var h :| 0 <= h < |rest| && "Files:" <= rest[h] && forall k :: h < k < |rest| ==> SpaceLed(rest[k]);
      assert lines[h + 1] == rest[h];
      forall k | h + 1 < k < |lines| ensures SpaceLed(lines[k]) {
        assert lines[k] == rest[k - 1];
      }
    }
  }

  /** Some line beginning with `Files` has no empty line behind it. */
  ghost predicate InRange(lines: seq<string>) {
    exists h :: 0 <= h < |lines| && "Files" <= lines[h] && forall k :: h < k < |lines| ==> lines[k] != ""
  }

  ghost predicate RangeOn(lines: seq<string>, on: bool) {
    InRange(lines) || (on && forall k :: 0 <= k < |lines| ==> lines[k] != "")
  }

  /** What one more line, `closed` by a newline or not, adds to what the tools extract: its
      last word, if it is in the range of the flip-flop, not empty and does not strip to
      `Files`; but a line of nothing but white space raises. */
  function OneMoreLine(before: Scanned, ranged: bool, line: string, closed: bool): Scanned {
    if before.raised || !(ranged || "Files" <= line) || line == "" || StripsToFiles(line, closed) then before
    else if forall i :: 0 <= i < |line| ==> line[i] in RUBY_SPACE then Scanned(before.names, true)
    else
      NoWords(line);
      Scanned(before.names + [Words(line)[|Words(line)| - 1]], false)
  }

  lemma NoWords(line: string)
    ensures Words(line) == [] <==> forall i :: 0 <= i < |line| ==> line[i] in RUBY_SPACE
  {
    Inside(line, RUBY_SPACE);
  }

  lemma RubyScanExactly(lines: seq<string>, line: string, closed: bool)
    ensures RubyScan([], closed, false) == Scanned([], false)
    ensures RubyScan(lines + [line], closed, false) ==
              OneMoreLine(RubyScan(lines, true, false), InRange(lines), line, closed)
  {
    RubyScanSnoc(lines, line, closed, false);
  }

  lemma {:induction false} RubyScanSnoc(lines: seq<string>, line: string, closed: bool, on: bool)
    ensures RubyScan(lines + [line], closed, on) ==
              OneMoreLine(RubyScan(lines, true, on), RangeOn(lines, on), line, closed)
    decreases |lines|
  {
    if lines == [] {
      assert [] + [line] == [line] + [];
      RubyFirst(line, [], closed, on);
      NoWords(line);
    } else {
      var first, rest := lines[0], lines[1..];
      var on' := (on || OpensBlock(first)) && first != "";
      RangeCons(lines, on);
      RubyScanSnoc(rest, line, closed, on');
      assert lines + [line] == [first] + (rest + [line]) && lines == [first] + rest;
      RubyFirst(first, rest + [line], closed, on);
      RubyFirst(first, rest, true, on);
      FirstThenMore(RubyScan(rest, true, on'), RangeOn(rest, on'), line, closed, on, first);
    }
  }

  /** What the first line puts in front of what the others give. */
  function FirstLine(more: Scanned, on: bool, first: string, terminated: bool): Scanned {
    if (!on && !OpensBlock(first)) || first == "" || StripsToFiles(first, terminated) then more
    else if Words(first) == [] then Scanned([], true)
    else Scanned([Words(first)[|Words(first)| - 1]] + more.names, more.raised)
  }

  lemma RubyFirst(first: string, rest: seq<string>, closed: bool, on: bool)
    ensures RubyScan([first] + rest, closed, on) ==
              FirstLine(RubyScan(rest, closed, (on || OpensBlock(first)) && first != ""), on, first,
                        rest != [] || closed)
  {
    assert ([first] + rest)[1..] == rest;
  }

  lemma FirstThenMore(more: Scanned, ranged: bool, line: string, closed: bool, on: bool, first: string)
    ensures FirstLine(OneMoreLine(more, ranged, line, closed), on, first, true) ==
              OneMoreLine(FirstLine(more, on, first, true), ranged, line, closed)
  {
    var word := if Words(line) == [] then "" else Words(line)[|Words(line)| - 1];
    var head := if Words(first) == [] then "" else Words(first)[|Words(first)| - 1];
    assert [head] + (more.names + [word]) == ([head] + more.names) + [word];
    NoWords(line);
  }

  lemma RangeCons(lines: seq<string>, on: bool)
    requires lines != []
    ensures RangeOn(lines, on) <==> RangeOn(lines[1..], (on || OpensBlock(lines[0])) && lines[0] != "")
  {
    var rest := lines[1..];
    assert forall k :: 0 < k < |lines| ==> lines[k] == rest[k - 1];
    if InRange(rest) {
      var h :| 0 <= h < |rest| && "Files" <= rest[h] && forall k :: h < k < |rest| ==> rest[k] != "";
      assert lines[h + 1] == rest[h];
      assert InRange(lines);
    }
    if InRange(lines) {
      var h :| 0 <= h < |lines| && "Files" <= lines[h] && forall k :: h < k < |lines| ==> lines[k] != "";
      assert forall k :: 0 <= k < |rest| ==> rest[k] == lines[k + 1];
      if h > 0 {
        assert rest[h - 1] == lines[h];
        assert InRange(rest);
      }
    }
  }

  /** A line of the `Files` field as the policy writes it: led by a space, its last
      space-separated field not empty and free of other white space. */
  predicate FieldLine(line: string) {
    && IsContinuation(line)
    && LastField(line) != "" && Free(LastField(line), RUBY_SPACE)
    && !("Files" <= RubyStrip(line))
  }

  function LastFields(lines: seq<string>): seq<string> {
    if lines == [] then [] else [LastField(lines[0])] + LastFields(lines[1..])
  }

  /** `line =~ /^Files/` */
  predicate OpensBlock(line: string) {
    "Files" <= line
  }

  predicate NoFiles(lines: seq<string>) {
    forall i :: 0 <= i < |lines| ==> !OpensBlock(lines[i])
  }

  lemma HeaderOpens(line: string)
    requires IsFilesHeader(line)
    ensures OpensBlock(line)
  {
    assert "Files:"[..5] == "Files";
    assert line[..5] == line[..6][..5];
  }

  lemma {:induction false} LastWordIs(a: string, w: string)
    requires w != "" && Free(w, RUBY_SPACE)
    ensures var words := Words(a + " " + w); words != [] && words[|words| - 1] == w
    decreases |a|
  {
    var s := a + " " + w;
    var b := FindFirstNotOf(s, RUBY_SPACE);
    FirstSpec(s, RUBY_SPACE, false, 0);
    assert s[|a|] == ' ' && s[|a| + 1..] == w && s[|a| + 1] == w[0] && w[0] in w;
    if b > |a| {
      assert b == |a| + 1;
      forall i | b <= i < |s| ensures s[i] !in RUBY_SPACE {
        assert s[i] == w[i - b] && w[i - b] in w;
      }
      FindFirstOfIs(s, RUBY_SPACE, b, |s|);
      assert s[|s|..] == "" && s[b..|s|] == w;
    } else {
      var e := FindFirstOf(s, RUBY_SPACE, b);
      FirstSpec(s, RUBY_SPACE, true, b);
      assert b < e <= |a|;
      assert s[e..] == a[e..] + " " + w;
      LastWordIs(a[e..], w);
    }
  }

  lemma FieldLineWord(line: string)
    requires FieldLine(line)
    ensures Words(line) != [] && Words(line)[|Words(line)| - 1] == LastField(line)
  {
    var k := FindLastOf(line, " ");
    LastSpec(line, " ", true, |line|);
    LastPiece(line, " ");
    assert line[0] in " ";
    CutAt(line, k);
    LastWordIs(line[..k], line[k + 1..]);
  }

  lemma CutAt(line: string, k: nat)
    requires k < |line| && line[k] == ' '
    ensures line == line[..k] + " " + line[k + 1..]
  {
  }

  lemma FilesSurvivesStrip(line: string)
    requires "Files" <= line
    ensures "Files" <= RubyStrip(line)
  {
    assert line[0] == 'F' && line[4] == 's';
    assert FindFirstNotOf(line, RUBY_SPACE) == 0;
    var last := FindLastNotOf(line, RUBY_SPACE);
    LastSpec(line, RUBY_SPACE, false, |line|);
    assert line[4] !in RUBY_SPACE;
    assert last >= 4;
    assert line[0..last + 1][..5] == line[..5];
  }

  /** The words of a line are not empty and free of white space. */
  lemma {:induction false} WordsAreFree(s: string)
    ensures forall i :: 0 <= i < |Words(s)| ==> Words(s)[i] != "" && Free(Words(s)[i], RUBY_SPACE)
    decreases |s|
  {
    var b := FindFirstNotOf(s, RUBY_SPACE);
    if b < |s| {
      var e := FindFirstOf(s, RUBY_SPACE, b);
      FirstSpec(s, RUBY_SPACE, false, 0);
      FirstSpec(s, RUBY_SPACE, true, b);
      WordIsFree(s, b, e);
      WordsAreFree(s[e..]);
    }
  }

  lemma WordIsFree(s: string, b: nat, e: nat)
    requires b < e <= |s| && forall i :: b <= i < e ==> s[i] !in RUBY_SPACE
    ensures s[b..e] != "" && Free(s[b..e], RUBY_SPACE)
  {
    forall c | c in s[b..e] ensures c !in RUBY_SPACE {
      var i :| 0 <= i < e - b && s[b..e][i] == c;
      assert s[b + i] == c;
    }
  }

  /** The entry a line of the block gives. */
  function LastWord(line: string): Maybe<string> {
    var words := Words(line);
    if words == [] then None else Some(words[|words| - 1])
  }

  /** A line led by a space is a field line exactly if the last word is its last field and
      it does not strip to a header. */
  lemma FieldLineIff(line: string)
    requires IsContinuation(line)
    ensures FieldLine(line) <==> LastWord(line) == Some(LastField(line)) && !("Files" <= RubyStrip(line))
  {
    if FieldLine(line) {
      FieldLineWord(line);
    }
    WordsAreFree(line);
  }

  /** Such a line always needs stripping. */
  lemma ContinuationStrips(line: string, terminated: bool)
    requires IsContinuation(line)
    ensures StripsToFiles(line, terminated) <==> "Files" <= RubyStrip(line)
  {
    Inside(line, RUBY_SPACE);
    assert line[0] in RUBY_SPACE;
    var stripped := RubyStrip(line);
    assert stripped != "" ==> stripped[0] !in RUBY_SPACE;
  }

  lemma {:induction false} TailsAgree(tail: seq<string>, closed: bool)
    requires NoFiles(tail)
    ensures Scan(tail, false) == [] && RubyScan(tail, closed, false) == Scanned([], false)
  {
    if tail != [] {
      if IsFilesHeader(tail[0]) {
        HeaderOpens(tail[0]);
      }
      TailsAgree(tail[1..], closed);
    }
  }

  /** From here to the next empty line the flip-flop skips every line. */
  predicate AllSkipped(rest: seq<string>, closed: bool) {
    rest == [] || rest[0] == "" || (StripsToFiles(rest[0], rest[1..] != [] || closed) && AllSkipped(rest[1..], closed))
  }

  /** Behind the entries the flag is off for good, but the flip-flop reads on to an empty line. */
  lemma {:induction false} RestExactly(rest: seq<string>, closed: bool)
    requires NoFiles(rest)
    ensures RubyScan(rest, closed, true) == Scanned([], false) <==> AllSkipped(rest, closed)
  {
    if rest != [] {
      if rest[0] == "" {
        TailsAgree(rest[1..], closed);
      } else {
        RestExactly(rest[1..], closed);
      }
    }
  }

  lemma FlagGoesOff(rest: seq<string>)
    requires NoFiles(rest) && (rest == [] || !IsContinuation(rest[0]))
    ensures Scan(rest, true) == []
  {
    if rest != [] {
      if IsFilesHeader(rest[0]) {
        HeaderOpens(rest[0]);
      }
      TailsAgree(rest[1..], true);
    }
  }

  lemma {:induction false} EntriesScanned(entries: seq<string>, rest: seq<string>)
    requires forall l :: l in entries ==> IsContinuation(l)
    requires NoFiles(rest) && (rest == [] || !IsContinuation(rest[0]))
    ensures Scan(entries + rest, true) == LastFields(entries)
  {
    if entries == [] {
      assert entries + rest == rest;
      FlagGoesOff(rest);
    } else {
      assert IsContinuation(entries[0]);
      assert (entries + rest)[0] == entries[0] && (entries + rest)[1..] == entries[1..] + rest;
      EntriesScanned(entries[1..], rest);
    }
  }

  /** A line of the block gives at most one name. */
  lemma {:induction false} AtMostOneEach(entries: seq<string>, rest: seq<string>, closed: bool)
    requires forall l :: l in entries ==> IsContinuation(l)
    requires NoFiles(rest)
    ensures var names := RubyScan(entries + rest, closed, true).names;
            |names| <= |entries| + |RubyScan(rest, closed, true).names|
  {
    if entries == [] {
      assert entries + rest == rest;
    } else {
      assert IsContinuation(entries[0]);
      assert (entries + rest)[0] == entries[0] && (entries + rest)[1..] == entries[1..] + rest;
      AtMostOneEach(entries[1..], rest, closed);
    }
  }

  predicate ClosedByBlank(rest: seq<string>) {
    rest == [] || rest[0] == ""
  }

  predicate NoneStrips(entries: seq<string>) {
    forall i :: 0 <= i < |entries| ==> !("Files" <= RubyStrip(entries[i]))
  }

  predicate FieldLines(entries: seq<string>) {
    forall i :: 0 <= i < |entries| ==> FieldLine(entries[i])
  }

  predicate Continuations(entries: seq<string>) {
    forall i :: 0 <= i < |entries| ==> IsContinuation(entries[i])
  }

  lemma FieldLinesCons(entries: seq<string>)
    requires entries != []
    ensures FieldLines(entries) <==> FieldLine(entries[0]) && FieldLines(entries[1..])
  {
    assert forall i :: 0 < i < |entries| ==> entries[i] == entries[1..][i - 1];
  }

  /** One entry line in front of a block. */
  lemma EntryExactly(line: string, more: seq<string>, names: seq<string>, closed: bool)
    requires IsContinuation(line) && !("Files" <= RubyStrip(line))
    ensures RubyScan([line] + more, closed, true) == Scanned([LastField(line)] + names, false) <==>
              FieldLine(line) && RubyScan(more, closed, true) == Scanned(names, false)
  {
    assert ([line] + more)[1..] == more;
    FieldLineIff(line);
    ContinuationStrips(line, more != [] || closed);
    var rest := RubyScan(more, closed, true);
    if Words(line) != [] {
      var word := Words(line)[|Words(line)| - 1];
      assert ([word] + rest.names)[0] == word && ([word] + rest.names)[1..] == rest.names;
      assert ([LastField(line)] + names)[0] == LastField(line) && ([LastField(line)] + names)[1..] == names;
    }
  }

  lemma {:induction false} EntriesExactly(entries: seq<string>, rest: seq<string>, closed: bool)
    requires Continuations(entries) && NoFiles(rest) && (ClosedByBlank(rest) || NoneStrips(entries))
    ensures RubyScan(entries + rest, closed, true) == Scanned(LastFields(entries), false) <==>
              FieldLines(entries) && AllSkipped(rest, closed)
    decreases |entries|
  {
    if entries == [] {
      assert entries + rest == rest;
      RestExactly(rest, closed);
    } else {
      var line, more := entries[0], entries[1..] + rest;
      assert entries + rest == [line] + more;
      assert forall i :: 0 < i < |entries| ==> entries[i] == entries[1..][i - 1];
      FieldLinesCons(entries);
      if "Files" <= RubyStrip(line) {
        SkippedEntry(entries, rest, closed);
      } else {
        EntriesExactly(entries[1..], rest, closed);
        EntryExactly(line, more, LastFields(entries[1..]), closed);
      }
    }
  }

  /** An entry that is skipped leaves a name too few. */
  lemma SkippedEntry(entries: seq<string>, rest: seq<string>, closed: bool)
    requires entries != [] && Continuations(entries) && "Files" <= RubyStrip(entries[0])
    requires NoFiles(rest) && ClosedByBlank(rest)
    ensures |RubyScan(entries + rest, closed, true).names| < |entries| == |LastFields(entries)|
  {
    var line, more := entries[0], entries[1..] + rest;
    assert entries + rest == [line] + more && ([line] + more)[1..] == more;
    ContinuationStrips(line, more != [] || closed);
    AtMostOneEach(entries[1..], rest, closed);
    if rest != [] {
      TailsAgree(rest[1..], closed);
    }
    LastFieldsEach(entries);
  }

  lemma {:induction false} LastFieldsEach(lines: seq<string>)
    ensures |LastFields(lines)| == |lines|
  {
    if lines != [] {
      LastFieldsEach(lines[1..]);
    }
  }

  lemma {:induction false} BeforeHeader(head: seq<string>, lines: seq<string>, closed: bool)
    requires NoFiles(head)
    ensures Scan(head + lines, false) == Scan(lines, false)
    ensures RubyScan(head + lines, closed, false) == RubyScan(lines, closed, false)
    decreases |head|
  {
    if head == [] {
      assert head + lines == lines;
    } else {
      if IsFilesHeader(head[0]) {
        HeaderOpens(head[0]);
      }
      assert (head + lines)[0] == head[0] && (head + lines)[1..] == head[1..] + lines;
      BeforeHeader(head[1..], lines, closed);
    }
  }

  /** Any manifest with one line that begins with `Files`: some lines, the header, the lines
      led by a space that follow it, and the rest.  The flag scanner of src/fsys.cpp gives the
      last field of each entry.  The flip-flop scanner gives the same names in the same order,
      without raising, if and only if every entry is a field line and the rest up to the next
      empty line is skipped; a header that ends the file must still strip to `Files`.

      The rest must close the block with an empty line or no entry may strip to `Files`, or
      else a later line can make up for a skipped entry. */
  lemma ScannersAgreeIff(head: seq<string>, header: string, entries: seq<string>, rest: seq<string>, closed: bool)
    requires NoFiles(head) && "Files:" <= header && Continuations(entries)
    requires NoFiles(rest) && (rest == [] || !IsContinuation(rest[0]))
    requires ClosedByBlank(rest) || NoneStrips(entries)
    ensures var lines := head + ([header] + (entries + rest));
            && Scan(lines, false) == LastFields(entries)
            && (RubyScan(lines, closed, false) == Scanned(Scan(lines, false), false) <==>
                FieldLines(entries) && AllSkipped(rest, closed) &&
                (entries + rest == [] ==> StripsToFiles(header, closed)))
  {
    var block := [header] + (entries + rest);
    BeforeHeader(head, block, closed);
    HeaderOpens(header);
    FilesSurvivesStrip(header);
    assert block[1..] == entries + rest;
    EntriesScanned(entries, rest);
    EntriesExactly(entries, rest, closed);
    if !StripsToFiles(header, entries + rest != [] || closed) {
      assert RubyScan(block, closed, false) != Scanned([], false);
    }
  }

  /** In particular on blocks of field lines closed by a blank line or the end of the file. */
  lemma ScannersAgree(head: seq<string>, header: string, entries: seq<string>, tail: seq<string>, closed: bool)
    requires NoFiles(head) && "Files:" <= header && (entries + tail != [] || closed)
    requires forall l :: l in entries ==> FieldLine(l)
    requires NoFiles(tail) && (tail == [] || tail[0] == "")
    ensures var lines := head + ([header] + (entries + tail));
            && Scan(lines, false) == LastFields(entries)
            && RubyScan(lines, closed, false) == Scanned(LastFields(entries), false)
  {
    assert forall i :: 0 <= i < |entries| ==> entries[i] in entries;
    FilesSurvivesStrip(header);
    ScannersAgreeIff(head, header, entries, tail, closed);
  }

  /** A block closed by another field, as the field syntax allows: where the flip-flop does not
      skip every line up to the next empty one they differ, whatever the entries are. */
  lemma OtherFieldReadOn(head: seq<string>, header: string, entries: seq<string>, rest: seq<string>, closed: bool)
    requires NoFiles(head) && "Files:" <= header && FieldLines(entries)
    requires rest != [] && rest[0] != "" && !IsContinuation(rest[0]) && NoFiles(rest)
    ensures var lines := head + ([header] + (entries + rest));
            RubyScan(lines, closed, false) == Scanned(Scan(lines, false), false) <==> AllSkipped(rest, closed)
  {
    ScannersAgreeIff(head, header, entries, rest, closed);
  }

  /** On any entry that is not a field line the scanners differ. */
  lemma EntryDiffers(line: string)
    requires IsContinuation(line) && !FieldLine(line)
    ensures RubyScan(["Files:", line], true, false) != Scanned(Scan(["Files:", line], false), false)
  {
    assert [] + (["Files:"] + ([line] + [])) == ["Files:", line];
    ScannersAgreeIff([], "Files:", [line], [], true);
  }

  /** Such entries are those with a trailing blank, */
  lemma TrailingBlank(line: string)
    requires IsContinuation(line)
    ensures !FieldLine(line + " ")
    ensures RubyScan(["Files:", line + " "], true, false) != Scanned(Scan(["Files:", line + " "], false), false)
  {
    LastPiece(line + " ", " ");
    FindLastOfIs(line + " ", " ", |line|);
    EntryDiffers(line + " ");
  }

  /** those with other white space in the last field, */
  lemma SpaceInField(before: string, field: string)
    requires IsContinuation(before) && ' ' !in field && !Free(field, RUBY_SPACE)
    ensures var line := before + " " + field;
            !FieldLine(line) && RubyScan(["Files:", line], true, false) != Scanned(Scan(["Files:", line], false), false)
  {
    LastFieldIs(before, field);
    EntryDiffers(before + " " + field);
  }

  lemma LastFieldIs(before: string, field: string)
    requires ' ' !in field
    ensures LastField(before + " " + field) == field
  {
    var line := before + " " + field;
    LastPiece(line, " ");
    forall i | |before| < i < |line| ensures line[i] !in " " {
      assert line[i] == field[i - |before| - 1];
    }
    FindLastOfIs(line, " ", |before|);
    assert line[|before| + 1..] == field;
  }

  /** and those that strip to a header. */
  lemma NamedFiles(text: string)
    requires "Files" <= text && text[|text| - 1] !in RUBY_SPACE
    ensures !FieldLine(" " + text)
    ensures RubyScan(["Files:", " " + text], true, false) != Scanned(Scan(["Files:", " " + text], false), false)
  {
    assert text[0] == 'F';
    StripsAfterBlank(text);
    EntryDiffers(" " + text);
  }

  /** The blank in front is all that is stripped. */
  lemma StripsAfterBlank(text: string)
    requires text != "" && text[0] !in RUBY_SPACE && text[|text| - 1] !in RUBY_SPACE
    ensures RubyStrip(" " + text) == text
  {
    var line := " " + text;
    FindFirstNotOfIs(line, RUBY_SPACE, 1);
    assert line[|line| - 1] == text[|text| - 1];
    FindLastNotOfIs(line, RUBY_SPACE, |line| - 1);
    assert line[1..|line|] == text;
  }

  /** A manifest that ends in the header line without a newline is read as its own entry. */
  lemma UnterminatedHeaderIsAnEntry()
    ensures Scan(["Files:"], false) == [] && RubyScan(["Files:"], false, false).names == ["Files:"]
  {
    var line := "Files:";
    assert FindFirstNotOf(line, RUBY_SPACE) == 0 && FindLastNotOf(line, RUBY_SPACE) == 5;
    assert line[0..6] == line;
    FindFirstOfIs(line, RUBY_SPACE, 0, 6);
    assert line[6..] == "";
    assert Words(line) == [line];
  }

  /** A skipped entry made up for by a line of another field: the names agree although neither
      the entry is a field line nor the rest is skipped. */
  lemma SkippedMadeUp()
    ensures var lines := ["Files:", " Files a", "Format: a"];
            RubyScan(lines, true, false) == Scanned(Scan(lines, false), false) == Scanned(["a"], false)
  {
    var entry, other := " Files a", "Format: a";
    SkippedEntryOf(entry);
    OtherEntryOf(other);
    FilesSurvivesStrip("Files:");
    SkippedThenRead("Files:", entry, other);
  }

  lemma SkippedEntryOf(entry: string)
    requires entry == " Files a"
    ensures IsContinuation(entry) && LastField(entry) == "a" && "Files" <= RubyStrip(entry)
  {
    assert " " + "Files a" == entry == " Files" + " " + "a";
    StripsAfterBlank("Files a");
    LastFieldIs(" Files", "a");
  }

  lemma OtherEntryOf(other: string)
    requires other == "Format: a"
    ensures LastWord(other) == Some("a") && !("Files" <= RubyStrip(other))
  {
    assert other == "Format:" + " " + "a";
    LastWordIs("Format:", "a");
    NotFiles(other);
  }

  lemma SkippedThenRead(header: string, entry: string, other: string)
    requires header == "Files:" && IsContinuation(entry) && LastField(entry) == "a" && "Files" <= RubyStrip(entry)
    requires other == "Format: a" && LastWord(other) == Some("a") && !("Files" <= RubyStrip(other))
    requires "Files" <= RubyStrip(header)
    ensures var lines := [header, entry, other];
            RubyScan(lines, true, false) == Scanned(Scan(lines, false), false) == Scanned(["a"], false)
  {
    var lines := [header, entry, other];
    assert lines[1..] == [entry, other] && lines[1..][1..] == [other] && [other][1..] == [];
    ContinuationStrips(entry, true);
    assert RubyScan([other], true, true) == Scanned(["a"], false);
    assert Scan([other], true) == [];
    assert !IsFilesHeader(entry);
  }

  lemma NotFiles(line: string)
    requires |line| > 1 && line[0] !in RUBY_SPACE && line[1] == 'o'
    ensures !("Files" <= RubyStrip(line))
  {
    FindFirstNotOfIs(line, RUBY_SPACE, 0);
    LastSpec(line, RUBY_SPACE, false, |line|);
    assert line[1] !in RUBY_SPACE;
    assert RubyStrip(line)[1] == 'o';
  }

  /** White space is what Ruby strips. */
  lemma RubySpaceIs(c: char)
    ensures c in RUBY_SPACE <==> c in {' ', '\t', '\n', '\r', '\U{B}', '\U{C}'}
  {
  }

  /** What a manifest is read as: its lines, of which only the last one may lack a newline. */
  lemma RubyNamesOfText(lines: seq<string>, last: string, mode: nat)
    requires (forall l :: l in lines ==> '\n' !in l) && last != "" && '\n' !in last
    ensures RubyNames(File(Text(lines), mode)) == RubyScan(lines, true, false)
    ensures RubyNames(File(Text(lines) + last, mode)) == RubyScan(lines + [last], false, false)
    ensures Names(File(Text(lines), mode)) == Scan(lines, false)
    ensures Names(File(Text(lines) + last, mode)) == Scan(lines + [last], false)
  {
    LinesOfText(lines);
    LinesUnterminated(lines, last);
    TextEnds(lines);
    var text := Text(lines) + last;
    assert text[|text| - 1] == last[|last| - 1];
  }

  lemma {:induction false} TextEnds(lines: seq<string>)
    ensures lines != [] ==> Text(lines) != "" && Text(lines)[|Text(lines)| - 1] == '\n'
  {
    if |lines| > 1 {
      TextEnds(lines[1..]);
    }
  }
}
