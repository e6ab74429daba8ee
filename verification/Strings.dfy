/** The string helpers of src/strings.cpp and src/strings.hpp.

    A C++ search result `npos` is the length of the string for the forward
    searches and -1 for the backward ones. */
module Strings {
  import opened Wrappers

  /** The first position from `from` on whose character is one of `chars`, or is none of them. */
  function FirstWhere(s: string, chars: string, among: bool, from: nat): (r: nat)
    requires from <= |s|
    ensures from <= r <= |s|
    decreases |s| - from
  {
    if from == |s| || (s[from] in chars) == among then from else FirstWhere(s, chars, among, from + 1)
  }

  /** The last such position before `end`. */
  function LastWhere(s: string, chars: string, among: bool, end: nat): (r: int)
    requires end <= |s|
    ensures -1 <= r < end
  {
    if end == 0 then -1
    else if (s[end - 1] in chars) == among then end - 1
    else LastWhere(s, chars, among, end - 1)
  }

  lemma {:induction false} FirstSpec(s: string, chars: string, among: bool, from: nat)
    requires from <= |s|
    ensures var r := FirstWhere(s, chars, among, from);
            && (forall i :: from <= i < r ==> (s[i] in chars) != among)
            && (r < |s| ==> (s[r] in chars) == among)
    decreases |s| - from
  {
    if from < |s| && (s[from] in chars) != among {
      FirstSpec(s, chars, among, from + 1);
    }
  }

  lemma {:induction false} LastSpec(s: string, chars: string, among: bool, end: nat)
    requires end <= |s|
    ensures var r := LastWhere(s, chars, among, end);
            && (forall i :: r < i < end ==> (s[i] in chars) != among)
            && (r >= 0 ==> (s[r] in chars) == among)
  {
    if end > 0 && (s[end - 1] in chars) != among {
      LastSpec(s, chars, among, end - 1);
    }
  }

  /** `s.find_first_of(chars, from)`. */
  function FindFirstOf(s: string, chars: string, from: nat): (r: nat)
    requires from <= |s|
    ensures from <= r <= |s|
  {
    FirstWhere(s, chars, true, from)
  }

  /** `s.find_first_not_of(chars)`. */
  function FindFirstNotOf(s: string, chars: string, from: nat := 0): (r: nat)
    requires from <= |s|
    ensures from <= r <= |s|
  {
    FirstWhere(s, chars, false, from)
  }

  /** `s.find_last_of(chars)`. */
  function FindLastOf(s: string, chars: string): (r: int)
    ensures -1 <= r < |s|
  {
    LastWhere(s, chars, true, |s|)
  }

  /** `s.find_last_not_of(chars)`. */
  function FindLastNotOf(s: string, chars: string): (r: int)
    ensures -1 <= r < |s|
  {
    LastWhere(s, chars, false, |s|)
  }

  predicate Free(s: string, chars: string) {
    forall c :: c in s ==> c !in chars
  }

  /** Search results depend only on what the search specifies. */
  lemma FindFirstOfIs(s: string, chars: string, from: nat, k: nat)
    requires from <= k <= |s|
    requires forall i :: from <= i < k ==> s[i] !in chars
    requires k < |s| ==> s[k] in chars
    ensures FindFirstOf(s, chars, from) == k
  {
    FirstSpec(s, chars, true, from);
  }

  lemma FindFirstNotOfIs(s: string, chars: string, k: nat)
    requires k <= |s|
    requires forall i :: 0 <= i < k ==> s[i] in chars
    requires k < |s| ==> s[k] !in chars
    ensures FindFirstNotOf(s, chars) == k
  {
    FirstSpec(s, chars, false, 0);
  }

  lemma FindLastOfIs(s: string, chars: string, k: int)
    requires -1 <= k < |s|
    requires k >= 0 ==> s[k] in chars
    requires forall i :: k < i < |s| ==> s[i] !in chars
    ensures FindLastOf(s, chars) == k
  {
    LastSpec(s, chars, true, |s|);
  }

  lemma FindLastNotOfIs(s: string, chars: string, k: int)
    requires -1 <= k < |s|
    requires k >= 0 ==> s[k] !in chars
    requires forall i :: k < i < |s| ==> s[i] in chars
    ensures FindLastNotOf(s, chars) == k
  {
    LastSpec(s, chars, false, |s|);
  }

  /** What is left between the first and the last character that is none of `chars`. */
  lemma Inside(s: string, chars: string)
    ensures var first, last := FindFirstNotOf(s, chars), FindLastNotOf(s, chars);
            && (first == |s| <==> forall i :: 0 <= i < |s| ==> s[i] in chars)
            && (first < |s| ==> first <= last && s[first] !in chars && s[last] !in chars)
  {
    FirstSpec(s, chars, false, 0);
    LastSpec(s, chars, false, |s|);
  }

  /////////////////////////////// affixes ///////////////////////////////

  /** `s.find(b)`: the least position at which `b` occurs. */
  function Find(s: string, b: string, from: nat := 0): (r: Maybe<nat>)
    requires from <= |s|
    ensures r.Some? ==> from <= r.value <= |s| - |b| && b <= s[r.value..]
    decreases |s| - from
  {
    if b <= s[from..] then Some(from)
    else if from == |s| then None
    else Find(s, b, from + 1)
  }

  /** `s.rfind(e)`: the greatest position at which `e` occurs, searching down from `from`. */
  function RFind(s: string, e: string, from: nat): (r: Maybe<nat>)
    requires from <= |s|
    ensures r.Some? ==> r.value <= from && e <= s[r.value..]
    decreases from
  {
    if e <= s[from..] then Some(from)
    else if from == 0 then None
    else RFind(s, e, from - 1)
  }

  predicate BeginsWith(s: string, b: string) {
    Find(s, b) == Some(0)
  }

  predicate EndsWith(s: string, e: string) {
    if |s| < |e| then false
    else match RFind(s, e, |s|)
      case None => false
      case Some(position) => s[position..] == e
  }

  /** Testing that the first occurrence is at the front is testing for a prefix. */
  lemma BeginsWithIsPrefix(s: string, b: string)
    ensures BeginsWith(s, b) <==> b <= s
  {
    assert s[0..] == s;
  }

  /** Testing the text from the last occurrence on is testing for a suffix. */
  lemma EndsWithIsSuffix(s: string, e: string)
    ensures EndsWith(s, e) <==> |e| <= |s| && s[|s| - |e|..] == e
  {
    if |e| <= |s| && s[|s| - |e|..] == e {
      RFindFindsSuffix(s, e, |s|);
    }
  }

  lemma {:induction false} RFindFindsSuffix(s: string, e: string, from: nat)
    requires |e| <= |s| && s[|s| - |e|..] == e
    requires |s| - |e| <= from <= |s|
    ensures RFind(s, e, from) == Some(|s| - |e|)
    decreases from
  {
    if from > |s| - |e| {
      assert |s[from..]| < |e|;
      RFindFindsSuffix(s, e, from - 1);
    }
  }

  /** `strip`: a string of nothing but blanks has no first non-blank, and `substr` raises. */
  function Strip(str: string): Maybe<string> {
    var first := FindFirstNotOf(str, " ");
    var last := FindLastNotOf(str, " ");
    Inside(str, " ");
    if first == |str| then None else Some(str[first..last + 1])
  }

  ghost predicate Padded(str: string, core: string) {
    exists pre: nat, post: nat :: pre + |core| + post == |str| && str == Blanks(pre) + core + Blanks(post)
  }

  /** `strip` raises exactly on blank strings; otherwise it removes blanks from both ends and no more. */
  lemma StripRemovesOuterBlanks(str: string)
    ensures Strip(str).None? <==> forall c :: c in str ==> c == ' '
    ensures Strip(str).Some? ==>
              var core := Strip(str).value; Blankless(core) && Padded(str, core)
  {
    Inside(str, " ");
    StripIff(str);
    if FindFirstNotOf(str, " ") < |str| {
      OuterBlanks(str, FindFirstNotOf(str, " "), FindLastNotOf(str, " "));
    }
  }

  predicate Blankless(core: string) {
    core != "" && core[0] != ' ' && core[|core| - 1] != ' '
  }

  lemma StripIff(str: string)
    ensures Strip(str).None? <==> forall c :: c in str ==> c == ' '
  {
    Inside(str, " ");
    if c :| c in str && c != ' ' {
      var i :| 0 <= i < |str| && str[i] == c;
      assert str[i] !in " ";
    } else {
      assert forall i :: 0 <= i < |str| ==> str[i] in str;
    }
  }

  lemma OuterBlanks(str: string, first: nat, last: int)
    requires first == FindFirstNotOf(str, " ") <= last == FindLastNotOf(str, " ")
    ensures Blankless(str[first..last + 1]) && Padded(str, str[first..last + 1])
  {
    Inside(str, " ");
    FirstSpec(str, " ", false, 0);
    LastSpec(str, " ", false, |str|);
    assert str == Blanks(first) + str[first..last + 1] + Blanks(|str| - last - 1);
  }

  function Blanks(n: nat): string {
    seq(n, _ => ' ')
  }

  /////////////////////////////// split ///////////////////////////////

  /** The pieces of `s` between the characters that belong to `delim`. */
  function Split(s: string, delim: string): (pieces: seq<string>)
    ensures |pieces| >= 1
    decreases |s|
  {
    var cut := FindFirstOf(s, delim, 0);
    if cut == |s| then [s] else [s[..cut]] + Split(s[cut + 1..], delim)
  }

  /** The characters `Split` removes, in order. */
  function Removed(s: string, delim: string): string {
    if s == "" then ""
    else if s[0] in delim then [s[0]] + Removed(s[1..], delim)
    else Removed(s[1..], delim)
  }

  /** Puts one separator back after every piece but the last. */
  function Interleave(pieces: seq<string>, seps: string): string
    requires |pieces| == |seps| + 1
  {
    if seps == "" then pieces[0]
    else pieces[0] + [seps[0]] + Interleave(pieces[1..], seps[1..])
  }

  /** The pieces the loop still has to produce once it stands at `prev`. */
  function PiecesFrom(s: string, delim: string, prev: nat): seq<string>
    requires prev <= |s|
    decreases |s| - prev
  {
    var current := FindFirstOf(s, delim, prev);
    if current == |s| then [s[prev..]] else [s[prev..current]] + PiecesFrom(s, delim, current + 1)
  }

  /** The loop of `split`: `prev` starts the open piece, `current` ends it. */
  method SplitLoop(str: string, delim: string := " ") returns (result: seq<string>)
    ensures result == Split(str, delim)
  {
    result := [];
    var prev := 0;
    var current := FindFirstOf(str, delim, 0);
    while current != |str|
      invariant 0 <= prev <= current <= |str|
      invariant current == FindFirstOf(str, delim, prev)
      invariant PiecesFrom(str, delim, 0) == result + PiecesFrom(str, delim, prev)
      decreases |str| - prev
    {
      result := result + [str[prev..current]];
      prev := current + 1;
      current := FindFirstOf(str, delim, prev);
    }
    result := result + [str[prev..]];
    PiecesFromIsSplit(str, delim, 0);
    assert str[0..] == str;
  }

  lemma {:induction false} PiecesFromIsSplit(s: string, delim: string, prev: nat)
    requires prev <= |s|
    ensures PiecesFrom(s, delim, prev) == Split(s[prev..], delim)
    decreases |s| - prev
  {
    var current := FindFirstOf(s, delim, prev);
    if current == |s| {
      SplitFrom(s, delim, prev);
    } else {
      PiecesFromIsSplit(s, delim, current + 1);
      SplitFrom(s, delim, prev);
    }
  }

  lemma SplitFrom(s: string, delim: string, prev: nat)
    requires prev <= |s|
    ensures var current := FindFirstOf(s, delim, prev);
            Split(s[prev..], delim) ==
              if current == |s| then [s[prev..]] else [s[prev..current]] + Split(s[current + 1..], delim)
  {
    var current := FindFirstOf(s, delim, prev);
    FindFirstOfFrom(s, delim, prev);
    if current < |s| {
      SplitOnce(s[prev..], delim, current - prev);
      SliceOfSlice(s, prev, current);
    }
  }

  lemma SplitOnce(t: string, delim: string, cut: nat)
    requires cut == FindFirstOf(t, delim, 0) < |t|
    ensures Split(t, delim) == [t[..cut]] + Split(t[cut + 1..], delim)
  {
  }

  lemma SliceOfSlice(s: string, i: nat, j: nat)
    requires i <= j < |s|
    ensures s[i..][..j - i] == s[i..j] && s[i..][j - i + 1..] == s[j + 1..]
  {
  }

  lemma FindFirstOfFrom(s: string, chars: string, from: nat)
    requires from <= |s|
    ensures FindFirstOf(s[from..], chars, 0) == FindFirstOf(s, chars, from) - from
  {
    FirstSpec(s, chars, true, from);
    FindFirstOfIs(s[from..], chars, 0, FindFirstOf(s, chars, from) - from);
  }

  /** `Split` is a right inverse of `Interleave`: one more piece than delimiters,
      pieces free of delimiters, and the input back when they are put together. */
  lemma {:induction false} SplitSound(s: string, delim: string)
    ensures |Split(s, delim)| == |Removed(s, delim)| + 1
    ensures forall p :: p in Split(s, delim) ==> Free(p, delim)
    ensures forall c :: c in Removed(s, delim) ==> c in delim
    ensures Interleave(Split(s, delim), Removed(s, delim)) == s
    decreases |s|
  {
    if Free(s, delim) {
      SplitFree(s, delim);
    } else {
      var first, c, t := CutAtFirst(s, delim);
      SplitSound(t, delim);
      SplitBehind(first, c, t, delim);
      assert ([first] + Split(t, delim))[1..] == Split(t, delim) && ([c] + Removed(t, delim))[1..] == Removed(t, delim);
    }
  }

  lemma {:induction false} CutAtFirst(s: string, delim: string) returns (first: string, c: char, t: string)
    requires !Free(s, delim)
    ensures s == first + [c] + t && Free(first, delim) && c in delim
    decreases |s|
  {
    assert s == [s[0]] + s[1..];
    if s[0] in delim {
      first, c, t := "", s[0], s[1..];
    } else {
      first, c, t := CutAtFirst(s[1..], delim);
      first := [s[0]] + first;
    }
  }

  lemma {:induction false} RemovedSkips(s: string, delim: string, n: nat)
    requires n <= |s|
    requires forall i :: 0 <= i < n ==> s[i] !in delim
    ensures Removed(s, delim) == Removed(s[n..], delim)
  {
    if n == 0 {
      assert s[0..] == s;
    } else {
      RemovedSkips(s[1..], delim, n - 1);
      assert s[1..][n - 1..] == s[n..];
    }
  }

  /** `Split` is also a left inverse: any delimiter-free pieces put together with
      delimiters are found again, so no other split of `s` exists. */
  lemma {:induction false} SplitUnique(pieces: seq<string>, seps: string, delim: string)
    requires |pieces| == |seps| + 1
    requires forall p :: p in pieces ==> Free(p, delim)
    requires forall c :: c in seps ==> c in delim
    ensures Split(Interleave(pieces, seps), delim) == pieces
    ensures Removed(Interleave(pieces, seps), delim) == seps
    decreases |pieces|
  {
    assert Free(pieces[0], delim);
    if seps == "" {
      SplitFree(pieces[0], delim);
    } else {
      SplitUnique(pieces[1..], seps[1..], delim);
      SplitBehind(pieces[0], seps[0], Interleave(pieces[1..], seps[1..]), delim);
    }
  }

  lemma SplitFree(s: string, delim: string)
    requires Free(s, delim)
    ensures Split(s, delim) == [s] && Removed(s, delim) == ""
  {
    assert forall i :: 0 <= i < |s| ==> s[i] in s;
    FindFirstOfIs(s, delim, 0, |s|);
    RemovedSkips(s, delim, |s|);
    assert s[..|s|] == s && s[|s|..] == "";
  }

  /** The first delimiter ends the first piece. */
  lemma SplitBehind(first: string, c: char, t: string, delim: string)
    requires Free(first, delim) && c in delim
    ensures Split(first + [c] + t, delim) == [first] + Split(t, delim)
    ensures Removed(first + [c] + t, delim) == [c] + Removed(t, delim)
  {
    var s, n := first + [c] + t, |first|;
    assert forall i :: 0 <= i < n ==> s[i] == first[i] && first[i] in first;
    FindFirstOfIs(s, delim, 0, n);
    RemovedSkips(s, delim, n);
    SplitOnce(s, delim, n);
    assert s[..n] == first && s[n + 1..] == t && s[n..] == [c] + t;
    assert ([c] + t)[1..] == t;
  }

  /** The pieces joined by one fixed character. */
  function Join(pieces: seq<string>, sep: char): string
    requires |pieces| >= 1
  {
    if |pieces| == 1 then pieces[0] else pieces[0] + [sep] + Join(pieces[1..], sep)
  }

  lemma {:induction false} JoinIsInterleave(pieces: seq<string>, sep: char)
    requires |pieces| >= 1
    ensures Join(pieces, sep) == Interleave(pieces, seq(|pieces| - 1, _ => sep))
    decreases |pieces|
  {
    var seps := seq(|pieces| - 1, _ => sep);
    if |pieces| > 1 {
      JoinIsInterleave(pieces[1..], sep);
      assert seps[1..] == seq(|pieces[1..]| - 1, _ => sep);
    }
  }

  /** For one delimiter, splitting undoes joining. */
  lemma SplitJoin(pieces: seq<string>, sep: char)
    requires |pieces| >= 1
    requires forall p :: p in pieces ==> sep !in p
    ensures Split(Join(pieces, sep), [sep]) == pieces
  {
    var seps := seq(|pieces| - 1, _ => sep);
    JoinIsInterleave(pieces, sep);
    SplitUnique(pieces, seps, [sep]);
  }

  /** For one delimiter, joining undoes splitting. */
  lemma JoinSplit(s: string, sep: char)
    ensures Join(Split(s, [sep]), sep) == s
  {
    SplitSound(s, [sep]);
    JoinIsInterleave(Split(s, [sep]), sep);
    RemovedAll(s, sep);
  }

  lemma {:induction false} RemovedAll(s: string, sep: char)
    ensures Removed(s, [sep]) == seq(|Removed(s, [sep])|, _ => sep)
  {
    if s != "" {
      RemovedAll(s[1..], sep);
    }
  }

  /** `split(s).back()`: the text after the last delimiter. */
  lemma {:induction false} LastPiece(s: string, delim: string)
    ensures Split(s, delim)[|Split(s, delim)| - 1] == s[FindLastOf(s, delim) + 1..]
    decreases |s|
  {
    var cut := FindFirstOf(s, delim, 0);
    FirstSpec(s, delim, true, 0);
    if cut == |s| {
      FindLastOfIs(s, delim, -1);
    } else {
      LastPiece(s[cut + 1..], delim);
      LastOfTail(s, delim, cut);
      SplitOnce(s, delim, cut);
      LastOfCons(s[..cut], Split(s[cut + 1..], delim));
    }
  }

  lemma LastOfCons(first: string, rest: seq<string>)
    requires rest != []
    ensures ([first] + rest)[|[first] + rest| - 1] == rest[|rest| - 1]
  {
  }

  lemma LastOfTail(s: string, chars: string, cut: nat)
    requires cut < |s| && s[cut] in chars
    ensures var k := FindLastOf(s[cut + 1..], chars);
            FindLastOf(s, chars) == cut + 1 + k && s[cut + 1..][k + 1..] == s[cut + 1 + k + 1..]
  {
    var t := s[cut + 1..];
    LastSpec(t, chars, true, |t|);
    FindLastOfIs(s, chars, cut + 1 + FindLastOf(t, chars));
  }

  /////////////////////////////// lines ///////////////////////////////

  /** The lines `getline` delivers: a final newline opens no further line. */
  function Lines(content: string): (lines: seq<string>) {
    var pieces := Split(content, "\n");
    if pieces[|pieces| - 1] == "" then pieces[..|pieces| - 1] else pieces
  }

  /** A text whose every line ends in a newline. */
  function Text(lines: seq<string>): string {
    if lines == [] then "" else lines[0] + "\n" + Text(lines[1..])
  }

  /** Reading back lines written with a newline each. */
  lemma LinesOfText(lines: seq<string>)
    requires forall l :: l in lines ==> '\n' !in l
    ensures Lines(Text(lines)) == lines
  {
    TextIsJoin(lines);
    SplitJoin(lines + [""], '\n');
  }

  lemma {:induction false} TextIsJoin(lines: seq<string>)
    ensures Text(lines) == Join(lines + [""], '\n')
  {
    if lines != [] {
      TextIsJoin(lines[1..]);
      assert (lines + [""])[1..] == lines[1..] + [""];
    }
  }

  /** A last line without a newline is a line as well. */
  lemma LinesUnterminated(lines: seq<string>, last: string)
    requires (forall l :: l in lines ==> '\n' !in l) && last != "" && '\n' !in last
    ensures Lines(Text(lines) + last) == lines + [last]
  {
    TextThenLast(lines, last);
    SplitJoin(lines + [last], '\n');
  }

  lemma {:induction false} TextThenLast(lines: seq<string>, last: string)
    ensures Text(lines) + last == Join(lines + [last], '\n')
  {
    if lines != [] {
      TextThenLast(lines[1..], last);
      assert (lines + [last])[1..] == lines[1..] + [last];
      assert lines[0] + "\n" + Text(lines[1..]) + last == lines[0] + "\n" + (Text(lines[1..]) + last);
    }
  }
}
