/** What a line of a configuration file means, told by its characters alone. */
module KeyLines {
  import opened Wrappers
  import opened Strings
  import opened KeyFile

  /** `[name]`, with white space around it. */
  ghost predicate IsHeader(line: string, name: string) {
    exists before, after :: Blank(before) && Blank(after) && line == before + ("[" + name + "]") + after
  }

  /** A key starts with a letter or a digit and ends before the white space. */
  predicate IsKey(key: string) {
    key != "" && IsAlnum(key[0]) && '=' !in key && key[|key| - 1] !in WHITESPACE
  }

  /** `key = value`, with white space anywhere between and around them. */
  ghost predicate IsBinding(line: string, key: string, value: string) {
    exists before, pre, post, after ::
      && Blank(before) && Blank(pre) && Blank(post) && Blank(after) && IsKey(key) && IsTrimmed(value)
      && line == before + (key + pre + "=" + post + value) + after
  }

  /** `key =`, with white space anywhere between and around them, and nothing else. */
  ghost predicate LacksValue(line: string) {
    exists before, left, after ::
      && Blank(before) && Blank(after) && left != "" && IsAlnum(left[0]) && '=' !in left
      && line == before + (left + "=") + after
  }

  /////////////////////////////// trimming ///////////////////////////////

  /** White space on both sides. */
  ghost predicate Around(line: string, t: string) {
    exists before, after :: Blank(before) && Blank(after) && line == before + t + after
  }

  lemma TrimmedAround(line: string)
    requires Trim(line).Some?
    ensures Around(line, Trim(line).value)
  {
    var begin, end := FindFirstNotOf(line, WHITESPACE), FindLastNotOf(line, WHITESPACE);
    Inside(line, WHITESPACE);
    FirstSpec(line, WHITESPACE, false, 0);
    LastSpec(line, WHITESPACE, false, |line|);
    var before, after := line[..begin], line[end + 1..];
    assert line == before + line[begin..end + 1] + after;
    assert Blank(before) && Blank(after);
  }

  lemma ClassifyOf(line: string, t: string)
    requires IsTrimmed(t) && Around(line, t)
    ensures Classify(line) == ClassifyTrimmed(t)
  {
    var before, after :| Blank(before) && Blank(after) && line == before + t + after;
    Indentation(before, t, after);
  }

  lemma TrimmedOf(line: string) returns (t: string)
    requires Classify(line) != Skip
    ensures IsTrimmed(t) && Around(line, t) && Classify(line) == ClassifyTrimmed(t)
  {
    t := Trim(line).value;
    TrimmedAround(line);
  }

  /////////////////////////////// headers ///////////////////////////////

  lemma HeaderTrimmed(t: string, name: string)
    requires IsTrimmed(t)
    ensures ClassifyTrimmed(t) == Header(name) <==> t == "[" + name + "]"
  {
    if ClassifyTrimmed(t) == Header(name) {
      assert t == "[" + t[1..|t| - 1] + "]";
    }
    if t == "[" + name + "]" {
      assert t[|t| - 1] == ']' && t[1..|t| - 1] == name;
    }
  }

  /** A line names a section if and only if it is written so. */
  lemma HeaderIff(line: string, name: string)
    ensures Classify(line) == Header(name) <==> IsHeader(line, name)
  {
    var bracketed := "[" + name + "]";
    if IsHeader(line, name) {
      assert bracketed[|bracketed| - 1] == ']' && IsTrimmed(bracketed);
      assert Around(line, bracketed);
      ClassifyOf(line, bracketed);
      HeaderTrimmed(bracketed, name);
    }
    if Classify(line) == Header(name) {
      var t := TrimmedOf(line);
      HeaderTrimmed(t, name);
      assert Around(line, bracketed);
    }
  }

  /////////////////////////////// keys ///////////////////////////////

  lemma CutAtEquals(t: string) returns (left: string, right: string)
    requires '=' in t
    ensures t == left + "=" + right && '=' !in left && |left| == FindFirstOf(t, "=", 0)
  {
    FirstSpec(t, "=", true, 0);
    var pos := FindFirstOf(t, "=", 0);
    var i :| 0 <= i < |t| && t[i] == '=';
    assert t[i] in "=";
    left, right := t[..pos], t[pos + 1..];
    forall k | 0 <= k < |left| ensures left[k] != '=' {
      assert left[k] == t[k] && t[k] !in "=";
    }
    assert t[pos] == '=';
  }

  lemma RaisesOf(t: string)
    requires t != "" && IsAlnum(t[0])
    ensures ClassifyTrimmed(t) == Raises <==> exists left :: t == left + "=" && '=' !in left
  {
    if ClassifyTrimmed(t) == Raises {
      assert '=' in t by {
        FirstSpec(t, "=", true, 0);
      }
      var left, right := CutAtEquals(t);
      assert t == left + "=";
    }
    if left :| t == left + "=" && '=' !in left {
      FirstEquals(left, "");
      assert left + "=" + "" == t;
    }
  }

  /** A line makes the load raise if and only if it has a key and an equals sign and nothing
      but white space behind its only one. */
  lemma RaisesIff(line: string)
    ensures Classify(line) == Raises <==> LacksValue(line)
  {
    if Classify(line) == Raises {
      var t := TrimmedOf(line);
      RaisesOf(t);
      var left :| t == left + "=" && '=' !in left;
      assert IsAlnum(t[0]) && left != "" && left[0] == t[0];
    }
    if LacksValue(line) {
      var before, left, after :| Blank(before) && Blank(after) && left != "" && IsAlnum(left[0]) && '=' !in left &&
        line == before + (left + "=") + after;
      var t := left + "=";
      assert t[0] == left[0] && t[|t| - 1] == '=';
      assert Around(line, t);
      ClassifyOf(line, t);
      RaisesOf(t);
    }
  }

  lemma BindingTrimmed(key: string, pre: string, post: string, value: string)
    requires IsKey(key) && Blank(pre) && Blank(post) && IsTrimmed(value)
    ensures var t := key + pre + "=" + post + value;
            IsTrimmed(t) && Classify(t) == Binding(key, value)
  {
    var left, right := key + pre, post + value;
    var t := left + "=" + right;
    assert t == key + pre + "=" + post + value;
    KeyFree(key, pre);
    assert left[0] == key[0] && right[|right| - 1] == value[|value| - 1];
    assert t[0] == key[0] && t[|t| - 1] == value[|value| - 1];
    BindingLine(left, right);
    KeyPart(key, pre);
    ValuePart(post, value);
  }

  lemma BindingIs(line: string, key: string, value: string)
    requires IsBinding(line, key, value)
    ensures Classify(line) == Binding(key, value)
  {
    var before, pre, post, after :| Blank(before) && Blank(pre) && Blank(post) && Blank(after) &&
      line == before + (key + pre + "=" + post + value) + after;
    var t := key + pre + "=" + post + value;
    BindingTrimmed(key, pre, post, value);
    assert Around(line, t);
    ClassifyOf(line, t);
    TrimOfTrimmed(t);
  }

  lemma KeyFree(key: string, pre: string)
    requires '=' !in key && Blank(pre)
    ensures '=' !in key + pre
  {
    assert forall c :: c in pre ==> c in WHITESPACE;
  }

  lemma BindingParts(t: string, key: string, value: string) returns (pre: string, post: string)
    requires IsTrimmed(t) && ClassifyTrimmed(t) == Binding(key, value)
    ensures Blank(pre) && Blank(post) && IsKey(key) && IsTrimmed(value) && t == key + pre + "=" + post + value
  {
    assert '=' in t by {
      FirstSpec(t, "=", true, 0);
    }
    var left, right := CutAtEquals(t);
    assert t[..|left|] == left && t[|left| + 1..] == right;
    assert left != "" && left[0] == t[0] && right != "" && right[|right| - 1] == t[|t| - 1];
    pre := KeyOf(left, key);
    post := ValueOf(right, value);
    Reassociate(key, pre, post, value);
  }

  lemma Reassociate(key: string, pre: string, post: string, value: string)
    ensures (key + pre) + "=" + (post + value) == key + pre + "=" + post + value
  {
  }

  lemma BindingHas(line: string, key: string, value: string)
    requires Classify(line) == Binding(key, value)
    ensures IsBinding(line, key, value)
  {
    var t := TrimmedOf(line);
    var pre, post := BindingParts(t, key, value);
    var before, after :| Blank(before) && Blank(after) && line == before + t + after;
    assert line == before + (key + pre + "=" + post + value) + after;
  }

  lemma KeyOf(left: string, key: string) returns (pre: string)
    requires left != "" && IsAlnum(left[0]) && '=' !in left && key == left[..FindLastNotOf(left, WHITESPACE) + 1]
    ensures left == key + pre && Blank(pre) && IsKey(key)
  {
    Inside(left, WHITESPACE);
    LastSpec(left, WHITESPACE, false, |left|);
    assert left[0] !in WHITESPACE;
    pre := left[|key|..];
  }

  lemma ValueOf(right: string, value: string) returns (post: string)
    requires right != "" && right[|right| - 1] !in WHITESPACE
    requires value == right[FindFirstNotOf(right, WHITESPACE)..]
    ensures right == post + value && Blank(post) && IsTrimmed(value)
  {
    Inside(right, WHITESPACE);
    FirstSpec(right, WHITESPACE, false, 0);
    post := right[..FindFirstNotOf(right, WHITESPACE)];
  }

  /** A line binds a key to a value if and only if it is written so. */
  lemma BindingIff(line: string, key: string, value: string)
    ensures Classify(line) == Binding(key, value) <==> IsBinding(line, key, value)
  {
    if Classify(line) == Binding(key, value) {
      BindingHas(line, key, value);
    }
    if IsBinding(line, key, value) {
      BindingIs(line, key, value);
    }
  }

  /** Letters and digits are those of ASCII. */
  lemma AlnumIs(c: char)
    ensures IsAlnum(c) <==>
              c in "0123456789" || c in "abcdefghijklmnopqrstuvwxyz" || c in "ABCDEFGHIJKLMNOPQRSTUVWXYZ"
  {
  }

  /** A load raises if and only if some line lacks its value; a file that has none is loaded. */
  lemma LoadRaisesIff(m: Sections, inputs: seq<string>)
    ensures LoadFile(m, inputs).raised <==> exists i :: 0 <= i < |inputs| && LacksValue(inputs[i])
  {
    LoadRefinesOverlay(m, inputs, "", "");
    forall i | 0 <= i < |inputs| ensures Classify(inputs[i]) == Raises <==> LacksValue(inputs[i]) {
      RaisesIff(inputs[i]);
    }
  }

  /** Which paths are tried. */
  lemma OpenedIs(rest: string, path: string, home: string)
    ensures FileName("/" + rest, home) == Some("/" + rest) && FileName("~" + rest, home) == Some(home + rest)
    ensures path != "" && path[0] != '/' && path[0] != '~' ==> FileName(path, home) == None
    ensures FileName("", home) == None
  {
    assert ("~" + rest)[1..] == rest;
  }

  /** White space is these four characters. */
  lemma WhiteIs(c: char)
    ensures c in WHITESPACE <==> c == ' ' || c == '\t' || c == '\n' || c == '\r'
  {
  }
}
