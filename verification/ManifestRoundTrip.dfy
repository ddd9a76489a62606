/** Parsing what the writer wrote gives the macros back, however the lines were wrapped; and how wide the
    wrapped lines are. */
module ManifestRoundTrip {
  import opened CText
  import opened Manifest

  ghost predicate GoodName(name: string) {
    NoSpace(name) && '=' !in name && (name != "" ==> name[0] != '#')
  }

  /** $(NULL) in any case. */
  ghost predicate SpellsNull(v: string) {
    && |v| == 7 && v[..2] == "$(" && v[6] == ')'
    && v[2] in "Nn" && v[3] in "Uu" && v[4] in "Ll" && v[5] in "Ll"
  }

  lemma NullExactly(t: string)
    ensures IsNull(t) <==> |t| >= 7 && SpellsNull(t[..7])
  {
    if |t| >= 7 {
      assert t[..2] == [t[0], t[1]];
    }
  }

  ghost predicate GoodValue(v: string) {
    Word(v) && v[|v| - 1] != '\\' && v[0] != '#' && !(|v| >= 7 && SpellsNull(v[..7]))
  }

  ghost predicate GoodMacro(m: Macro) {
    GoodName(m.name) && forall i | 0 <= i < |m.values| :: GoodValue(m.values[i])
  }

  // --- Reading one value -------------------------------------------------------------------------

  /** A value followed by a blank is read as a whole. */
  lemma {:induction false} ReadValue(v: string, rest: string)
    requires NoSpace(v) && (v != "" ==> v[|v| - 1] != '\\')
    ensures ValueOf(v + (" " + rest)) == v && AfterValue(v + (" " + rest)) == " " + rest
  {
    var t := v + (" " + rest);
    if v == "" {
      assert t == " " + rest;
    } else {
      assert t[1..] == v[1..] + (" " + rest);
      if v[0] == '\\' {
        assert t[1..][0] == v[1];
      }
      ReadValue(v[1..], rest);
    }
  }

  /** The search finds a value where it starts, even when it starts with backslashes. */
  lemma {:induction false} FindValue(v: string, rest: string, bs: nat)
    requires NoSpace(v) && v != "" && v[|v| - 1] != '\\'
    ensures FindStart(v + rest, bs) == Value(0 - bs)
  {
    var t := v + rest;
    if v[0] == '\\' {
      assert t[1..] == v[1..] + rest;
      FindValue(v[1..], rest, bs + 1);
    }
  }

  lemma NotNull(v: string, rest: string)
    requires NoSpace(v) && v != "" && !(|v| >= 7 && SpellsNull(v[..7]))
    requires rest != "" && (IsSpace(rest[0]) || rest[0] == '\\')
    ensures !IsNull(v + rest)
  {
    var t := v + rest;
    if |v| < 7 {
      assert t[|v|] == rest[0];
    } else {
      assert t[..7] == v[..7];
      NullExactly(t);
    }
  }

  lemma ValueThenRest(v: string, rest: string)
    requires GoodValue(v)
    ensures Values(v + (" " + rest)) == [v] + Values(" " + rest)
  {
    var t := v + (" " + rest);
    FindValue(v, " " + rest, 0);
    assert t[0..] == t && t[0] == v[0];
    NotNull(v, " " + rest);
    ReadValue(v, rest);
  }

  /** Values depends only on the value that the search leads to. */
  lemma SameStart(t: string, u: string)
    requires FindStart(t, 0).Value? && FindStart(u, 0).Value?
    requires t[FindStart(t, 0).off..] == u[FindStart(u, 0).off..]
    ensures Values(t) == Values(u)
  {
    hide FindStart, ValueOf, AfterValue, ToNewline, IsNull;
  }

  /** Text that the search passes over. */
  lemma PassOver(x: string, rest: string)
    requires FindStart(x + rest, 0) == Moved(FindStart(rest, 0), |x|)
    ensures Values(x + rest) == Values(rest)
  {
    hide FindStart, ValueOf, AfterValue, ToNewline, IsNull;
    var r := FindStart(rest, 0);
    if r.Value? {
      assert (x + rest)[r.off + |x|..] == rest[r.off..];
      SameStart(x + rest, rest);
    }
  }

  lemma {:induction false} PassBlanks(x: string, rest: string, bs: nat)
    requires forall i | 0 <= i < |x| :: x[i] == ' '
    ensures FindStart(x + rest, bs) == Moved(FindStart(rest, bs), |x|)
  {
    if x == "" {
      assert x + rest == rest;
    } else {
      assert (x + rest)[1..] == x[1..] + rest;
      PassBlanks(x[1..], rest, bs);
    }
  }

  lemma PassContinuation(rest: string)
    ensures FindStart("\\\n" + rest, 0) == Moved(FindStart(rest, 0), 2)
  {
    var t := "\\\n" + rest;
    assert t[1..] == "\n" + rest && t[1..][1..] == rest;
  }

  lemma ReadBlank(rest: string)
    ensures Values(" " + rest) == Values(rest)
  {
    PassBlanks(" ", rest, 0);
    PassOver(" ", rest);
  }

  lemma ReadIndent(rest: string)
    ensures Values("    " + rest) == Values(rest)
  {
    PassBlanks("    ", rest, 0);
    PassOver("    ", rest);
  }

  lemma ReadContinuation(rest: string)
    ensures Values("\\\n" + rest) == Values(rest)
  {
    PassContinuation(rest);
    PassOver("\\\n", rest);
  }

  /** A value that starts with $(NULL) is read over. */
  lemma NullIsSkipped(v: string, more: string, rest: string)
    requires SpellsNull(v) && NoSpace(more) && (more != "" ==> more[|more| - 1] != '\\')
    ensures Values((v + more) + (" " + rest)) == Values(rest)
  {
    var word := v + more;
    var t := word + (" " + rest);
    assert t[..7] == v;
    NullExactly(t);
    NoSpacesIn(v, more);
    FindValue(word, " " + rest, 0);
    assert t[0..] == t && t[0] == '$';
    ReadValue(word, rest);
    ReadBlank(rest);
  }

  lemma NoSpacesIn(v: string, more: string)
    requires SpellsNull(v) && NoSpace(more) && (more != "" ==> more[|more| - 1] != '\\')
    ensures var word := v + more; NoSpace(word) && word != "" && word[0] == '$' && word[|word| - 1] != '\\'
  {
    assert v[..2][0] == '$' && v[..2][1] == '(';
    forall i | 0 <= i < 7 ensures !IsSpace(v[i]) {
    }
  }

  // --- Reading a line ----------------------------------------------------------------------------

  lemma ReadEnd(rest: string)
    ensures Values("\n" + rest) == []
  {
    assert FindStart("\n" + rest, 0) == End(0);
  }

  /** Whatever the wrapping, the values read back are those written. */
  lemma {:induction false} ValuesRead(values: seq<string>, col: nat, rest: string)
    requires forall i | 0 <= i < |values| :: GoodValue(values[i])
    ensures Values(ValuesText(values, col) + ("\n" + rest)) == values
    decreases |values|, col
  {
    hide Values, GoodValue;
    var end := "\n" + rest;
    if values == [] {
      assert ValuesText(values, col) + end == end;
      ReadEnd(rest);
    } else if col > 0 && col + |values[0]| > 72 {
      var more := ValuesText(values, 0);
      assert ValuesText(values, col) + end == "\\\n" + (more + end);
      ReadContinuation(more + end);
      ValuesRead(values, 0, rest);
    } else {
      var v := values[0];
      var more := ValuesText(values[1..], if col == 0 then |v| + 5 else col + |v| + 1);
      assert ValuesText(values, col) + end == (if col == 0 then "    " else "") + (v + (" " + (more + end)));
      if col == 0 {
        ReadIndent(v + (" " + (more + end)));
      } else {
        assert "" + (v + (" " + (more + end))) == v + (" " + (more + end));
      }
      ValueThenRest(v, more + end);
      ReadBlank(more + end);
      ValuesRead(values[1..], if col == 0 then |v| + 5 else col + |v| + 1, rest);
    }
  }

  // --- Finding the line --------------------------------------------------------------------------

  /** Text that does not end a line and leaves no backslash counted. */
  lemma {:induction false} EndAfterWord(v: string, rest: string, b: nat)
    requires NoSpace(v) && v != "" && v[|v| - 1] != '\\'
    ensures MacroEnd(v + rest, b) == MacroEnd(rest, 0)
  {
    var t := v + rest;
    assert t[1..] == v[1..] + rest;
    if |v| > 1 {
      EndAfterWord(v[1..], rest, if v[0] == '\\' then b + 1 else 0);
    } else {
      assert v[1..] + rest == rest;
    }
  }

  lemma {:induction false} EndAfterBlanks(x: string, rest: string, b: nat)
    requires forall i | 0 <= i < |x| :: x[i] == ' '
    ensures MacroEnd(x + rest, b) == MacroEnd(rest, b)
  {
    if x == "" {
      assert x + rest == rest;
    } else {
      assert (x + rest)[1..] == x[1..] + rest;
      EndAfterBlanks(x[1..], rest, b);
    }
  }

  lemma EndAfterContinuation(rest: string)
    ensures MacroEnd("\\\n" + rest, 0) == MacroEnd(rest, 0)
  {
    var t := "\\\n" + rest;
    assert t[1..] == "\n" + rest && t[1..][1..] == rest;
  }

  lemma EndHere(rest: string)
    ensures MacroEnd("\n" + rest, 0) == Some(rest)
  {
  }

  lemma GoodIsWord(v: string)
    requires GoodValue(v)
    ensures NoSpace(v) && v != "" && v[|v| - 1] != '\\'
  {
  }

  lemma {:induction false} ValuesEnd(values: seq<string>, col: nat, rest: string)
    requires forall i | 0 <= i < |values| :: GoodValue(values[i])
    ensures MacroEnd(ValuesText(values, col) + ("\n" + rest), 0) == Some(rest)
    decreases |values|, col
  {
    hide MacroEnd, GoodValue;
    var end := "\n" + rest;
    if values == [] {
      assert ValuesText(values, col) + end == end;
      EndHere(rest);
    } else if col > 0 && col + |values[0]| > 72 {
      var more := ValuesText(values, 0);
      assert ValuesText(values, col) + end == "\\\n" + (more + end);
      EndAfterContinuation(more + end);
      ValuesEnd(values, 0, rest);
    } else {
      var v := values[0];
      var more := ValuesText(values[1..], if col == 0 then |v| + 5 else col + |v| + 1);
      var indent := if col == 0 then "    " else "";
      assert ValuesText(values, col) + end == indent + (v + (" " + (more + end)));
      EndAfterBlanks(indent, v + (" " + (more + end)), 0);
      GoodIsWord(v);
      EndAfterWord(v, " " + (more + end), 0);
      EndAfterBlanks(" ", more + end, 0);
      ValuesEnd(values[1..], if col == 0 then |v| + 5 else col + |v| + 1, rest);
    }
  }

  lemma {:induction false} ReadName(name: string, rest: string)
    requires NoSpace(name) && '=' !in name
    ensures NameOf(name + ("=" + rest)) == name && AfterEquals(name + ("=" + rest)) == Some(rest)
  {
    var t := name + ("=" + rest);
    if name == "" {
      assert t == "=" + rest;
    } else {
      assert t[1..] == name[1..] + ("=" + rest);
      ReadName(name[1..], rest);
    }
  }

  lemma LineRead(m: Macro, rest: string)
    requires GoodMacro(m)
    ensures var t := MacroText(m) + rest;
            MacroStart(t) == t && t != "" && MacroEnd(t, 0) == Some(rest) && MacroOf(t) == m
  {
    hide ValuesText, Values, GoodValue;
    var body := ValuesText(m.values, |m.name| + 1) + ("\n" + rest);
    var t := m.name + ("=" + body);
    assert MacroText(m) + rest == t;
    ReadName(m.name, body);
    ValuesRead(m.values, |m.name| + 1, rest);
    ValuesEnd(m.values, |m.name| + 1, rest);
    var head := m.name + "=";
    assert t == head + body && head[|head| - 1] == '=';
    EndAfterWord(head, body, 0);
    assert t[0] == head[0];
  }

  /** Parsing the lines the writer wrote gives back the macros, with their values, in order. */
  lemma {:induction false} ManifestRoundTrip(ms: seq<Macro>)
    requires forall i | 0 <= i < |ms| :: GoodMacro(ms[i])
    ensures Extract(MacrosText(ms)) == ms
  {
    if ms != [] {
      var rest := MacrosText(ms[1..]);
      LineRead(ms[0], rest);
      ManifestRoundTrip(ms[1..]);
    }
  }

  // --- How wide the lines are --------------------------------------------------------------------

  /** No physical line of the text has two or more values and more than 73 columns before its continuation
      backslash. col and n are the columns and values already on the line, inside whether a value is open. */
  ghost predicate Narrow(t: string, col: nat, n: nat, inside: bool)
    decreases |t|
  {
    if t == "" || t[0] == '\n' then n >= 2 ==> col <= 73
    else if |t| > 1 && t[0] == '\\' && t[1] == '\n' then
      (n >= 2 ==> col <= 73) && Narrow(t[2..], 0, 0, false)
    else if t[0] == ' ' then Narrow(t[1..], col + 1, if inside then n + 1 else n, false)
    else Narrow(t[1..], col + 1, n, true)
  }

  lemma {:induction false} NarrowWord(v: string, rest: string, col: nat, n: nat, inside: bool)
    requires NoSpace(v) && (inside || v != "")
    ensures Narrow(v + (" " + rest), col, n, inside) == Narrow(rest, col + |v| + 1, n + 1, false)
  {
    var t := v + (" " + rest);
    if v == "" {
      assert t == " " + rest && t[1..] == rest;
    } else {
      assert t[1..] == v[1..] + (" " + rest);
      if |v| > 1 {
        assert t[1] == v[1];
      }
      NarrowWord(v[1..], rest, col + 1, n, true);
    }
  }

  lemma {:induction false} NarrowIndent(x: string, rest: string, col: nat, n: nat)
    requires forall i | 0 <= i < |x| :: x[i] == ' '
    ensures Narrow(x + rest, col, n, false) == Narrow(rest, col + |x|, n, false)
  {
    if x == "" {
      assert x + rest == rest;
    } else {
      assert (x + rest)[1..] == x[1..] + rest;
      NarrowIndent(x[1..], rest, col + 1, n);
    }
  }

  /** The text of values, and what comes behind it, from its first value on. */
  lemma TextThen(values: seq<string>, col: nat, end: string)
    ensures var text := ValuesText(values, col) + end;
            if values == [] then text == end
            else
              var v, rest := values[0], values[1..];
              if col == 0 then text == "    " + (v + (" " + (ValuesText(rest, |v| + 5) + end)))
              else if col + |v| > 72 then text == "\\\n" + (ValuesText(values, 0) + end)
              else text == v + (" " + (ValuesText(rest, col + |v| + 1) + end))
  {
    if values == [] {
      assert "" + end == end;
    }
  }

  lemma {:induction false} ValuesNarrow(values: seq<string>, col: nat, n: nat, end: string)
    requires forall i | 0 <= i < |values| :: Word(values[i])
    requires (col == 0 ==> n == 0) && (n >= 2 ==> col <= 73) && (end == "" || end[0] == '\n')
    ensures Narrow(ValuesText(values, col) + end, col, n, false)
    decreases |values|, col
  {
    hide ValuesText;
    TextThen(values, col, end);
    if values == [] {
    } else if col > 0 && col + |values[0]| > 72 {
      var more := ValuesText(values, 0) + end;
      assert ("\\\n" + more)[2..] == more;
      ValuesNarrow(values, 0, 0, end);
    } else {
      var v := values[0];
      var next := if col == 0 then |v| + 5 else col + |v| + 1;
      var more := ValuesText(values[1..], next) + end;
      if col == 0 {
        NarrowIndent("    ", v + (" " + more), 0, 0);
        NarrowWord(v, more, 4, 0, false);
      } else {
        NarrowWord(v, more, col, n, false);
      }
      ValuesNarrow(values[1..], next, n + 1, end);
    }
  }

  /** Up to the next blank. */
  function FirstWord(t: string): string {
    if t == "" || t[0] == ' ' then "" else [t[0]] + FirstWord(t[1..])
  }

  /** Every line that is broken is broken because the next value would not have fitted into 72 columns, and that value
      comes first on the next line, behind four blanks. */
  ghost predicate Tight(t: string, col: nat)
    decreases |t|
  {
    if t == "" || t[0] == '\n' then true
    else if |t| > 1 && t[0] == '\\' && t[1] == '\n' then
      "    " <= t[2..] && col + |FirstWord(t[6..])| > 72 && Tight(t[6..], 4)
    else Tight(t[1..], col + 1)
  }

  lemma {:induction false} TightWord(v: string, rest: string, col: nat)
    requires NoSpace(v)
    ensures Tight(v + (" " + rest), col) == Tight(rest, col + |v| + 1) && FirstWord(v + (" " + rest)) == v
  {
    var t := v + (" " + rest);
    if v == "" {
      assert t == " " + rest && t[1..] == rest;
    } else {
      assert t[1..] == v[1..] + (" " + rest);
      if |v| > 1 {
        assert t[1] == v[1];
      }
      TightWord(v[1..], rest, col + 1);
    }
  }

  lemma {:induction false} TightIndent(x: string, rest: string, col: nat)
    requires forall i | 0 <= i < |x| :: x[i] == ' '
    ensures Tight(x + rest, col) == Tight(rest, col + |x|)
  {
    if x == "" {
      assert x + rest == rest;
    } else {
      assert (x + rest)[1..] == x[1..] + rest;
      TightIndent(x[1..], rest, col + 1);
    }
  }

  /** A line break, the indented value, and more. */
  lemma TightBreak(v: string, more: string, col: nat)
    requires NoSpace(v) && col + |v| > 72
    ensures Tight("\\\n" + ("    " + (v + (" " + more))), col) == Tight(more, |v| + 5)
  {
    var u := v + (" " + more);
    var t := "\\\n" + ("    " + u);
    TightWord(v, more, 4);
    assert t[2..] == "    " + u && t[6..] == u && t[0] == '\\' && t[1] == '\n';
  }

  lemma {:induction false} ValuesTight(values: seq<string>, col: nat, end: string)
    requires (forall i | 0 <= i < |values| :: Word(values[i])) && (end == "" || end[0] == '\n')
    ensures Tight(ValuesText(values, col) + end, col)
    decreases |values|
  {
    hide Tight, ValuesText;
    TextThen(values, col, end);
    if values == [] {
      TightNothing(end, col);
    } else {
      var v := values[0];
      var next := if 0 < col && col + |v| <= 72 then col + |v| + 1 else |v| + 5;
      var more := ValuesText(values[1..], next) + end;
      ValuesTight(values[1..], next, end);
      if col == 0 {
        TightIndent("    ", v + (" " + more), 0);
        TightWord(v, more, 4);
      } else if col + |v| <= 72 {
        TightWord(v, more, col);
      } else {
        TextThen(values, 0, end);
        TightBreak(v, more, col);
      }
    }
  }

  lemma TightNothing(end: string, col: nat)
    requires end == "" || end[0] == '\n'
    ensures Tight(end, col)
  {
  }

  /** The text of a macro is its name and its equals sign, and then as narrow as it should be and broken only where it
      must be, the name counting towards the first line. */
  lemma MacroNarrow(m: Macro)
    requires forall i | 0 <= i < |m.values| :: Word(m.values[i])
    ensures var t, n := MacroText(m), |m.name| + 1;
            && n <= |t| && t[..n] == m.name + "="
            && Narrow(t[n..], n, 0, false) && Tight(t[n..], n)
  {
    var t, n, text := MacroText(m), |m.name| + 1, ValuesText(m.values, |m.name| + 1);
    assert t == (m.name + "=") + (text + "\n");
    assert t[..n] == m.name + "=" && t[n..] == text + "\n";
    ValuesNarrow(m.values, n, 0, "\n");
    ValuesTight(m.values, n, "\n");
  }
}
