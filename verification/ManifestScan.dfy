/** The scanners and the writer of the manifest compiler, as loops over a text. */
module ManifestScan {
  import opened CText
  import opened Manifest

  /** The loop in value_length that looks for a newline after a backslash. */
  method LineEnds(s: string, p: nat) returns (ends: bool)
    requires p <= |s|
    ensures ends == EndsLine(s[p..])
  {
    var f := p;
    while f < |s| && IsSpace(s[f]) && s[f] != '\n'
      invariant p <= f <= |s| && EndsLine(s[f..]) == EndsLine(s[p..])
    {
      Tail(s, f);
      f := f + 1;
    }
    ends := f < |s| && s[f] == '\n';
  }

  /** value_length */
  method ValueLength(s: string, p0: nat) returns (iRetval: nat)
    requires p0 <= |s|
    ensures p0 + iRetval <= |s|
    ensures s[p0..p0 + iRetval] == ValueOf(s[p0..]) && s[p0 + iRetval..] == AfterValue(s[p0..])
  {
    hide EndsLine, ValueOf, AfterValue;
    iRetval := 0;
    var p := p0;
    while p < |s|
      invariant p == p0 + iRetval <= |s|
      invariant s[p0..p] + ValueOf(s[p..]) == ValueOf(s[p0..]) && AfterValue(s[p..]) == AfterValue(s[p0..])
    {
      Tail(s, p);
      if s[p] == '\\' {
        var ends := LineEnds(s, p + 1);
        if ends {
          break;
        }
      } else if IsSpace(s[p]) {
        break;
      }
      ValueStep(s, p0, p);
      p := p + 1;
      iRetval := iRetval + 1;
    }
    ValueEnds(s[p..], s[p0..p]);
  }

  lemma ValueStep(s: string, p0: nat, p: nat)
    requires p0 <= p < |s| && !ValueStops(s[p..])
    ensures s[p0..p] + ValueOf(s[p..]) == s[p0..p + 1] + ValueOf(s[p + 1..])
    ensures AfterValue(s[p..]) == AfterValue(s[p + 1..])
  {
    hide ValueStops;
    Tail(s, p);
    Taken(s[p0..p], s[p], ValueOf(s[p + 1..]));
    assert s[p0..p + 1] == s[p0..p] + [s[p]];
  }

  lemma ValueEnds(t: string, before: string)
    requires ValueStops(t)
    ensures before + ValueOf(t) == before && AfterValue(t) == t
  {
  }

  /** macro_length */
  method MacroLength(s: string, p0: nat) returns (iRetval: nat)
    requires p0 <= |s|
    ensures p0 + iRetval <= |s| && s[p0..p0 + iRetval] == NameOf(s[p0..])
  {
    hide NameOf;
    iRetval := 0;
    var p := p0;
    while p < |s|
      invariant p == p0 + iRetval <= |s| && s[p0..p] + NameOf(s[p..]) == NameOf(s[p0..])
    {
      if s[p] == '=' || IsSpace(s[p]) {
        break;
      }
      NameStep(s, p0, p);
      p := p + 1;
      iRetval := iRetval + 1;
    }
    NameEnds(s[p..], s[p0..p]);
  }

  lemma NameStep(s: string, p0: nat, p: nat)
    requires p0 <= p < |s| && s[p] != '=' && !IsSpace(s[p])
    ensures s[p0..p] + NameOf(s[p..]) == s[p0..p + 1] + NameOf(s[p + 1..])
  {
    Tail(s, p);
    Taken(s[p0..p], s[p], NameOf(s[p + 1..]));
    assert s[p0..p + 1] == s[p0..p] + [s[p]];
  }

  lemma NameEnds(t: string, before: string)
    requires t == "" || t[0] == '=' || IsSpace(t[0])
    ensures before + NameOf(t) == before
  {
  }

  /** The first loop of add_values: where the next value starts, if one does. */
  method FindValue(s: string, p0: nat) returns (p: nat, found: bool)
    requires p0 <= |s|
    ensures p0 <= p <= |s| && found == FindStart(s[p0..], 0).Value?
    ensures match FindStart(s[p0..], 0)
            case End(off) => p == p0 + off
            case Eof => p == |s|
            case Value(off) => p == p0 + off < |s|
  {
    hide FindStart;
    p := p0;
    var iBackslash := 0;
    while p < |s|
      invariant p0 <= p <= |s|
      invariant FindStart(s[p0..], 0) == Moved(FindStart(s[p..], iBackslash), p - p0)
    {
      Tail(s, p);
      ScanOne(s[p..], iBackslash);
      if s[p] == '\\' {
        iBackslash := iBackslash + 1;
      } else if s[p] == '\n' {
        if iBackslash == 0 {
          return p, false;
        }
        iBackslash := 0;
      } else if !IsSpace(s[p]) {
        return p - iBackslash, true;
      }
      p := p + 1;
    }
    found := false;
    ScanNone(s[p..], iBackslash);
  }

  lemma ScanOne(t: string, bs: nat)
    requires t != ""
    ensures FindStart(t, bs) ==
            if t[0] == '\\' then Moved(FindStart(t[1..], bs + 1), 1)
            else if t[0] == '\n' then (if bs == 0 then End(0) else Moved(FindStart(t[1..], 0), 1))
            else if !IsSpace(t[0]) then Value(0 - bs)
            else Moved(FindStart(t[1..], bs), 1)
  {
  }

  lemma ScanNone(t: string, bs: nat)
    requires t == ""
    ensures FindStart(t, bs) == Eof
  {
  }

  method SkipToNewline(s: string, p0: nat) returns (p: nat)
    requires p0 <= |s|
    ensures p0 <= p <= |s| && s[p..] == ToNewline(s[p0..])
  {
    p := p0;
    while p < |s| && s[p] != '\n'
      invariant p0 <= p <= |s| && ToNewline(s[p..]) == ToNewline(s[p0..])
    {
      Tail(s, p);
      p := p + 1;
    }
  }

  /** add_values; stop is where it stops reading. */
  method AddValues(s: string, p0: nat) returns (list: seq<string>, stop: nat)
    requires p0 <= |s|
    ensures list == Values(s[p0..])
    ensures p0 <= stop <= |s| && s[stop..] == Stop(s[p0..])
  {
    hide FindStart, ValueOf, AfterValue, ToNewline, Values, Stop;
    list := [];
    var p := p0;
    while true
      invariant p0 <= p <= |s|
      invariant list + Values(s[p..]) == Values(s[p0..]) && Stop(s[p..]) == Stop(s[p0..])
      decreases |s| - p
    {
      var v, found := FindValue(s, p);
      if !found {
        StopThere(s, p, v);
        return list, v;
      }
      RoundAdvances(s[p..]);
      ReadRound(s[p..]);
      assert s[p..][v - p..] == s[v..];
      if s[v] == '#' {
        p := SkipToNewline(s, v);
      } else {
        var iLength := ValueLength(s, v);
        if !IsNull(s[v..]) {
          Appended(list, s[v..v + iLength], Values(s[v + iLength..]));
          list := list + [s[v..v + iLength]];
        }
        p := v + iLength;
      }
    }
  }

  /** One round of add_values. */
  lemma ReadRound(t: string)
    requires FindStart(t, 0).Value?
    requires 0 <= FindStart(t, 0).off
    ensures var v := t[FindStart(t, 0).off..];
            var next := if v != "" && v[0] == '#' then ToNewline(v) else AfterValue(v);
            && v != "" && Stop(t) == Stop(next)
            && Values(t) == (if v[0] == '#' || IsNull(v) then [] else [ValueOf(v)]) + Values(next)
  {
    RoundAdvances(t);
  }

  lemma Appended(list: seq<string>, x: string, rest: seq<string>)
    ensures list + ([x] + rest) == (list + [x]) + rest
  {
  }

  lemma StopThere(s: string, p: nat, v: nat)
    requires p <= v <= |s| && !FindStart(s[p..], 0).Value?
    requires match FindStart(s[p..], 0) case End(off) => v == p + off case _ => v == |s|
    ensures Values(s[p..]) == [] && s[v..] == Stop(s[p..])
    ensures forall list: seq<string> :: list + Values(s[p..]) == list
  {
  }

  /** find_macro */
  method FindMacro(s: string, p0: nat) returns (macro: nat, next: Option<nat>)
    requires p0 <= |s|
    ensures p0 <= macro <= |s| && s[macro..] == MacroStart(s[p0..])
    ensures match MacroEnd(MacroStart(s[p0..]), 0)
            case None => next == None
            case Some(w) => next.Some? && p0 < next.value <= |s| && s[next.value..] == w
  {
    var p := SkipBlanks(s, p0);
    while p < |s| && s[p] == '#'
      invariant p0 <= p <= |s| && Trim(s[p..]) == s[p..] && MacroStart(s[p..]) == MacroStart(s[p0..])
      decreases |s| - p
    {
      var q := SkipToNewline(s, p);
      Tail(s, p);
      p := SkipBlanks(s, q);
    }
    macro := p;
    assert s[macro..] == MacroStart(s[p0..]);
    var iBackslash := 0;
    while p < |s|
      invariant macro <= p <= |s| && MacroEnd(s[p..], iBackslash) == MacroEnd(s[macro..], 0)
    {
      Tail(s, p);
      if s[p] == '\\' {
        iBackslash := iBackslash + 1;
      } else if s[p] == '\n' {
        if iBackslash == 0 {
          return macro, Some(p + 1);
        }
        iBackslash := 0;
      } else if !IsSpace(s[p]) {
        iBackslash := 0;
      }
      p := p + 1;
    }
    next := None;
  }

  method SkipBlanks(s: string, p0: nat) returns (p: nat)
    requires p0 <= |s|
    ensures p0 <= p <= |s| && s[p..] == Trim(s[p0..]) && Trim(s[p..]) == s[p..]
    ensures MacroStart(s[p..]) == MacroStart(s[p0..])
  {
    p := p0;
    while p < |s| && IsSpace(s[p])
      invariant p0 <= p <= |s| && Trim(s[p..]) == Trim(s[p0..])
    {
      Tail(s, p);
      p := p + 1;
    }
  }

  /** add_macro */
  method AddMacro(s: string, p: nat) returns (m: Macro)
    requires p < |s|
    ensures m == MacroOf(s[p..])
  {
    hide Values, Stop;
    var iLength := MacroLength(s, p);
    var q := p;
    while q < |s| && s[q] != '='
      invariant p <= q <= |s| && AfterEquals(s[q..]) == AfterEquals(s[p..])
    {
      Tail(s, q);
      q := q + 1;
    }
    var list: seq<string> := [];
    if q < |s| {
      Tail(s, q);
      var stop;
      list, stop := AddValues(s, q + 1);
    }
    m := Macro(s[p..p + iLength], list);
  }

  /** extract_macros */
  method ExtractMacros(s: string) returns (list: seq<Macro>)
    ensures list == Extract(s)
  {
    hide MacroOf, MacroStart, MacroEnd, Extract;
    list := [];
    var p, more := 0, true;
    assert s[0..] == s;
    while more
      invariant p <= |s| && list + (if more then Extract(s[p..]) else []) == Extract(s)
      decreases if more then |s| - p + 1 else 0
    {
      var macro, next := FindMacro(s, p);
      ExtractOnce(s[p..], list);
      if macro < |s| {
        assert s[macro..] != "";
        var m := AddMacro(s, macro);
        list := list + [m];
      } else {
        assert s[macro..] == "";
      }
      more := next.Some?;
      p := if more then next.value else |s|;
    }
  }

  lemma ExtractOnce(t: string, list: seq<Macro>)
    ensures var m, next := MacroStart(t), MacroEnd(MacroStart(t), 0);
            var list' := if m != "" then list + [MacroOf(m)] else list;
            list + Extract(t) == list' + (if next.Some? then Extract(next.value) else [])
  {
    hide MacroOf, MacroStart, MacroEnd;
  }

  // --- Writing -----------------------------------------------------------------------------------

  /** What one round of write_values puts before the text that is still to come. */
  lemma WriteRound(text: string, values: seq<string>, col: nat)
    requires values != []
    ensures var v, rest := values[0], values[1..];
            text + ValuesText(values, col) ==
            if col == 0 then text + "    " + v + " " + ValuesText(rest, |v| + 5)
            else if col + |v| > 72 then text + "\\\n" + ValuesText(values, 0)
            else text + v + " " + ValuesText(rest, col + |v| + 1)
  {
    var v, rest := values[0], values[1..];
    Regroup(text, "    ", v, ValuesText(rest, |v| + 5));
    Spaced(text, v, ValuesText(rest, col + |v| + 1));
    Broken(text, ValuesText(values, 0));
  }

  lemma Regroup(a: string, b: string, c: string, d: string)
    ensures a + (b + (c + (" " + d))) == a + b + c + " " + d
  {
    Spaced(a + b, c, d);
    assert a + (b + (c + (" " + d))) == (a + b) + (c + (" " + d));
  }

  lemma Spaced(a: string, b: string, c: string)
    ensures a + (b + (" " + c)) == a + b + " " + c
  {
    assert a + (b + (" " + c)) == (a + b) + (" " + c);
  }

  lemma Broken(a: string, b: string)
    ensures a + ("\\\n" + b) == a + "\\\n" + b
  {
  }

  /** write_values: after a line break the same value is looked at again. */
  method WriteValues(values: seq<string>, col: nat) returns (text: string)
    ensures text == ValuesText(values, col)
  {
    hide ValuesText;
    text := "";
    var n: nat, iLineLength: nat := 0, col;
    assert values[0..] == values;
    while n < |values|
      invariant n <= |values| && text + ValuesText(values[n..], iLineLength) == ValuesText(values, col)
      decreases |values| - n, iLineLength
    {
      var v := values[n];
      WriteRound(text, values[n..], iLineLength);
      assert values[n..][0] == v && values[n..][1..] == values[n + 1..];
      if iLineLength == 0 {
        text := text + "    " + v + " ";
        iLineLength := 4 + |v| + 1;
      } else if iLineLength + |v| > 72 {
        text := text + "\\\n";
        iLineLength := 0;
        continue;
      } else {
        text := text + v + " ";
        iLineLength := iLineLength + |v| + 1;
      }
      n := n + 1;
    }
    Done(text, iLineLength);
    assert values[n..] == [];
  }

  lemma Done(text: string, col: nat)
    ensures text + ValuesText([], col) == text
  {
  }

  lemma LineIs(m: Macro)
    ensures m.name + "=" + ValuesText(m.values, |m.name| + 1) + "\n" == MacroText(m)
  {
    var values := ValuesText(m.values, |m.name| + 1);
    assert m.name + ("=" + (values + "\n")) == m.name + "=" + values + "\n";
  }

  lemma Wrapped(level: string, body: string)
    ensures "\n" + level + "\n" + body + "\n" + "!endif" + "\n"
            == "\n" + (level + ("\n" + (body + ("\n" + ("!endif" + "\n")))))
  {
  }

  /** write_macros, when every write succeeds. */
  method WriteMacros(list: seq<Macro>) returns (text: string)
    ensures text == FileText(list) && (text == "" <==> list == [])
  {
    hide MacroText, ValuesText;
    if list == [] {
      return "";
    }
    var body := "";
    for n := 0 to |list|
      invariant body == GuardedText(list[..n])
    {
      var m := list[n];
      assert list[..n + 1][..n] == list[..n];
      var values := WriteValues(m.values, |m.name| + 1);
      var line := m.name + "=" + values + "\n";
      LineIs(m);
      body := body + (if m.name == "LINCS" then "!if \"$(MOZ_BITS)\" != \"16\"\n" + line + "!endif\n" else line);
    }
    assert list[..|list|] == list;
    var level := "!if \"$(MANIFEST_LEVEL)\"==\"MACROS\"";
    Wrapped(level, body);
    text := "\n" + level + "\n" + body + "\n" + "!endif" + "\n";
  }
}
