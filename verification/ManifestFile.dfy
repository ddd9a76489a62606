/** The file that the manifest compiler writes, as make reads it: which macros are defined under which settings. */
module ManifestFile {
  import opened CText
  import opened Manifest
  import opened ManifestRoundTrip
  import opened ManifestLines

  /** The values of MANIFEST_LEVEL and MOZ_BITS. */
  datatype Setting = Setting(level: string, bits: string)

  ghost function LineOf(t: string): string {
    t[..|t| - |ToNewline(t)|]
  }

  ghost function NextLines(t: string): (r: string)
    ensures t != "" ==> |r| < |t|
  {
    if ToNewline(t) == "" then "" else ToNewline(t)[1..]
  }

  predicate AllHold(open: seq<bool>) {
    forall i | 0 <= i < |open| :: open[i]
  }

  /** What is left of the text when its conditions are taken away: the lines within "!if" and "!endif" only where the
      conditions hold, and no empty lines. */
  ghost function Selected(t: string, s: Setting, open: seq<bool>): string
    decreases |t|
  {
    if t == "" then ""
    else
      var line, rest := LineOf(t), NextLines(t);
      if line == "!if \"$(MANIFEST_LEVEL)\"==\"MACROS\"" then Selected(rest, s, open + [s.level == "MACROS"])
      else if line == "!if \"$(MOZ_BITS)\" != \"16\"" then Selected(rest, s, open + [s.bits != "16"])
      else if line == "!endif" then Selected(rest, s, if open == [] then [] else open[..|open| - 1])
      else (if line != "" && AllHold(open) then line + "\n" else "") + Selected(rest, s, open)
  }

  /** The macros without LINCS. */
  ghost function ForWin16(ms: seq<Macro>): seq<Macro> {
    if ms == [] then []
    else ForWin16(ms[..|ms| - 1]) + if ms[|ms| - 1].name == "LINCS" then [] else [ms[|ms| - 1]]
  }

  // --- One line ----------------------------------------------------------------------------------

  lemma OneLine(line: string, rest: string)
    requires '\n' !in line
    ensures var t := line + ("\n" + rest); t != "" && LineOf(t) == line && NextLines(t) == rest
  {
    var t := line + ("\n" + rest);
    ToItsEnd(line, "\n" + rest);
    assert t[..|line|] == line && ("\n" + rest)[1..] == rest;
  }

  predicate Plain(line: string) {
    && line != "" && line != "!endif"
    && line != "!if \"$(MANIFEST_LEVEL)\"==\"MACROS\"" && line != "!if \"$(MOZ_BITS)\" != \"16\""
  }

  /** The text consists of whole lines that are no directives and not empty. */
  ghost predicate Block(t: string)
    decreases |t|
  {
    t == "" || (ToNewline(t) != "" && Plain(LineOf(t)) && Block(NextLines(t)))
  }

  lemma PlainLine(line: string, rest: string, s: Setting, open: seq<bool>)
    requires '\n' !in line && Plain(line)
    ensures Selected(line + ("\n" + rest), s, open)
            == (if AllHold(open) then line + "\n" else "") + Selected(rest, s, open)
  {
    OneLine(line, rest);
  }

  lemma LineSplit(t: string)
    requires ToNewline(t) != ""
    ensures t == LineOf(t) + ("\n" + NextLines(t)) && '\n' !in LineOf(t)
  {
    assert t == LineOf(t) + t[|t| - |ToNewline(t)|..];
    UpToNewline(t);
  }

  lemma {:induction false} UpToNewline(t: string)
    ensures '\n' !in t[..|t| - |ToNewline(t)|] && t[|t| - |ToNewline(t)|..] == ToNewline(t)
  {
    if t != "" && t[0] != '\n' {
      UpToNewline(t[1..]);
      var n := |t| - |ToNewline(t)|;
      assert t[..n] == [t[0]] + t[1..][..n - 1] && t[n..] == t[1..][n - 1..];
    }
  }

  lemma {:induction false} BlockSelected(x: string, rest: string, s: Setting, open: seq<bool>)
    requires Block(x)
    ensures Selected(x + rest, s, open) == (if AllHold(open) then x else "") + Selected(rest, s, open)
    decreases |x|
  {
    hide Selected, AllHold;
    if x == "" {
      assert x + rest == rest;
    } else {
      var line, more := LineOf(x), NextLines(x);
      LineSplit(x);
      assert x + rest == line + ("\n" + (more + rest));
      PlainLine(line, more + rest, s, open);
      BlockSelected(more, rest, s, open);
    }
  }

  // --- The lines of a macro ----------------------------------------------------------------------

  /** However the line goes on it is no directive. */
  ghost predicate Begun(p: string) {
    && '\n' !in p && p != ""
    && (p[0] == ' ' || exists n :: NamesAt(p, n))
  }

  /** A name without white space and its equals sign. */
  ghost predicate NamesAt(p: string, n: int) {
    0 <= n < |p| && p[n] == '=' && forall i | 0 <= i < n :: !IsSpace(p[i])
  }

  lemma NotDirective(p: string, d: string, i: nat)
    requires Begun(p) && d != "" && d[0] != ' '
    requires i <= |d| && (forall j | 0 <= j < i :: d[j] != '=') && (i < |d| ==> IsSpace(d[i]))
    ensures p != d
  {
  }

  lemma BegunIsPlain(p: string)
    requires Begun(p)
    ensures Plain(p)
  {
    hide Begun;
    NotDirective(p, "!endif", 6);
    NotDirective(p, "!if \"$(MANIFEST_LEVEL)\"==\"MACROS\"", 3);
    NotDirective(p, "!if \"$(MOZ_BITS)\" != \"16\"", 3);
    BegunNotEmpty(p);
  }

  lemma BegunNotEmpty(p: string)
    requires Begun(p)
    ensures p != ""
  {
  }

  lemma BegunMore(p: string, q: string)
    requires Begun(p) && '\n' !in q
    ensures Begun(p + q)
  {
    if n :| NamesAt(p, n) {
      assert NamesAt(p + q, n);
    }
  }

  lemma NoNewline(v: string)
    requires NoSpace(v)
    ensures '\n' !in v
  {
  }

  lemma BlockStarts(line: string, rest: string)
    requires Begun(line) && Block(rest)
    ensures Block(line + ("\n" + rest))
  {
    OneLine(line, rest);
    BegunIsPlain(line);
    ToItsEnd(line, "\n" + rest);
  }

  lemma {:induction false} ValuesBlock(p: string, values: seq<string>, col: nat)
    requires forall i | 0 <= i < |values| :: NoSpace(values[i])
    requires if col == 0 then p == "" && values != [] else Begun(p)
    ensures Block(p + (ValuesText(values, col) + "\n"))
    decreases |values|, col
  {
    hide Block, Begun;
    var text := ValuesText(values, col) + "\n";
    if values == [] {
      assert text == "\n" + "";
      NothingIsBlock();
      BlockStarts(p, "");
    } else if col > 0 && col + |values[0]| > 72 {
      var more := ValuesText(values, 0) + "\n";
      assert p + text == (p + "\\") + ("\n" + ("" + more));
      BegunMore(p, "\\");
      ValuesBlock("", values, 0);
      BlockStarts(p + "\\", "" + more);
    } else {
      var v, next := values[0], if col == 0 then |values[0]| + 5 else col + |values[0]| + 1;
      var more := ValuesText(values[1..], next) + "\n";
      NoNewline(v);
      if col == 0 {
        Indented();
        assert p + text == ("    " + (v + " ")) + more;
        BegunMore("    ", v + " ");
        ValuesBlock("    " + (v + " "), values[1..], next);
      } else {
        assert p + text == (p + (v + " ")) + more;
        BegunMore(p, v + " ");
        ValuesBlock(p + (v + " "), values[1..], next);
      }
    }
  }

  lemma NothingIsBlock()
    ensures Block("")
  {
  }

  lemma Indented()
    ensures Begun("    ")
  {
  }

  lemma MacroBlock(m: Macro)
    requires GoodMacro(m)
    ensures Block(MacroText(m))
  {
    hide Block, ValuesText, GoodValue;
    var p := m.name + "=";
    assert NamesAt(p, |m.name|);
    NoNewline(m.name);
    forall i | 0 <= i < |m.values| ensures NoSpace(m.values[i]) {
      GoodIsWord(m.values[i]);
    }
    ValuesBlock(p, m.values, |m.name| + 1);
    assert MacroText(m) == p + (ValuesText(m.values, |m.name| + 1) + "\n");
  }

  // --- The file ----------------------------------------------------------------------------------

  /** What is selected of one macro, within the guard round the whole list. */
  lemma GuardedSelected(m: Macro, rest: string, s: Setting, level: bool)
    requires GoodMacro(m)
    ensures Selected(Guarded(m) + rest, s, [level])
            == (if level && !(m.name == "LINCS" && s.bits == "16") then MacroText(m) else "")
               + Selected(rest, s, [level])
  {
    hide Selected, Block, MacroText, GoodMacro, AllHold;
    MacroBlock(m);
    HoldBoth(level, s.bits != "16");
    if m.name == "LINCS" {
      var bits := "!if \"$(MOZ_BITS)\" != \"16\"";
      assert Guarded(m) + rest == bits + ("\n" + (MacroText(m) + ("!endif" + ("\n" + rest))));
      OpenBits(MacroText(m) + ("!endif" + ("\n" + rest)), s, [level]);
      assert [level] + [s.bits != "16"] == [level, s.bits != "16"];
      BlockSelected(MacroText(m), "!endif" + ("\n" + rest), s, [level, s.bits != "16"]);
      CloseOne(rest, s, [level, s.bits != "16"]);
      assert [level, s.bits != "16"][..1] == [level];
    } else {
      BlockSelected(MacroText(m), rest, s, [level]);
    }
  }

  lemma HoldBoth(a: bool, b: bool)
    ensures AllHold([a]) == a && AllHold([a, b]) == (a && b)
  {
    assert [a][0] == a && [a, b][0] == a && [a, b][1] == b;
  }

  lemma OpenBits(rest: string, s: Setting, open: seq<bool>)
    ensures Selected("!if \"$(MOZ_BITS)\" != \"16\"" + ("\n" + rest), s, open)
            == Selected(rest, s, open + [s.bits != "16"])
  {
    OneLine("!if \"$(MOZ_BITS)\" != \"16\"", rest);
    assert |"!if \"$(MOZ_BITS)\" != \"16\""| != |"!if \"$(MANIFEST_LEVEL)\"==\"MACROS\""|;
  }

  lemma OpenLevel(rest: string, s: Setting, open: seq<bool>)
    ensures Selected("!if \"$(MANIFEST_LEVEL)\"==\"MACROS\"" + ("\n" + rest), s, open)
            == Selected(rest, s, open + [s.level == "MACROS"])
  {
    OneLine("!if \"$(MANIFEST_LEVEL)\"==\"MACROS\"", rest);
  }

  lemma CloseOne(rest: string, s: Setting, open: seq<bool>)
    requires open != []
    ensures Selected("!endif" + ("\n" + rest), s, open) == Selected(rest, s, open[..|open| - 1])
  {
    OneLine("!endif", rest);
    assert |"!endif"| == 6;
  }

  lemma EmptyLine(rest: string, s: Setting, open: seq<bool>)
    ensures Selected("\n" + rest, s, open) == Selected(rest, s, open)
  {
    OneLine("", rest);
    assert "" + ("\n" + rest) == "\n" + rest;
  }

  ghost function Kept(ms: seq<Macro>, s: Setting): seq<Macro> {
    if s.bits == "16" then ForWin16(ms) else ms
  }

  lemma {:induction false} MacrosAppend(a: seq<Macro>, b: seq<Macro>)
    ensures MacrosText(a + b) == MacrosText(a) + MacrosText(b)
  {
    if a == [] {
      assert a + b == b;
    } else {
      assert (a + b)[1..] == a[1..] + b;
      MacrosAppend(a[1..], b);
    }
  }

  lemma KeptMore(ms: seq<Macro>, s: Setting)
    requires ms != []
    ensures var m, before := ms[|ms| - 1], ms[..|ms| - 1];
            Kept(ms, s) == Kept(before, s) + if m.name == "LINCS" && s.bits == "16" then [] else [m]
  {
  }

  lemma OneMacro(m: Macro)
    ensures MacrosText([m]) == MacroText(m) && MacrosText([]) == ""
  {
    assert [m][1..] == [];
    assert MacroText(m) + "" == MacroText(m);
  }

  lemma {:induction false} ListSelected(ms: seq<Macro>, rest: string, s: Setting, level: bool)
    requires forall i | 0 <= i < |ms| :: GoodMacro(ms[i])
    ensures Selected(GuardedText(ms) + rest, s, [level])
            == (if level then MacrosText(Kept(ms, s)) else "") + Selected(rest, s, [level])
    decreases |ms|
  {
    hide Selected, Guarded, GuardedText, MacroText, GoodMacro, Kept, MacrosText;
    if ms == [] {
      GuardedNone(rest);
      NoneKept(s);
    } else {
      var m, before := ms[|ms| - 1], ms[..|ms| - 1];
      GuardedMore(ms, rest);
      ListSelected(before, Guarded(m) + rest, s, level);
      GuardedSelected(m, rest, s, level);
      KeptMore(ms, s);
      OneMacro(m);
      MacrosAppend(Kept(before, s), if m.name == "LINCS" && s.bits == "16" then [] else [m]);
    }
  }

  lemma GuardedMore(ms: seq<Macro>, rest: string)
    requires ms != []
    ensures GuardedText(ms) + rest == GuardedText(ms[..|ms| - 1]) + (Guarded(ms[|ms| - 1]) + rest)
  {
    hide Guarded;
  }

  lemma GuardedNone(rest: string)
    ensures GuardedText([]) + rest == rest
  {
  }

  lemma NoneKept(s: Setting)
    ensures MacrosText(Kept([], s)) == ""
  {
  }

  /** Make sees the macros, in order, only on the macro level, and LINCS only where the word size is not 16 bits. */
  lemma FileSelected(ms: seq<Macro>, s: Setting)
    requires forall i | 0 <= i < |ms| :: GoodMacro(ms[i])
    ensures Selected(FileText(ms), s, [])
            == if s.level != "MACROS" then "" else MacrosText(if s.bits == "16" then ForWin16(ms) else ms)
  {
    hide Selected, GuardedText, MacrosText, GoodMacro;
    if ms == [] {
      NothingWritten(s);
    } else {
      var level, body := s.level == "MACROS", GuardedText(ms);
      var end := "\n" + ("!endif" + ("\n" + ""));
      assert "\n" + "" == "\n";
      EmptyLine("!if \"$(MANIFEST_LEVEL)\"==\"MACROS\"" + ("\n" + (body + end)), s, []);
      OpenLevel(body + end, s, []);
      assert [] + [level] == [level];
      ListSelected(ms, end, s, level);
      EmptyLine("!endif" + ("\n" + ""), s, [level]);
      CloseOne("", s, [level]);
      NothingSelected(s);
    }
  }

  lemma NothingWritten(s: Setting)
    ensures FileText([]) == "" && Selected("", s, []) == "" && MacrosText(Kept([], s)) == "" && Kept([], s) == []
  {
  }

  lemma NothingSelected(s: Setting)
    ensures forall open :: Selected("", s, open) == ""
  {
  }

  lemma {:induction false} ForWin16Good(ms: seq<Macro>)
    requires forall i | 0 <= i < |ms| :: GoodMacro(ms[i])
    ensures forall m | m in ForWin16(ms) :: GoodMacro(m)
    ensures forall m :: m in ForWin16(ms) <==> m in ms && m.name != "LINCS"
    decreases |ms|
  {
    hide GoodMacro;
    if ms != [] {
      ForWin16Good(ms[..|ms| - 1]);
      assert ms == ms[..|ms| - 1] + [ms[|ms| - 1]];
    }
  }

  /** So what extract_macros finds in what make sees are the macros that were written. */
  lemma FileRoundTrip(ms: seq<Macro>, s: Setting)
    requires forall i | 0 <= i < |ms| :: GoodMacro(ms[i])
    ensures Extract(Selected(FileText(ms), s, []))
            == if s.level != "MACROS" then [] else if s.bits == "16" then ForWin16(ms) else ms
  {
    hide Selected, FileText, GoodMacro, MacrosText;
    FileSelected(ms, s);
    ForWin16Good(ms);
    if s.level != "MACROS" {
      NothingExtracted();
    } else {
      ManifestRoundTrip.ManifestRoundTrip(if s.bits == "16" then ForWin16(ms) else ms);
    }
  }

  lemma NothingExtracted()
    ensures Extract("") == []
  {
    assert Trim("") == "" && MacroStart("") == "" && MacroEnd("", 0) == None;
  }
}
