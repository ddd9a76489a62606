/** The scanner that finds logical lines and the one that reads values see the same line ends. */
module ManifestAgree {
  import opened CText
  import opened Manifest

  /** The first thing that is not white space comes before any newline, or not at all. */
  predicate Harmless(t: string) {
    t == "" || !IsSpace(t[0]) || (t[0] != '\n' && Harmless(t[1..]))
  }

  /** Then it does not matter how many backslashes were counted before. */
  lemma {:induction false} HarmlessCount(t: string, a: nat, b: nat)
    requires Harmless(t)
    ensures MacroEnd(t, a) == MacroEnd(t, b)
  {
    if t != "" && t[0] == '\\' {
      CountedContinues(t[1..], a + 1, b + 1);
    } else if t != "" && IsSpace(t[0]) {
      HarmlessCount(t[1..], a, b);
    }
  }

  /** Once a backslash has been counted more of them make no difference. */
  lemma {:induction false} CountedContinues(t: string, a: nat, b: nat)
    requires a > 0 && b > 0
    ensures MacroEnd(t, a) == MacroEnd(t, b)
  {
    if t != "" {
      if t[0] == '\\' {
        CountedContinues(t[1..], a + 1, b + 1);
      } else if IsSpace(t[0]) && t[0] != '\n' {
        CountedContinues(t[1..], a, b);
      }
    }
  }

  lemma {:induction false} NotEndsLine(t: string)
    requires !EndsLine(t)
    ensures Harmless(t)
  {
    if t != "" && IsSpace(t[0]) {
      NotEndsLine(t[1..]);
    }
  }

  /** The line end does not move when a value is read over. */
  lemma {:induction false} ValueKeepsEnd(v: string, b: nat)
    requires b == 0 || Harmless(v)
    ensures MacroEnd(v, b) == MacroEnd(AfterValue(v), 0)
  {
    if ValueStops(v) {
      if b > 0 {
        HarmlessCount(v, b, 0);
      }
    } else if v[0] == '\\' {
      NotEndsLine(v[1..]);
      ValueKeepsEnd(v[1..], b + 1);
    } else {
      ValueKeepsEnd(v[1..], 0);
    }
  }

  /** The search for a value sees the same line end, and stepping back does not cross a newline. */
  lemma {:induction false} SearchKeepsEnd(t: string, bs: nat)
    ensures match FindStart(t, bs)
            case End(off) => MacroEnd(t, bs) == Some(t[off + 1..])
            case Eof => MacroEnd(t, bs) == None
            case Value(off) => off >= 0 ==> MacroEnd(t, bs) == MacroEnd(t[off..], 0)
    ensures var r := FindStart(t, bs); r.Value? && r.off < 0 ==> Harmless(t)
  {
    if t != "" {
      var tail := t[1..];
      assert t[0..] == t;
      if t[0] == '\\' {
        SearchKeepsEnd(tail, bs + 1);
        if FindStart(tail, bs + 1) == Value(-1) {
          HarmlessCount(tail, bs + 1, 1);
        }
      } else if t[0] == '\n' && bs > 0 {
        SearchKeepsEnd(tail, 0);
      } else if IsSpace(t[0]) && t[0] != '\n' {
        SearchKeepsEnd(tail, bs);
        if FindStart(tail, bs) == Value(-1) {
          HarmlessCount(tail, bs, 0);
        }
      }
    }
  }

  /** No line can end before the next newline. */
  lemma {:induction false} NoEndBeforeNewline(t: string, b: nat)
    ensures match MacroEnd(t, b)
            case None => true
            case Some(w) => ToNewline(t) != "" && |w| < |ToNewline(t)|
  {
    if t != "" && t[0] != '\n' {
      NoEndBeforeNewline(t[1..], if t[0] == '\\' then b + 1 else if IsSpace(t[0]) then b else 0);
    }
  }

  /** Where add_values meets a value that starts with '#', if it does; the rest of that line is a comment. */
  function Comment(t: string): Option<string>
    decreases |t|
  {
    var r := FindStart(t, 0);
    if !r.Value? then None
    else
      RoundAdvances(t);
      var v := t[r.off..];
      if v[0] == '#' then Some(v) else Comment(AfterValue(v))
  }

  /** The text from a stop on, as an end of line: what follows the newline. */
  function Stopped(t: string): Option<string> {
    if t == "" then None else Some(t[1..])
  }

  /** From where values begin, add_values never goes past the end of the logical line; it stops exactly there
      unless it meets a comment on a line that is continued. */
  lemma {:induction false} ScannersAgree(t: string)
    ensures match MacroEnd(t, 0)
            case None => true
            case Some(w) => Stop(t) != "" && |w| < |Stop(t)|
    ensures Stopped(Stop(t)) == MacroEnd(t, 0)
            <==> Comment(t) == None || Stopped(ToNewline(Comment(t).value)) == MacroEnd(Comment(t).value, 0)
    decreases |t|
  {
    SearchKeepsEnd(t, 0);
    match FindStart(t, 0)
    case End(off) =>
    case Eof =>
    case Value(off) =>
      RoundAdvances(t);
      var v := t[off..];
      if v[0] == '#' {
        NoEndBeforeNewline(v, 0);
        StopAtNewline(v);
      } else {
        ValueKeepsEnd(v, 0);
        ScannersAgree(AfterValue(v));
      }
  }

  lemma StopAtNewline(v: string)
    ensures Stop(ToNewline(v)) == ToNewline(v)
  {
    var u := ToNewline(v);
    assert u != "" ==> FindStart(u, 0) == End(0) && u[0..] == u;
  }

  // --- From the macro to its values --------------------------------------------------------------

  /** The logical line that starts at m has an '=' of its own. */
  predicate OwnEquals(m: string) {
    AfterEquals(m).Some?
    && (MacroEnd(m, 0).Some? ==> |AfterEquals(m).value| > |MacroEnd(m, 0).value|)
  }

  lemma {:induction false} EqualsInLine(m: string, b: nat)
    requires AfterEquals(m).Some?
    requires MacroEnd(m, b).Some? ==> |AfterEquals(m).value| > |MacroEnd(m, b).value|
    ensures MacroEnd(m, b) == MacroEnd(AfterEquals(m).value, 0)
  {
    if m[0] != '=' {
      EqualsShorter(m[1..]);
      EqualsInLine(m[1..], if m[0] == '\\' then b + 1 else if IsSpace(m[0]) && m[0] != '\n' then b else 0);
    }
  }

  lemma EqualsShorter(m: string)
    ensures AfterEquals(m).Some? ==> |AfterEquals(m).value| < |m|
  {
  }

  lemma {:induction false} EqualsBeyondLine(m: string, b: nat)
    requires MacroEnd(m, b).Some?
    requires AfterEquals(m).Some? ==> |AfterEquals(m).value| <= |MacroEnd(m, b).value|
    ensures AfterEquals(m) == AfterEquals(MacroEnd(m, b).value)
  {
    if !(m[0] == '\n' && b == 0) {
      EqualsBeyondLine(m[1..], if m[0] == '\\' then b + 1 else if IsSpace(m[0]) && m[0] != '\n' then b else 0);
    }
  }

  /** add_macro reads values from its own logical line exactly when that line has an '='. Then it stays within
      the line, and stops at its end unless a comment intervenes on a continued line; otherwise the macro gets
      the values of the next line that has one, if any. */
  lemma MacroReadsItsLine(m: string)
    ensures OwnEquals(m) ==>
              var q := AfterEquals(m).value;
              && MacroEnd(q, 0) == MacroEnd(m, 0)
              && (MacroEnd(m, 0).Some? ==> Stop(q) != "" && |MacroEnd(m, 0).value| < |Stop(q)|)
              && (Comment(q) == None ==> Stopped(Stop(q)) == MacroEnd(m, 0))
    ensures !OwnEquals(m) ==>
              MacroOf(m).values == match MacroEnd(m, 0) case None => [] case Some(w) => MacroOf(w).values
  {
    if OwnEquals(m) {
      EqualsInLine(m, 0);
      ScannersAgree(AfterEquals(m).value);
    } else if MacroEnd(m, 0).Some? {
      EqualsBeyondLine(m, 0);
    }
  }

  // --- Where the scanners surprise ---------------------------------------------------------------

  /** A line without '=' takes the values of the next one, which keeps them too. */
  lemma MissingEqualsBorrows()
    ensures !OwnEquals("A\nB=x\n") && Extract("A\nB=x\n") == [Macro("A", ["x"]), Macro("B", ["x"])]
  {
    var t, u, v := "A\nB=x\n", "B=x\n", "x\n";
    assert t[1..] == "\nB=x\n" && t[1..][1..] == u && u[1..] == "=x\n" && u[1..][1..] == v && v[1..] == "\n";
    assert v[1..][1..] == "";
    OneValue(v);
    assert NameOf(t[1..]) == "" && NameOf(u[1..]) == "";
    assert AfterEquals(u[1..]) == Some(v) && AfterEquals(u) == Some(v);
    assert AfterEquals(t[1..]) == AfterEquals(u);
    assert MacroOf(t) == Macro("A", ["x"]) && MacroOf(u) == Macro("B", ["x"]);
    assert MacroEnd(t[1..], 0) == Some(u) && MacroEnd(t, 0) == Some(u);
    assert MacroEnd(v[1..], 0) == Some("") && MacroEnd(v, 0) == Some("") && MacroEnd(u[1..], 0) == Some("");
    assert MacroEnd(u, 0) == Some("") && MacroStart(t) == t && MacroStart(u) == u;
    assert MacroStart("") == "" && MacroEnd("", 0) == None && Extract("") == [];
    assert Extract(u) == [MacroOf(u)] + [];
    assert Extract(t) == [MacroOf(t)] + Extract(u);
  }

  lemma OneValue(v: string)
    requires v == "x\n"
    ensures Values(v) == ["x"]
  {
    assert v[1..] == "\n" && v[0..] == v;
    assert FindStart(v, 0) == Value(0);
    assert ValueOf(v[1..]) == "" && AfterValue(v[1..]) == v[1..];
    assert ValueOf(v) == "x" && AfterValue(v) == v[1..];
    assert FindStart(v[1..], 0) == End(0) && Values(v[1..]) == [];
  }

  /** A comment ends the values at its newline although a backslash continues the line. */
  lemma CommentCutsLineShort()
    ensures Comment("#\\\n\n") == Some("#\\\n\n")
    ensures Stop("#\\\n\n") == "\n\n" && MacroEnd("#\\\n\n", 0) == Some("")
  {
    var t := "#\\\n\n";
    assert t[0..] == t && t[1..] == "\\\n\n" && t[1..][1..] == "\n\n" && t[1..][1..][1..] == "\n";
    assert t[1..][1..][1..][1..] == "";
    assert FindStart(t, 0) == Value(0) && IsSpace('\n');
    assert ToNewline(t[1..][1..]) == "\n\n" && ToNewline(t[1..]) == "\n\n" && ToNewline(t) == "\n\n";
    StopAtNewline(t);
    assert MacroEnd("\n", 0) == Some("") && MacroEnd("\n\n", 1) == Some("");
    assert MacroEnd(t[1..], 0) == Some("");
  }
}
