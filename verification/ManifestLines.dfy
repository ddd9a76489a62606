/** Where the scanners of the manifest compiler find a line end, a value and a name, told by the characters of the text;
    and what comments and $(NULL) come to. */
module ManifestLines {
  import opened CText
  import opened Manifest
  import opened ManifestRoundTrip

  /** White space within a line. */
  predicate Soft(c: char) {
    IsSpace(c) && c != '\n'
  }

  // --- Line ends ---------------------------------------------------------------------------------

  /** Only white space separates place k of the text from a backslash before it, or from the beginning if a backslash was
      counted there. */
  ghost predicate ContinuedFrom(t: string, k: nat, bs: nat)
    requires k <= |t|
  {
    (exists j :: BackslashAt(t, j, k)) || (bs > 0 && forall i | 0 <= i < k :: Soft(t[i]))
  }

  ghost predicate BackslashAt(t: string, j: int, k: nat)
    requires k <= |t|
  {
    0 <= j < k && t[j] == '\\' && forall i | j < i < k :: Soft(t[i])
  }

  /** Newline k is continued: the last character before it that is not white space, on its own line, is a backslash. */
  ghost predicate Continued(t: string, k: nat)
    requires k <= |t|
  {
    exists j :: BackslashAt(t, j, k)
  }

  function Counted(c: char, bs: nat): nat {
    if c == '\\' then bs + 1 else if Soft(c) then bs else 0
  }

  lemma ContinuedStep(t: string, k: nat, bs: nat)
    requires k < |t|
    ensures ContinuedFrom(t, k + 1, bs) <==> ContinuedFrom(t[1..], k, Counted(t[0], bs))
  {
    var u, n := t[1..], k + 1;
    assert forall i | 0 <= i < k :: u[i] == t[i + 1];
    assert forall i | 0 < i < n :: t[i] == u[i - 1];
    if j :| BackslashAt(t, j, n) {
      if j > 0 {
        SameBackslash(t, j - 1, k);
      }
    }
    if j :| BackslashAt(u, j, k) {
      SameBackslash(t, j, k);
    }
    assert t[0] == '\\' && (forall i | 0 <= i < k :: Soft(u[i])) ==> BackslashAt(t, 0, n);
  }

  lemma SameBackslash(t: string, j: int, k: nat)
    requires 0 <= j && k < |t|
    ensures BackslashAt(t, j + 1, k + 1) <==> BackslashAt(t[1..], j, k)
  {
    var u := t[1..];
    assert forall i | 0 <= i < k :: u[i] == t[i + 1];
    assert forall i | 0 < i < k + 1 :: t[i] == u[i - 1];
  }

  /** Newline k ends the line and no newline before it does. */
  ghost predicate EndsAt(t: string, k: nat, bs: nat) {
    && k < |t| && t[k] == '\n' && !ContinuedFrom(t, k, bs)
    && forall i | 0 <= i < k && t[i] == '\n' :: ContinuedFrom(t, i, bs)
  }

  ghost predicate EndIs(t: string, bs: nat, r: Option<string>) {
    && (r.None? ==> forall k | 0 <= k < |t| && t[k] == '\n' :: ContinuedFrom(t, k, bs))
    && (r.Some? ==> |r.value| < |t| && r.value == t[|t| - |r.value|..] && EndsAt(t, |t| - |r.value| - 1, bs))
  }

  lemma EndOne(t: string, bs: nat, r: Option<string>)
    requires t != "" && (t[0] != '\n' || bs > 0) && EndIs(t[1..], Counted(t[0], bs), r)
    ensures EndIs(t, bs, r)
  {
    hide ContinuedFrom;
    var u, bs' := t[1..], Counted(t[0], bs);
    AtBeginning(t, bs);
    forall k | 0 < k < |t| ensures t[k] == u[k - 1] && (ContinuedFrom(t, k, bs) <==> ContinuedFrom(u, k - 1, bs')) {
      ContinuedStep(t, k - 1, bs);
    }
  }

  lemma AtBeginning(t: string, bs: nat)
    ensures ContinuedFrom(t, 0, bs) <==> bs > 0
  {
  }

  lemma {:induction false} EndFrom(t: string, bs: nat)
    ensures EndIs(t, bs, MacroEnd(t, bs))
  {
    hide EndIs;
    if t == "" {
      EndNowhere(bs);
    } else if t[0] == '\n' && bs == 0 {
      EndsAtOnce(t);
    } else {
      EndFrom(t[1..], Counted(t[0], bs));
      EndOne(t, bs, MacroEnd(t, bs));
    }
  }

  lemma EndNowhere(bs: nat)
    ensures EndIs("", bs, None)
  {
  }

  lemma EndsAtOnce(t: string)
    requires t != "" && t[0] == '\n'
    ensures EndIs(t, 0, Some(t[1..]))
  {
    AtBeginning(t, 0);
  }

  /** A logical line ends at its first newline that is not continued. */
  lemma LineEndExactly(t: string)
    ensures match MacroEnd(t, 0)
            case None => forall k | 0 <= k < |t| && t[k] == '\n' :: Continued(t, k)
            case Some(w) =>
              var end := |t| - |w| - 1;
              && 0 <= end < |t| && w == t[end + 1..] && t[end] == '\n' && !Continued(t, end)
              && forall k | 0 <= k < end && t[k] == '\n' :: Continued(t, k)
  {
    hide MacroEnd, BackslashAt;
    EndFrom(t, 0);
  }

  // --- Where a value starts ----------------------------------------------------------------------

  /** The backslashes on the line of place k, in front of it; bs is their number at the beginning. */
  ghost function Backslashes(t: string, k: nat, bs: nat): nat
    requires k <= |t|
  {
    if k == 0 then bs
    else if t[k - 1] == '\\' then Backslashes(t, k - 1, bs) + 1
    else if t[k - 1] == '\n' then 0
    else Backslashes(t, k - 1, bs)
  }

  /** In front of place k there are only white space and backslashes, and a backslash on every line that ends. */
  ghost predicate Passed(t: string, k: nat, bs: nat)
    requires k <= |t|
  {
    forall i | 0 <= i < k :: Soft(t[i]) || t[i] == '\\' || (t[i] == '\n' && Backslashes(t, i, bs) > 0)
  }

  lemma {:induction false} BackslashesStep(t: string, k: nat, bs: nat)
    requires k < |t|
    ensures Backslashes(t, k + 1, bs)
            == Backslashes(t[1..], k, if t[0] == '\\' then bs + 1 else if t[0] == '\n' then 0 else bs)
  {
    if k > 0 {
      BackslashesStep(t, k - 1, bs);
    } else {
      assert Backslashes(t, 0, bs) == bs;
    }
  }

  lemma PassedStep(t: string, k: nat, bs: nat)
    requires k < |t|
    ensures var bs' := if t[0] == '\\' then bs + 1 else if t[0] == '\n' then 0 else bs;
            Passed(t, k + 1, bs)
            <==> (Soft(t[0]) || t[0] == '\\' || (t[0] == '\n' && bs > 0)) && Passed(t[1..], k, bs')
  {
    var u, bs' := t[1..], if t[0] == '\\' then bs + 1 else if t[0] == '\n' then 0 else bs;
    assert Backslashes(t, 0, bs) == bs;
    forall i | 0 <= i < k ensures u[i] == t[i + 1] && Backslashes(u, i, bs') == Backslashes(t, i + 1, bs) {
      BackslashesStep(t, i, bs);
    }
    if Passed(u, k, bs') {
      forall i | 0 < i < k + 1
        ensures t[i] == u[i - 1] && Backslashes(u, i - 1, bs') == Backslashes(t, i, bs)
      {
        BackslashesStep(t, i - 1, bs);
      }
    }
  }

  ghost predicate StartsAt(t: string, k: nat, bs: nat, off: int) {
    && k < |t| && Passed(t, k, bs) && !IsSpace(t[k]) && t[k] != '\\'
    && off == k - Backslashes(t, k, bs)
  }

  ghost predicate StartIs(t: string, bs: nat, r: Scan) {
    && (r.Eof? ==> Passed(t, |t|, bs))
    && (r.End? ==> 0 <= r.off < |t| && Passed(t, r.off, bs) && t[r.off] == '\n' && Backslashes(t, r.off, bs) == 0)
    && (r.Value? ==> exists k: nat :: StartsAt(t, k, bs, r.off))
  }

  lemma {:induction false} StartFrom(t: string, bs: nat)
    ensures StartIs(t, bs, FindStart(t, bs))
  {
    if t == "" {
    } else if !IsSpace(t[0]) && t[0] != '\\' {
      assert StartsAt(t, 0, bs, 0 - bs);
    } else if t[0] == '\n' && bs == 0 {
    } else {
      var u, bs' := t[1..], if t[0] == '\\' then bs + 1 else if t[0] == '\n' then 0 else bs;
      StartFrom(u, bs');
      var r := FindStart(u, bs');
      if r.Eof? {
        PassedStep(t, |u|, bs);
      } else if r.End? {
        PassedStep(t, r.off, bs);
        BackslashesStep(t, r.off, bs);
      } else {
        var k: nat :| StartsAt(u, k, bs', r.off);
        PassedStep(t, k, bs);
        BackslashesStep(t, k, bs);
        assert StartsAt(t, k + 1, bs, r.off + 1);
      }
    }
  }

  /** The search passes white space, backslashes and continued line ends. It finds a value at the first other character,
      less as many places as that line has backslashes before it, and gives up at the first line end without one. */
  lemma SearchExactly(t: string)
    ensures var r := FindStart(t, 0);
            && (r.Eof? ==> Passed(t, |t|, 0))
            && (r.End? ==> 0 <= r.off < |t| && Passed(t, r.off, 0) && t[r.off] == '\n' && Backslashes(t, r.off, 0) == 0)
            && (r.Value? ==> exists k: nat :: StartsAt(t, k, 0, r.off))
  {
    StartFrom(t, 0);
  }

  // --- Names -------------------------------------------------------------------------------------

  /** A name reaches up to white space or an equals sign, and values begin behind the first equals sign, wherever it is. */
  lemma {:induction false} NameUpTo(name: string, rest: string)
    requires NoSpace(name) && '=' !in name && (rest == "" || rest[0] == '=' || IsSpace(rest[0]))
    ensures NameOf(name + rest) == name
  {
    var t := name + rest;
    if name == "" {
      assert t == rest;
    } else {
      assert t[1..] == name[1..] + rest;
      NameUpTo(name[1..], rest);
    }
  }

  lemma {:induction false} EqualsExactly(a: string, b: string)
    requires '=' !in a
    ensures AfterEquals(a) == None && AfterEquals(a + ("=" + b)) == Some(b)
  {
    var t := a + ("=" + b);
    if a == "" {
      assert t == "=" + b;
    } else {
      assert t[1..] == a[1..] + ("=" + b);
      EqualsExactly(a[1..], b);
    }
  }

  // --- Values ------------------------------------------------------------------------------------

  lemma {:induction false} PassSoft(x: string, rest: string, bs: nat)
    requires forall i | 0 <= i < |x| :: Soft(x[i])
    ensures FindStart(x + rest, bs) == Moved(FindStart(rest, bs), |x|)
  {
    if x == "" {
      assert x + rest == rest;
    } else {
      assert (x + rest)[1..] == x[1..] + rest;
      PassSoft(x[1..], rest, bs);
    }
  }

  lemma {:induction false} EndsSoft(x: string, rest: string)
    requires forall i | 0 <= i < |x| :: Soft(x[i])
    ensures EndsLine(x + ("\n" + rest))
  {
    if x == "" {
      assert x + ("\n" + rest) == "\n" + rest;
    } else {
      assert (x + ("\n" + rest))[1..] == x[1..] + ("\n" + rest);
      EndsSoft(x[1..], rest);
    }
  }

  /** A value reaches up to a backslash that only white space separates from the line end. */
  lemma {:induction false} ReadUpTo(v: string, x: string, rest: string)
    requires NoSpace(v) && forall i | 0 <= i < |x| :: Soft(x[i])
    ensures var end := "\\" + (x + ("\n" + rest));
            ValueOf(v + end) == v && AfterValue(v + end) == end
  {
    var end := "\\" + (x + ("\n" + rest));
    var t := v + end;
    if v == "" {
      assert t == end && t[1..] == x + ("\n" + rest);
      EndsSoft(x, rest);
    } else {
      assert t[1..] == v[1..] + end;
      assert t[1..][0] == if |v| > 1 then v[1] else '\\';
      ReadUpTo(v[1..], x, rest);
    }
  }

  /** A line that is continued right behind a value goes on with the next line's values. */
  lemma ValueAndContinuation(v: string, x: string, rest: string)
    requires GoodValue(v) && forall i | 0 <= i < |x| :: Soft(x[i])
    ensures Values(v + ("\\" + (x + ("\n" + rest)))) == [v] + Values(rest)
  {
    hide Values, FindStart;
    var end := "\\" + (x + ("\n" + rest));
    ReadUpTo(v, x, rest);
    OneValue(v, end);
    var front := "\\" + (x + "\n");
    assert end == front + rest;
    PassContinued(x, rest);
    PassOver(front, rest);
  }

  lemma PassContinued(x: string, rest: string)
    requires forall i | 0 <= i < |x| :: Soft(x[i])
    ensures FindStart(("\\" + (x + "\n")) + rest, 0) == Moved(FindStart(rest, 0), |x| + 2)
  {
    var end, line := ("\\" + (x + "\n")) + rest, "\n" + rest;
    PassSoft(x, line, 1);
    assert end[1..] == x + line && line[1..] == rest;
  }

  /** A value that ends its line is the last. */
  lemma ValueAndNewline(v: string, rest: string)
    requires GoodValue(v)
    ensures Values(v + ("\n" + rest)) == [v]
  {
    hide Values;
    ReadToSpace(v, "\n" + rest);
    OneValue(v, "\n" + rest);
    ReadEnd(rest);
  }

  lemma {:induction false} ReadToSpace(v: string, rest: string)
    requires NoSpace(v) && (v != "" ==> v[|v| - 1] != '\\') && rest != "" && IsSpace(rest[0])
    ensures ValueOf(v + rest) == v && AfterValue(v + rest) == rest
  {
    var t := v + rest;
    if v == "" {
      assert t == rest;
    } else {
      assert t[1..] == v[1..] + rest;
      if v[0] == '\\' {
        assert t[1..][0] == v[1];
      }
      ReadToSpace(v[1..], rest);
    }
  }

  lemma OneValue(v: string, rest: string)
    requires GoodValue(v) && ValueOf(v + rest) == v && AfterValue(v + rest) == rest
    requires rest != "" && (IsSpace(rest[0]) || rest[0] == '\\')
    ensures Values(v + rest) == [v] + Values(rest)
  {
    hide AfterValue, ValueOf;
    var t := v + rest;
    FindValue(v, rest, 0);
    assert t[0..] == t && t[0] == v[0];
    NotNull(v, rest);
  }

  // --- What yields nothing -----------------------------------------------------------------------

  /** A comment ends the values. */
  lemma CommentEndsValues(x: string, rest: string)
    requires forall i | 0 <= i < |x| :: Soft(x[i])
    ensures Values(x + ("#" + rest)) == []
  {
    var c := "#" + rest;
    PassSoft(x, c, 0);
    assert c[0..] == c && FindStart(c, 0) == Value(0);
    PassOver(x, c);
    var u := ToNewline(c);
    assert u != "" ==> FindStart(u, 0) == End(0);
  }

  /** A line of comment, and white space, before a text change nothing of what is extracted from it. */
  lemma CommentIgnored(blanks: string, comment: string, rest: string)
    requires Blank(blanks) && '\n' !in comment
    ensures Extract(blanks + ("#" + (comment + ("\n" + rest)))) == Extract(rest)
  {
    hide Extract, MacroStart;
    var line := "#" + (comment + ("\n" + rest));
    StartSkips(blanks, line);
    StartAfterComment(line, comment, rest);
    StartSkips("\n", rest);
    SameExtract(blanks + line, rest);
  }

  lemma StartSkips(blanks: string, t: string)
    requires Blank(blanks)
    ensures MacroStart(blanks + t) == MacroStart(t)
  {
    hide Trim;
    TrimSkips(blanks, t);
  }

  lemma StartAfterComment(line: string, comment: string, rest: string)
    requires line == "#" + (comment + ("\n" + rest)) && '\n' !in comment
    ensures MacroStart(line) == MacroStart("\n" + rest)
  {
    hide ToNewline;
    ToItsEnd("#" + comment, "\n" + rest);
    assert line == ("#" + comment) + ("\n" + rest);
    assert Trim(line) == line;
  }

  lemma SameExtract(t: string, u: string)
    requires MacroStart(t) == MacroStart(u)
    ensures Extract(t) == Extract(u)
  {
    hide MacroStart, MacroEnd, MacroOf;
  }

  lemma {:induction false} ToItsEnd(a: string, b: string)
    requires '\n' !in a && b != "" && b[0] == '\n'
    ensures ToNewline(a + b) == b
  {
    if a == "" {
      assert a + b == b;
    } else {
      assert (a + b)[1..] == a[1..] + b;
      ToItsEnd(a[1..], b);
    }
  }
}
