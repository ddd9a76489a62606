/** The lines of the data base as texts: what each form of line is taken for, however its fields are spaced. */
module GtsLines {
  import opened CText
  import opened GtsWorld
  import opened GtsDatabase
  import opened GtsRoundTrip

  lemma {:induction false} TrimParts(t: string) returns (blanks: string)
    ensures t == blanks + Trim(t) && Blank(blanks)
  {
    if t != "" && IsSpace(t[0]) {
      var rest := TrimParts(t[1..]);
      blanks := [t[0]] + rest;
      assert t == [t[0]] + (rest + Trim(t));
    } else {
      blanks := "";
      assert "" + t == t;
    }
  }

  lemma {:induction false} WordParts(t: string)
    ensures t == WordOf(t) + RestOf(t) && NoSpace(WordOf(t)) && (RestOf(t) != "" ==> IsSpace(RestOf(t)[0]))
  {
    if t != "" && !IsSpace(t[0]) {
      WordParts(t[1..]);
      assert t == [t[0]] + (WordOf(t[1..]) + RestOf(t[1..]));
    }
  }

  // --- The first two words -----------------------------------------------------------------------

  /** A line that does not start with '!': blanks, a name, white space, and more. */
  ghost predicate Named(s: string, blanks: string, name: string, sep: char, more: string) {
    && s == blanks + (name + ([sep] + more)) && s[0] != '!'
    && Blank(blanks) && Word(name) && IsSpace(sep)
  }

  lemma NamedLine(s: string, blanks: string, name: string, sep: char, more: string)
    requires Named(s, blanks, name, sep, more)
    ensures ParseLine(s) == TagFields(name, Trim(more))
  {
    var t := name + ([sep] + more);
    TrimSkips(blanks, t);
    assert t[0] == name[0] && Trim(t) == t;
    NextWord(name, [sep] + more);
    assert ([sep] + more)[1..] == more;
  }

  /** The line is a name and a tag, however they are spaced and whatever comes behind the tag's first character. */
  ghost predicate Tagged(s: string, blanks: string, name: string, sep: char, gap: string, tag: char, rest: string) {
    Named(s, blanks, name, sep, gap + ([tag] + rest)) && Blank(gap) && !IsSpace(tag)
  }

  lemma TaggedLine(s: string, blanks: string, name: string, sep: char, gap: string, tag: char, rest: string)
    requires Tagged(s, blanks, name, sep, gap, tag, rest)
    ensures tag in "GZI" ==> ParseLine(s) == Symbol(name, tag)
    ensures tag !in "GZIF" ==> ParseLine(s) == OldStyle(name)
    ensures tag == 'F' ==> !ParseLine(s).Symbol? && !ParseLine(s).OldStyle?
  {
    hide ParseLine, Named;
    NamedLine(s, blanks, name, sep, gap + ([tag] + rest));
    TrimSkips(gap, [tag] + rest);
    assert ([tag] + rest)[0] == tag;
  }

  lemma CommentsExactly(s: string)
    ensures ParseLine(s) == Comment <==> s != "" && s[0] == '!'
  {
  }

  /** A name and nothing behind the white space is a line in the old style. */
  lemma BareLine(s: string, blanks: string, name: string, sep: char, gap: string)
    requires Named(s, blanks, name, sep, gap) && Blank(gap)
    ensures ParseLine(s) == OldStyle(name)
  {
    NamedLine(s, blanks, name, sep, gap);
    TrimSkips(gap, "");
    assert gap + "" == gap;
  }

  /** A name that reaches to the end of the line is overrun, and so is a line of blanks. */
  lemma OverrunLine(blanks: string, name: string)
    requires Blank(blanks) && NoSpace(name) && (blanks + name != "" ==> (blanks + name)[0] != '!')
    ensures ParseLine(blanks + name) == Overrun
  {
    TrimSkips(blanks, name);
    NextWord(name, "");
    assert name + "" == name;
    assert name != "" ==> Trim(name) == name;
  }

  lemma NameParts(s: string) returns (blanks: string, more: string)
    requires s == "" || s[0] != '!'
    requires RestOf(Trim(s)) != ""
    ensures Named(s, blanks, WordOf(Trim(s)), RestOf(Trim(s))[0], more) && more == RestOf(Trim(s))[1..]
  {
    blanks := TrimParts(s);
    var t := Trim(s);
    WordParts(t);
    more := RestOf(t)[1..];
    assert RestOf(t) == [RestOf(t)[0]] + more;
  }

  /** Exactly the lines with a name and a tag G, Z or I are symbol lines. */
  lemma SymbolLinesExactly(s: string, name: string, tag: char)
    ensures ParseLine(s) == Symbol(name, tag)
            <==> tag in "GZI" && exists blanks, sep, gap, rest :: Tagged(s, blanks, name, sep, gap, tag, rest)
  {
    hide Named, Tagged;
    forall blanks, sep, gap, rest | Tagged(s, blanks, name, sep, gap, tag, rest) && tag in "GZI"
      ensures ParseLine(s) == Symbol(name, tag)
    {
      TaggedLine(s, blanks, name, sep, gap, tag, rest);
    }
    if ParseLine(s) == Symbol(name, tag) {
      SymbolParts(s);
    }
  }

  lemma SymbolParts(s: string)
    requires ParseLine(s).Symbol?
    ensures var line := ParseLine(s);
            line.tag in "GZI" && exists blanks, sep, gap, rest :: Tagged(s, blanks, line.name, sep, gap, line.tag, rest)
  {
    hide Named;
    var blanks, more := NameParts(s);
    var u, gap := Trim(more), "";
    gap := TrimParts(more);
    assert u == [u[0]] + u[1..];
    assert Tagged(s, blanks, WordOf(Trim(s)), RestOf(Trim(s))[0], gap, u[0], u[1..]);
  }

  // --- Source lines ------------------------------------------------------------------------------

  /** Three fields, each up to the next white space, and the arguments. */
  lemma FieldsParsed(name: string, directory: string, s1: char, savefile: string, s2: char, ctime: string, s3: char,
                     rest: string)
    requires NoSpace(directory) && NoSpace(savefile) && NoSpace(ctime) && IsSpace(s1) && IsSpace(s2) && IsSpace(s3)
    ensures var t := directory + ([s1] + (savefile + ([s2] + (ctime + ([s3] + rest)))));
            SourceFields(name, t) == match Args(rest, [])
                                     case None => Overrun
                                     case Some(args) => SourceLine(name, directory, savefile, ctime, args)
  {
    var t3 := ctime + ([s3] + rest);
    var t2 := savefile + ([s2] + t3);
    NextWord(directory, [s1] + t2);
    assert ([s1] + t2)[1..] == t2;
    NextWord(savefile, [s2] + t3);
    assert ([s2] + t3)[1..] == t3;
    NextWord(ctime, [s3] + rest);
    assert ([s3] + rest)[1..] == rest;
  }

  /** With fewer fields, each ended by white space, the line is overrun. */
  lemma FieldsMissing(name: string, directory: string, s1: char, savefile: string, s2: char, ctime: string)
    requires NoSpace(directory) && NoSpace(savefile) && NoSpace(ctime) && IsSpace(s1) && IsSpace(s2)
    ensures SourceFields(name, directory) == Overrun
    ensures SourceFields(name, directory + ([s1] + savefile)) == Overrun
    ensures SourceFields(name, directory + ([s1] + (savefile + ([s2] + ctime)))) == Overrun
  {
    NextWord(directory, "");
    assert directory + "" == directory;
    NextWord(directory, [s1] + savefile);
    assert ([s1] + savefile)[1..] == savefile;
    NextWord(savefile, "");
    assert savefile + "" == savefile;
    NextWord(directory, [s1] + (savefile + ([s2] + ctime)));
    assert ([s1] + (savefile + ([s2] + ctime)))[1..] == savefile + ([s2] + ctime);
    NextWord(savefile, [s2] + ctime);
    assert ([s2] + ctime)[1..] == ctime;
    NextWord(ctime, "");
    assert ctime + "" == ctime;
  }

  /** A tag that starts with F, which ends at the next white space, and the fields behind that. */
  lemma SourceLineParsed(s: string, blanks: string, name: string, sep: char, gap: string, tag: string, s0: char,
                         fields: string)
    requires Named(s, blanks, name, sep, gap + (tag + ([s0] + fields))) && Blank(gap)
    requires Word(tag) && tag[0] == 'F' && IsSpace(s0)
    ensures ParseLine(s) == SourceFields(name, fields)
  {
    hide ParseLine, Named, SourceFields;
    var t := tag + ([s0] + fields);
    NamedLine(s, blanks, name, sep, gap + t);
    TrimSkips(gap, t);
    assert t[0] == 'F' && Trim(t) == t;
    NextWord(tag, [s0] + fields);
    assert ([s0] + fields)[1..] == fields;
  }

  /** Words with white space in front of each. */
  ghost function Spread(gaps: seq<string>, words: seq<string>): string
    requires |gaps| == |words|
  {
    if words == [] then "" else gaps[0] + (words[0] + Spread(gaps[1..], words[1..]))
  }

  ghost predicate Spaced(gaps: seq<string>, words: seq<string>) {
    && |gaps| == |words| && (forall i | 0 <= i < |words| :: Blank(gaps[i]) && Word(words[i]))
    && forall i | 1 <= i < |gaps| :: gaps[i] != ""
  }

  /** One round of the argument loop. */
  lemma ArgRound(gap: string, word: string, more: string, found: seq<string>)
    requires Blank(gap) && Word(word) && (more != "" ==> IsSpace(more[0]))
    ensures Args(gap + (word + more), found)
            == if more != "" then Args(more[1..], found + [word])
               else if |found| + 1 <= 511 then Some(found + [word]) else None
  {
    var t := word + more;
    TrimSkips(gap, t);
    assert t[0] == word[0] && Trim(t) == t;
    NextWord(word, more);
  }

  lemma {:induction false} ArgsScan(gaps: seq<string>, words: seq<string>, end: string, found: seq<string>)
    requires Spaced(gaps, words) && Blank(end) && words != []
    ensures Args(Spread(gaps, words) + end, found)
            == if |end| <= 1 && |found| + |words| <= 511 then Some(found + words) else None
    decreases |words|
  {
    hide Args;
    var more := Spread(gaps[1..], words[1..]) + end;
    assert Spread(gaps, words) + end == gaps[0] + (words[0] + more);
    if |words| == 1 {
      assert more == end && found + [words[0]] == found + words;
      ArgRound(gaps[0], words[0], end, found);
      if end != "" {
        LastArg(end, found + words);
      }
    } else {
      MoreArgs(gaps, words, end);
      ArgRound(gaps[0], words[0], more, found);
      ArgsScan([gaps[1][1..]] + gaps[2..], words[1..], end, found + [words[0]]);
      assert found + [words[0]] + words[1..] == found + words;
    }
  }

  lemma MoreArgs(gaps: seq<string>, words: seq<string>, end: string)
    requires Spaced(gaps, words) && |words| > 1
    ensures var more := Spread(gaps[1..], words[1..]) + end;
            var gaps' := [gaps[1][1..]] + gaps[2..];
            more != "" && IsSpace(more[0]) && Spaced(gaps', words[1..]) && more[1..] == Spread(gaps', words[1..]) + end
  {
    var more := Spread(gaps[1..], words[1..]) + end;
    var gaps' := [gaps[1][1..]] + gaps[2..];
    var rest := words[1] + (Spread(gaps[2..], words[2..]) + end);
    assert gaps[1..][1..] == gaps[2..] && words[1..][1..] == words[2..] && gaps'[1..] == gaps[2..];
    assert more == gaps[1] + rest;
    assert more[1..] == gaps[1][1..] + rest;
    assert Spread(gaps', words[1..]) + end == gaps[1][1..] + rest;
  }

  lemma LastArg(end: string, found: seq<string>)
    requires Blank(end) && end != ""
    ensures Args(end[1..], found) == if |end| == 1 && |found| <= 511 then Some(found) else None
  {
    if |end| > 1 {
      TrimSkips(end[1..], "");
      assert end[1..] + "" == end[1..];
    }
  }

  /** Up to 511 arguments are read, however they are spaced, if at most one blank ends the line. */
  lemma ArgsExactly(gaps: seq<string>, words: seq<string>, end: string)
    requires Spaced(gaps, words) && Blank(end)
    ensures Args(Spread(gaps, words) + end, [])
            == if |words| <= 511 && (if words == [] then end == "" else |end| <= 1) then Some(words) else None
  {
    if words == [] {
      assert Spread(gaps, words) + end == end;
      TrimSkips(end, "");
      assert end + "" == end;
    } else {
      ArgsScan(gaps, words, end, []);
      assert [] + words == words;
    }
  }

  // --- The target --------------------------------------------------------------------------------

  /** "-o" and the argument behind it are taken out, wherever they are; the last target counts. */
  lemma {:induction false} TargetSplit(before: seq<string>, target: string, after: seq<string>)
    requires "-o" !in before
    ensures var (kept, last) := TakeTarget(after, 0, [], None);
            TakeTarget(before + ["-o", target] + after, 0, [], None)
            == (before + kept, if last.Some? then last else Some(target))
  {
    var front := before + ["-o", target];
    var args, n := front + after, |before|;
    Untouched(args, 0, n, [], None);
    assert [] + args[0..n] == before;
    assert args[n] == "-o" && args[n + 1] == target;
    TakeBehind(front, after, 0, before, Some(target));
    TakeShift(after, 0, before, Some(target));
  }

  /** What stands in front does not matter. */
  lemma {:induction false} TakeBehind(front: seq<string>, args: seq<string>, n: nat, kept: seq<string>,
                                      target: Option<string>)
    requires n <= |args|
    ensures TakeTarget(front + args, |front| + n, kept, target) == TakeTarget(args, n, kept, target)
    decreases |args| - n
  {
    var m := |front| + n;
    if n < |args| {
      assert (front + args)[m] == args[n];
      if args[n] == "-o" && n + 1 < |args| {
        assert (front + args)[m + 1] == args[n + 1];
        TakeBehind(front, args, n + 2, kept, Some(args[n + 1]));
      } else {
        TakeBehind(front, args, n + 1, kept + [args[n]], target);
      }
    }
  }

  lemma {:induction false} Untouched(args: seq<string>, n: nat, m: nat, kept: seq<string>, target: Option<string>)
    requires n <= m <= |args| && forall i | n <= i < m :: args[i] != "-o"
    ensures TakeTarget(args, n, kept, target) == TakeTarget(args, m, kept + args[n..m], target)
    decreases m - n
  {
    if n < m {
      Untouched(args, n + 1, m, kept + [args[n]], target);
      assert kept + [args[n]] + args[n + 1..m] == kept + args[n..m];
    } else {
      assert kept + args[n..m] == kept;
    }
  }

  /** What was kept before stays, and a target found before counts only if no other follows. */
  lemma {:induction false} TakeShift(args: seq<string>, n: nat, kept: seq<string>, target: Option<string>)
    requires n <= |args|
    ensures var (rest, last) := TakeTarget(args, n, [], None);
            TakeTarget(args, n, kept, target) == (kept + rest, if last.Some? then last else target)
    decreases |args| - n
  {
    if n == |args| {
      assert kept + [] == kept;
    } else if args[n] == "-o" && n + 1 < |args| {
      TakeShift(args, n + 2, kept, Some(args[n + 1]));
      TakeShift(args, n + 2, [], Some(args[n + 1]));
      assert [] + TakeTarget(args, n + 2, [], None).0 == TakeTarget(args, n + 2, [], None).0;
    } else {
      TakeShift(args, n + 1, kept + [args[n]], target);
      TakeShift(args, n + 1, [args[n]], None);
      var rest := TakeTarget(args, n + 1, [], None).0;
      assert [] + [args[n]] == [args[n]] && kept + [args[n]] + rest == kept + ([args[n]] + rest);
    }
  }

  // --- The format --------------------------------------------------------------------------------

  /** How a source line looks. */
  lemma SourceWritten()
    ensures SourceText(Source("a", None, ["c"], None, 98, None)) == "a F . . 98 c"
    ensures WrittenArgs(Source("a", None, ["c"], None, 98, Some("b"))) == ["-o", "b", "c"]
  {
    hide Decimal;
    NumbersAreDecimal();
    var src := Source("a", None, ["c"], None, 98, None);
    assert WrittenArgs(src) == ["c"] && ["c"][1..] == [];
    assert TimeText(src) == "98 c";
    assert SaveText(src) == ". 98 c";
    assert FieldsText(src) == ". . 98 c";
  }

  /** How lines are read, and how a symbol line looks. */
  lemma FormatExample()
    ensures ParseLine("a.c F . b 98 -o a.o") == SourceLine("a.c", ".", "b", "98", ["-o", "a.o"])
    ensures ParseLine("f G") == Symbol("f", 'G') && SymbolText("f", 'Z') == "f Z"
  {
    hide ParseLine, SourceFields, WordOf, RestOf, Trim;
    var fields := ". b 98 -o a.o";
    FieldsExample(fields);
    assert "a.c F . b 98 -o a.o" == "" + ("a.c" + ([' '] + ("" + ("F" + ([' '] + fields)))));
    SourceLineParsed("a.c F . b 98 -o a.o", "", "a.c", ' ', "", "F", ' ', fields);
    assert "f G" == "" + ("f" + ([' '] + ("" + (['G'] + ""))));
    TaggedLine("f G", "", "f", ' ', "", 'G', "");
  }

  lemma FieldsExample(fields: string)
    requires fields == ". b 98 -o a.o"
    ensures SourceFields("a.c", fields) == SourceLine("a.c", ".", "b", "98", ["-o", "a.o"])
  {
    hide SourceFields, Args;
    TwoArgs();
    FieldsParsed("a.c", ".", ' ', "b", ' ', "98", ' ', "-o a.o");
    assert fields == "." + ([' '] + ("b" + ([' '] + ("98" + ([' '] + "-o a.o")))));
  }

  lemma TwoArgs()
    ensures Args("-o a.o", []) == Some(["-o", "a.o"])
  {
    var gaps, words := ["", " "], ["-o", "a.o"];
    assert gaps[1..] == [" "] && words[1..] == ["a.o"] && gaps[1..][1..] == [] && words[1..][1..] == [];
    assert Spread(gaps[1..], words[1..]) == " a.o";
    assert Spread(gaps, words) == "-o a.o" && "-o a.o" + "" == "-o a.o";
    ArgsExactly(gaps, words, "");
  }
}
