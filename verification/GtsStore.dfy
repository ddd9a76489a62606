/** EhSymTableFpLoad and EhSymTableFpDump in the heap. */
module GtsStore {
  import opened CText
  import opened GtsWorld
  import opened GtsOrder
  import opened GtsPasses
  import opened GtsTable
  import opened GtsSort
  import Db = GtsDatabase
  import RoundTrip = GtsRoundTrip
  import Sharing = GtsSharing

  // --- Scanning a line ---------------------------------------------------------------------------

  method SkipSpace(s: string, p: nat) returns (q: nat)
    requires p <= |s|
    ensures p <= q <= |s| && s[q..] == Trim(s[p..])
  {
    q := p;
    while q < |s| && IsSpace(s[q])
      invariant p <= q <= |s| && Trim(s[q..]) == Trim(s[p..])
    {
      Tail(s, q);
      q := q + 1;
    }
  }

  method SkipWord(s: string, p: nat) returns (q: nat)
    requires p <= |s|
    ensures p <= q <= |s| && s[p..q] == Db.WordOf(s[p..]) && s[q..] == Db.RestOf(s[p..])
  {
    q := p;
    while q < |s| && !IsSpace(s[q])
      invariant p <= q <= |s| && Db.RestOf(s[q..]) == Db.RestOf(s[p..])
      invariant s[p..q] + Db.WordOf(s[q..]) == Db.WordOf(s[p..])
    {
      Tail(s, q);
      assert s[p..q + 1] == s[p..q] + [s[q]];
      Taken(s[p..q], s[q], Db.WordOf(s[q + 1..]));
      q := q + 1;
    }
    assert s[p..q] + "" == s[p..q];
  }

  /** The argument loop; None when it runs past the end of the line or of cc_args. */
  method ParseArgs(buf: string, p0: nat) returns (cc_args: Option<seq<string>>)
    requires p0 <= |buf|
    ensures cc_args == Db.Args(buf[p0..], [])
  {
    var p, found: seq<string> := p0, [];
    while p < |buf|
      invariant p <= |buf| && Db.Args(buf[p..], found) == Db.Args(buf[p0..], [])
      decreases |buf| - p
    {
      var a := SkipSpace(buf, p);
      if a == |buf| {
        return None;
      }
      var e := SkipWord(buf, a);
      found := found + [buf[a..e]];
      if e == |buf| {
        return if |found| <= Db.MAX_ARGS then Some(found) else None;
      }
      Tail(buf, e);
      p := e + 1;
    }
    cc_args := if |found| <= Db.MAX_ARGS then Some(found) else None;
  }

  method ParseFields(buf: string, name: string, p: nat) returns (line: Db.Line)
    requires p <= |buf|
    ensures line == Db.SourceFields(name, buf[p..])
  {
    hide Db.Args;
    var d := SkipWord(buf, p);
    if d == |buf| {
      return Db.Overrun;
    }
    Tail(buf, d);
    var v := SkipWord(buf, d + 1);
    if v == |buf| {
      return Db.Overrun;
    }
    Tail(buf, v);
    var c := SkipWord(buf, v + 1);
    if c == |buf| {
      return Db.Overrun;
    }
    Tail(buf, c);
    var args := ParseArgs(buf, c + 1);
    line := if args.None? then Db.Overrun
            else Db.SourceLine(name, buf[p..d], buf[d + 1..v], buf[v + 1..c], args.value);
  }

  method ParseLine(buf: string) returns (line: Db.Line)
    ensures line == Db.ParseLine(buf)
  {
    hide Db.SourceFields, Db.WordOf, Db.RestOf, Trim;
    assert buf[0..] == buf;
    if |buf| > 0 && buf[0] == '!' {
      return Db.Comment;
    }
    var a := SkipSpace(buf, 0);
    var b := SkipWord(buf, a);
    if b == |buf| {
      return Db.Overrun;
    }
    Tail(buf, b);
    var name := buf[a..b];
    var c := SkipSpace(buf, b + 1);
    var d := SkipWord(buf, c);
    if c == |buf| {
      return Db.OldStyle(name);
    }
    Tail(buf, c);
    if buf[c] == 'G' || buf[c] == 'Z' || buf[c] == 'I' {
      line := Db.Symbol(name, buf[c]);
    } else if buf[c] == 'F' {
      if d == |buf| {
        return Db.Overrun;
      }
      Tail(buf, d);
      line := ParseFields(buf, name, d + 1);
    } else {
      line := Db.OldStyle(name);
    }
  }

  // --- Loading -----------------------------------------------------------------------------------

  /** The argument loop of EhSourceNew. */
  method SplitArgs(cc_args: seq<string>) returns (kept: seq<string>, target: Option<string>)
    ensures (kept, target) == Db.TakeTarget(cc_args, 0, [], None)
  {
    var n := 0;
    kept, target := [], None;
    while n < |cc_args|
      invariant Db.TakeTarget(cc_args, n, kept, target) == Db.TakeTarget(cc_args, 0, [], None)
      decreases |cc_args| - n
    {
      if cc_args[n] == "-o" && n + 1 < |cc_args| {
        target := Some(cc_args[n + 1]);
        n := n + 2;
      } else {
        kept := kept + [cc_args[n]];
        n := n + 1;
      }
    }
  }

  ghost function LoadingOf(table: EhSymTable, cur: EhObject?): Db.Loading
    reads table, table.syms, table.objs, table.srcs
  {
    Db.Loading(table.W(), if cur == null then None else Some(cur.id))
  }

  method LoadSymbol(table: EhSymTable, cur: EhObject?, name: string, tag: char)
    requires table.Valid() && (cur != null ==> cur in table.objs)
    modifies table`nentries, table`syms, table.heads, table.syms`state
    ensures table.Valid() && table.NewSyms() && table.objs == old(table.objs)
    ensures LoadingOf(table, cur) == Db.LoadSymbol(old(LoadingOf(table, cur)), name, tag)
  {
    hide table.Valid, table.W, SetState, Insert;
    var sym := table.Find(name);
    if sym == null {
      if tag == 'G' {
        sym := table.AddSym(name, cur, Defined);
      } else if tag == 'I' {
        sym := table.AddSym(name, null, Inline);
      } else {
        sym := table.AddSym(name, cur, Zapped);
      }
    } else {
      table.PutSymState(sym, Db.TagState(tag));
    }
  }

  method LoadSource(table: EhSymTable, name: string, directory: string, ctime: string, cc_args: seq<string>,
                    ghost cur: EhObject?)
    returns (obj: EhObject)
    requires table.Valid() && (cur != null ==> cur in table.objs)
    modifies table`nsources, table`nobjects, table`srcs, table`objs
    ensures table.Valid() && table.OnlyNew() && table.syms == old(table.syms) && obj in table.objs
    ensures var src := Db.NewSource(name, cc_args, if directory == "." then None else Some(directory), Atoi(ctime));
            LoadingOf(table, obj) == Db.LoadSource(old(LoadingOf(table, cur)), src)
  {
    hide table.Valid, table.W, Db.TakeTarget, Atoi;
    var kept, target := SplitArgs(cc_args);
    var source := table.AddSource(Source(name, if directory == "." then None else Some(directory), kept, None,
                                         Atoi(ctime), target));
    obj := table.AddObject(None, source);
  }

  /** A line in the old style, a bare name, marks a known symbol as zapped; an unknown one is forgotten. */
  method LoadOld(table: EhSymTable, cur: EhObject?, name: string)
    requires table.Valid()
    modifies table.syms`state
    ensures table.Valid() && LoadingOf(table, cur) == Db.LoadOld(old(LoadingOf(table, cur)), name)
  {
    hide table.Valid, table.W, SetState;
    var sym := table.Find(name);
    if sym != null {
      table.PutSymState(sym, Zapped);
    }
  }

  /** One line of the file. */
  method LoadLine(table: EhSymTable, cur: EhObject?, buf: string) returns (cur': EhObject?, ok: bool)
    requires table.Valid() && (cur != null ==> cur in table.objs)
    modifies table, table.heads, table.syms`state
    ensures table.Valid() && table.OnlyNew() && (cur' != null ==> cur' in table.objs)
    ensures var r := Db.LoadLine(old(LoadingOf(table, cur)), Db.ParseLine(buf));
            ok == r.Some? && (ok ==> LoadingOf(table, cur') == r.value)
  {
    hide table.Valid, table.W, Db.ParseLine, Db.LoadSymbol, Db.LoadSource, Db.LoadOld, Db.NewSource;
    var line := ParseLine(buf);
    cur', ok := cur, true;
    match line {
      case Comment =>
      case Symbol(name, tag) => LoadSymbol(table, cur, name, tag);
      case SourceLine(name, directory, _, ctime, args) =>
        cur' := LoadSource(table, name, directory, ctime, args, cur);
      case OldStyle(name) => LoadOld(table, cur, name);
      case Overrun => ok := false;
    }
  }

  lemma {:induction false} LoadFails(st: Db.Loading, lines: seq<string>, j: nat, k: nat)
    requires j <= k <= |lines| && Db.Load(st, lines, j).None?
    ensures Db.Load(st, lines, k).None?
    decreases k
  {
    if j < k {
      LoadFails(st, lines, j, k - 1);
    }
  }

  /** safe_fgets, without the newline; None when the text has no further newline. */
  method SafeFgets(fp: string, p: nat) returns (line: string, next: Option<nat>)
    requires p <= |fp|
    ensures next == None <==> Db.FileLines(fp[p..]) == []
    ensures next.Some? ==> p < next.value <= |fp| && Db.FileLines(fp[p..]) == [line] + Db.FileLines(fp[next.value..])
  {
    hide Db.FileLines;
    var q := p;
    while q < |fp| && fp[q] != '\n'
      invariant p <= q <= |fp| && fp[p..q] + Db.LineOf(fp[q..]) == Db.LineOf(fp[p..])
      invariant Db.AfterLine(fp[q..]) == Db.AfterLine(fp[p..])
    {
      Tail(fp, q);
      Taken(fp[p..q], fp[q], Db.LineOf(fp[q + 1..]));
      assert fp[p..q + 1] == fp[p..q] + [fp[q]];
      q := q + 1;
    }
    assert fp[p..q] + "" == fp[p..q];
    line := fp[p..q];
    FirstLine(fp[p..]);
    if q < |fp| {
      Tail(fp, q);
      next := Some(q + 1);
    } else {
      next := None;
    }
  }

  lemma FirstLine(t: string)
    ensures Db.FileLines(t) == if Db.AfterLine(t) == "" then []
                               else [Db.LineOf(t)] + Db.FileLines(Db.AfterLine(t)[1..])
  {
  }

  /** EhSymTableFpLoad returns how many lines it read; it fails, with None, on the first line that the scanner
      would overrun. */
  method EhSymTableFpLoad(table: EhSymTable, fp: string) returns (line_n: Option<nat>)
    requires table.Valid()
    modifies table, table.heads, table.syms`state
    ensures table.Valid() && table.OnlyNew()
    ensures var lines := Db.FileLines(fp);
            var r := Db.Load(Db.Loading(old(table.W()), None), lines, |lines|);
            line_n == (if r.Some? then Some(|lines|) else None) && (r.Some? ==> table.W() == r.value.w)
  {
    hide table.Valid, table.W, Db.LoadLine, Db.ParseLine, Db.FileLines;
    var cur: EhObject? := null;
    ghost var st, lines := LoadingOf(table, null), Db.FileLines(fp);
    var n, p, more := 0, 0, true;
    assert fp[0..] == fp && lines[0..] == lines;
    while more
      invariant table.Valid() && table.OnlyNew() && (cur != null ==> cur in table.objs)
      invariant n <= |lines| && p <= |fp| && Db.Load(st, lines, n) == Some(LoadingOf(table, cur))
      invariant if more then Db.FileLines(fp[p..]) == lines[n..] else n == |lines|
      decreases if more then |fp| - p + 1 else 0
    {
      var buf, next := SafeFgets(fp, p);
      if next.None? {
        more := false;
      } else {
        assert lines[n] == buf && lines[n + 1..] == lines[n..][1..];
        var ok;
        cur, ok := LoadLine(table, cur, buf);
        if !ok {
          LoadFails(st, lines, n + 1, |lines|);
          return None;
        }
        n, p := n + 1, next.value;
      }
    }
    line_n := Some(n);
  }

  // --- Dumping -----------------------------------------------------------------------------------

  lemma {:induction false} BlanksAppend(args: seq<string>, x: string)
    ensures Db.Blanks(args + [x]) == Db.Blanks(args) + (" " + x)
  {
    if args == [] {
      assert [] + [x] == [x];
      assert Db.Blanks([x]) == " " + (x + "");
    } else {
      assert (args + [x])[1..] == args[1..] + [x];
      BlanksAppend(args[1..], x);
    }
  }

  /** EhSourceFpWrite */
  method EhSourceFpWrite(source: EhSource) returns (text: string)
    ensures text == Db.SourceText(source.View())
  {
    hide Db.Blanks, Decimal;
    var tail := WriteArgs(source.target, source.ccArgs);
    text := source.name + " F " + Db.Field(source.directory) + " " + Db.Field(source.savefile) + " "
            + Decimal(source.compileTime) + tail;
    Regroup(source.name, Db.Field(source.directory), Db.Field(source.savefile), Decimal(source.compileTime), tail);
  }

  /** The target and the arguments, each behind a blank. */
  method WriteArgs(target: Option<string>, ccArgs: seq<string>) returns (text: string)
    ensures text == Db.Blanks((if target.Some? then ["-o", target.value] else []) + ccArgs)
  {
    text := "";
    ghost var upto := [];
    if target.Some? {
      text := " -o " + target.value;
      upto := ["-o", target.value];
      TargetBlanks(target.value);
    }
    assert upto + ccArgs[..0] == upto;
    for n := 0 to |ccArgs|
      invariant text == Db.Blanks(upto + ccArgs[..n])
    {
      hide Db.Blanks;
      BlanksAppend(upto + ccArgs[..n], ccArgs[n]);
      assert upto + ccArgs[..n] + [ccArgs[n]] == upto + ccArgs[..n + 1];
      assert text + " " + ccArgs[n] == text + (" " + ccArgs[n]);
      text := text + " " + ccArgs[n];
    }
    assert ccArgs[..|ccArgs|] == ccArgs;
  }

  lemma TargetBlanks(target: string)
    ensures Db.Blanks(["-o", target]) == " -o " + target
  {
    assert ["-o", target][1..] == [target] && [target][1..] == [];
    assert Db.Blanks([target]) == " " + (target + "");
    assert " " + ("-o" + (" " + (target + ""))) == " -o " + target;
  }

  lemma Regroup(name: string, directory: string, savefile: string, time: string, tail: string)
    ensures name + " F " + directory + " " + savefile + " " + time + tail
            == name + (" " + ("F" + (" " + (directory + (" " + (savefile + (" " + (time + tail))))))))
  {
  }

  /** flush_compare */
  function FlushCompare(address: nat -> int, a: EhSym, b: EhSym): int
    reads a, b, a.obj, b.obj
  {
    if a.obj == null && b.obj != null then -1
    else if a.obj != null && b.obj == null then 1
    else if a.obj == null then Sign(StrCmp(a.name, b.name))
    else
      var s, t := a.obj.source, b.obj.source;
      if s == null && t != null then -1
      else if s != null && t == null then 1
      else if s == t then 0
      else if address(s.id) < address(t.id) then -1
      else if address(s.id) > address(t.id) then 1
      else Sign(StrCmp(a.name, b.name))
  }

  lemma CompareAgrees(table: EhSymTable, a: EhSym, b: EhSym)
    requires table.Valid() && a in table.syms && b in table.syms
    ensures FlushCompare(table.address, a, b) == Db.FlushCompare(table.W(), table.address, a.id, b.id)
  {
    hide table.Valid, table.W, StrCmp;
    table.SymAtId(a);
    table.SymAtId(b);
    if a.obj != null {
      table.ObjAtId(a.obj);
    }
    if b.obj != null {
      table.ObjAtId(b.obj);
    }
    if a.obj != null && b.obj != null {
      table.SourceIds(a.obj, b.obj);
    }
  }

  lemma ComparePreorder(table: EhSymTable, a: EhSym, b: EhSym, c: EhSym)
    requires table.Valid() && a in table.syms && b in table.syms && c in table.syms
    requires Sharing.Addresses(table.address)
    ensures FlushCompare(table.address, a, b) == -FlushCompare(table.address, b, a)
    ensures FlushCompare(table.address, a, b) <= 0 && FlushCompare(table.address, b, c) <= 0
            ==> FlushCompare(table.address, a, c) <= 0
  {
    hide table.Valid, table.W, FlushCompare, Db.FlushCompare;
    CompareAgrees(table, a, b);
    CompareAgrees(table, b, a);
    CompareAgrees(table, b, c);
    CompareAgrees(table, a, c);
    Sharing.FlushIsPreorder(table.W(), table.address, a.id, b.id, c.id);
  }

  lemma IdsPermuted(a: seq<EhSym>, b: seq<EhSym>)
    requires multiset(a) == multiset(b)
    ensures multiset(Ids(a)) == multiset(Ids(b))
  {
    var id := (s: EhSym) => s.id;
    MappedPermuted(a, b, id);
    assert Ids(a) == Mapped(a, id) && Ids(b) == Mapped(b, id);
  }

  /** qsort with flush_compare */
  method SortVector(table: EhSymTable, v: seq<EhSym>) returns (r: seq<EhSym>)
    requires table.Valid() && Sharing.Addresses(table.address) && forall s | s in v :: s in table.syms
    ensures multiset(Ids(r)) == multiset(Ids(v)) && forall s | s in r :: s in table.syms
    ensures Sharing.Sorted(table.W(), table.address, Ids(r))
  {
    hide table.Valid, table.W, FlushCompare, Db.FlushCompare;
    var cmp := (a: EhSym, b: EhSym) reads a, b, a.obj, b.obj => FlushCompare(table.address, a, b);
    forall a, b, c | a in v && b in v && c in v
      ensures cmp(a, b) == -cmp(b, a)
      ensures cmp(a, b) <= 0 && cmp(b, c) <= 0 ==> cmp(a, c) <= 0
    {
      ComparePreorder(table, a, b, c);
    }
    r := Qsort(v, cmp, true);
    IdsPermuted(r, v);
    forall x, y | 0 <= x < y < |r|
      ensures Db.FlushCompare(table.W(), table.address, Ids(r)[x], Ids(r)[y]) <= 0
    {
      assert r[x] in v && r[y] in v;
      CompareAgrees(table, r[x], r[y]);
      assert cmp(r[x], r[y]) <= 0;
    }
  }

  /** The two walks that size and fill the vector. */
  method CollectVector(table: EhSymTable) returns (v: seq<EhSym>)
    requires table.Valid()
    modifies table.syms`obj, table.syms`state, table.objs`recompile, table.objs`needsUnzap, table.objs`nusers
    ensures table.Valid() && table.W() == old(table.W())
    ensures RoundTrip.FlushVector(table.W(), Ids(v)) && forall s | s in v :: s in table.syms
  {
    hide table.Valid, table.W, table.Shape, table.Walk, Run, Once, RoundTrip.Flushed, RoundTrip.FlushVector;
    table.WalkIsOnce();
    ghost var w, order := table.W(), table.Walk();
    RoundTrip.FlushRun(w, order, |order|);
    RoundTrip.FlushedIsVector(w, order);
    var count, rc := table.Map(FlushMappee(None, 0));
    var filled, rc' := table.Map(FlushMappee(Some([]), 0));
    v := filled.vector.value;
    assert |v| == count.index;   // the vector is filled exactly
  }

  /** What one symbol adds to the file: a source line when the object changes, and the symbol's own line. */
  method DumpSymbol(table: EhSymTable, sym: EhSym, last: EhObject?) returns (lines: seq<string>)
    requires table.Valid() && sym in table.syms && (last != null ==> last in table.objs)
    requires sym.obj == null ==> last == null && sym.state == Inline
    ensures var v, o := SymAt(table.W(), sym.id), if last == null then None else Some(last.id);
            lines == Db.SourceLines(table.W(), o, v.obj) + Db.SymbolLines(table.W(), v)
  {
    hide table.Valid, table.W, Db.SourceText;
    table.SymAtId(sym);
    lines := [];
    if sym.obj != null {
      table.ObjAtId(sym.obj);
      if sym.obj.source != null {
        table.SourceAt(sym.obj);
      }
      if last != null {
        table.SameId(sym.obj, last);
      }
    }
    if sym.obj != last && sym.obj.source != null {
      var text := EhSourceFpWrite(sym.obj.source);
      lines := [text];
    }
    if sym.state == Inline {
      lines := lines + [Db.SymbolText(sym.name, 'I')];
    } else if sym.obj.source != null && sym.state == Zapped {
      lines := lines + [Db.SymbolText(sym.name, 'Z')];
    } else if sym.obj.source != null && sym.state == Defined {
      lines := lines + [Db.SymbolText(sym.name, 'G')];
    }
  }

  /** EhSymTableFpDump */
  method EhSymTableFpDump(table: EhSymTable) returns (lines: seq<string>, ghost vector: seq<nat>)
    requires table.Valid() && Sharing.Addresses(table.address)
    modifies table.syms`obj, table.syms`state, table.objs`recompile, table.objs`needsUnzap, table.objs`nusers
    ensures table.Valid() && table.W() == old(table.W())
    ensures RoundTrip.FlushVector(table.W(), vector) && Sharing.Sorted(table.W(), table.address, vector)
    ensures lines == Db.Dump(table.W(), vector, |vector|).lines
  {
    hide table.Valid, table.W, Db.SourceLines, Db.SymbolLines, RoundTrip.FlushVector, Sharing.Sorted;
    var v := CollectVector(table);
    var syms := SortVector(table, v);
    vector := Ids(syms);
    RoundTrip.FlushVectorPermuted(table.W(), Ids(v), vector);
    lines := [];
    var last: EhObject? := null;
    for n := 0 to |syms|
      invariant table.Valid() && table.W() == old(table.W()) && (last != null ==> last in table.objs)
      invariant Db.Dump(table.W(), vector, n) == Db.Dumping(if last == null then None else Some(last.id), lines)
    {
      var sym := syms[n];
      table.SymAtId(sym);
      Vetted(table.W(), table.address, vector, n);
      var more := DumpSymbol(table, sym, last);
      lines := lines + more;
      last := sym.obj;
    }
  }

  /** A flushed symbol without an object is inline, and the dump is not at an object when it comes to it. */
  lemma Vetted(w: World, address: nat -> int, v: seq<nat>, n: nat)
    requires RoundTrip.FlushVector(w, v) && Sharing.Sorted(w, address, v) && n < |v|
    ensures SymAt(w, v[n]).obj == None ==> SymAt(w, v[n]).state == Inline && Db.Dump(w, v, n).obj == None
  {
    if SymAt(w, v[n]).obj == None {
      Sharing.NoNullFollowed(w, address, v, n);
    }
  }
}
