/** Rewriting one assembler file: which export directives are commented out, and how the objects of all the
    symbols the file defines become one. */
module GtsZap {
  import opened CText
  import opened GtsWorld

  const COMMENT := " # gts"

  /** What the current file name is replaced by once a file directive has named another file. */
  const NOT_LOCAL := "non local file"

  /** The text after a prefix the line starts with. */
  function After(line: string, prefix: string): Option<string> {
    if prefix <= line then Some(line[|prefix|..]) else None
  }

  /** test_for_global: the symbol a global directive names. */
  function GlobalName(irix: bool, line: string): Option<string> {
    After(line, if irix then "\t.globl\t" else "\t.global ")
  }

  /** Where the first quote of s is, or |s|. */
  function Quote(s: string): (q: nat)
    ensures q <= |s| && (q < |s| ==> s[q] == '"') && forall i | 0 <= i < q :: s[i] != '"'
  {
    if s == [] || s[0] == '"' then 0 else 1 + Quote(s[1..])
  }

  /** What stands between the first two quotes of t. */
  function QuotedText(t: string): Option<string> {
    var p := Quote(t);
    if p == |t| then None
    else
      var q := Quote(t[p + 1..]);
      if q == |t[p + 1..]| then None else Some(t[p + 1..][..q])
  }

  /** test_for_file: the quoted name of a file directive; only Irix assembler is recognised. */
  function FileName(irix: bool, line: string): Option<string> {
    if !irix then None
    else match After(line, "\t.file")
      case None => None
      case Some(rest) => QuotedText(rest)
  }

  /** What a line of assembler is: a file directive, a global directive, or anything else. */
  datatype Directive = File(name: string) | Global(name: string) | Other

  function DirectiveOf(irix: bool, line: string): Directive {
    match FileName(irix, line)
    case Some(file) => File(file)
    case None =>
      match GlobalName(irix, line)
      case Some(name) => Global(name)
      case None => Other
  }

  /** Exactly the lines that are the literal directive and then the name are global directives. */
  lemma GlobalExactly(irix: bool, line: string, name: string)
    ensures DirectiveOf(irix, line) == Global(name) <==> line == (if irix then "\t.globl\t" else "\t.global ") + name
  {
    var prefix := if irix then "\t.globl\t" else "\t.global ";
    assert prefix <= line ==> line[2] == 'g' && line == prefix + line[|prefix|..];
    assert "\t.file" <= line ==> line[2] == 'f';
  }

  /** name stands between the first two quotes of t. */
  ghost predicate Quoted(t: string, mid: string, name: string, rest: string) {
    t == mid + ("\"" + (name + ("\"" + rest))) && '"' !in mid && '"' !in name
  }

  lemma QuotedIsFound(t: string, mid: string, name: string, rest: string)
    requires Quoted(t, mid, name, rest)
    ensures QuotedText(t) == Some(name)
  {
    var u := name + ("\"" + rest);
    QuoteAt(mid, u);
    assert t[|mid| + 1..] == u;
    QuoteAt(name, rest);
    assert u[..|name|] == name;
  }

  lemma CutAt(t: string, p: nat)
    requires p < |t| && t[p] == '"'
    ensures t == t[..p] + ("\"" + t[p + 1..])
  {
  }

  lemma FoundIsQuoted(t: string) returns (mid: string, rest: string)
    requires QuotedText(t).Some?
    ensures Quoted(t, mid, QuotedText(t).value, rest)
  {
    hide Quote;
    var p := Quote(t);
    var u := t[p + 1..];
    var q := Quote(u);
    mid, rest := t[..p], u[q + 1..];
    CutAt(t, p);
    CutAt(u, q);
  }

  lemma QuotedTextExactly(t: string, name: string)
    ensures QuotedText(t) == Some(name) <==> exists mid, rest :: Quoted(t, mid, name, rest)
  {
    hide QuotedText, Quoted;
    forall mid, rest | Quoted(t, mid, name, rest) ensures QuotedText(t) == Some(name) {
      QuotedIsFound(t, mid, name, rest);
    }
    if QuotedText(t) == Some(name) {
      var mid, rest := FoundIsQuoted(t);
    }
  }

  /** Exactly the Irix lines that start with the literal directive and have the name between their first two quotes
      are file directives. */
  lemma FileExactly(irix: bool, line: string, name: string)
    ensures DirectiveOf(irix, line) == File(name)
            <==> irix && "\t.file" <= line && exists mid, rest :: Quoted(line[6..], mid, name, rest)
  {
    hide QuotedText, Quoted;
    if "\t.file" <= line {
      QuotedTextExactly(line[6..], name);
    }
  }

  lemma {:induction false} QuoteAt(a: string, b: string)
    requires '"' !in a
    ensures Quote(a + ("\"" + b)) == |a|
  {
    var s := a + ("\"" + b);
    if a == "" {
      assert s[0] == '"';
    } else {
      assert s[1..] == a[1..] + ("\"" + b);
      QuoteAt(a[1..], b);
    }
  }

  ghost function Directives(irix: bool, lines: seq<string>): (ds: seq<Directive>)
    ensures |ds| == |lines| && forall x | 0 <= x < |lines| :: ds[x] == DirectiveOf(irix, lines[x])
  {
    seq(|lines|, x requires 0 <= x < |lines| => DirectiveOf(irix, lines[x]))
  }

  /** What does not change during the pass: the source being read and its name, whether there is an output
      file, and whether the source is C++. */
  datatype Env = Env(src: nat, name: string, output: bool, cplusplus: bool)

  /** What does: the table, the object record that stands for this file, whether the lines come from the
      file itself (rather than from one it includes), and how many exports were removed. */
  datatype Pass = Pass(w: World, cur: nat, own: bool, nzap: nat)

  /** A global directive makes its symbol inline when it comes from an included C++ file, and when the
      symbol was inline before; otherwise it is a real global. */
  predicate TreatInline(env: Env, st: Pass, name: string) {
    (!st.own && env.cplusplus) || IsInline(st.w, name)
  }

  function MakeInline(w: World, name: string): World {
    var s := Find(w.syms, name);
    if s >= 0 then SetState(w, s, Inline) else Insert(w, NewSym(name, None, Inline))
  }

  /** The symbol is recorded as zapped and has an object. */
  predicate ZappedNow(w: World, name: string) {
    Find(w.syms, name) >= 0 && IsZapped(SymAt(w, Find(w.syms, name)))
  }

  /** A real global: the symbol joins this file's object, and if it had an object of its own that object
      takes over as the file's object, with every symbol gathered so far. */
  function Join(src: nat, w: World, cur: nat, name: string): (World, nat) {
    var s := Find(w.syms, name);
    if s < 0 then (Insert(w, NewSym(name, Some(cur), Defined)), cur)
    else match SymAt(w, s).obj
      case None => (SetObject(w, s, cur), cur)
      case Some(o) =>
        if o == cur then (w, cur)
        else (FixupAll(SetSource(w, o, Some(src)), cur, o), o)
  }

  function LineStep(env: Env, st: Pass, d: Directive): Pass {
    match d
    case File(file) => st.(own := file == if st.own then env.name else NOT_LOCAL)
    case Global(name) =>
      if TreatInline(env, st, name) then st.(w := MakeInline(st.w, name))
      else
        var j := Join(env.src, st.w, st.cur, name);
        Pass(j.0, j.1, st.own, if env.output && ZappedNow(st.w, name) then st.nzap + 1 else st.nzap)
    case Other => st
  }

  /** Whether the line is commented out in the output. */
  predicate Marked(env: Env, st: Pass, d: Directive) {
    d.Global? && (TreatInline(env, st, d.name) || ZappedNow(st.w, d.name))
  }

  function LinesRun(env: Env, st: Pass, ds: seq<Directive>, k: nat): Pass
    requires k <= |ds|
  {
    if k == 0 then st else LineStep(env, LinesRun(env, st, ds, k - 1), ds[k - 1])
  }

  /** The first k lines as they are written. */
  function LinesOut(env: Env, st: Pass, lines: seq<string>, ds: seq<Directive>, k: nat): (out: seq<string>)
    requires |lines| == |ds| && k <= |ds|
    ensures |out| == k
  {
    if k == 0 then []
    else
      LinesOut(env, st, lines, ds, k - 1)
      + [if Marked(env, LinesRun(env, st, ds, k - 1), ds[k - 1]) then COMMENT + lines[k - 1] else lines[k - 1]]
  }

  /** The pass starts with a new unnamed object whose source is the file. */
  function Start(w: World, src: nat): Pass {
    Pass(w.(objs := w.objs + [NewObject(None, Some(src))]), |w.objs|, true, 0)
  }

  // --- The text ----------------------------------------------------------------------------------

  /** The symbol a directive names is inline once the line has been read. */
  ghost predicate InlineAfter(env: Env, st: Pass, d: Directive) {
    d.Global? && IsInline(LineStep(env, st, d).w, d.name)
  }

  lemma JoinKeepsStates(src: nat, w: World, cur: nat, name: string)
    ensures var v := Join(src, w, cur, name).0;
            && Find(v.syms, name) == (if Find(w.syms, name) >= 0 then Find(w.syms, name) else |w.syms|)
            && SymAt(v, Find(v.syms, name)).state
               == if Find(w.syms, name) >= 0 then SymAt(w, Find(w.syms, name)).state else Defined
  {
    var v := Join(src, w, cur, name).0;
    if Find(w.syms, name) >= 0 {
      FindSameNames(w.syms, v.syms, name);
    } else {
      FindAfterInsert(w.syms, NewSym(name, Some(cur), Defined), name);
    }
  }

  lemma MakeInlineInline(w: World, name: string)
    ensures var v := MakeInline(w, name);
            Find(v.syms, name) >= 0 && SymAt(v, Find(v.syms, name)).state == Inline
  {
    var v := MakeInline(w, name);
    if Find(w.syms, name) >= 0 {
      FindSameNames(w.syms, v.syms, name);
    } else {
      FindAfterInsert(w.syms, NewSym(name, None, Inline), name);
    }
  }

  /** A line is commented out exactly when it is a global directive whose symbol is inline from now on, or
      is recorded as zapped with an object; those that are not inline are counted. */
  lemma LineText(env: Env, st: Pass, d: Directive)
    ensures Marked(env, st, d) <==> d.Global? && (InlineAfter(env, st, d) || ZappedNow(st.w, d.name))
    ensures LineStep(env, st, d).nzap
            == st.nzap + if env.output && Marked(env, st, d) && !InlineAfter(env, st, d) then 1 else 0
  {
    if d.Global? {
      if TreatInline(env, st, d.name) {
        MakeInlineInline(st.w, d.name);
      } else {
        JoinKeepsStates(env.src, st.w, st.cur, d.name);
      }
    }
  }

  /** How many of the first k lines are commented out although their symbol is not inline. */
  ghost function Removed(env: Env, st: Pass, ds: seq<Directive>, k: nat): nat
    requires k <= |ds|
  {
    if k == 0 then 0
    else
      var before := LinesRun(env, st, ds, k - 1);
      Removed(env, st, ds, k - 1)
      + if Marked(env, before, ds[k - 1]) && !InlineAfter(env, before, ds[k - 1]) then 1 else 0
  }

  /** Line x as it should be written: commented out exactly when it exports a symbol that is inline from now
      on, or that is recorded as zapped with an object at that point. */
  ghost function Expected(env: Env, st: Pass, lines: seq<string>, ds: seq<Directive>, x: nat): string
    requires |lines| == |ds| && x < |ds|
  {
    var before := LinesRun(env, st, ds, x);
    if ds[x].Global? && (InlineAfter(env, before, ds[x]) || ZappedNow(before.w, ds[x].name)) then " # gts" + lines[x]
    else lines[x]
  }

  /** The output has the input's lines in order, each unchanged or commented out as expected; nzap counts the
      commented exports whose symbol is not inline. */
  lemma {:induction false} LinesText(env: Env, st: Pass, lines: seq<string>, ds: seq<Directive>, k: nat)
    requires env.output && |lines| == |ds| && k <= |ds|
    ensures forall x | 0 <= x < k :: LinesOut(env, st, lines, ds, k)[x] == Expected(env, st, lines, ds, x)
    ensures LinesRun(env, st, ds, k).nzap == st.nzap + Removed(env, st, ds, k)
  {
    hide LineStep, InlineAfter, ZappedNow, Marked;
    if k > 0 {
      LinesText(env, st, lines, ds, k - 1);
      LineText(env, LinesRun(env, st, ds, k - 1), ds[k - 1]);
    }
  }

  // --- The objects -------------------------------------------------------------------------------

  /** The symbols that the first k lines export as real globals. */
  ghost function Gathered(env: Env, st: Pass, ds: seq<Directive>, k: nat): seq<nat>
    requires k <= |ds|
  {
    if k == 0 then []
    else
      var before, d := LinesRun(env, st, ds, k - 1), ds[k - 1];
      Gathered(env, st, ds, k - 1)
      + if d.Global? && !TreatInline(env, before, d.name) then [Slot(before.w, d.name)] else []
  }

  /** One of the gathered symbols belonged to object o at the start. */
  ghost predicate Touched(w: World, got: seq<nat>, o: nat) {
    exists j :: j in got && SymAt(w, j).obj == Some(o)
  }

  /** Who owns a symbol of the starting table after the given symbols were gathered into object cur. */
  ghost function Owner(w: World, got: seq<nat>, cur: nat, i: nat): Option<nat> {
    match SymAt(w, i).obj
    case None => if i in got then Some(cur) else None
    case Some(o) => if Touched(w, got, o) then Some(cur) else Some(o)
  }

  ghost predicate Unified(w: World, v: World, cur: nat, src: nat, got: seq<nat>) {
    && |w.syms| <= |v.syms| && cur < |v.objs| && v.objs[cur].source == Some(src)
    && (forall i | i in got :: i < |v.syms| && SymAt(v, i).obj == Some(cur))
    && (forall i: nat {:trigger SymAt(v, i)} | i < |w.syms| :: SymAt(v, i).obj == Owner(w, got, cur, i))
    && (forall i: nat {:trigger SymAt(v, i)} | |w.syms| <= i ::
          SymAt(v, i).obj.Some? ==> SymAt(v, i).obj.value == cur && i in got)
    && (cur < |w.objs| ==> Touched(w, got, cur))
  }

  lemma TouchedMore(w: World, got: seq<nat>, s: nat)
    ensures forall o: nat :: Touched(w, got + [s], o) <==> Touched(w, got, o) || SymAt(w, s).obj == Some(o)
  {
    forall o: nat
      ensures Touched(w, got + [s], o) <==> Touched(w, got, o) || SymAt(w, s).obj == Some(o)
    {
      if SymAt(w, s).obj == Some(o) {
        assert s in got + [s];
      }
      if Touched(w, got, o) {
        var j :| j in got && SymAt(w, j).obj == Some(o);
        assert j in got + [s];
      }
    }
  }

  /** A symbol without an object joins the file's object. */
  lemma AdoptUnifies(w: World, v: World, v': World, cur: nat, src: nat, got: seq<nat>, s: nat)
    requires Unified(w, v, cur, src, got) && SymAt(v, s).obj == None
    requires |v.syms| <= |v'.syms| && s < |v'.syms| && v'.objs == v.objs && SymAt(v', s).obj == Some(cur)
    requires forall i: nat {:trigger SymAt(v', i)} :: i != s ==> SymAt(v', i) == SymAt(v, i)
    ensures Unified(w, v', cur, src, got + [s])
  {
    TouchedMore(w, got, s);
    assert SymAt(w, s).obj == None by {
      assert s < |w.syms| ==> SymAt(v, s).obj == Owner(w, got, cur, s);
    }
    forall i: nat {:trigger SymAt(v', i)} | i < |w.syms|
      ensures SymAt(v', i).obj == Owner(w, got + [s], cur, i)
    {
      assert SymAt(v, i).obj == Owner(w, got, cur, i);
    }
  }

  /** A symbol that already belongs to the file's object. */
  lemma StayUnifies(w: World, v: World, cur: nat, src: nat, got: seq<nat>, s: nat)
    requires Unified(w, v, cur, src, got) && s < |v.syms| && SymAt(v, s).obj == Some(cur)
    requires Wf(w)
    ensures Unified(w, v, cur, src, got + [s])
  {
    TouchedMore(w, got, s);
    assert s < |w.syms| ==> SymAt(v, s).obj == Owner(w, got, cur, s);
    assert SymAt(w, s).obj.Some? ==> Touched(w, got, SymAt(w, s).obj.value);
    forall i: nat {:trigger SymAt(v, i)} | i < |w.syms|
      ensures SymAt(v, i).obj == Owner(w, got + [s], cur, i)
    {
      assert SymAt(v, i).obj == Owner(w, got, cur, i);
    }
  }

  /** A symbol with an object of its own: that object becomes the file's object. */
  lemma MergeUnifies(w: World, v: World, v': World, cur: nat, src: nat, got: seq<nat>, s: nat, o: nat)
    requires Wf(w)
    requires Unified(w, v, cur, src, got) && s < |v.syms| && SymAt(v, s).obj == Some(o) && o != cur
    requires |v'.syms| == |v.syms| && o < |v'.objs| && v'.objs[o].source == Some(src)
    requires forall i: nat {:trigger SymAt(v', i)} :: i < |v.syms| ==> SymAt(v', i) == Redirect(SymAt(v, i), cur, o)
    ensures Unified(w, v', o, src, got + [s])
  {
    TouchedMore(w, got, s);
    assert SymAt(v, s).obj == Owner(w, got, cur, s);
    assert SymAt(w, s).obj == Some(o) && !Touched(w, got, o);
    forall i | i in got + [s] ensures i < |v'.syms| && SymAt(v', i).obj == Some(o) {
      assert i in got || i == s;
    }
    forall i: nat {:trigger SymAt(v', i)} | i < |w.syms|
      ensures SymAt(v', i).obj == Owner(w, got + [s], o, i)
    {
      assert SymAt(v, i).obj == Owner(w, got, cur, i);
      assert i in got ==> SymAt(v, i).obj == Some(cur);
    }
  }

  lemma JoinUnifies(w: World, v: World, cur: nat, src: nat, got: seq<nat>, name: string)
    requires Wf(w) && Unified(w, v, cur, src, got)
    requires forall i | 0 <= i < |v.syms| && v.syms[i].obj.Some? :: v.syms[i].obj.value < |v.objs|
    ensures var j := Join(src, v, cur, name); Unified(w, j.0, j.1, src, got + [Slot(v, name)])
  {
    var s, j := Slot(v, name), Join(src, v, cur, name);
    if SymAt(v, s).obj == None {
      AdoptUnifies(w, v, j.0, cur, src, got, s);
    } else if SymAt(v, s).obj == Some(cur) {
      StayUnifies(w, v, cur, src, got, s);
    } else {
      MergeUnifies(w, v, j.0, cur, src, got, s, SymAt(v, s).obj.value);
    }
  }

  lemma MakeInlineUnifies(w: World, v: World, cur: nat, src: nat, got: seq<nat>, name: string)
    requires Unified(w, v, cur, src, got)
    ensures Unified(w, MakeInline(v, name), cur, src, got)
  {
    var v' := MakeInline(v, name);
    assert forall i: nat {:trigger SymAt(v', i)} :: SymAt(v', i).obj == SymAt(v, i).obj;
  }

  lemma LineWf(env: Env, st: Pass, d: Directive)
    requires Wf(st.w) && st.cur < |st.w.objs| && env.src < |st.w.srcs|
    ensures var r := LineStep(env, st, d); Wf(r.w) && r.cur < |r.w.objs| && r.w.srcs == st.w.srcs
  {
    if d.Global? && TreatInline(env, st, d.name) {
      WfPutSym(st.w, Slot(st.w, d.name), SymAt(st.w, Slot(st.w, d.name)).(state := Inline));
      WfInsert(st.w, NewSym(d.name, None, Inline));
    } else if d.Global? {
      JoinWf(env.src, st.w, st.cur, d.name);
    }
  }

  lemma JoinWf(src: nat, w: World, cur: nat, name: string)
    requires Wf(w) && cur < |w.objs| && src < |w.srcs|
    ensures var j := Join(src, w, cur, name); Wf(j.0) && j.1 < |j.0.objs| && j.0.srcs == w.srcs
  {
    var s := Find(w.syms, name);
    if s < 0 {
      WfInsert(w, NewSym(name, Some(cur), Defined));
    } else if SymAt(w, s).obj == None {
      WfPutSym(w, s, SymAt(w, s).(obj := Some(cur)));
    } else {
      var o := SymAt(w, s).obj.value;
      WfSetSource(w, o, Some(src));
      WfFixupAll(SetSource(w, o, Some(src)), cur, o);
    }
  }

  lemma {:induction false} LinesUnify(env: Env, w: World, ds: seq<Directive>, k: nat)
    requires Wf(w) && env.src < |w.srcs| && k <= |ds|
    ensures var r := LinesRun(env, Start(w, env.src), ds, k);
            && Wf(r.w) && r.cur < |r.w.objs| && r.w.srcs == w.srcs
            && Unified(w, r.w, r.cur, env.src, Gathered(env, Start(w, env.src), ds, k))
  {
    var st := Start(w, env.src);
    if k > 0 {
      LinesUnify(env, w, ds, k - 1);
      var r, d, got := LinesRun(env, st, ds, k - 1), ds[k - 1], Gathered(env, st, ds, k - 1);
      LineWf(env, r, d);
      if d.Global? && TreatInline(env, r, d.name) {
        MakeInlineUnifies(w, r.w, r.cur, env.src, got, d.name);
        assert got + [] == got;
      } else if d.Global? {
        JoinUnifies(w, r.w, r.cur, env.src, got, d.name);
      } else {
        assert got + [] == got;
      }
    }
  }

  /** After a file has been read, every symbol it exports as a real global belongs to one object whose
      source is that file; a symbol of the old table moved there exactly when it, or a symbol it shared its
      object with, was among them; so symbols that shared an object still share one. */
  lemma ObjectsUnified(env: Env, w: World, ds: seq<Directive>)
    requires Wf(w) && env.src < |w.srcs|
    ensures var r := LinesRun(env, Start(w, env.src), ds, |ds|);
            var got := Gathered(env, Start(w, env.src), ds, |ds|);
            && |w.syms| <= |r.w.syms| && r.cur < |r.w.objs| && r.w.objs[r.cur].source == Some(env.src)
            && (forall i | i in got :: i < |r.w.syms| && r.w.syms[i].obj == Some(r.cur))
            && (forall i | 0 <= i < |w.syms| :: r.w.syms[i].obj == Owner(w, got, r.cur, i))
            && (forall i, j | 0 <= i < |w.syms| && 0 <= j < |w.syms| ::
                  w.syms[i].obj.Some? && w.syms[i].obj == w.syms[j].obj
                  ==> r.w.syms[i].obj.Some? && r.w.syms[i].obj == r.w.syms[j].obj)
  {
    LinesUnify(env, w, ds, |ds|);
    var r := LinesRun(env, Start(w, env.src), ds, |ds|);
    forall i | 0 <= i < |w.syms|
      ensures r.w.syms[i].obj == Owner(w, Gathered(env, Start(w, env.src), ds, |ds|), r.cur, i)
    {
      assert SymAt(r.w, i) == r.w.syms[i];
    }
  }

  // --- What the pass leaves alone ----------------------------------------------------------------

  /** Names and users of symbols, and all of an object but its source; new symbols have no users, and the one new object
      has no name. */
  ghost predicate RestKept(w: World, v: World) {
    && |w.syms| <= |v.syms| && |v.objs| == |w.objs| + 1 && v.srcs == w.srcs
    && (forall i: nat {:trigger SymAt(v, i)} | i < |w.syms| ::
          SymAt(v, i) == w.syms[i].(obj := SymAt(v, i).obj, state := SymAt(v, i).state))
    && (forall i: nat {:trigger SymAt(v, i)} | |w.syms| <= i :: SymAt(v, i).ngusers == SymAt(v, i).nlusers == 0)
    && (forall o: nat {:trigger ObjAt(v, o)} | o < |w.objs| :: ObjAt(v, o) == w.objs[o].(source := ObjAt(v, o).source))
    && ObjAt(v, |w.objs|) == NewObject(None, ObjAt(v, |w.objs|).source)
  }

  lemma JoinKeepsRest(src: nat, w: World, v: World, cur: nat, name: string)
    requires RestKept(w, v)
    ensures RestKept(w, Join(src, v, cur, name).0)
  {
    hide Join;
    JoinChanges(src, v, cur, name);
  }

  lemma JoinChanges(src: nat, v: World, cur: nat, name: string)
    ensures var u := Join(src, v, cur, name).0;
            && |v.syms| <= |u.syms| && |u.objs| == |v.objs| && u.srcs == v.srcs
            && (forall i: nat {:trigger SymAt(u, i)} | i < |v.syms| :: SymAt(u, i) == SymAt(v, i).(obj := SymAt(u, i).obj))
            && (forall i: nat {:trigger SymAt(u, i)} | |v.syms| <= i :: SymAt(u, i).ngusers == SymAt(u, i).nlusers == 0)
            && (forall o: nat {:trigger ObjAt(u, o)} :: ObjAt(u, o) == ObjAt(v, o).(source := ObjAt(u, o).source))
  {
  }

  lemma InlineKeepsRest(w: World, v: World, name: string)
    requires RestKept(w, v)
    ensures RestKept(w, MakeInline(v, name))
  {
    var u := MakeInline(v, name);
    forall i: nat | i < |v.syms| ensures SymAt(u, i) == SymAt(v, i).(state := SymAt(u, i).state) {
    }
    forall o: nat ensures ObjAt(u, o) == ObjAt(v, o) {
    }
  }

  /** The pass changes nothing else. */
  lemma {:induction false} LinesKeepRest(env: Env, w: World, ds: seq<Directive>, k: nat)
    requires k <= |ds|
    ensures RestKept(w, LinesRun(env, Start(w, env.src), ds, k).w)
  {
    hide RestKept, Join, MakeInline, TreatInline;
    if k > 0 {
      LinesKeepRest(env, w, ds, k - 1);
      var r, d := LinesRun(env, Start(w, env.src), ds, k - 1), ds[k - 1];
      if d.Global? {
        JoinKeepsRest(env.src, w, r.w, r.cur, d.name);
        InlineKeepsRest(w, r.w, d.name);
      }
    } else {
      StartKeepsRest(w, env.src);
    }
  }

  lemma StartKeepsRest(w: World, src: nat)
    ensures RestKept(w, Start(w, src).w)
  {
  }
}
