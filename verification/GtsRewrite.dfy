/** EhSourceZapFp in the heap: reading one assembler file, line by line, into the table and an output text. */
module GtsRewrite {
  import opened CText
  import opened GtsWorld
  import opened GtsTable
  import Zap = GtsZap

  /** Where the next quote is. */
  method FindQuote(buf: string, p: nat) returns (q: nat)
    requires p <= |buf|
    ensures q == p + Zap.Quote(buf[p..]) <= |buf|
  {
    q := p;
    while q < |buf| && buf[q] != '"'
      invariant p <= q <= |buf| && q + Zap.Quote(buf[q..]) == p + Zap.Quote(buf[p..])
    {
      assert buf[q..][1..] == buf[q + 1..];
      q := q + 1;
    }
  }

  lemma Between(buf: string, n: nat, p: nat, q: nat)
    requires n <= p < q <= |buf|
    ensures buf[n..][p - n + 1..] == buf[p + 1..]
    ensures buf[p + 1..][..q - p - 1] == buf[p + 1..q]
  {
  }

  /** test_for_file */
  method TestForFile(irix: bool, buf: string) returns (foo: Option<string>)
    ensures foo == Zap.FileName(irix, buf)
  {
    var prefix := "\t.file";
    if !irix || !(prefix <= buf) {
      return None;
    }
    var p := FindQuote(buf, |prefix|);
    if p == |buf| {
      return None;
    }
    var q := FindQuote(buf, p + 1);
    Between(buf, |prefix|, p, q);
    foo := if q == |buf| then None else Some(buf[p + 1..q]);
  }

  /** The record of a file being read: the object that stands for it, whether the lines are its own, and
      how many exports have been removed. */
  datatype Cursor = Cursor(obj: EhObject, own: bool, nzap: nat)

  ghost function PassOf(table: EhSymTable, c: Cursor): Zap.Pass
    reads table, table.syms, table.objs, table.srcs
  {
    Zap.Pass(table.W(), c.obj.id, c.own, c.nzap)
  }

  /** A global directive that is treated as inline. */
  method ZapInline(table: EhSymTable, sym: EhSym?, name: string)
    requires table.Valid() && table.Found(sym, name)
    modifies table`nentries, table`syms, table.heads, table.syms`state
    ensures table.Valid() && table.NewSyms()
    ensures table.objs == old(table.objs) && table.srcs == old(table.srcs)
    ensures table.W() == Zap.MakeInline(old(table.W()), name)
  {
    if sym == null {
      var s := table.AddSym(name, null, Inline);
    } else {
      table.PutSymState(sym, Inline);
    }
  }

  /** The object a symbol already has becomes the file's, with this source and all symbols gathered so far. */
  method Merge(table: EhSymTable, source: EhSource, cur: EhObject, obj: EhObject)
    requires table.Valid() && source in table.srcs && cur in table.objs && obj in table.objs
    modifies table.syms`obj, table.syms`state
    modifies table.objs`recompile, table.objs`needsUnzap, table.objs`nusers, table.objs`source
    ensures table.Valid()
    ensures table.W() == FixupAll(SetSource(old(table.W()), obj.id, Some(source.id)), cur.id, obj.id)
  {
    table.PutSource(obj, source);
    table.ObjectFixup(cur, obj);
  }

  /** A real global: it joins the file's object, or brings its own along. */
  method ZapReal(table: EhSymTable, source: EhSource, sym: EhSym?, name: string, cur: EhObject)
    returns (obj: EhObject)
    requires table.Valid() && table.Found(sym, name)
    requires source in table.srcs && cur in table.objs
    modifies table`nentries, table`syms, table.heads
    modifies table.syms`obj, table.syms`state
    modifies table.objs`recompile, table.objs`needsUnzap, table.objs`nusers, table.objs`source
    ensures table.Valid() && table.NewSyms() && obj in table.objs
    ensures table.objs == old(table.objs) && table.srcs == old(table.srcs)
    ensures var j := Zap.Join(source.id, old(table.W()), cur.id, name);
            table.W() == j.0 && obj.id == j.1
  {
    obj := cur;
    hide table.Valid, table.W, FixupAll, SetSource, SetObject, Insert;
    if sym != null {
      table.ObjAtId(cur);
      if sym.obj == null {
        table.PutSymObject(sym, cur);
      } else if sym.obj != cur {
        table.SameId(sym.obj, cur);
        obj := sym.obj;
        Merge(table, source, cur, obj);
      }
    } else {
      var s := table.AddSym(name, cur, Defined);
    }
  }

  /** A global directive. */
  method ZapGlobal(table: EhSymTable, source: EhSource, output: bool, cplusplus: bool, c: Cursor, name: string)
    returns (c': Cursor, zapped: bool)
    requires table.Valid() && source in table.srcs && c.obj in table.objs
    modifies table`nentries, table`syms, table.heads
    modifies table.syms`obj, table.syms`state
    modifies table.objs`recompile, table.objs`needsUnzap, table.objs`nusers, table.objs`source
    ensures table.Valid() && table.NewSyms() && c'.obj in table.objs
    ensures table.objs == old(table.objs) && table.srcs == old(table.srcs)
    ensures var env, st := Zap.Env(source.id, source.name, output, cplusplus), old(PassOf(table, c));
            && PassOf(table, c') == Zap.LineStep(env, st, Zap.Global(name))
            && zapped == Zap.Marked(env, st, Zap.Global(name))
  {
    hide table.Valid, table.W, Zap.Join, Zap.MakeInline;
    var sym := table.Find(name);
    ghost var env, st := Zap.Env(source.id, source.name, output, cplusplus), PassOf(table, c);
    ghost var next := Zap.LineStep(env, st, Zap.Global(name));
    if (!c.own && cplusplus) || (sym != null && sym.state == Inline) {
      assert next == st.(w := Zap.MakeInline(st.w, name)) && Zap.Marked(env, st, Zap.Global(name));
      ZapInline(table, sym, name);
      c', zapped := c, true;
    } else {
      zapped := sym != null && sym.obj != null && sym.state == Zapped;
      var nzap := if zapped && output then c.nzap + 1 else c.nzap;
      assert zapped == Zap.Marked(env, st, Zap.Global(name));
      assert next == Zap.Pass(Zap.Join(source.id, st.w, c.obj.id, name).0, Zap.Join(source.id, st.w, c.obj.id, name).1,
                              c.own, nzap);
      var obj := ZapReal(table, source, sym, name, c.obj);
      c' := Cursor(obj, c.own, nzap);
    }
  }

  /** One line of assembler, and how it is to be written. */
  method ZapLine(table: EhSymTable, source: EhSource, output: bool, cplusplus: bool, irix: bool, c: Cursor,
                 buf: string, ghost d: Zap.Directive)
    returns (c': Cursor, text: string)
    requires d == Zap.DirectiveOf(irix, buf)
    requires table.Valid() && source in table.srcs && c.obj in table.objs
    modifies table`nentries, table`syms, table.heads
    modifies table.syms`obj, table.syms`state
    modifies table.objs`recompile, table.objs`needsUnzap, table.objs`nusers, table.objs`source
    ensures table.Valid() && table.NewSyms() && c'.obj in table.objs
    ensures table.objs == old(table.objs) && table.srcs == old(table.srcs)
    ensures var env, st := Zap.Env(source.id, source.name, output, cplusplus), old(PassOf(table, c));
            && PassOf(table, c') == Zap.LineStep(env, st, d)
            && text == if Zap.Marked(env, st, d) then Zap.COMMENT + buf else buf
  {
    c', text := c, buf;
    var file := TestForFile(irix, buf);
    if file.Some? {
      c' := c.(own := file.value == if c.own then source.name else Zap.NOT_LOCAL);
    } else {
      var name := Zap.GlobalName(irix, buf);
      if name.Some? {
        var zapped;
        c', zapped := ZapGlobal(table, source, output, cplusplus, c, name.value);
        if zapped {
          text := Zap.COMMENT + buf;
        }
      }
    }
  }

  /** The loop over the lines, which come without their newlines; there is no output when output is false. */
  method ZapLines(table: EhSymTable, source: EhSource, lines: seq<string>, output: bool, cplusplus: bool, irix: bool,
                  start: Cursor)
    returns (out: seq<string>, c: Cursor)
    requires table.Valid() && source in table.srcs && start.obj in table.objs
    modifies table`nentries, table`syms, table.heads
    modifies table.syms`obj, table.syms`state
    modifies table.objs`recompile, table.objs`needsUnzap, table.objs`nusers, table.objs`source
    ensures table.Valid() && table.NewSyms()
    ensures table.objs == old(table.objs) && table.srcs == old(table.srcs)
    ensures var env, ds := Zap.Env(source.id, source.name, output, cplusplus), Zap.Directives(irix, lines);
            && PassOf(table, c) == Zap.LinesRun(env, old(PassOf(table, start)), ds, |ds|)
            && out == if output then Zap.LinesOut(env, old(PassOf(table, start)), lines, ds, |ds|) else []
  {
    hide table.Valid, table.W, PassOf;
    ghost var env := Zap.Env(source.id, source.name, output, cplusplus);
    ghost var ds, st := Zap.Directives(irix, lines), PassOf(table, start);
    c := start;
    out := [];
    for n := 0 to |lines|
      invariant table.Valid() && table.NewSyms()
      invariant table.objs == old(table.objs) && table.srcs == old(table.srcs) && c.obj in table.objs
      invariant PassOf(table, c) == Zap.LinesRun(env, st, ds, n)
      invariant out == if output then Zap.LinesOut(env, st, lines, ds, n) else []
    {
      var text;
      c, text := ZapLine(table, source, output, cplusplus, irix, c, lines[n], ds[n]);
      if output {
        out := out + [text];
      }
    }
  }

  /** EhSourceZapFp */
  method EhSourceZapFp(table: EhSymTable, source: EhSource, lines: seq<string>, output: bool, cplusplus: bool,
                       irix: bool)
    returns (out: seq<string>, nzap: nat)
    requires table.Valid() && source in table.srcs
    modifies table, table.heads, table.syms, table.objs
    ensures table.Valid() && table.OnlyNew() && old(table.objs) <= table.objs && table.srcs == old(table.srcs)
    ensures var env, ds := Zap.Env(source.id, source.name, output, cplusplus), Zap.Directives(irix, lines);
            var st := Zap.Start(old(table.W()), source.id);
            && table.W() == Zap.LinesRun(env, st, ds, |ds|).w && nzap == Zap.LinesRun(env, st, ds, |ds|).nzap
            && out == if output then Zap.LinesOut(env, st, lines, ds, |ds|) else []
  {
    hide table.Valid, table.W, Zap.LinesRun;
    var tmp := table.AddObject(None, source);
    var c;
    out, c := ZapLines(table, source, lines, output, cplusplus, irix, Cursor(tmp, true, 0));
    nzap := c.nzap;
  }
}
