/** EhSymTableSetSymbolState: the command line forces a symbol to be static or global. */
module GtsForce {
  import opened CText
  import opened GtsWorld
  import opened GtsTable
  import opened GtsOwn
  import Zap = GtsZap
  import Names = GtsExports

  /** A symbol that the table does not know is added, without an object. An inline symbol stays inline, and an
      undefined one, which an object file has mentioned, is refused. */
  function Force(w: World, name: string, state: SymState): World {
    var s := Find(w.syms, name);
    if s < 0 then Insert(w, NewSym(name, None, state))
    else if SymAt(w, s).state == Defined || SymAt(w, s).state == Zapped then SetState(w, s, state)
    else w
  }

  predicate Refused(w: World, name: string) {
    Find(w.syms, name) >= 0 && SymAt(w, Find(w.syms, name)).state == Undefined
  }

  method EhSymTableSetSymbolState(table: EhSymTable, name: string, new_state: SymState) returns (rv: int)
    requires table.Valid() && (new_state == Defined || new_state == Zapped)
    modifies table`nentries, table`syms, table.heads, table.syms`state
    ensures table.Valid() && table.NewSyms() && table.objs == old(table.objs) && table.srcs == old(table.srcs)
    ensures table.W() == Force(old(table.W()), name, new_state)
    ensures rv == if Refused(old(table.W()), name) then -1 else 0
  {
    hide table.Valid, table.W, SetState, Insert;
    var sym := table.Find(name);
    rv := 0;
    if sym == null {
      sym := table.AddSym(name, null, new_state);
    } else if sym.state == Defined || sym.state == Zapped {
      table.PutSymState(sym, new_state);
    } else if sym.state == Undefined {
      rv := -1;
    }
  }

  /** The named symbol is in the table afterwards, with the forced state unless it is inline or was refused; its
      object and all other symbols are as before. */
  lemma ForcedExactly(w: World, name: string, state: SymState)
    requires state == Defined || state == Zapped
    ensures var v, s := Force(w, name, state), Slot(w, name);
            && Find(v.syms, name) == s && v.objs == w.objs && v.srcs == w.srcs
            && (SymAt(v, s).state == state <==>
                  !Refused(w, name) && !IsInline(w, name))
            && SymAt(v, s).obj == SymAt(w, s).obj
            && forall i: nat :: i != s ==> SymAt(v, i) == SymAt(w, i)
  {
    var v := Force(w, name, state);
    if Find(w.syms, name) < 0 {
      FindAfterInsert(w.syms, NewSym(name, None, state), name);
    } else {
      FindSameNames(w.syms, v.syms, name);
    }
  }

  /** The next pass over assembler comments out an export of a symbol that was forced static exactly when the
      symbol had an object before, or the name was exported earlier in the file, or the export lies in an included
      C++ file. So what the command asks for does not happen to the first export in the source itself of a symbol
      that has no object yet; it does happen to all later ones. */
  lemma ForcedStatic(w: World, name: string, env: Zap.Env, ds: seq<Zap.Directive>, k: nat)
    requires !IsInline(w, name) && !Refused(w, name)
    requires k < |ds| && ds[k] == Zap.Global(name)
    ensures var st := Zap.LinesRun(env, Zap.Start(Force(w, name, Zapped), env.src), ds, k);
            Zap.Marked(env, st, ds[k])
            <==> SymAt(w, Slot(w, name)).obj.Some? || Names.Exported(ds, k, name)
                 || (env.cplusplus && !Own(env.name, true, ds, k))
  {
    hide Zap.LinesRun, Names.Exported, Names.MadeInline, Names.MadeReal;
    var v := Force(w, name, Zapped);
    ForcedExactly(w, name, Zapped);
    Names.NameRun(env, v, ds, k, name);
    Names.TreatedInline(env, v, ds, k);
    Names.MadeInlineMore(env, ds, k, name);
    Names.RealOrInline(env, ds, k, name);
  }

  /** For instance a file that exports an unknown symbol twice: only the second export is commented out. */
  lemma FirstExportEscapes(src: Source, lines: seq<string>)
    requires lines == ["\t.globl\tf", "\t.globl\tf"]
    ensures var w := Force(World([], [], [src]), "f", Zapped);
            var env, ds := Zap.Env(0, "a.c", true, false), Zap.Directives(true, lines);
            Zap.LinesOut(env, Zap.Start(w, 0), lines, ds, 2) == [lines[0], " # gts" + lines[1]]
  {
    hide Zap.LinesRun, Zap.Marked, Zap.DirectiveOf;
    var w0, env, ds := World([], [], [src]), Zap.Env(0, "a.c", true, false), Zap.Directives(true, lines);
    Zap.GlobalExactly(true, lines[0], "f");
    ForcedStatic(w0, "f", env, ds, 0);
    ForcedStatic(w0, "f", env, ds, 1);
    assert Names.Exports(ds[0], "f");
    var st := Zap.Start(Force(w0, "f", Zapped), 0);
    assert Zap.LinesOut(env, st, lines, ds, 1) == Zap.LinesOut(env, st, lines, ds, 0) + [lines[0]];
    assert Zap.LinesOut(env, st, lines, ds, 2) == Zap.LinesOut(env, st, lines, ds, 1) + [" # gts" + lines[1]];
  }
}
