/** eh_process_object in the heap: the symbols and relocations of one object file are read into the table. */
module GtsReader {
  import opened CText
  import opened GtsWorld
  import opened GtsTable
  import Users = GtsUsers

  /** The two loops that count the relocations naming symbol i, table by table. */
  method CountRefs(tables: seq<seq<nat>>, i: nat) returns (n: nat)
    ensures n == Users.AllRefs(tables, i)
  {
    n := 0;
    for k := 0 to |tables|
      invariant n == Users.AllRefs(tables[..k], i)
    {
      var rel, before := tables[k], n;
      for j := 0 to |rel|
        invariant n == before + Users.Refs(rel[..j], i)
      {
        assert rel[..j + 1][..j] == rel[..j];
        if rel[j] == i {
          n := n + 1;
        }
      }
      assert rel[..|rel|] == rel && tables[..k + 1][..k] == tables[..k];
    }
    assert tables[..|tables|] == tables;
  }

  /** A symbol the table knows is defined in obj. */
  method Claim(table: EhSymTable, sym: EhSym, obj: EhObject)
    requires table.Valid() && sym in table.syms && obj in table.objs
    modifies table.syms`obj, table.syms`state
    modifies table.objs`recompile, table.objs`needsUnzap, table.objs`nusers, table.objs`source
    ensures table.Valid() && table.W() == Users.Claim(old(table.W()), sym.id, obj.id)
  {
    hide table.Valid, table.W, FixupAll, SetSource, SetObject;
    table.SymAtId(sym);
    table.ObjAtId(obj);
    if sym.obj != null {
      table.ObjAtId(sym.obj);
      table.SourceIds(sym.obj, obj);
    }
    if sym.obj == null {
      table.PutSymObject(sym, obj);
    } else if sym.obj.name.None? {
      if obj.source != null && obj.source != sym.obj.source {
        return;   // defined in more than one source file: a warning, and ignored
      }
      var old_obj := sym.obj;
      table.PutSource(obj, old_obj.source);
      table.ObjectFixup(old_obj, obj);
    }
  }

  method Establish(table: EhSymTable, sym: EhSym?, name: string, obj: EhObject) returns (s: EhSym)
    requires table.Valid() && table.Found(sym, name) && obj in table.objs
    modifies table`nentries, table`syms, table.heads
    modifies table.syms`obj, table.syms`state
    modifies table.objs`recompile, table.objs`needsUnzap, table.objs`nusers, table.objs`source
    ensures table.Valid() && table.NewSyms() && s in table.syms
    ensures table.objs == old(table.objs) && table.srcs == old(table.srcs)
    ensures table.W() == Users.Establish(old(table.W()), obj.id, name) && s.id == Slot(old(table.W()), name)
  {
    hide table.Valid, table.W, SetState, Users.Claim;
    if sym != null {
      Claim(table, sym, obj);
      table.PutSymState(sym, Defined);
      s := sym;
    } else {
      s := table.AddSym(name, obj, Defined);
    }
  }

  method Mention(table: EhSymTable, sym: EhSym?, name: string) returns (s: EhSym)
    requires table.Valid() && table.Found(sym, name)
    modifies table`nentries, table`syms, table.heads
    ensures table.Valid() && table.NewSyms() && s in table.syms
    ensures table.objs == old(table.objs) && table.srcs == old(table.srcs)
    ensures table.W() == Users.Mention(old(table.W()), name) && s.id == Slot(old(table.W()), name)
  {
    hide table.Valid, table.W;
    if sym == null {
      s := table.AddSym(name, null, Undefined);
    } else {
      s := sym;
    }
  }

  method Define(table: EhSymTable, sym: EhSym?, name: string, obj: EhObject, refs: nat)
    requires table.Valid() && table.Found(sym, name) && obj in table.objs
    modifies table`nentries, table`syms, table.heads
    modifies table.syms`obj, table.syms`state, table.syms`nlusers
    modifies table.objs`recompile, table.objs`needsUnzap, table.objs`nusers, table.objs`source
    ensures table.Valid() && table.NewSyms()
    ensures table.objs == old(table.objs) && table.srcs == old(table.srcs)
    ensures table.W() == Users.Define(old(table.W()), obj.id, name, refs)
  {
    hide table.Valid, table.W, table.Found, Users.Establish, Users.AddLocal, Slot;
    var s := Establish(table, sym, name, obj);
    table.AddLocalUsers(s, refs);
  }

  method Refer(table: EhSymTable, sym: EhSym?, name: string)
    requires table.Valid() && table.Found(sym, name)
    modifies table`nentries, table`syms, table.heads, table.syms`ngusers
    ensures table.Valid() && table.NewSyms()
    ensures table.objs == old(table.objs) && table.srcs == old(table.srcs)
    ensures table.W() == Users.Refer(old(table.W()), name)
  {
    hide table.Valid, table.W, table.Found, Users.Mention, Users.AddGlobal, Slot;
    var s := Mention(table, sym, name);
    table.AddGlobalUser(s);
  }

  /** One entry of the file's symbol table. */
  method ProcessEntry(table: EhSymTable, obj: EhObject, e: Users.ElfSym, tables: seq<seq<nat>>, i: nat)
    requires table.Valid() && obj in table.objs
    modifies table`nentries, table`syms, table.heads
    modifies table.syms`obj, table.syms`state, table.syms`ngusers, table.syms`nlusers
    modifies table.objs`recompile, table.objs`needsUnzap, table.objs`nusers, table.objs`source
    ensures table.Valid() && table.NewSyms()
    ensures table.objs == old(table.objs) && table.srcs == old(table.srcs)
    ensures table.W() == Users.EntryStep(old(table.W()), obj.id, e, Users.AllRefs(tables, i))
  {
    hide table.Valid, table.W, Users.Define, Users.Refer, Users.AllRefs;
    if e.global {
      var sym := table.Find(e.name);
      assert (sym != null && sym.state == Inline) == IsInline(table.W(), e.name);
      if sym == null || sym.state != Inline {
        if e.defined {
          var refs := CountRefs(tables, i);
          Define(table, sym, e.name, obj, refs);
        } else {
          Refer(table, sym, e.name);
        }
      }
    }
  }

  /** eh_process_object */
  method ProcessObject(table: EhSymTable, obj: EhObject, f: Users.ElfFile)
    requires table.Valid() && obj in table.objs
    modifies table`nentries, table`syms, table.heads
    modifies table.syms`obj, table.syms`state, table.syms`ngusers, table.syms`nlusers
    modifies table.objs`recompile, table.objs`needsUnzap, table.objs`nusers, table.objs`source
    ensures table.Valid() && table.NewSyms()
    ensures table.objs == old(table.objs) && table.srcs == old(table.srcs)
    ensures table.W() == Users.EntriesRun(old(table.W()), obj.id, f, |f.entries|)
  {
    hide table.Valid, table.W, Users.EntryStep;
    for i := 0 to |f.entries|
      invariant table.Valid() && table.NewSyms()
      invariant table.objs == old(table.objs) && table.srcs == old(table.srcs)
      invariant table.W() == Users.EntriesRun(old(table.W()), obj.id, f, i)
    {
      ProcessEntry(table, obj, f.entries[i], f.tables, i);
    }
  }

  /** eh_process_file for every object file of the link line: a record for the file, then its symbols. */
  method ProcessFiles(table: EhSymTable, fs: seq<Users.ElfFile>)
    requires table.Valid()
    modifies table, table.heads, table.syms, table.objs
    ensures table.Valid() && table.OnlyNew() && table.srcs == old(table.srcs)
    ensures table.W() == Users.ReadFiles(old(table.W()), fs)
  {
    hide table.Valid, table.W, Users.ReadFile, Users.EntriesRun;
    for k := 0 to |fs|
      invariant table.Valid() && table.OnlyNew() && table.srcs == old(table.srcs)
      invariant table.W() == Users.ReadFiles(old(table.W()), fs[..k])
    {
      ProcessFile(table, fs[k]);
      assert fs[..k + 1][..k] == fs[..k];
    }
    assert fs[..|fs|] == fs;
  }

  method ProcessFile(table: EhSymTable, f: Users.ElfFile)
    requires table.Valid()
    modifies table, table.heads, table.syms, table.objs
    ensures table.Valid() && table.OnlyNew() && table.srcs == old(table.srcs)
    ensures table.W() == Users.ReadFile(old(table.W()), f)
  {
    hide table.Valid, table.W, Users.EntriesRun;
    var obj := table.AddObject(f.name, null);
    ProcessObject(table, obj, f);
  }
}
