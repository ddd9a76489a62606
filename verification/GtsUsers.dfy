/** Reading object files: which symbols an ELF file defines, who refers to them, and why every reference
    is counted exactly once. */
module GtsUsers {
  import opened CText
  import opened GtsWorld
  import opened GtsOrder
  import opened GtsPasses

  /** One entry of an object file's symbol table. */
  datatype ElfSym = ElfSym(name: string, global: bool, defined: bool)

  /** An object file: its name when it has one, its symbols, and for each relocation table (REL ones
      first, then RELA) the symbol index of each of its entries. */
  datatype ElfFile = ElfFile(name: Option<string>, entries: seq<ElfSym>, tables: seq<seq<nat>>)

  /** How many entries of one relocation table name symbol i. */
  function Refs(table: seq<nat>, i: nat): nat {
    if table == [] then 0
    else Refs(table[..|table| - 1], i) + if table[|table| - 1] == i then 1 else 0
  }

  function AllRefs(tables: seq<seq<nat>>, i: nat): nat {
    if tables == [] then 0 else AllRefs(tables[..|tables| - 1], i) + Refs(tables[|tables| - 1], i)
  }

  /** Object o defines the known symbol s: an undefined symbol moves to o; an object read from the data
      base gives o its source and hands over all its symbols, unless o was built from another source. */
  function Claim(w: World, s: nat, o: nat): World {
    match SymAt(w, s).obj
    case None => SetObject(w, s, o)
    case Some(q) =>
      if ObjAt(w, q).name.Some? then w
      else if ObjAt(w, o).source.Some? && ObjAt(w, o).source != ObjAt(w, q).source then w
      else FixupAll(SetSource(w, o, ObjAt(w, q).source), q, o)
  }

  function AddLocal(w: World, s: nat, n: nat): World {
    PutSym(w, s, SymAt(w, s).(nlusers := SymAt(w, s).nlusers + n))
  }

  function AddGlobal(w: World, s: nat): World {
    PutSym(w, s, SymAt(w, s).(ngusers := SymAt(w, s).ngusers + 1))
  }

  function Establish(w: World, o: nat, name: string): World {
    if Find(w.syms, name) >= 0 then
      SetState(Claim(w, Find(w.syms, name), o), Find(w.syms, name), Defined)
    else Insert(w, NewSym(name, Some(o), Defined))
  }

  function Define(w: World, o: nat, name: string, refs: nat): World {
    AddLocal(Establish(w, o, name), Slot(w, name), refs)
  }

  function Mention(w: World, name: string): World {
    if Find(w.syms, name) >= 0 then w else Insert(w, NewSym(name, None, Undefined))
  }

  function Refer(w: World, name: string): World {
    AddGlobal(Mention(w, name), Slot(w, name))
  }

  /** One symbol of an object file. Symbols that are not global are skipped, and so are inlines. */
  function EntryStep(w: World, o: nat, e: ElfSym, refs: nat): World {
    if !e.global || IsInline(w, e.name) then w
    else if e.defined then Define(w, o, e.name, refs)
    else Refer(w, e.name)
  }

  function EntriesRun(w: World, o: nat, f: ElfFile, k: nat): World
    requires k <= |f.entries|
  {
    if k == 0 then w
    else EntryStep(EntriesRun(w, o, f, k - 1), o, f.entries[k - 1], AllRefs(f.tables, k - 1))
  }

  function ReadFile(w: World, f: ElfFile): World {
    EntriesRun(w.(objs := w.objs + [NewObject(f.name, None)]), |w.objs|, f, |f.entries|)
  }

  function ReadFiles(w: World, fs: seq<ElfFile>): World {
    if fs == [] then w else ReadFile(ReadFiles(w, fs[..|fs| - 1]), fs[|fs| - 1])
  }

  // --- Totals ------------------------------------------------------------------------------------

  ghost function GlobalUsers(syms: seq<Sym>): nat {
    if syms == [] then 0 else GlobalUsers(syms[..|syms| - 1]) + syms[|syms| - 1].ngusers
  }

  ghost function LocalUsers(syms: seq<Sym>): nat {
    if syms == [] then 0 else LocalUsers(syms[..|syms| - 1]) + syms[|syms| - 1].nlusers
  }

  /** Undefined global entries of the file that are not inline in w, among the first k. */
  ghost function UndefinedEntries(w: World, f: ElfFile, k: nat): nat
    requires k <= |f.entries|
  {
    if k == 0 then 0
    else
      var e := f.entries[k - 1];
      UndefinedEntries(w, f, k - 1) + if e.global && !e.defined && !IsInline(w, e.name) then 1 else 0
  }

  /** Relocations of the file that name a defined global symbol that is not inline in w. */
  ghost function DefinedRefs(w: World, f: ElfFile, k: nat): nat
    requires k <= |f.entries|
  {
    if k == 0 then 0
    else
      var e := f.entries[k - 1];
      DefinedRefs(w, f, k - 1)
      + if e.global && e.defined && !IsInline(w, e.name) then AllRefs(f.tables, k - 1) else 0
  }

  lemma {:induction false} SameUsers(a: seq<Sym>, b: seq<Sym>)
    requires |a| == |b|
    requires forall i | 0 <= i < |a| :: a[i].ngusers == b[i].ngusers && a[i].nlusers == b[i].nlusers
    ensures GlobalUsers(a) == GlobalUsers(b) && LocalUsers(a) == LocalUsers(b)
    decreases |a|
  {
    if a != [] {
      SameUsers(a[..|a| - 1], b[..|b| - 1]);
    }
  }

  lemma {:induction false} MoreUsers(a: seq<Sym>, i: nat, s: Sym)
    requires i < |a| && s.ngusers >= a[i].ngusers && s.nlusers >= a[i].nlusers
    ensures GlobalUsers(a[i := s]) == GlobalUsers(a) + s.ngusers - a[i].ngusers
    ensures LocalUsers(a[i := s]) == LocalUsers(a) + s.nlusers - a[i].nlusers
    decreases |a|
  {
    var n := |a| - 1;
    if i < n {
      MoreUsers(a[..n], i, s);
      assert a[i := s][..n] == a[..n][i := s];
    } else {
      assert a[i := s][..n] == a[..n];
    }
  }

  lemma InsertUsers(a: seq<Sym>, s: Sym)
    ensures GlobalUsers(a + [s]) == GlobalUsers(a) + s.ngusers
    ensures LocalUsers(a + [s]) == LocalUsers(a) + s.nlusers
  {
    assert (a + [s])[..|a|] == a;
  }

  /** Nothing but the owner of symbols and the sources of objects differs. */
  ghost predicate SameButOwners(w: World, w': World) {
    && |w'.syms| == |w.syms|
    && forall i | 0 <= i < |w.syms| :: w'.syms[i] == w.syms[i].(obj := w'.syms[i].obj)
  }

  lemma ClaimChangesOwners(w: World, s: nat, o: nat)
    ensures SameButOwners(w, Claim(w, s, o))
  {
  }

  /** A known symbol that is not inline stays where it is; an unknown one is added with no users. */
  ghost predicate Extends(w: World, w': World, name: string) {
    && Find(w'.syms, name) == Slot(w, name)
    && GlobalUsers(w'.syms) == GlobalUsers(w.syms) && LocalUsers(w'.syms) == LocalUsers(w.syms)
    && forall other: string :: other != name ==> IsInline(w', other) == IsInline(w, other)
  }

  lemma InsertExtends(w: World, s: Sym)
    requires Find(w.syms, s.name) < 0 && s.ngusers == 0 && s.nlusers == 0
    ensures Extends(w, Insert(w, s), s.name)
  {
    InsertUsers(w.syms, s);
    forall name ensures Find(w.syms + [s], name) == if s.name == name then |w.syms| else Find(w.syms, name) {
      FindAfterInsert(w.syms, s, name);
    }
  }

  lemma SetExtends(w: World, w': World, s: nat)
    requires s < |w.syms| && SameButOwners(w, w') && s == Find(w.syms, w.syms[s].name)
    ensures Extends(w, SetState(w', s, Defined), w.syms[s].name)
  {
    var v := SetState(w', s, Defined);
    SameUsers(w.syms, v.syms);
    forall name ensures Find(v.syms, name) == Find(w.syms, name) {
      FindSameNames(w.syms, v.syms, name);
    }
  }

  lemma EstablishExtends(w: World, o: nat, name: string)
    ensures Extends(w, Establish(w, o, name), name)
    ensures SymAt(Establish(w, o, name), Slot(w, name)).state == Defined
  {
    var s := Find(w.syms, name);
    if s >= 0 {
      ClaimChangesOwners(w, s, o);
      SetExtends(w, Claim(w, s, o), s);
    } else {
      InsertExtends(w, NewSym(name, Some(o), Defined));
    }
  }

  lemma MentionExtends(w: World, name: string)
    ensures Extends(w, Mention(w, name), name)
    ensures !IsInline(w, name) ==> !IsInline(Mention(w, name), name)
  {
    if Find(w.syms, name) < 0 {
      InsertExtends(w, NewSym(name, None, Undefined));
    }
  }

  /** Raising the counts of one symbol. */
  lemma RaiseUsers(w: World, i: nat, s: Sym)
    requires i < |w.syms| && s.ngusers >= w.syms[i].ngusers && s.nlusers >= w.syms[i].nlusers
    requires s.name == w.syms[i].name && s.state == w.syms[i].state
    ensures var v := PutSym(w, i, s);
            && GlobalUsers(v.syms) == GlobalUsers(w.syms) + s.ngusers - w.syms[i].ngusers
            && LocalUsers(v.syms) == LocalUsers(w.syms) + s.nlusers - w.syms[i].nlusers
            && forall name: string :: IsInline(v, name) == IsInline(w, name)
  {
    MoreUsers(w.syms, i, s);
    forall name ensures Find(PutSym(w, i, s).syms, name) == Find(w.syms, name) {
      FindSameNames(w.syms, PutSym(w, i, s).syms, name);
    }
  }

  lemma DefineUsers(w: World, o: nat, name: string, refs: nat)
    requires !IsInline(w, name)
    ensures var v := Define(w, o, name, refs);
            && GlobalUsers(v.syms) == GlobalUsers(w.syms) && LocalUsers(v.syms) == LocalUsers(w.syms) + refs
            && forall other: string :: IsInline(v, other) == IsInline(w, other)
  {
    hide Establish, GlobalUsers, LocalUsers, Find;
    EstablishExtends(w, o, name);
    var u, i := Establish(w, o, name), Slot(w, name);
    RaiseUsers(u, i, u.syms[i].(nlusers := u.syms[i].nlusers + refs));
  }

  lemma ReferUsers(w: World, name: string)
    requires !IsInline(w, name)
    ensures var v := Refer(w, name);
            && GlobalUsers(v.syms) == GlobalUsers(w.syms) + 1 && LocalUsers(v.syms) == LocalUsers(w.syms)
            && forall other: string :: IsInline(v, other) == IsInline(w, other)
  {
    hide Mention, GlobalUsers, LocalUsers, Find;
    MentionExtends(w, name);
    var u, i := Mention(w, name), Slot(w, name);
    RaiseUsers(u, i, u.syms[i].(ngusers := u.syms[i].ngusers + 1));
  }

  /** Reading an entry counts its users, makes no symbol inline and leaves every inline symbol inline. */
  lemma EntryUsers(w: World, o: nat, e: ElfSym, refs: nat)
    ensures var v, counts := EntryStep(w, o, e, refs), e.global && !IsInline(w, e.name);
            && GlobalUsers(v.syms) == GlobalUsers(w.syms) + (if counts && !e.defined then 1 else 0)
            && LocalUsers(v.syms) == LocalUsers(w.syms) + (if counts && e.defined then refs else 0)
            && forall name: string :: IsInline(v, name) == IsInline(w, name)
  {
    if e.global && !IsInline(w, e.name) {
      if e.defined {
        DefineUsers(w, o, e.name, refs);
      } else {
        ReferUsers(w, e.name);
      }
    }
  }

  /** Processing an object raises the table's global users by exactly its undefined global entries and the
      local users by exactly the relocations naming its defined globals, inlines left out. */
  lemma {:induction false} EntriesCountUsers(w: World, o: nat, f: ElfFile, k: nat)
    requires k <= |f.entries|
    ensures GlobalUsers(EntriesRun(w, o, f, k).syms) == GlobalUsers(w.syms) + UndefinedEntries(w, f, k)
    ensures LocalUsers(EntriesRun(w, o, f, k).syms) == LocalUsers(w.syms) + DefinedRefs(w, f, k)
    ensures forall name: string :: IsInline(EntriesRun(w, o, f, k), name) == IsInline(w, name)
  {
    hide EntryStep, GlobalUsers, LocalUsers, IsInline, AllRefs;
    if k > 0 {
      EntriesCountUsers(w, o, f, k - 1);
      EntryUsers(EntriesRun(w, o, f, k - 1), o, f.entries[k - 1], AllRefs(f.tables, k - 1));
    }
  }

  ghost function AllUndefined(w: World, fs: seq<ElfFile>): nat {
    if fs == [] then 0
    else AllUndefined(w, fs[..|fs| - 1]) + UndefinedEntries(w, fs[|fs| - 1], |fs[|fs| - 1].entries|)
  }

  ghost function AllDefinedRefs(w: World, fs: seq<ElfFile>): nat {
    if fs == [] then 0
    else AllDefinedRefs(w, fs[..|fs| - 1]) + DefinedRefs(w, fs[|fs| - 1], |fs[|fs| - 1].entries|)
  }

  lemma {:induction false} SameInlinesSameCounts(w: World, w': World, f: ElfFile, k: nat)
    requires k <= |f.entries|
    requires forall name: string :: IsInline(w', name) == IsInline(w, name)
    ensures UndefinedEntries(w', f, k) == UndefinedEntries(w, f, k)
    ensures DefinedRefs(w', f, k) == DefinedRefs(w, f, k)
  {
    if k > 0 {
      SameInlinesSameCounts(w, w', f, k - 1);
    }
  }

  /** Over a whole link line the counts are those of the files, judged by the inlines known at the start. */
  lemma {:induction false} FilesCountUsers(w: World, fs: seq<ElfFile>)
    ensures forall name: string :: IsInline(ReadFiles(w, fs), name) == IsInline(w, name)
    ensures GlobalUsers(ReadFiles(w, fs).syms) == GlobalUsers(w.syms) + AllUndefined(w, fs)
    ensures LocalUsers(ReadFiles(w, fs).syms) == LocalUsers(w.syms) + AllDefinedRefs(w, fs)
    decreases |fs|
  {
    if fs != [] {
      var before, f := ReadFiles(w, fs[..|fs| - 1]), fs[|fs| - 1];
      FilesCountUsers(w, fs[..|fs| - 1]);
      var w1 := before.(objs := before.objs + [NewObject(f.name, None)]);
      assert forall name: string :: IsInline(w1, name) == IsInline(before, name);
      EntriesCountUsers(w1, |before.objs|, f, |f.entries|);
      SameInlinesSameCounts(w, w1, f, |f.entries|);
    }
  }

  // --- Owners ------------------------------------------------------------------------------------

  ghost predicate Share(w: World, i: nat, j: nat) {
    SymAt(w, i).obj.Some? && SymAt(w, i).obj == SymAt(w, j).obj
  }

  /** A symbol's object, once defined, stays an object, and symbols that share one keep sharing. */
  lemma EntryKeepsSharing(w: World, o: nat, e: ElfSym, refs: nat, i: nat, j: nat)
    requires Share(w, i, j)
    ensures Share(EntryStep(w, o, e, refs), i, j)
  {
    var v, s := EntryStep(w, o, e, refs), Find(w.syms, e.name);
    if e.global && !IsInline(w, e.name) && e.defined && s >= 0 {
      ClaimKeepsSharing(w, s, o, i, j);
      assert forall x: nat :: SymAt(v, x).obj == SymAt(Claim(w, s, o), x).obj;
    } else {
      assert SymAt(v, i).obj == SymAt(w, i).obj && SymAt(v, j).obj == SymAt(w, j).obj;
    }
  }

  lemma ClaimKeepsSharing(w: World, s: nat, o: nat, i: nat, j: nat)
    requires Share(w, i, j)
    ensures Share(Claim(w, s, o), i, j)
  {
  }

  lemma {:induction false} EntriesKeepSharing(w: World, o: nat, f: ElfFile, k: nat, i: nat, j: nat)
    requires Share(w, i, j) && k <= |f.entries|
    ensures Share(EntriesRun(w, o, f, k), i, j)
  {
    if k > 0 {
      EntriesKeepSharing(w, o, f, k - 1, i, j);
      EntryKeepsSharing(EntriesRun(w, o, f, k - 1), o, f.entries[k - 1], AllRefs(f.tables, k - 1), i, j);
    }
  }

  lemma ClaimKeepsSource(w: World, s: nat, o: nat, i: nat)
    requires Wf(w) && s < |w.syms| && o < |w.objs| && SymSource(w, i).Some?
    ensures SymSource(Claim(w, s, o), i) == SymSource(w, i)
  {
  }

  lemma EntryKeepsSource(w: World, o: nat, e: ElfSym, refs: nat, i: nat)
    requires Wf(w) && o < |w.objs| && SymSource(w, i).Some?
    ensures SymSource(EntryStep(w, o, e, refs), i) == SymSource(w, i)
  {
    var v, s := EntryStep(w, o, e, refs), Find(w.syms, e.name);
    if e.global && !IsInline(w, e.name) && e.defined && s >= 0 {
      ClaimKeepsSource(w, s, o, i);
      assert v.objs == Claim(w, s, o).objs && SymAt(v, i).obj == SymAt(Claim(w, s, o), i).obj;
    } else {
      assert v.objs == w.objs && SymAt(v, i).obj == SymAt(w, i).obj;
    }
  }

  /** Every symbol keeps the source it has, although its object may be replaced by the one read. */
  lemma {:induction false} EntriesKeepSources(w: World, o: nat, f: ElfFile, k: nat, i: nat)
    requires Wf(w) && o < |w.objs| && k <= |f.entries| && SymSource(w, i).Some?
    ensures var v := EntriesRun(w, o, f, k);
            Wf(v) && |v.objs| == |w.objs| && SymSource(v, i) == SymSource(w, i)
  {
    if k > 0 {
      EntriesKeepSources(w, o, f, k - 1, i);
      var before, e, refs := EntriesRun(w, o, f, k - 1), f.entries[k - 1], AllRefs(f.tables, k - 1);
      EntryKeepsSource(before, o, e, refs, i);
      EntryWf(before, o, e, refs);
    }
  }

  lemma ClaimWf(w: World, s: nat, o: nat)
    requires Wf(w) && s < |w.syms| && o < |w.objs|
    ensures Wf(Claim(w, s, o)) && |Claim(w, s, o).objs| == |w.objs|
  {
    if w.syms[s].obj.Some? {
      var q := w.syms[s].obj.value;
      WfSetSource(w, o, ObjAt(w, q).source);
      WfFixupAll(SetSource(w, o, ObjAt(w, q).source), q, o);
    } else {
      WfPutSym(w, s, SymAt(w, s).(obj := Some(o)));
    }
  }

  lemma EntryWf(w: World, o: nat, e: ElfSym, refs: nat)
    requires Wf(w) && o < |w.objs|
    ensures Wf(EntryStep(w, o, e, refs)) && |EntryStep(w, o, e, refs).objs| == |w.objs|
  {
    var s := Find(w.syms, e.name);
    if e.global && !IsInline(w, e.name) && e.defined {
      if s >= 0 {
        ClaimWf(w, s, o);
        var v := Claim(w, s, o);
        WfPutSym(v, s, SymAt(v, s).(state := Defined));
      } else {
        WfInsert(w, NewSym(e.name, Some(o), Defined));
      }
      var u, i := Establish(w, o, e.name), Slot(w, e.name);
      WfPutSym(u, i, SymAt(u, i).(nlusers := SymAt(u, i).nlusers + refs));
    } else if e.global && !IsInline(w, e.name) {
      WfInsert(w, NewSym(e.name, None, Undefined));
      var u, i := Mention(w, e.name), Slot(w, e.name);
      WfPutSym(u, i, SymAt(u, i).(ngusers := SymAt(u, i).ngusers + 1));
    }
  }

  /** The symbol of that name is defined and belongs to an object. */
  ghost predicate HasOwner(w: World, name: string) {
    Find(w.syms, name) >= 0 && IsDefined(SymAt(w, Find(w.syms, name)))
  }

  lemma EstablishOwns(w: World, o: nat, name: string, other: string)
    requires other == name || HasOwner(w, other)
    ensures HasOwner(Establish(w, o, name), other)
  {
    var v, s := Establish(w, o, name), Find(w.syms, name);
    if s >= 0 {
      ClaimChangesOwners(w, s, o);
      FindSameNames(w.syms, v.syms, other);
    } else {
      FindAfterInsert(w.syms, NewSym(name, Some(o), Defined), other);
    }
  }

  lemma RaiseOwns(w: World, i: nat, s: Sym, name: string)
    requires SymAt(w, i).name == s.name && SymAt(w, i).obj == s.obj && SymAt(w, i).state == s.state
    requires HasOwner(w, name)
    ensures HasOwner(PutSym(w, i, s), name)
  {
    FindSameNames(w.syms, PutSym(w, i, s).syms, name);
  }

  lemma MentionOwns(w: World, name: string, other: string)
    requires HasOwner(w, other)
    ensures HasOwner(Mention(w, name), other)
  {
    FindAfterInsert(w.syms, NewSym(name, None, Undefined), other);
  }

  lemma DefineOwns(w: World, o: nat, name: string, refs: nat, other: string)
    requires other == name || HasOwner(w, other)
    ensures HasOwner(Define(w, o, name, refs), other)
  {
    hide Establish, Find, HasOwner;
    EstablishOwns(w, o, name, other);
    var u, i := Establish(w, o, name), Slot(w, name);
    RaiseOwns(u, i, SymAt(u, i).(nlusers := SymAt(u, i).nlusers + refs), other);
  }

  lemma ReferOwns(w: World, name: string, other: string)
    requires HasOwner(w, other)
    ensures HasOwner(Refer(w, name), other)
  {
    hide Mention, Find, HasOwner;
    MentionOwns(w, name, other);
    var u, i := Mention(w, name), Slot(w, name);
    RaiseOwns(u, i, SymAt(u, i).(ngusers := SymAt(u, i).ngusers + 1), other);
  }

  lemma EntryOwns(w: World, o: nat, e: ElfSym, refs: nat, name: string)
    requires HasOwner(w, name) || (e.global && e.defined && !IsInline(w, e.name) && name == e.name)
    ensures HasOwner(EntryStep(w, o, e, refs), name)
  {
    if e.global && !IsInline(w, e.name) {
      if e.defined {
        DefineOwns(w, o, e.name, refs, name);
      } else {
        ReferOwns(w, e.name, name);
      }
    }
  }

  /** Every global the file defines, inlines left out, ends up defined and owned by an object. */
  lemma {:induction false} DefinedEntriesAreOwned(w: World, o: nat, f: ElfFile, k: nat, x: nat)
    requires x < k <= |f.entries|
    requires f.entries[x].global && f.entries[x].defined && !IsInline(w, f.entries[x].name)
    ensures HasOwner(EntriesRun(w, o, f, k), f.entries[x].name)
  {
    hide EntryStep, HasOwner, IsInline, AllRefs;
    if x < k - 1 {
      DefinedEntriesAreOwned(w, o, f, k - 1, x);
    } else {
      EntriesCountUsers(w, o, f, k - 1);
    }
    EntryOwns(EntriesRun(w, o, f, k - 1), o, f.entries[k - 1], AllRefs(f.tables, k - 1), f.entries[x].name);
  }

  // --- Users of an object ------------------------------------------------------------------------

  ghost function OwnedUsers(w: World, o: nat): nat -> int {
    (i: nat) => if SymAt(w, i).obj == Some(o) then SymAt(w, i).ngusers else 0
  }

  lemma {:induction false} CountUsersRun(w: World, order: seq<nat>, k: nat, o: nat)
    requires Wf(w) && o < |w.objs| && k <= |order| && Once(order, |w.syms|)
    ensures var r := Run(State(w, CountUsers, false), order, k);
            && r == State(w.(objs := r.w.objs), CountUsers, false) && |r.w.objs| == |w.objs|
            && r.w.objs[o].nusers == w.objs[o].nusers + Total(order[..k], OwnedUsers(w, o))
            && r.w.objs[o] == w.objs[o].(nusers := r.w.objs[o].nusers)
  {
    if k > 0 {
      CountUsersRun(w, order, k - 1, o);
      assert order[..k] == order[..k - 1] + [order[k - 1]];
      TotalAppend(order[..k - 1], [order[k - 1]], OwnedUsers(w, o));
      assert Total([order[k - 1]], OwnedUsers(w, o)) == OwnedUsers(w, o)(order[k - 1]);
    }
  }

  /** After the one pass over the table each object's users are those of its symbols. */
  lemma ObjectUsers(w: World, order: seq<nat>, o: nat)
    requires Wf(w) && o < |w.objs| && w.objs[o].nusers == 0 && Once(order, |w.syms|)
    ensures var r := Run(State(w, CountUsers, false), order, |order|);
            && r.w.syms == w.syms && o < |r.w.objs|
            && r.w.objs[o].nusers == Sum(|w.syms|, OwnedUsers(w, o))
  {
    CountUsersRun(w, order, |order|, o);
    assert order[..|order|] == order;
    TotalIsSum(order, |w.syms|, OwnedUsers(w, o));
  }
}
