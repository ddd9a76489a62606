/** When no two objects of the table's symbols have the same source: what keeps it so, and what exactly breaks it. */
module GtsOneSource {
  import opened CText
  import opened GtsWorld
  import opened GtsOrder
  import opened GtsPasses
  import opened GtsPlanning
  import opened GtsSharing
  import Db = GtsDatabase
  import Users = GtsUsers
  import Zap = GtsZap
  import opened GtsExports

  /** Only object o owns symbols of its source. */
  ghost predicate SoleOwner(w: World, o: nat) {
    forall i: nat {:trigger SymSource(w, i)} ::
      SymSource(w, i).Some? && SymSource(w, i) == ObjAt(w, o).source ==> SymAt(w, i).obj == Some(o)
  }

  /** Every symbol of w' has the object it had in w, if any, and no object has another source. */
  ghost predicate SameOwners(w: World, w': World) {
    && (forall i: nat {:trigger SymAt(w', i)} :: SymAt(w', i).obj.Some? ==> SymAt(w', i).obj == SymAt(w, i).obj)
    && (forall o: nat {:trigger ObjAt(w', o)} :: ObjAt(w', o).source == ObjAt(w, o).source)
  }

  lemma SameOwnersKeepOne(w: World, w': World)
    requires SameOwners(w, w') && OneObjectPerSource(w)
    ensures OneObjectPerSource(w')
    ensures forall o: nat :: SoleOwner(w, o) ==> SoleOwner(w', o)
  {
    forall i: nat | SymSource(w', i).Some?
      ensures SymSource(w', i) == SymSource(w, i) && SymAt(w', i).obj == SymAt(w, i).obj
    {
      assert SymAt(w', i).obj.Some?;
    }
  }

  lemma InsertKeepsOne(w: World, s: Sym)
    requires OneObjectPerSource(w) && (s.obj.Some? ==> SoleOwner(w, s.obj.value))
    ensures OneObjectPerSource(Insert(w, s))
    ensures forall o: nat :: SoleOwner(w, o) && (s.obj.Some? ==> s.obj.value == o) ==> SoleOwner(Insert(w, s), o)
  {
    var v := Insert(w, s);
    forall i: nat ensures SymAt(v, i) == if i == |w.syms| then s else SymAt(w, i) {
    }
    forall i: nat ensures SymSource(v, i) == if i == |w.syms| then SourceOf(w, s.obj) else SymSource(w, i) {
    }
  }

  // --- Loading ---------------------------------------------------------------------------------------

  ghost predicate LoadingOne(st: Db.Loading) {
    Wf(st.w) && OneObjectPerSource(st.w)
    && (st.obj.Some? ==> st.obj.value < |st.w.objs| && SoleOwner(st.w, st.obj.value))
  }

  lemma LoadLineKeepsOne(st: Db.Loading, line: Db.Line)
    requires LoadingOne(st)
    ensures var r := Db.LoadLine(st, line); r.Some? ==> LoadingOne(r.value)
  {
    match line
    case Symbol(name, tag) =>
      var i := Find(st.w.syms, name);
      if i >= 0 {
        StateKeepsOne(st.w, i, Db.TagState(tag));
      } else {
        var s := NewSym(name, if tag == 'I' then None else st.obj, Db.TagState(tag));
        InsertKeepsOne(st.w, s);
        WfInsert(st.w, s);
      }
    case OldStyle(name) =>
      var i := Find(st.w.syms, name);
      if i >= 0 {
        StateKeepsOne(st.w, i, Zapped);
      }
    case SourceLine(name, directory, _, ctime, args) =>
      NewSourceKeepsOne(st, Db.NewSource(name, args, if directory == "." then None else Some(directory), Atoi(ctime)));
    case _ =>
  }

  lemma StateKeepsOne(w: World, i: nat, state: SymState)
    requires Wf(w) && OneObjectPerSource(w)
    ensures Wf(SetState(w, i, state)) && OneObjectPerSource(SetState(w, i, state))
    ensures forall o: nat :: SoleOwner(w, o) ==> SoleOwner(SetState(w, i, state), o)
  {
    WfPutSym(w, i, SymAt(w, i).(state := state));
    SameOwnersKeepOne(w, SetState(w, i, state));
  }

  lemma NewSourceKeepsOne(st: Db.Loading, src: Source)
    requires LoadingOne(st)
    ensures LoadingOne(Db.LoadSource(st, src))
  {
    var r := Db.LoadSource(st, src);
    forall i: nat
      ensures SymAt(r.w, i) == SymAt(st.w, i) && SymSource(r.w, i) == SymSource(st.w, i)
      ensures SymSource(st.w, i).Some? ==> SymSource(st.w, i).value < |st.w.srcs|
    {
      assert i < |st.w.syms| ==> SymAt(st.w, i) == st.w.syms[i];
    }
  }

  lemma {:induction false} LoadKeepsOne(st: Db.Loading, lines: seq<string>, k: nat)
    requires LoadingOne(st) && k <= |lines|
    ensures var r := Db.Load(st, lines, k); r.Some? ==> LoadingOne(r.value)
  {
    hide LoadingOne, Db.LoadLine, Db.ParseLine;
    if k > 0 {
      LoadKeepsOne(st, lines, k - 1);
      var before := Db.Load(st, lines, k - 1);
      if before.Some? {
        LoadLineKeepsOne(before.value, Db.ParseLine(lines[k - 1]));
      }
    }
  }

  // --- Reading object files --------------------------------------------------------------------------

  lemma ClaimKeepsOne(w: World, s: nat, o: nat)
    requires Wf(w) && s < |w.syms| && o < |w.objs| && OneObjectPerSource(w) && SoleOwner(w, o)
    ensures OneObjectPerSource(Users.Claim(w, s, o)) && SoleOwner(Users.Claim(w, s, o), o)
  {
    var v := Users.Claim(w, s, o);
    if w.syms[s].obj.Some? {
      var q := w.syms[s].obj.value;
      assert SymSource(w, s) == ObjAt(w, q).source;
      if v != w {
        forall i: nat
          ensures SymAt(v, i).obj == if SymAt(w, i).obj == Some(q) then Some(o) else SymAt(w, i).obj
          ensures SymSource(v, i) == if SymAt(w, i).obj == Some(o) then ObjAt(w, q).source else SymSource(w, i)
        {
        }
      }
    } else {
      forall i: nat
        ensures SymAt(v, i).obj == if i == s then Some(o) else SymAt(w, i).obj
        ensures SymSource(v, i) == if i == s then ObjAt(w, o).source else SymSource(w, i)
      {
      }
    }
  }

  lemma EntryKeepsOne(w: World, o: nat, e: Users.ElfSym, refs: nat)
    requires Wf(w) && o < |w.objs| && OneObjectPerSource(w) && SoleOwner(w, o)
    ensures OneObjectPerSource(Users.EntryStep(w, o, e, refs)) && SoleOwner(Users.EntryStep(w, o, e, refs), o)
  {
    hide OneObjectPerSource, SoleOwner;
    var s := Find(w.syms, e.name);
    if e.global && !IsInline(w, e.name) {
      var i := Slot(w, e.name);
      if e.defined {
        if s >= 0 {
          ClaimKeepsOne(w, s, o);
          SameOwnersKeepOne(Users.Claim(w, s, o), Users.Establish(w, o, e.name));
        } else {
          InsertKeepsOne(w, NewSym(e.name, Some(o), Defined));
        }
        SameOwnersKeepOne(Users.Establish(w, o, e.name), Users.Define(w, o, e.name, refs));
      } else {
        if s < 0 {
          InsertKeepsOne(w, NewSym(e.name, None, Undefined));
        }
        SameOwnersKeepOne(Users.Mention(w, e.name), Users.Refer(w, e.name));
      }
    }
  }

  lemma {:induction false} EntriesKeepOne(w: World, o: nat, f: Users.ElfFile, k: nat)
    requires Wf(w) && o < |w.objs| && OneObjectPerSource(w) && SoleOwner(w, o) && k <= |f.entries|
    ensures var v := Users.EntriesRun(w, o, f, k);
            Wf(v) && |v.objs| == |w.objs| && OneObjectPerSource(v) && SoleOwner(v, o)
  {
    hide Wf, OneObjectPerSource, SoleOwner, Users.EntryStep;
    if k > 0 {
      EntriesKeepOne(w, o, f, k - 1);
      var before := Users.EntriesRun(w, o, f, k - 1);
      Users.EntryWf(before, o, f.entries[k - 1], Users.AllRefs(f.tables, k - 1));
      EntryKeepsOne(before, o, f.entries[k - 1], Users.AllRefs(f.tables, k - 1));
    }
  }

  lemma ReadFileKeepsOne(w: World, f: Users.ElfFile)
    requires Wf(w) && OneObjectPerSource(w)
    ensures OneObjectPerSource(Users.ReadFile(w, f))
  {
    var v := w.(objs := w.objs + [NewObject(f.name, None)]);
    SameOwnersKeepOne(w, v);
    EntriesKeepOne(v, |w.objs|, f, |f.entries|);
  }

  // --- Passes ----------------------------------------------------------------------------------------

  lemma PutObjKeepsOwners(w: World, v: World, o: nat, x: Object)
    requires SameOwners(w, v) && x.source == ObjAt(v, o).source
    ensures SameOwners(w, PutObj(v, o, x))
  {
    forall q: nat ensures ObjAt(PutObj(v, o, x), q).source == ObjAt(w, q).source {
      assert ObjAt(v, q).source == ObjAt(w, q).source;
    }
    forall i: nat ensures SymAt(PutObj(v, o, x), i) == SymAt(v, i) {
    }
  }

  lemma SetStateKeepsOwners(w: World, v: World, i: nat, state: SymState)
    requires SameOwners(w, v)
    ensures SameOwners(w, SetState(v, i, state))
  {
    forall q: nat ensures ObjAt(SetState(v, i, state), q) == ObjAt(v, q) {
    }
    forall j: nat ensures SymAt(SetState(v, i, state), j).obj == SymAt(v, j).obj {
    }
  }

  lemma {:induction false} CountKeepsOwners(w: World, order: seq<nat>, k: nat)
    requires k <= |order|
    ensures var r := Run(State(w, CountUsers, false), order, k);
            r.pass == CountUsers && !r.stopped && SameOwners(w, r.w)
  {
    hide SameOwners;
    if k > 0 {
      CountKeepsOwners(w, order, k - 1);
      var v, i := Run(State(w, CountUsers, false), order, k - 1).w, order[k - 1];
      if SymAt(v, i).obj.Some? {
        var o := SymAt(v, i).obj.value;
        PutObjKeepsOwners(w, v, o, ObjAt(v, o).(nusers := ObjAt(v, o).nusers + SymAt(v, i).ngusers));
      }
    } else {
      OwnersRefl(w);
    }
  }

  lemma StepKeepsOwners(w: World, v: World, p: Plan, i: nat)
    requires SameOwners(w, v)
    ensures SameOwners(w, RecompileStep(v, p, i).0)
  {
    hide SameOwners;
    if WantsUnzap(v, i) || WantsZap(v, i) {
      var o, state := SymAt(v, i).obj.value, if WantsUnzap(v, i) then Defined else Zapped;
      SetStateKeepsOwners(w, v, i, state);
      var u := SetState(v, i, state);
      PutObjKeepsOwners(w, u, o, ObjAt(u, o).(recompile := Some(p.list)));
      var e := Enlist(u, p, o).0;
      PutObjKeepsOwners(w, e, o, ObjAt(e, o).(needsUnzap := ObjAt(e, o).needsUnzap + 1));
    }
  }

  lemma {:induction false} PlanKeepsOwners(w: World, sentinel: nat, order: seq<nat>, k: nat)
    requires k <= |order|
    ensures SameOwners(w, PlanRun(w, sentinel, order, k).0)
  {
    hide SameOwners, RecompileStep;
    if k > 0 {
      PlanKeepsOwners(w, sentinel, order, k - 1);
      StepKeepsOwners(w, PlanRun(w, sentinel, order, k - 1).0, PlanRun(w, sentinel, order, k - 1).1, order[k - 1]);
    } else {
      OwnersRefl(w);
    }
  }

  lemma OwnersRefl(w: World)
    ensures SameOwners(w, w)
  {
  }

  // --- Reading assembler -----------------------------------------------------------------------------

  /** Objects whose symbols the file does not export keep their sources. */
  ghost predicate OthersKeepSources(w: World, v: World, got: seq<nat>) {
    && |v.objs| == |w.objs| + 1
    && forall o: nat {:trigger ObjAt(v, o)} | o < |w.objs| && !Zap.Touched(w, got, o) ::
         ObjAt(v, o).source == ObjAt(w, o).source
  }

  lemma JoinKeepsSources(w: World, v: World, cur: nat, src: nat, got: seq<nat>, name: string)
    requires OthersKeepSources(w, v, got) && Zap.Unified(w, v, cur, src, got)
    ensures OthersKeepSources(w, Zap.Join(src, v, cur, name).0, got + [Slot(v, name)])
  {
    var s, v' := Slot(v, name), Zap.Join(src, v, cur, name).0;
    Zap.TouchedMore(w, got, s);
    if SymAt(v, s).obj.Some? && SymAt(v, s).obj != Some(cur) {
      var o := SymAt(v, s).obj.value;
      assert SymAt(v, s).obj == Zap.Owner(w, got, cur, s);
      forall q: nat | q < |w.objs| && q != o ensures ObjAt(v', q) == ObjAt(v, q) {
      }
    } else {
      assert v'.objs == v.objs;
      forall q: nat ensures ObjAt(v', q) == ObjAt(v, q) {
      }
    }
  }

  lemma SameObjectsKeepSources(w: World, v: World, v': World, got: seq<nat>)
    requires OthersKeepSources(w, v, got) && v'.objs == v.objs
    ensures OthersKeepSources(w, v', got + [])
  {
    assert got + [] == got;
    forall q: nat ensures ObjAt(v', q) == ObjAt(v, q) {
    }
  }

  lemma {:induction false} LinesKeepSources(env: Zap.Env, w: World, ds: seq<Zap.Directive>, k: nat)
    requires Wf(w) && env.src < |w.srcs| && k <= |ds|
    ensures OthersKeepSources(w, Zap.LinesRun(env, Zap.Start(w, env.src), ds, k).w,
                              Zap.Gathered(env, Zap.Start(w, env.src), ds, k))
  {
    hide OthersKeepSources, Zap.Unified, Zap.Join, Zap.MakeInline;
    var st := Zap.Start(w, env.src);
    if k > 0 {
      LinesKeepSources(env, w, ds, k - 1);
      Zap.LinesUnify(env, w, ds, k - 1);
      var r, d, got := Zap.LinesRun(env, st, ds, k - 1), ds[k - 1], Zap.Gathered(env, st, ds, k - 1);
      if d.Global? && !Zap.TreatInline(env, r, d.name) {
        JoinKeepsSources(w, r.w, r.cur, env.src, got, d.name);
      } else {
        InlineKeepsObjects(r.w, if d.Global? then d.name else "");
        SameObjectsKeepSources(w, r.w, Zap.LineStep(env, r, d).w, got);
      }
    } else {
      NothingRead(w, env.src);
    }
  }

  lemma InlineKeepsObjects(w: World, name: string)
    ensures Zap.MakeInline(w, name).objs == w.objs
  {
  }

  lemma NothingRead(w: World, src: nat)
    ensures OthersKeepSources(w, Zap.Start(w, src).w, [])
  {
  }

  /** Every object with the source that is read has a symbol that the file exports as a real global, or the file
      exports none. */
  ghost predicate OwnersExport(w: World, src: nat, got: seq<nat>) {
    got == []
    || forall i: nat {:trigger SymSource(w, i)} | SymSource(w, i) == Some(src) :: Zap.Touched(w, got, SymAt(w, i).obj.value)
  }

  lemma UnifiedSources(w: World, v: World, cur: nat, src: nat, got: seq<nat>, i: nat)
    requires Zap.Unified(w, v, cur, src, got) && OthersKeepSources(w, v, got) && Wf(w) && SymAt(v, i).obj.Some?
    ensures if SymAt(v, i).obj == Some(cur) then SymSource(v, i) == Some(src) && got != []
            else i < |w.syms| && SymAt(v, i).obj == SymAt(w, i).obj && SymSource(v, i) == SymSource(w, i)
                 && !Zap.Touched(w, got, SymAt(w, i).obj.value)
  {
    if i < |w.syms| {
      assert SymAt(v, i).obj == Zap.Owner(w, got, cur, i);
      if SymAt(v, i).obj != Some(cur) {
        assert SymAt(w, i).obj.value < |w.objs|;
        assert ObjAt(v, SymAt(w, i).obj.value).source == ObjAt(w, SymAt(w, i).obj.value).source;
      }
    }
  }

  lemma UnifiedOne(w: World, v: World, cur: nat, src: nat, got: seq<nat>)
    requires Zap.Unified(w, v, cur, src, got) && OthersKeepSources(w, v, got) && Wf(w) && OneObjectPerSource(w)
    ensures OneObjectPerSource(v) <==> OwnersExport(w, src, got)
  {
    if OwnersExport(w, src, got) {
      forall i: nat, j: nat | SymSource(v, i).Some? && SymSource(v, i) == SymSource(v, j)
        ensures SymAt(v, i).obj == SymAt(v, j).obj
      {
        UnifiedSources(w, v, cur, src, got, i);
        UnifiedSources(w, v, cur, src, got, j);
        assert SymSource(w, i) == SymSource(v, i) || SymAt(v, i).obj == Some(cur);
        assert SymSource(w, j) == SymSource(v, j) || SymAt(v, j).obj == Some(cur);
      }
    } else {
      var i: nat :| SymSource(w, i) == Some(src) && !Zap.Touched(w, got, SymAt(w, i).obj.value);
      StillThere(w, v, cur, src, got, i);
      UnifiedSources(w, v, cur, src, got, i);
      assert got[0] in got;
      assert SymAt(v, got[0]).obj == Some(cur) && SymSource(v, got[0]) == SymSource(v, i);
    }
  }

  lemma StillThere(w: World, v: World, cur: nat, src: nat, got: seq<nat>, i: nat)
    requires Zap.Unified(w, v, cur, src, got) && SymAt(w, i).obj.Some? && !Zap.Touched(w, got, SymAt(w, i).obj.value)
    requires Wf(w)
    ensures SymAt(v, i).obj == SymAt(w, i).obj && SymAt(v, i).obj != Some(cur)
  {
    assert i < |w.syms|;
    assert SymAt(v, i).obj == Zap.Owner(w, got, cur, i);
    assert SymAt(w, i).obj.value < |w.objs|;
  }

  /** Reading assembler keeps one object for each source if and only if the file exports no real global, or one of
      each object that has its source already: a source that is read again must export one of the symbols it
      exported before. */
  lemma AssembleKeepsOne(env: Zap.Env, w: World, ds: seq<Zap.Directive>)
    requires Wf(w) && env.src < |w.srcs| && OneObjectPerSource(w)
    ensures OneObjectPerSource(Zap.LinesRun(env, Zap.Start(w, env.src), ds, |ds|).w)
            <==> OwnersExport(w, env.src, Zap.Gathered(env, Zap.Start(w, env.src), ds, |ds|))
  {
    Zap.LinesUnify(env, w, ds, |ds|);
    LinesKeepSources(env, w, ds, |ds|);
    var r := Zap.LinesRun(env, Zap.Start(w, env.src), ds, |ds|);
    UnifiedOne(w, r.w, r.cur, env.src, Zap.Gathered(env, Zap.Start(w, env.src), ds, |ds|));
  }

  /** The same, told from the table and the file: the file exports no real global, or each object with the source
      has a symbol whose name the file exports as one. */
  ghost predicate OwnersExportByName(w: World, env: Zap.Env, ds: seq<Zap.Directive>) {
    (forall name: string :: !RealExport(env, w, ds, |ds|, name))
    || forall i: nat {:trigger SymSource(w, i)} | SymSource(w, i) == Some(env.src) ::
         exists j: nat :: SymAt(w, j).obj == SymAt(w, i).obj && RealExport(env, w, ds, |ds|, SymAt(w, j).name)
  }

  /** So the condition can be checked before the file is read. */
  lemma OwnersExportBeforehand(w: World, env: Zap.Env, ds: seq<Zap.Directive>)
    requires UniqueNames(w)
    ensures OwnersExport(w, env.src, Zap.Gathered(env, Zap.Start(w, env.src), ds, |ds|))
            <==> OwnersExportByName(w, env, ds)
  {
    hide RealExport, Zap.Gathered;
    var got := Zap.Gathered(env, Zap.Start(w, env.src), ds, |ds|);
    GatheredNothing(env, w, ds, |ds|);
    forall o: nat
      ensures Zap.Touched(w, got, o)
              <==> exists j: nat :: SymAt(w, j).obj == Some(o) && RealExport(env, w, ds, |ds|, SymAt(w, j).name)
    {
      TouchedByName(w, env, ds, o);
    }
    assert forall i: nat | SymSource(w, i) == Some(env.src) :: SymAt(w, i).obj == Some(SymAt(w, i).obj.value);
  }

  lemma TouchedByName(w: World, env: Zap.Env, ds: seq<Zap.Directive>, o: nat)
    requires UniqueNames(w)
    ensures Zap.Touched(w, Zap.Gathered(env, Zap.Start(w, env.src), ds, |ds|), o)
            <==> exists j: nat :: SymAt(w, j).obj == Some(o) && RealExport(env, w, ds, |ds|, SymAt(w, j).name)
  {
    hide RealExport, Zap.Gathered;
    var got := Zap.Gathered(env, Zap.Start(w, env.src), ds, |ds|);
    forall j: nat | SymAt(w, j).obj == Some(o)
      ensures j in got <==> RealExport(env, w, ds, |ds|, SymAt(w, j).name)
    {
      GatheredExactly(env, w, ds, |ds|, j);
    }
    if Zap.Touched(w, got, o) {
      var j :| j in got && SymAt(w, j).obj == Some(o);
      assert RealExport(env, w, ds, |ds|, SymAt(w, j).name);
    }
    if exists j: nat :: SymAt(w, j).obj == Some(o) && RealExport(env, w, ds, |ds|, SymAt(w, j).name) {
      var j: nat :| SymAt(w, j).obj == Some(o) && RealExport(env, w, ds, |ds|, SymAt(w, j).name);
      assert j in got;
    }
  }

  /** For instance a source that exported f and is read again when it only exports g. */
  lemma RereadingBreaksIt(env: Zap.Env, src: Source)
    requires env.src == 0
    ensures var w := World([Sym("f", Some(0), 0, 0, Defined)], [NewObject(Some("a.o"), Some(0))], [src]);
            && Wf(w) && OneObjectPerSource(w)
            && !OneObjectPerSource(Zap.LinesRun(env, Zap.Start(w, 0), [Zap.Global("g")], 1).w)
  {
    var w := World([Sym("f", Some(0), 0, 0, Defined)], [NewObject(Some("a.o"), Some(0))], [src]);
    var ds, st := [Zap.Global("g")], Zap.Start(w, 0);
    assert w.syms[..0] == [] && Find([], "g") == -1 && "f" != "g";
    assert Find(w.syms, "g") == Find([], "g");
    assert Zap.LinesRun(env, st, ds, 0) == st && !Zap.TreatInline(env, st, "g");
    var got := Zap.Gathered(env, st, ds, 1);
    assert Zap.Gathered(env, st, ds, 0) == [] && got == [1];
    assert SymSource(w, 0) == Some(0) && SymAt(w, 1).obj == None;
    assert !Zap.Touched(w, got, 0);
    AssembleKeepsOne(env, w, ds);
  }
}
