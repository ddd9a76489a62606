/** Everything the driver does to a table, in any order and any number of times: no two symbols ever have the
    same name and no pointer dangles, so every table comes back from the data base, as far as the format can carry its
    texts; and which tables also get their sharing back. */
module GtsRuns {
  import opened CText
  import opened GtsWorld
  import opened GtsOrder
  import opened GtsPasses
  import opened GtsPlanning
  import Db = GtsDatabase
  import RoundTrip = GtsRoundTrip
  import Users = GtsUsers
  import Zap = GtsZap
  import opened GtsForce
  import opened GtsOneSource
  import Rebuild = GtsRebuild
  import Sharing = GtsSharing

  ghost predicate Good(w: World) {
    Wf(w) && UniqueNames(w)
  }

  // --- Assignments -----------------------------------------------------------------------------------

  lemma GoodInsert(w: World, s: Sym)
    requires Good(w) && Find(w.syms, s.name) < 0 && (s.obj.Some? ==> s.obj.value < |w.objs|)
    ensures Good(Insert(w, s))
  {
    WfInsert(w, s);
    InsertKeepsUnique(w, s);
  }

  lemma GoodPutSym(w: World, i: nat, s: Sym)
    requires Good(w) && s.name == SymAt(w, i).name && (s.obj.Some? ==> s.obj.value < |w.objs|)
    ensures Good(PutSym(w, i, s))
  {
    WfPutSym(w, i, s);
  }

  lemma GoodPutObj(w: World, o: nat, x: Object)
    requires Good(w) && (x.source.Some? ==> x.source.value < |w.srcs|)
    requires x.recompile.Some? ==> x.recompile.value < |w.objs|
    ensures Good(PutObj(w, o, x))
  {
  }

  lemma GoodAlloc(w: World, name: Option<string>, src: Option<nat>)
    requires Good(w) && (src.Some? ==> src.value < |w.srcs|)
    ensures Good(w.(objs := w.objs + [NewObject(name, src)]))
  {
  }

  // --- Loading ---------------------------------------------------------------------------------------

  lemma LoadLineGood(st: Db.Loading, line: Db.Line)
    requires Good(st.w) && (st.obj.Some? ==> st.obj.value < |st.w.objs|)
    ensures var r := Db.LoadLine(st, line);
            r.Some? ==> Good(r.value.w) && (r.value.obj.Some? ==> r.value.obj.value < |r.value.w.objs|)
  {
    match line
    case Symbol(name, tag) =>
      var i := Find(st.w.syms, name);
      if i >= 0 {
        GoodPutSym(st.w, i, SymAt(st.w, i).(state := Db.TagState(tag)));
      } else {
        GoodInsert(st.w, NewSym(name, if tag == 'I' then None else st.obj, Db.TagState(tag)));
      }
    case OldStyle(name) =>
      var i := Find(st.w.syms, name);
      if i >= 0 {
        GoodPutSym(st.w, i, SymAt(st.w, i).(state := Zapped));
      }
    case _ =>
  }

  lemma {:induction false} LoadGood(st: Db.Loading, lines: seq<string>, k: nat)
    requires Good(st.w) && (st.obj.Some? ==> st.obj.value < |st.w.objs|) && k <= |lines|
    ensures var r := Db.Load(st, lines, k);
            r.Some? ==> Good(r.value.w) && (r.value.obj.Some? ==> r.value.obj.value < |r.value.w.objs|)
  {
    if k > 0 {
      LoadGood(st, lines, k - 1);
      var before := Db.Load(st, lines, k - 1);
      if before.Some? {
        LoadLineGood(before.value, Db.ParseLine(lines[k - 1]));
      }
    }
  }

  // --- Rewriting -------------------------------------------------------------------------------------

  lemma JoinGood(src: nat, w: World, cur: nat, name: string)
    requires Good(w) && cur < |w.objs| && src < |w.srcs|
    ensures Good(Zap.Join(src, w, cur, name).0)
  {
    Zap.JoinWf(src, w, cur, name);
    var s := Find(w.syms, name);
    if s < 0 {
      GoodInsert(w, NewSym(name, Some(cur), Defined));
    }
  }

  lemma {:induction false} LinesGood(env: Zap.Env, w: World, ds: seq<Zap.Directive>, k: nat)
    requires Good(w) && env.src < |w.srcs| && k <= |ds|
    ensures var r := Zap.LinesRun(env, Zap.Start(w, env.src), ds, k);
            Good(r.w) && r.cur < |r.w.objs| && r.w.srcs == w.srcs
  {
    if k == 0 {
      GoodAlloc(w, None, Some(env.src));
    } else {
      LinesGood(env, w, ds, k - 1);
      var st, d := Zap.LinesRun(env, Zap.Start(w, env.src), ds, k - 1), ds[k - 1];
      Zap.LineWf(env, st, d);
      if d.Global? && !Zap.TreatInline(env, st, d.name) {
        JoinGood(env.src, st.w, st.cur, d.name);
      } else if d.Global? && Find(st.w.syms, d.name) < 0 {
        GoodInsert(st.w, NewSym(d.name, None, Inline));
      }
    }
  }

  // --- Reading object files --------------------------------------------------------------------------

  lemma EntryGood(w: World, o: nat, e: Users.ElfSym, refs: nat)
    requires Good(w) && o < |w.objs|
    ensures Good(Users.EntryStep(w, o, e, refs)) && |Users.EntryStep(w, o, e, refs).objs| == |w.objs|
  {
    hide Wf;
    Users.EntryWf(w, o, e, refs);
    EntryUnique(w, o, e, refs);
  }

  lemma EntryUnique(w: World, o: nat, e: Users.ElfSym, refs: nat)
    requires UniqueNames(w)
    ensures UniqueNames(Users.EntryStep(w, o, e, refs))
  {
    var v := Users.EntryStep(w, o, e, refs);
    if e.global && Find(w.syms, e.name) < 0 {
      var s := NewSym(e.name, if e.defined then Some(o) else None, if e.defined then Defined else Undefined);
      InsertKeepsUnique(w, s);
      assert |v.syms| == |w.syms| + 1;
      assert forall i | 0 <= i < |v.syms| :: v.syms[i].name == Insert(w, s).syms[i].name;
    } else {
      assert |v.syms| == |w.syms| && forall i | 0 <= i < |w.syms| :: v.syms[i].name == w.syms[i].name;
    }
  }

  lemma {:induction false} EntriesGood(w: World, o: nat, f: Users.ElfFile, k: nat)
    requires Good(w) && o < |w.objs| && k <= |f.entries|
    ensures Good(Users.EntriesRun(w, o, f, k)) && |Users.EntriesRun(w, o, f, k).objs| == |w.objs|
  {
    if k > 0 {
      EntriesGood(w, o, f, k - 1);
      EntryGood(Users.EntriesRun(w, o, f, k - 1), o, f.entries[k - 1], Users.AllRefs(f.tables, k - 1));
    }
  }

  // --- Passes ----------------------------------------------------------------------------------------

  lemma {:induction false} CountGood(w: World, order: seq<nat>, k: nat)
    requires Good(w) && k <= |order|
    ensures var r := Run(State(w, CountUsers, false), order, k); Good(r.w) && r.pass == CountUsers && !r.stopped
  {
    if k > 0 {
      CountGood(w, order, k - 1);
      var v, i := Run(State(w, CountUsers, false), order, k - 1).w, order[k - 1];
      if SymAt(v, i).obj.Some? {
        var o := SymAt(v, i).obj.value;
        GoodPutObj(v, o, ObjAt(v, o).(nusers := ObjAt(v, o).nusers + SymAt(v, i).ngusers));
      }
    }
  }

  lemma StepGood(w: World, p: Plan, i: nat)
    requires Good(w) && p.list < |w.objs|
    ensures var r := RecompileStep(w, p, i); Good(r.0) && r.1.list < |r.0.objs| && |r.0.objs| == |w.objs|
  {
    if WantsUnzap(w, i) || WantsZap(w, i) {
      var o, state := SymAt(w, i).obj.value, if WantsUnzap(w, i) then Defined else Zapped;
      GoodPutSym(w, i, SymAt(w, i).(state := state));
      var v := SetState(w, i, state);
      GoodPutObj(v, o, ObjAt(v, o).(recompile := Some(p.list)));
      var e := Enlist(v, p, o);
      GoodPutObj(e.0, o, ObjAt(e.0, o).(needsUnzap := ObjAt(e.0, o).needsUnzap + 1));
    }
  }

  lemma {:induction false} PlanGood(w: World, sentinel: nat, order: seq<nat>, k: nat)
    requires Good(w) && sentinel < |w.objs| && k <= |order|
    ensures var r := PlanRun(w, sentinel, order, k); Good(r.0) && r.1.list < |r.0.objs| && |r.0.objs| == |w.objs|
  {
    hide Good, RecompileStep;
    if k > 0 {
      PlanGood(w, sentinel, order, k - 1);
      StepGood(PlanRun(w, sentinel, order, k - 1).0, PlanRun(w, sentinel, order, k - 1).1, order[k - 1]);
    }
  }

  // --- Rebuilding ------------------------------------------------------------------------------------

  lemma ForceGood(w: World, name: string, state: SymState)
    requires Good(w)
    ensures Good(Force(w, name, state))
  {
    var s := Find(w.syms, name);
    if s < 0 {
      GoodInsert(w, NewSym(name, None, state));
    } else {
      GoodPutSym(w, s, SymAt(w, s).(state := state));
    }
  }

  lemma RoundGood(w: World, o: nat, b: Rebuild.Build, irix: bool)
    requires Good(w)
    ensures Good(Rebuild.Round(w, o, b, irix))
  {
    var r := Rebuild.RebuildOne(w, o, b, irix);
    if ObjAt(w, o).source.Some? && !b.NotCompiled? {
      var src := ObjAt(w, o).source.value;
      LinesGood(Rebuild.EnvOf(w, src), w, Zap.Directives(irix, b.lines), |b.lines|);
    }
    GoodPutObj(r.w, o, ObjAt(r.w, o).(recompile := None));
  }

  // --- Any run ---------------------------------------------------------------------------------------

  /** What may happen to a table: a data base is loaded, a symbol is forced, a source is recorded, an assembler
      file is read, an object file is read, object users are counted, recompilation is planned, and an object is
      rebuilt. Each walk may be in any order. A load that overruns a line, and a file whose source is not
      recorded, change nothing here. */
  datatype Event =
    | Load(text: string)
    | Command(name: string, state: SymState)
    | Record(src: Source)
    | Assemble(env: Zap.Env, ds: seq<Zap.Directive>)
    | Read(file: Users.ElfFile)
    | Count(order: seq<nat>)
    | Replan(order: seq<nat>)
    | Remake(o: nat, build: Rebuild.Build, irix: bool)

  ghost function After(w: World, e: Event): World {
    match e
    case Load(text) =>
      var lines := Db.FileLines(text);
      var r := Db.Load(Db.Loading(w, None), lines, |lines|);
      if r.Some? then r.value.w else w
    case Command(name, state) => Force(w, name, state)
    case Record(src) => w.(srcs := w.srcs + [src])
    case Assemble(env, ds) =>
      if env.src < |w.srcs| then Zap.LinesRun(env, Zap.Start(w, env.src), ds, |ds|).w else w
    case Read(file) => Users.ReadFile(w, file)
    case Count(order) => Run(State(w, CountUsers, false), order, |order|).w
    case Replan(order) =>
      PlanRun(w.(objs := w.objs + [NewObject(None, None)]), |w.objs|, order, |order|).0
    case Remake(o, build, irix) => Rebuild.Round(w, o, build, irix)
  }

  ghost function AfterAll(events: seq<Event>): World {
    if events == [] then EMPTY_WORLD else After(AfterAll(events[..|events| - 1]), events[|events| - 1])
  }

  lemma EventKeepsGood(w: World, e: Event)
    requires Good(w)
    ensures Good(After(w, e))
  {
    match e
    case Load(text) => LoadGood(Db.Loading(w, None), Db.FileLines(text), |Db.FileLines(text)|);
    case Command(name, state) => ForceGood(w, name, state);
    case Record(src) =>
    case Assemble(env, ds) =>
      if env.src < |w.srcs| {
        LinesGood(env, w, ds, |ds|);
      }
    case Read(file) =>
      GoodAlloc(w, file.name, None);
      EntriesGood(w.(objs := w.objs + [NewObject(file.name, None)]), |w.objs|, file, |file.entries|);
    case Count(order) => CountGood(w, order, |order|);
    case Replan(order) =>
      GoodAlloc(w, None, None);
      PlanGood(w.(objs := w.objs + [NewObject(None, None)]), |w.objs|, order, |order|);
    case Remake(o, build, irix) => RoundGood(w, o, build, irix);
  }

  /** In every state that any run reaches names are unique and pointers lead somewhere. */
  lemma {:induction false} RunsStayGood(events: seq<Event>)
    ensures Good(AfterAll(events))
  {
    if events != [] {
      RunsStayGood(events[..|events| - 1]);
      EventKeepsGood(AfterAll(events[..|events| - 1]), events[|events| - 1]);
    }
  }

  /** So after any run, whatever order the table is walked in, the file that is dumped restores the table. */
  lemma RunsCanBeSaved(events: seq<Event>, order: seq<nat>)
    requires var w := AfterAll(events);
             Once(order, |w.syms|) && RoundTrip.Dumpable(w, RoundTrip.Flushed(w, order, |order|))
    ensures var w := AfterAll(events);
            var vector := RoundTrip.Flushed(w, order, |order|);
            var text := Db.FileText(Db.Dump(w, vector, |vector|).lines);
            var lines := Db.FileLines(text);
            var r := Db.Load(RoundTrip.FRESH, lines, |lines|);
            && r.Some? && UniqueNames(r.value.w)
            && (forall i | 0 <= i < |w.syms| && RoundTrip.Persisted(w, i) :: RoundTrip.FoundAgain(w, r.value.w, i))
            && (forall t | 0 <= t < |r.value.w.syms| :: RoundTrip.HasOrigin(w, r.value.w, t))
  {
    var w := AfterAll(events);
    var vector := RoundTrip.Flushed(w, order, |order|);
    RunsStayGood(events);
    RoundTrip.FlushedIsVector(w, order);
    RoundTrip.DatabaseRoundTrip(w, vector);
    RoundTrip.DumpIsReread(w, vector);
  }

  // --- One object for each source --------------------------------------------------------------------

  /** The pass over assembler that an event makes, if any. */
  datatype Reading = Nothing | Reading(env: Zap.Env, ds: seq<Zap.Directive>)

  ghost function ReadingOf(w: World, e: Event): Reading {
    match e
    case Assemble(env, ds) => if env.src < |w.srcs| then Reading(env, ds) else Nothing
    case Remake(o, build, irix) =>
      if ObjAt(w, o).source.None? || build.NotCompiled? then Nothing
      else Reading(Rebuild.EnvOf(w, ObjAt(w, o).source.value), Zap.Directives(irix, build.lines))
    case _ => Nothing
  }

  /** The event reads no assembler, or only such as exports no real global, or one of each object that has the
      file's source already. In particular a source that no symbol's object has yet may be read. */
  ghost predicate Fits(w: World, e: Event) {
    match ReadingOf(w, e)
    case Nothing => true
    case Reading(env, ds) => OwnersExportByName(w, env, ds)
  }

  lemma SourcesOnly(w: World, v: World)
    requires v.syms == w.syms && forall o: nat :: ObjAt(v, o).source == ObjAt(w, o).source
    ensures Sharing.OneObjectPerSource(v) <==> Sharing.OneObjectPerSource(w)
  {
    forall i: nat ensures SymAt(v, i) == SymAt(w, i) && SymSource(v, i) == SymSource(w, i) {
    }
  }

  lemma RoundSources(w: World, o: nat, b: Rebuild.Build, irix: bool)
    requires ObjAt(w, o).source.Some? && !b.NotCompiled?
    ensures Sharing.OneObjectPerSource(Rebuild.Round(w, o, b, irix))
            <==> Sharing.OneObjectPerSource(Rebuild.Reread(w, ObjAt(w, o).source.value, b.lines, irix).w)
  {
    hide Rebuild.Reread, Sharing.OneObjectPerSource;
    SourcesOnly(Rebuild.Reread(w, ObjAt(w, o).source.value, b.lines, irix).w, Rebuild.Round(w, o, b, irix));
  }

  lemma RoundOfNothing(w: World, o: nat, b: Rebuild.Build, irix: bool)
    requires ObjAt(w, o).source.None? || b.NotCompiled?
    ensures Rebuild.Round(w, o, b, irix) == w
  {
  }

  lemma RoundKeepsOne(w: World, o: nat, b: Rebuild.Build, irix: bool)
    requires Good(w) && Sharing.OneObjectPerSource(w)
    ensures Sharing.OneObjectPerSource(After(w, Remake(o, b, irix))) <==> Fits(w, Remake(o, b, irix))
  {
    hide Sharing.OneObjectPerSource, UniqueNames, OwnersExport, OwnersExportByName, Zap.Gathered, Rebuild.Round;
    if ObjAt(w, o).source.Some? && !b.NotCompiled? {
      var src := ObjAt(w, o).source.value;
      RoundSources(w, o, b, irix);
      AssembleKeepsOne(Rebuild.EnvOf(w, src), w, Zap.Directives(irix, b.lines));
      OwnersExportBeforehand(w, Rebuild.EnvOf(w, src), Zap.Directives(irix, b.lines));
    } else {
      RoundOfNothing(w, o, b, irix);
    }
  }

  lemma ForceKeepsOne(w: World, name: string, state: SymState)
    requires Good(w) && Sharing.OneObjectPerSource(w)
    ensures Sharing.OneObjectPerSource(Force(w, name, state))
  {
    var s := Find(w.syms, name);
    if s < 0 {
      InsertKeepsOne(w, NewSym(name, None, state));
    } else {
      StateKeepsOne(w, s, state);
    }
  }

  /** Every event keeps one object for each source if and only if it fits. */
  lemma EventKeepsOne(w: World, e: Event)
    requires Good(w) && Sharing.OneObjectPerSource(w)
    ensures Sharing.OneObjectPerSource(After(w, e)) <==> Fits(w, e)
  {
    hide Sharing.OneObjectPerSource, UniqueNames;
    match e
    case Load(text) => LoadKeepsOne(Db.Loading(w, None), Db.FileLines(text), |Db.FileLines(text)|);
    case Command(name, state) => ForceKeepsOne(w, name, state);
    case Record(src) => SourcesOnly(w, w.(srcs := w.srcs + [src]));
    case Assemble(env, ds) =>
      if env.src < |w.srcs| {
        AssembleKeepsOne(env, w, ds);
        OwnersExportBeforehand(w, env, ds);
      }
    case Read(file) => ReadFileKeepsOne(w, file);
    case Count(order) =>
      CountKeepsOwners(w, order, |order|);
      SameOwnersKeepOne(w, Run(State(w, CountUsers, false), order, |order|).w);
    case Replan(order) =>
      var start := w.(objs := w.objs + [NewObject(None, None)]);
      SourcesOnly(w, start);
      PlanKeepsOwners(start, |w.objs|, order, |order|);
      SameOwnersKeepOne(start, PlanRun(start, |w.objs|, order, |order|).0);
    case Remake(o, build, irix) => RoundKeepsOne(w, o, build, irix);
  }

  /** Every event of a run fits the state it meets. */
  ghost predicate AllFit(events: seq<Event>) {
    forall k | 0 <= k < |events| :: Fits(AfterAll(events[..k]), events[k])
  }

  lemma {:induction false} RunsKeepOne(events: seq<Event>)
    requires AllFit(events)
    ensures Sharing.OneObjectPerSource(AfterAll(events))
  {
    hide Sharing.OneObjectPerSource, Good, Fits, After;
    if events == [] {
      NothingShares();
    } else {
      var n := |events| - 1;
      assert forall k | 0 <= k < n :: events[..n][..k] == events[..k] && events[..n][k] == events[k];
      RunsKeepOne(events[..n]);
      RunsStayGood(events[..n]);
      EventKeepsOne(AfterAll(events[..n]), events[n]);
    }
  }

  lemma NothingShares()
    ensures Sharing.OneObjectPerSource(EMPTY_WORLD)
  {
  }

  /** So after any run whose events fit, loading the sorted dump also restores which symbols share an object. */
  lemma RunsRestoreSharing(events: seq<Event>, address: nat -> int, v: seq<nat>)
    requires AllFit(events) && Sharing.Addresses(address)
    requires var w := AfterAll(events);
             RoundTrip.FlushVector(w, v) && RoundTrip.Dumpable(w, v) && Sharing.Sorted(w, address, v)
    ensures var w := AfterAll(events);
            var lines := Db.FileLines(Db.FileText(Db.Dump(w, v, |v|).lines));
            var r := Db.Load(RoundTrip.FRESH, lines, |lines|);
            && r.Some?
            && forall i, j | 0 <= i < |w.syms| && 0 <= j < |w.syms| && Sharing.Owned(w, i) && Sharing.Owned(w, j) ::
                 Sharing.SharesAlike(w, r.value.w, i, j)
  {
    hide AllFit, RoundTrip.FlushVector, RoundTrip.Dumpable, Sharing.Sorted, Sharing.OneObjectPerSource, Sharing.Grouped,
         Sharing.Owned, Sharing.SharesAlike;
    var w := AfterAll(events);
    RunsKeepOne(events);
    RunsStayGood(events);
    Sharing.SortedIsGrouped(w, address, v);
    Sharing.SharingRestored(w, v);
    RoundTrip.DumpIsReread(w, v);
  }

  // --- The driver's own runs -------------------------------------------------------------------------

  /** Nothing is rebuilt, and every assembler file is read right after its source was recorded, as a new record. So
      it is in every run of the driver up to the point where a data base is written. */
  ghost predicate EachReadOnce(events: seq<Event>) {
    forall k | 0 <= k < |events| :: ReadOnceAt(events, k)
  }

  ghost predicate ReadOnceAt(events: seq<Event>, k: nat)
    requires k < |events|
  {
    && !events[k].Remake?
    && (events[k].Assemble? ==>
          k > 0 && events[k - 1].Record? && events[k].env.src == |AfterAll(events[..k - 1]).srcs|)
  }

  lemma NewSourceFits(w: World, src: Source, env: Zap.Env, ds: seq<Zap.Directive>)
    requires Wf(w) && env.src == |w.srcs|
    ensures Fits(After(w, Record(src)), Assemble(env, ds))
  {
    var v := After(w, Record(src));
    forall i: nat ensures SymSource(v, i) != Some(env.src) {
      assert i < |w.syms| ==> SymAt(v, i) == w.syms[i];
    }
  }

  lemma ReadOnceFits(events: seq<Event>)
    requires EachReadOnce(events)
    ensures AllFit(events)
  {
    hide Good, Fits, After;
    forall k | 0 <= k < |events| ensures Fits(AfterAll(events[..k]), events[k]) {
      assert ReadOnceAt(events, k);
      if events[k].Assemble? {
        RunsStayGood(events[..k - 1]);
        GoodIsWf(AfterAll(events[..k - 1]));
        assert events[..k][..k - 1] == events[..k - 1] && events[..k][k - 1] == events[k - 1];
        NewSourceFits(AfterAll(events[..k - 1]), events[k - 1].src, events[k].env, events[k].ds);
      } else {
        NoReadingFits(AfterAll(events[..k]), events[k]);
      }
    }
  }

  lemma GoodIsWf(w: World)
    requires Good(w)
    ensures Wf(w)
  {
  }

  lemma NoReadingFits(w: World, e: Event)
    requires !e.Assemble? && !e.Remake?
    ensures Fits(w, e)
  {
  }

  /** So every data base that the driver writes restores which symbols share an object. */
  lemma DriverRestoresSharing(events: seq<Event>, address: nat -> int, v: seq<nat>)
    requires EachReadOnce(events) && Sharing.Addresses(address)
    requires var w := AfterAll(events);
             RoundTrip.FlushVector(w, v) && RoundTrip.Dumpable(w, v) && Sharing.Sorted(w, address, v)
    ensures var w := AfterAll(events);
            var lines := Db.FileLines(Db.FileText(Db.Dump(w, v, |v|).lines));
            var r := Db.Load(RoundTrip.FRESH, lines, |lines|);
            && r.Some?
            && forall i, j | 0 <= i < |w.syms| && 0 <= j < |w.syms| && Sharing.Owned(w, i) && Sharing.Owned(w, j) ::
                 Sharing.SharesAlike(w, r.value.w, i, j)
  {
    hide AllFit, EachReadOnce, AfterAll, RoundTrip.FlushVector, RoundTrip.Dumpable, Sharing.Sorted, Sharing.Owned,
         Sharing.SharesAlike, Db.Dump, Db.Load;
    ReadOnceFits(events);
    RunsRestoreSharing(events, address, v);
  }
}
