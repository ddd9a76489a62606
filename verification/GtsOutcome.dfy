/** What rebuilding an object comes to: what it reports, what it makes of the symbols its source exports, and what is left
    of the recompile list. */
module GtsOutcome {
  import opened CText
  import opened GtsWorld
  import opened GtsOrder
  import opened GtsExports
  import opened GtsRebuild
  import Own = GtsOwn
  import Target = GtsTarget
  import Recompile = GtsRecompile
  import Schedule = GtsSchedule

  predicate EndsInCpp(name: string) {
    |name| >= 4 && name[|name| - 4..] == ".cpp"
  }

  /** The assembler of the source is read: with output, and as C++ if the source is called so. */
  ghost function PassFor(w: World, src: nat): Zap.Env {
    var name := if src < |w.srcs| then w.srcs[src].name else "";
    Zap.Env(src, name, true, EndsInCpp(name))
  }

  /** A rebuild whose source is not read changes nothing and fails. */
  lemma NothingRebuilt(w: World, o: nat, b: Build, irix: bool)
    requires ObjAt(w, o).source.None? || b.NotCompiled?
    ensures RebuildOne(w, o, b, irix) == Outcome(w, -1)
  {
  }

  /** Any other reads the source's assembler into the table. Only one that succeeds reports the exports it removed, as
      they can be told beforehand; where the rewritten text does not assemble none were removed, and a failure is
      reported as such. The source is told its time if the object was built, and no other source changes. */
  lemma RebuiltExactly(w: World, o: nat, b: Build, irix: bool, src: nat)
    requires ObjAt(w, o).source == Some(src) && !b.NotCompiled? && src < |w.srcs|
    ensures var r, ds, env := RebuildOne(w, o, b, irix), Zap.Directives(irix, b.lines), PassFor(w, src);
            var read := Zap.LinesRun(env, Zap.Start(w, src), ds, |ds|).w;
            && r.rv == (match b
                        case Built(_, _) => Sum(|ds|, Target.Counted(env, w, ds))
                        case Reverted(_) => 0
                        case _ => -1)
            && r.w.syms == read.syms && r.w.objs == read.objs
            && r.w.srcs == (match b
                            case Built(_, time) => w.srcs[src := w.srcs[src].(compileTime := time)]
                            case NotArchived(_, time) => w.srcs[src := w.srcs[src].(compileTime := time)]
                            case _ => w.srcs)
  {
    hide Zap.LinesRun, Zap.RestKept;
    var ds, env := Zap.Directives(irix, b.lines), PassFor(w, src);
    CppExactly(w.srcs[src].name);
    assert EnvOf(w, src) == env;
    Target.ReportIsCount(env, w, ds);
    Zap.LinesKeepRest(env, w, ds, |ds|);
    SourcesKept(w, Zap.LinesRun(env, Zap.Start(w, src), ds, |ds|).w);
  }

  lemma SourcesKept(w: World, v: World)
    requires Zap.RestKept(w, v)
    ensures v.srcs == w.srcs
  {
  }

  /** The file exports the name from a file that it includes. */
  ghost predicate ExportsIncluded(name: string, ds: seq<Zap.Directive>, symbol: string) {
    exists x :: 0 <= x < |ds| && ds[x] == Zap.Global(symbol) && !Own.Own(name, true, ds, x)
  }

  /** If the source's name ends in ".cpp", and only then, the symbols that it exports from included files become inline;
      those that are inline stay so. */
  lemma RebuiltInlines(w: World, o: nat, b: Build, irix: bool, src: nat, symbol: string)
    requires ObjAt(w, o).source == Some(src) && !b.NotCompiled? && src < |w.srcs|
    ensures var name, ds := w.srcs[src].name, Zap.Directives(irix, b.lines);
            IsInline(RebuildOne(w, o, b, irix).w, symbol)
            <==> IsInline(w, symbol) || (EndsInCpp(name) && ExportsIncluded(name, ds, symbol))
  {
    hide Zap.LinesRun, Exported, MadeReal, RebuildOne, EndsInCpp;
    var name, ds, env := w.srcs[src].name, Zap.Directives(irix, b.lines), PassFor(w, src);
    RebuiltExactly(w, o, b, irix, src);
    NameRun(env, w, ds, |ds|, symbol);
    RealOrInline(env, ds, |ds|, symbol);
    NamesOnly(RebuildOne(w, o, b, irix).w, Zap.LinesRun(env, Zap.Start(w, src), ds, |ds|).w, symbol);
    IncludedExports(env, ds, symbol);
  }

  lemma NamesOnly(v: World, u: World, symbol: string)
    requires v.syms == u.syms
    ensures EntryOf(v, symbol) == EntryOf(u, symbol) && IsInline(v, symbol) == IsInline(u, symbol)
  {
  }

  lemma IncludedExports(env: Zap.Env, ds: seq<Zap.Directive>, symbol: string)
    ensures MadeInline(env, ds, |ds|, symbol) <==> env.cplusplus && ExportsIncluded(env.name, ds, symbol)
  {
    if MadeInline(env, ds, |ds|, symbol) {
      var x :| 0 <= x < |ds| && Exports(ds[x], symbol) && Included(env, ds, x);
      assert ds[x] == Zap.Global(symbol);
    }
    if env.cplusplus && ExportsIncluded(env.name, ds, symbol) {
      var x :| 0 <= x < |ds| && ds[x] == Zap.Global(symbol) && !Own.Own(env.name, true, ds, x);
      assert Exports(ds[x], symbol) && Included(env, ds, x);
    }
  }

  // --- The recompile list ------------------------------------------------------------------------

  lemma RebuildLinks(w: World, o: nat, b: Build, irix: bool, q: nat)
    requires q < |w.objs|
    ensures var v := RebuildOne(w, o, b, irix).w;
            |w.objs| <= |v.objs| && ObjAt(v, q).recompile == ObjAt(w, q).recompile
  {
    hide Zap.LinesRun;
    if ObjAt(w, o).source.Some? && !b.NotCompiled? {
      var src := ObjAt(w, o).source.value;
      Zap.LinesKeepRest(EnvOf(w, src), w, Zap.Directives(irix, b.lines), |b.lines|);
      assert ObjAt(Reread(w, src, b.lines, irix).w, q).recompile == w.objs[q].recompile;
    }
  }

  /** After k rebuilds exactly the objects that were rebuilt are off the list. */
  lemma {:induction false} LinksLeft(w: World, ids: seq<nat>, builds: nat -> Build, irix: bool, k: nat, q: nat)
    requires k <= |ids| && q < |w.objs|
    ensures var v := RebuildAll(w, ids, builds, irix, k);
            && |w.objs| <= |v.objs|
            && ObjAt(v, q).recompile == if q in ids[..k] then None else ObjAt(w, q).recompile
  {
    hide RebuildOne;
    if k > 0 {
      LinksLeft(w, ids, builds, irix, k - 1, q);
      assert ids[..k] == ids[..k - 1] + [ids[k - 1]];
      RebuildLinks(RebuildAll(w, ids, builds, irix, k - 1), ids[k - 1], builds(ids[k - 1]), irix, q);
    }
  }

  // --- The order of rebuilding -------------------------------------------------------------------

  /** In the order of rebuilding objects that must give symbols back come last; among equals those without a source come
      last, and if no list tells their directories apart, sources come by name. */
  lemma OrderMeans(w: World, ids: seq<nat>, prefs: Option<seq<string>>, unprefs: Option<seq<string>>, i: nat, j: nat)
    requires Wf(w) && Recompile.Ordered(w, ids, prefs, unprefs) && i < j < |ids|
    requires ids[i] < |w.objs| && ids[j] < |w.objs|
    ensures var a, b := w.objs[ids[i]], w.objs[ids[j]];
            && (a.needsUnzap > 0 ==> b.needsUnzap > 0)
            && ((a.needsUnzap > 0 <==> b.needsUnzap > 0) ==>
                  && (a.source.None? ==> b.source.None?)
                  && (b.source.Some? ==>
                        var s, t := w.srcs[a.source.value], w.srcs[b.source.value];
                        Alike(s, t, unprefs) && Alike(s, t, prefs) ==> s.name == t.name || Before(s.name, t.name)))
  {
    hide StrCmp, Schedule.MatchPrefs;
    var a, b := w.objs[ids[i]], w.objs[ids[j]];
    assert Schedule.Compare(Recompile.JobAt(w, ids[i]), Recompile.JobAt(w, ids[j]), prefs, unprefs) <= 0;
    if a.source.Some? && b.source.Some? {
      Schedule.NameSign(w.srcs[a.source.value].name, w.srcs[b.source.value].name);
    }
  }

  /** The list does not tell the directories of the sources apart. */
  ghost predicate Alike(s: Source, t: Source, prefs: Option<seq<string>>) {
    prefs.None? || s.directory.None? || t.directory.None?
    || Schedule.MatchPrefs(s.directory.value, prefs.value, 0) == Schedule.MatchPrefs(t.directory.value, prefs.value, 0)
  }
}
