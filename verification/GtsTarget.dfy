/** What the rebuilds do for the target: how many globals it has left, what the reports count, and when reaching the
    goal of the rebuild loop means that the target is met. */
module GtsTarget {
  import opened CText
  import opened GtsWorld
  import opened GtsOrder
  import opened GtsPasses
  import opened GtsPlanning
  import opened GtsExports
  import Zap = GtsZap
  import Own = GtsOwn
  import Rebuild = GtsRebuild
  import Schedule = GtsSchedule
  import Recompile = GtsRecompile
  import RoundTrip = GtsRoundTrip

  // --- The globals of the target -----------------------------------------------------------------

  ghost predicate ZappedByPlan(w: World, i: nat) {
    Flips(w, i) && WantsZap(w, i)
  }

  ghost predicate UnzappedByPlan(w: World, i: nat) {
    Flips(w, i) && WantsUnzap(w, i)
  }

  /** The symbol's object is one of those rebuilt. */
  ghost predicate Redone(w: World, done: seq<nat>, i: nat) {
    SymAt(w, i).obj.Some? && SymAt(w, i).obj.value in done
  }

  /** A symbol as it is in the target: what the plan makes of it counts once its object is rebuilt. */
  ghost function InTarget(w: World, done: seq<nat>, i: nat): Sym {
    if Redone(w, done, i) then Flipped(w, i) else SymAt(w, i)
  }

  /** What get_summary counts as used or as merely defined. */
  ghost predicate IsGlobal(w: World, s: Sym) {
    IsDefined(s) && (s.ngusers > 0 || (s.nlusers > 0 && ObjAt(w, s.obj.value).nusers > 0))
  }

  ghost function GlobalIn(w: World, done: seq<nat>): nat -> int {
    (i: nat) => if IsGlobal(w, InTarget(w, done, i)) then 1 else 0
  }

  ghost function ZapIn(w: World, done: seq<nat>): nat -> int {
    (i: nat) => if Redone(w, done, i) && ZappedByPlan(w, i) then 1 else 0
  }

  ghost function UnzapIn(w: World, done: seq<nat>): nat -> int {
    (i: nat) => if Redone(w, done, i) && UnzappedByPlan(w, i) then 1 else 0
  }

  /** The globals the target has once the given objects are rebuilt. */
  ghost function TargetGlobals(w: World, done: seq<nat>): int {
    Sum(|w.syms|, GlobalIn(w, done))
  }

  /** Rebuilding takes away the symbols that the plan zapped in the rebuilt objects, and brings back those it
      unzapped there. */
  lemma TargetAccount(w: World, done: seq<nat>)
    ensures TargetGlobals(w, done) + Sum(|w.syms|, ZapIn(w, done))
            == TargetGlobals(w, []) + Sum(|w.syms|, UnzapIn(w, done))
  {
    forall i: nat | i < |w.syms|
      ensures GlobalIn(w, done)(i) + ZapIn(w, done)(i) == GlobalIn(w, [])(i) + UnzapIn(w, done)(i)
    {
    }
    SumBalance(|w.syms|, GlobalIn(w, done), ZapIn(w, done), GlobalIn(w, []), UnzapIn(w, done));
  }

  /** Before any rebuild they are what the summary counts. */
  lemma TargetBefore(w: World, order: seq<nat>)
    requires Once(order, |w.syms|)
    ensures var s := SummaryOver(w, order, |order|); TargetGlobals(w, []) == s.nused + s.ndefined
  {
    SummaryCountsKinds(w, order, Used);
    SummaryCountsKinds(w, order, Unused);
    var zero := (i: nat) => 0;
    forall i: nat | i < |w.syms|
      ensures OfKind(w, Used)(i) + OfKind(w, Unused)(i) == GlobalIn(w, [])(i) + zero(i)
    {
    }
    SumBalance(|w.syms|, OfKind(w, Used), OfKind(w, Unused), GlobalIn(w, []), zero);
    SumSingle(|w.syms|, zero, |w.syms|, 0);
  }

  // --- What a report counts ----------------------------------------------------------------------

  /** Directive x is counted: it exports, as a real global, a symbol that is zapped and has an object by then. */
  ghost predicate Counts(env: Zap.Env, v: World, ds: seq<Zap.Directive>, x: nat) {
    && x < |ds| && ds[x].Global?
    && var e := EntryOf(v, ds[x].name);
       && e.Present? && e.state == Zapped && !MadeInline(env, ds, x + 1, ds[x].name)
       && (e.owned || MadeReal(env, ds, x, ds[x].name))
  }

  /** The symbol that directive x exports. */
  ghost function PlaceAt(v: World, ds: seq<Zap.Directive>, x: nat): int {
    if x < |ds| && ds[x].Global? then Find(v.syms, ds[x].name) else -1
  }

  lemma CountedExactly(env: Zap.Env, v: World, ds: seq<Zap.Directive>, x: nat)
    requires x < |ds|
    ensures var st := Zap.LinesRun(env, Zap.Start(v, env.src), ds, x);
            Counts(env, v, ds, x) <==> Zap.Marked(env, st, ds[x]) && !Zap.InlineAfter(env, st, ds[x])
  {
    hide Zap.LinesRun, Exported, MadeInline, MadeReal, Included;
    if ds[x].Global? {
      var st, name := Zap.LinesRun(env, Zap.Start(v, env.src), ds, x), ds[x].name;
      NameRun(env, v, ds, x, name);
      TreatedInline(env, v, ds, x);
      MadeInlineMore(env, ds, x, name);
      MarkedHow(env, st, ds[x]);
    }
  }

  lemma MarkedHow(env: Zap.Env, st: Zap.Pass, d: Zap.Directive)
    requires d.Global?
    ensures Zap.InlineAfter(env, st, d) <==> Zap.TreatInline(env, st, d.name)
    ensures Zap.Marked(env, st, d) && !Zap.InlineAfter(env, st, d)
            <==> !Zap.TreatInline(env, st, d.name) && Zap.ZappedNow(st.w, d.name)
  {
    if Zap.TreatInline(env, st, d.name) {
      Zap.MakeInlineInline(st.w, d.name);
    } else {
      Zap.JoinKeepsStates(env.src, st.w, st.cur, d.name);
    }
  }

  ghost function Counted(env: Zap.Env, v: World, ds: seq<Zap.Directive>): nat -> int {
    (x: nat) => if Counts(env, v, ds, x) then 1 else 0
  }

  lemma {:induction false} RemovedIsCounted(env: Zap.Env, v: World, ds: seq<Zap.Directive>, k: nat)
    requires k <= |ds|
    ensures Zap.Removed(env, Zap.Start(v, env.src), ds, k) == Sum(k, Counted(env, v, ds))
  {
    hide Counts, Zap.LinesRun, Zap.Marked, Zap.InlineAfter;
    if k > 0 {
      RemovedIsCounted(env, v, ds, k - 1);
      CountedExactly(env, v, ds, k - 1);
    }
  }

  /** So what a pass reports can be told from the table before it and the file. */
  lemma ReportIsCount(env: Zap.Env, v: World, ds: seq<Zap.Directive>)
    requires env.output
    ensures Zap.LinesRun(env, Zap.Start(v, env.src), ds, |ds|).nzap == Sum(|ds|, Counted(env, v, ds))
  {
    hide Counts, Zap.LinesRun;
    RemovedIsCounted(env, v, ds, |ds|);
    var lines := seq(|ds|, x => "");
    Zap.LinesText(env, Zap.Start(v, env.src), lines, ds, |ds|);
  }

  // --- Between the plan and a rebuild ------------------------------------------------------------

  /** What rebuilds have made of a table: old symbols keep their names, and their states unless they have become
      inline; new ones are defined or inline. */
  ghost predicate Aged(p: World, v: World) {
    && |p.syms| <= |v.syms|
    && forall i: nat {:trigger SymAt(v, i)} | i < |v.syms| ::
         if i < |p.syms| then
           && SymAt(v, i).name == p.syms[i].name
           && (SymAt(v, i).state == p.syms[i].state || SymAt(v, i).state == Inline)
         else SymAt(v, i).state == Defined || SymAt(v, i).state == Inline
  }

  lemma JoinAged(p: World, v: World, src: nat, cur: nat, name: string)
    requires Aged(p, v)
    ensures Aged(p, Zap.Join(src, v, cur, name).0)
  {
    var u := Zap.Join(src, v, cur, name).0;
    assert |v.syms| <= |u.syms|;
    forall i: nat | i < |v.syms| ensures SymAt(u, i).name == SymAt(v, i).name && SymAt(u, i).state == SymAt(v, i).state {
    }
  }

  lemma InlineAged(p: World, v: World, name: string)
    requires Aged(p, v)
    ensures Aged(p, Zap.MakeInline(v, name))
  {
    var u := Zap.MakeInline(v, name);
    assert |v.syms| <= |u.syms|;
    forall i: nat | i < |v.syms|
      ensures SymAt(u, i).name == SymAt(v, i).name
      ensures SymAt(u, i).state == SymAt(v, i).state || SymAt(u, i).state == Inline
    {
    }
  }

  lemma SameSymsAged(p: World, v: World, u: World)
    requires Aged(p, v) && u.syms == v.syms
    ensures Aged(p, u)
  {
    forall i: nat ensures SymAt(u, i) == SymAt(v, i) {
    }
  }

  lemma {:induction false} LinesAged(p: World, env: Zap.Env, st: Zap.Pass, ds: seq<Zap.Directive>, k: nat)
    requires k <= |ds| && Aged(p, st.w)
    ensures Aged(p, Zap.LinesRun(env, st, ds, k).w)
  {
    hide Aged, Zap.Join, Zap.MakeInline, Zap.TreatInline;
    if k > 0 {
      LinesAged(p, env, st, ds, k - 1);
      var r, d := Zap.LinesRun(env, st, ds, k - 1), ds[k - 1];
      if d.Global? {
        InlineAged(p, r.w, d.name);
        JoinAged(p, r.w, env.src, r.cur, d.name);
      }
    }
  }

  lemma RebuildAged(p: World, v: World, o: nat, b: Rebuild.Build, irix: bool)
    requires Aged(p, v)
    ensures Aged(p, Rebuild.RebuildOne(v, o, b, irix).w)
  {
    hide Aged, Zap.LinesRun;
    if ObjAt(v, o).source.Some? && !b.NotCompiled? {
      var src := ObjAt(v, o).source.value;
      var env, ds := Rebuild.EnvOf(v, src), Zap.Directives(irix, b.lines);
      SameSymsAged(p, v, Zap.Start(v, src).w);
      LinesAged(p, env, Zap.Start(v, src), ds, |ds|);
      SameSymsAged(p, Rebuild.Reread(v, src, b.lines, irix).w, Rebuild.RebuildOne(v, o, b, irix).w);
    }
  }

  lemma {:induction false} RebuildsAge(p: World, ids: seq<nat>, builds: nat -> Rebuild.Build, irix: bool, k: nat)
    requires k <= |ids|
    ensures Aged(p, Rebuild.RebuildAll(p, ids, builds, irix, k))
  {
    hide Aged, Rebuild.RebuildOne;
    if k > 0 {
      RebuildsAge(p, ids, builds, irix, k - 1);
      var v := Rebuild.RebuildAll(p, ids, builds, irix, k - 1);
      RebuildAged(p, v, ids[k - 1], builds(ids[k - 1]), irix);
      SameSymsAged(p, Rebuild.RebuildOne(v, ids[k - 1], builds(ids[k - 1]), irix).w,
                   Rebuild.RebuildAll(p, ids, builds, irix, k));
    } else {
      AgedRefl(p);
    }
  }

  lemma AgedRefl(p: World)
    ensures Aged(p, p)
  {
  }

  // --- New and old zaps --------------------------------------------------------------------------

  /** What planning makes of w. */
  ghost predicate PlanOf(w: World, p: World) {
    |p.syms| == |w.syms| && forall i: nat | i < |w.syms| :: SymAt(p, i) == Flipped(w, i)
  }

  ghost function Fresh(w: World, env: Zap.Env, v: World, ds: seq<Zap.Directive>): nat -> int {
    (x: nat) => if Counts(env, v, ds, x) && ZappedByPlan(w, NatOf(PlaceAt(v, ds, x))) then 1 else 0
  }

  ghost function Stale(w: World, env: Zap.Env, v: World, ds: seq<Zap.Directive>): nat -> int {
    (x: nat) => if Counts(env, v, ds, x) && !ZappedByPlan(w, NatOf(PlaceAt(v, ds, x))) then 1 else 0
  }

  function NatOf(n: int): nat {
    if n < 0 then 0 else n
  }

  /** A counted export is of an old symbol, which the plan has zapped or which was zapped before it. */
  lemma CountedIsOld(w: World, p: World, env: Zap.Env, v: World, ds: seq<Zap.Directive>, x: nat)
    requires PlanOf(w, p) && Aged(p, v) && Counts(env, v, ds, x)
    ensures 0 <= PlaceAt(v, ds, x) < |w.syms|
    ensures SymAt(w, PlaceAt(v, ds, x)).name == ds[x].name
    ensures ZappedByPlan(w, PlaceAt(v, ds, x)) || SymAt(w, PlaceAt(v, ds, x)).state == Zapped
  {
    var i: nat := PlaceAt(v, ds, x);
    assert SymAt(v, i).state == Zapped;
    assert SymAt(p, i) == Flipped(w, i);
  }

  /** A report splits into the exports of symbols that this plan has zapped and of symbols zapped before. */
  lemma ReportSplits(w: World, env: Zap.Env, v: World, ds: seq<Zap.Directive>)
    requires env.output
    ensures Zap.LinesRun(env, Zap.Start(v, env.src), ds, |ds|).nzap
            == Sum(|ds|, Fresh(w, env, v, ds)) + Sum(|ds|, Stale(w, env, v, ds))
  {
    hide Counts, Zap.LinesRun, ZappedByPlan;
    ReportIsCount(env, v, ds);
    var zero := (x: nat) => 0;
    SumBalance(|ds|, Counted(env, v, ds), zero, Fresh(w, env, v, ds), Stale(w, env, v, ds));
    SumSingle(|ds|, zero, |ds|, 0);
  }

  ghost function CountOf(env: Zap.Env, v: World, ds: seq<Zap.Directive>, i: nat): nat -> int {
    (x: nat) => if Counts(env, v, ds, x) && PlaceAt(v, ds, x) == i then 1 else 0
  }

  /** Of the symbols that the plan has zapped, the file exports those of object o, each once, and no others. */
  ghost predicate Matches(w: World, o: nat, env: Zap.Env, v: World, ds: seq<Zap.Directive>) {
    forall i: nat | i < |w.syms| && ZappedByPlan(w, i) ::
      Sum(|ds|, CountOf(env, v, ds, i)) == if SymAt(w, i).obj == Some(o) then 1 else 0
  }

  ghost function FreshCell(w: World, env: Zap.Env, v: World, ds: seq<Zap.Directive>): (nat, nat) -> int {
    (i: nat, x: nat) => if Counts(env, v, ds, x) && PlaceAt(v, ds, x) == i && ZappedByPlan(w, i) then 1 else 0
  }

  /** Then the new exports that are counted are the symbols that the plan has zapped in that object. */
  lemma FreshIsZaps(w: World, p: World, o: nat, env: Zap.Env, v: World, ds: seq<Zap.Directive>)
    requires PlanOf(w, p) && Aged(p, v) && Matches(w, o, env, v, ds)
    ensures Sum(|ds|, Fresh(w, env, v, ds)) == Sum(|w.syms|, ZapIn(w, [o]))
  {
    hide Counts, ZappedByPlan, PlanOf, Aged, PlaceAt;
    var n, m, cell := |w.syms|, |ds|, FreshCell(w, env, v, ds);
    SumSwap(n, m, cell);
    forall i: nat | i < n ensures Columns(m, cell)(i) == ZapIn(w, [o])(i) {
      ColumnIs(w, o, env, v, ds, i);
    }
    SumSame(n, Columns(m, cell), ZapIn(w, [o]));
    forall x: nat | x < m ensures Rows(n, cell)(x) == Fresh(w, env, v, ds)(x) {
      RowIs(w, p, env, v, ds, x);
    }
    SumSame(m, Rows(n, cell), Fresh(w, env, v, ds));
  }

  lemma ColumnIs(w: World, o: nat, env: Zap.Env, v: World, ds: seq<Zap.Directive>, i: nat)
    requires i < |w.syms| && Matches(w, o, env, v, ds)
    ensures Columns(|ds|, FreshCell(w, env, v, ds))(i) == ZapIn(w, [o])(i)
  {
    hide Counts, PlaceAt;
    var cell := FreshCell(w, env, v, ds);
    var column := (x: nat) => cell(i, x);
    forall x: nat
      ensures column(x) == if Counts(env, v, ds, x) && PlaceAt(v, ds, x) == i && ZappedByPlan(w, i) then 1 else 0
    {
      assert column(x) == cell(i, x);
    }
    assert Columns(|ds|, cell)(i) == Sum(|ds|, column);
    if ZappedByPlan(w, i) {
      SumSame(|ds|, column, CountOf(env, v, ds, i));
    } else {
      SumSingle(|ds|, column, |ds|, 0);
    }
  }

  lemma RowIs(w: World, p: World, env: Zap.Env, v: World, ds: seq<Zap.Directive>, x: nat)
    requires x < |ds| && PlanOf(w, p) && Aged(p, v)
    ensures Rows(|w.syms|, FreshCell(w, env, v, ds))(x) == Fresh(w, env, v, ds)(x)
  {
    hide Counts, PlaceAt, ZappedByPlan;
    var cell := FreshCell(w, env, v, ds);
    var row := (i: nat) => cell(i, x);
    forall i: nat
      ensures row(i) == if Counts(env, v, ds, x) && PlaceAt(v, ds, x) == i && ZappedByPlan(w, i) then 1 else 0
    {
      assert row(i) == cell(i, x);
    }
    assert Rows(|w.syms|, cell)(x) == Sum(|w.syms|, row);
    if Counts(env, v, ds, x) {
      CountedIsOld(w, p, env, v, ds, x);
      var j: nat := PlaceAt(v, ds, x);
      SumSingle(|w.syms|, row, j, if ZappedByPlan(w, j) then 1 else 0);
    } else {
      SumSingle(|w.syms|, row, |w.syms|, 0);
    }
  }

  // --- Whole runs of the loop --------------------------------------------------------------------

  /** What rebuild k reads: the table it finds, and the file. */
  datatype Turn = Turn(v: World, env: Zap.Env, ds: seq<Zap.Directive>)

  ghost function TurnAt(p: World, ids: seq<nat>, builds: nat -> Rebuild.Build, irix: bool, k: nat): Turn
    requires k < |ids|
  {
    var v, b := Rebuild.RebuildAll(p, ids, builds, irix, k), builds(ids[k]);
    Turn(v, Rebuild.EnvOf(v, NatOf(SourceNumber(v, ids[k]))), if b.Built? then Zap.Directives(irix, b.lines) else [])
  }

  ghost function SourceNumber(v: World, o: nat): int {
    if ObjAt(v, o).source.Some? then ObjAt(v, o).source.value else -1
  }

  /** Rebuild k produced the object from the rewritten text. */
  ghost predicate Rewritten(p: World, ids: seq<nat>, builds: nat -> Rebuild.Build, irix: bool, k: nat)
    requires k < |ids|
  {
    builds(ids[k]).Built? && ObjAt(Rebuild.RebuildAll(p, ids, builds, irix, k), ids[k]).source.Some?
  }

  lemma TurnReport(p: World, ids: seq<nat>, builds: nat -> Rebuild.Build, irix: bool, k: nat)
    requires k < |ids| && Rewritten(p, ids, builds, irix, k)
    ensures var t := TurnAt(p, ids, builds, irix, k);
            && t.env.output
            && Rebuild.Reports(p, ids, builds, irix)[k]
               == Zap.LinesRun(t.env, Zap.Start(t.v, t.env.src), t.ds, |t.ds|).nzap
  {
    hide Zap.LinesRun, Rebuild.RebuildAll;
  }

  /** The first n rebuilds produced their objects, from files that export what the plan has zapped in them. */
  ghost predicate AllMatch(w: World, p: World, ids: seq<nat>, builds: nat -> Rebuild.Build, irix: bool, n: nat)
    requires n <= |ids|
  {
    forall k | 0 <= k < n :: MatchAt(w, p, ids, builds, irix, k)
  }

  ghost predicate MatchAt(w: World, p: World, ids: seq<nat>, builds: nat -> Rebuild.Build, irix: bool, k: nat)
    requires k < |ids|
  {
    && Rewritten(p, ids, builds, irix, k)
    && var t := TurnAt(p, ids, builds, irix, k); Matches(w, ids[k], t.env, t.v, t.ds)
  }

  /** How many of the first n rebuilds' counted exports are of symbols that were zapped before. */
  ghost function StaleTotal(w: World, p: World, ids: seq<nat>, builds: nat -> Rebuild.Build, irix: bool, n: nat): int
    requires n <= |ids|
  {
    if n == 0 then 0
    else
      var t := TurnAt(p, ids, builds, irix, n - 1);
      StaleTotal(w, p, ids, builds, irix, n - 1) + Sum(|t.ds|, Stale(w, t.env, t.v, t.ds))
  }

  lemma TurnSplits(w: World, p: World, ids: seq<nat>, builds: nat -> Rebuild.Build, irix: bool, k: nat)
    requires k < |ids| && PlanOf(w, p) && MatchAt(w, p, ids, builds, irix, k)
    ensures var t := TurnAt(p, ids, builds, irix, k);
            Rebuild.Reports(p, ids, builds, irix)[k]
            == Sum(|w.syms|, ZapIn(w, [ids[k]])) + Sum(|t.ds|, Stale(w, t.env, t.v, t.ds))
  {
    hide Zap.LinesRun, Rebuild.RebuildAll, Matches, Aged, PlanOf, Counts;
    var t := TurnAt(p, ids, builds, irix, k);
    TurnReport(p, ids, builds, irix, k);
    ReportSplits(w, t.env, t.v, t.ds);
    RebuildsAge(p, ids, builds, irix, k);
    FreshIsZaps(w, p, ids[k], t.env, t.v, t.ds);
  }

  lemma OneMoreRedone(w: World, done: seq<nat>, o: nat)
    requires o !in done
    ensures Sum(|w.syms|, ZapIn(w, done + [o])) == Sum(|w.syms|, ZapIn(w, done)) + Sum(|w.syms|, ZapIn(w, [o]))
  {
    hide ZappedByPlan;
    var zero := (i: nat) => 0;
    forall i: nat ensures ZapIn(w, done + [o])(i) + zero(i) == ZapIn(w, done)(i) + ZapIn(w, [o])(i) {
    }
    SumBalance(|w.syms|, ZapIn(w, done + [o]), zero, ZapIn(w, done), ZapIn(w, [o]));
    SumSingle(|w.syms|, zero, |w.syms|, 0);
  }

  /** The reports add up to the symbols that the plan has zapped in the rebuilt objects, and the exports of
      symbols zapped before. */
  lemma {:induction false} ReportsAccount(w: World, p: World, ids: seq<nat>, builds: nat -> Rebuild.Build, irix: bool, n: nat)
    requires n <= |ids| && PlanOf(w, p) && Distinct(ids) && AllMatch(w, p, ids, builds, irix, n)
    ensures Schedule.Zaps(Rebuild.Reports(p, ids, builds, irix), n)
            == Sum(|w.syms|, ZapIn(w, ids[..n])) + StaleTotal(w, p, ids, builds, irix, n)
  {
    hide PlanOf, MatchAt, Rebuild.RebuildAll, TurnAt, Stale, ZapIn;
    if n > 0 {
      ReportsAccount(w, p, ids, builds, irix, n - 1);
      TurnSplits(w, p, ids, builds, irix, n - 1);
      assert ids[..n] == ids[..n - 1] + [ids[n - 1]];
      OneMoreRedone(w, ids[..n - 1], ids[n - 1]);
    } else {
      NoneRedone(w, ids[..0]);
    }
  }

  lemma NoneRedone(w: World, done: seq<nat>)
    requires done == []
    ensures Sum(|w.syms|, ZapIn(w, done)) == 0
  {
    SumSingle(|w.syms|, ZapIn(w, done), |w.syms|, 0);
  }

  /** The target is met exactly when the reports exceed what was missing by the exports that were zapped before and
      the symbols that the rebuilds bring back. */
  lemma TargetMetExactly(w: World, p: World, ids: seq<nat>, builds: nat -> Rebuild.Build, irix: bool, n: nat, max: nat)
    requires n <= |ids| && PlanOf(w, p) && Distinct(ids) && AllMatch(w, p, ids, builds, irix, n)
    ensures TargetGlobals(w, ids[..n]) <= max
            <==> Schedule.Zaps(Rebuild.Reports(p, ids, builds, irix), n)
                 >= TargetGlobals(w, []) - max + StaleTotal(w, p, ids, builds, irix, n)
                    + Sum(|w.syms|, UnzapIn(w, ids[..n]))
  {
    hide PlanOf, AllMatch;
    TargetAccount(w, ids[..n]);
    ReportsAccount(w, p, ids, builds, irix, n);
  }

  // --- When nothing was zapped before ------------------------------------------------------------

  /** No symbol of the rebuilt objects was zapped before, and none that their files export. */
  ghost predicate NothingOld(w: World, p: World, ids: seq<nat>, builds: nat -> Rebuild.Build, irix: bool, n: nat)
    requires n <= |ids|
  {
    && (forall i: nat | Redone(w, ids[..n], i) :: SymAt(w, i).state != Zapped)
    && forall k, i: nat | 0 <= k < n && i < |w.syms| && SymAt(w, i).state == Zapped ::
         ExportsNot(TurnAt(p, ids, builds, irix, k).ds, SymAt(w, i).name)
  }

  ghost predicate ExportsNot(ds: seq<Zap.Directive>, name: string) {
    !Exported(ds, |ds|, name)
  }

  lemma {:induction false} NothingStale(w: World, p: World, ids: seq<nat>, builds: nat -> Rebuild.Build, irix: bool, n: nat)
    requires n <= |ids| && PlanOf(w, p) && NothingOld(w, p, ids, builds, irix, n)
    ensures StaleTotal(w, p, ids, builds, irix, n) == 0
  {
    hide Stale, Aged, PlanOf, Rebuild.RebuildAll, Rebuild.EnvOf;
    if n > 0 {
      assert forall i: nat | Redone(w, ids[..n - 1], i) :: Redone(w, ids[..n], i);
      NothingStale(w, p, ids, builds, irix, n - 1);
      var t := TurnAt(p, ids, builds, irix, n - 1);
      RebuildsAge(p, ids, builds, irix, n - 1);
      forall x: nat ensures Stale(w, t.env, t.v, t.ds)(x) == 0 {
        NotStale(w, p, t, x);
      }
      SumSingle(|t.ds|, Stale(w, t.env, t.v, t.ds), |t.ds|, 0);
    }
  }

  lemma NotStale(w: World, p: World, t: Turn, x: nat)
    requires PlanOf(w, p) && Aged(p, t.v)
    requires forall i: nat | i < |w.syms| && SymAt(w, i).state == Zapped :: ExportsNot(t.ds, SymAt(w, i).name)
    ensures Stale(w, t.env, t.v, t.ds)(x) == 0
  {
    if Counts(t.env, t.v, t.ds, x) {
      CountedIsOld(w, p, t.env, t.v, t.ds, x);
      var i: nat := PlaceAt(t.v, t.ds, x);
      ExportedAt(t.ds, x, SymAt(w, i).name);
    }
  }

  lemma ExportedAt(ds: seq<Zap.Directive>, x: nat, name: string)
    requires x < |ds| && Exports(ds[x], name)
    ensures !ExportsNot(ds, name)
  {
  }

  lemma NothingBack(w: World, done: seq<nat>)
    requires forall i: nat | Redone(w, done, i) :: SymAt(w, i).state != Zapped
    ensures Sum(|w.syms|, UnzapIn(w, done)) == 0
  {
    forall i: nat ensures UnzapIn(w, done)(i) == 0 {
    }
    SumSingle(|w.syms|, UnzapIn(w, done), |w.syms|, 0);
  }

  // --- do_recompilation --------------------------------------------------------------------------

  lemma DistinctPermuted(a: seq<nat>, b: seq<nat>)
    requires Distinct(a) && multiset(a) == multiset(b)
    ensures Distinct(b)
  {
    RoundTrip.DistinctByCount(a);
    forall x, y | 0 <= x < y < |b| ensures b[x] != b[y] {
      assert multiset(a)[b[x]] <= 1;
      if b[x] == b[y] {
        RoundTrip.TwoPlaces(b, x, y);
      }
    }
  }

  lemma PlannedOnce(w: World, walk: seq<nat>, planned: World, ids: seq<nat>,
                    prefs: Option<seq<string>>, unprefs: Option<seq<string>>)
    requires Wf(w) && Recompile.NoLinks(w) && Once(walk, |w.syms|)
    requires Recompile.PlannedFrom(w, walk, planned, ids, prefs, unprefs)
    ensures Distinct(ids) && PlanOf(Recompile.WithDummy(w), planned)
  {
    var start := Recompile.WithDummy(w);
    var n := |w.objs|;
    Recompile.ReadyToPlan(w, prefs, unprefs);
    PlannedObjects(start, n, walk);
    PlanHalfway(start, n, walk, |walk|);
    assert walk[..|walk|] == walk;
    DistinctPermuted(Planned(start, walk, |walk|), ids);
    forall i: nat | i < |start.syms| ensures SymAt(planned, i) == Flipped(start, i) {
      assert i in walk && planned.syms[i] == Flipped(start, i);
    }
  }

  lemma SummaryIgnoresDummy(w: World)
    requires Wf(w)
    ensures TargetGlobals(Recompile.WithDummy(w), []) == TargetGlobals(w, [])
  {
    var start := Recompile.WithDummy(w);
    forall i: nat | i < |w.syms| ensures GlobalIn(start, [])(i) == GlobalIn(w, [])(i) {
      assert SymAt(start, i) == w.syms[i];
    }
    SumSame(|w.syms|, GlobalIn(start, []), GlobalIn(w, []));
  }

  /** What do_recompilation achieves when no rebuild fails or falls back on the plain source, and the files export
      what the plan has zapped in their objects: the target is met exactly when the reports exceed what was missing
      by the exports zapped before and the symbols brought back. If there are none of either, reaching the loop's
      goal means that the target is met. */
  lemma LoopMeetsTarget(w: World, walk: seq<nat>, planned: World, ids: seq<nat>, prefs: Option<seq<string>>,
                        unprefs: Option<seq<string>>, max: nat, builds: nat -> Rebuild.Build, irix: bool, done: nat,
                        end: World)
    requires Wf(w) && Recompile.NoLinks(w) && Once(walk, |w.syms|) && Recompile.Globals(w, walk) > max
    requires Recompile.PlannedFrom(w, walk, planned, ids, prefs, unprefs) && done <= |ids|
    requires Rebuild.RebuiltFrom(planned, ids, Recompile.Globals(w, walk) - max, builds, irix, done, done, end)
    requires AllMatch(Recompile.WithDummy(w), planned, ids, builds, irix, done)
    ensures var start, delta := Recompile.WithDummy(w), Recompile.Globals(w, walk) - max;
            var reports := Schedule.Zaps(Rebuild.Reports(planned, ids, builds, irix), done);
            && (TargetGlobals(start, ids[..done]) <= max
                <==> reports >= delta + StaleTotal(start, planned, ids, builds, irix, done)
                                + Sum(|start.syms|, UnzapIn(start, ids[..done])))
            && (NothingOld(start, planned, ids, builds, irix, done) ==>
                  (TargetGlobals(start, ids[..done]) <= max <==> reports >= delta)
                  && (done < |ids| ==> TargetGlobals(start, ids[..done]) <= max))
  {
    hide Recompile.PlannedFrom, AllMatch, PlanOf, StaleTotal, NothingOld, Recompile.WithDummy;
    var start := Recompile.WithDummy(w);
    PlannedOnce(w, walk, planned, ids, prefs, unprefs);
    TargetBefore(w, walk);
    SummaryIgnoresDummy(w);
    TargetMetExactly(start, planned, ids, builds, irix, done, max);
    if NothingOld(start, planned, ids, builds, irix, done) {
      NothingStale(start, planned, ids, builds, irix, done);
      OldIsNotRedone(start, planned, ids, builds, irix, done);
      NothingBack(start, ids[..done]);
    }
  }

  lemma OldIsNotRedone(w: World, p: World, ids: seq<nat>, builds: nat -> Rebuild.Build, irix: bool, n: nat)
    requires n <= |ids| && NothingOld(w, p, ids, builds, irix, n)
    ensures forall i: nat | Redone(w, ids[..n], i) :: SymAt(w, i).state != Zapped
  {
  }

  // --- A target that is missed -------------------------------------------------------------------

  /** a was zapped before; b and d, of the same object and of another one, are merely defined. */
  function OldZapTable(src: Source): World {
    World([Sym("a", Some(0), 0, 0, Zapped), Sym("b", Some(0), 0, 1, Defined), Sym("d", Some(1), 0, 1, Defined)],
          [Object(Some("a.o"), Some(0), None, 0, 1), Object(Some("b.o"), Some(1), None, 0, 1)], [src, src])
  }

  lemma OldZapTablePlanned(src: Source, order: seq<nat>)
    requires Once(order, 3)
    ensures var w := Recompile.WithDummy(OldZapTable(src));
            var p := PlanRun(w, 2, order, |order|).0;
            && Wf(w) && PlanOf(w, p) && ObjAt(p, 0).source == Some(0) && p.srcs == w.srcs
            && SymAt(p, 0) == w.syms[0] && SymAt(p, 1).state == Zapped
            && SymAt(p, 0).name == "a" && SymAt(p, 1).name == "b" && SymAt(p, 2).name == "d" && |p.syms| == 3
            && SymAt(p, 0).obj == SymAt(p, 1).obj == Some(0)
  {
    hide PlanRun;
    var w := Recompile.WithDummy(OldZapTable(src));
    var p := PlanRun(w, 2, order, |order|).0;
    PlanHalfway(w, 2, order, |order|);
    assert order[..|order|] == order;
    forall i: nat | i < 3 ensures SymAt(p, i) == Flipped(w, i) {
      assert i in order && p.syms[i] == Flipped(w, i);
    }
    assert Flips(w, 1);
  }

  lemma BothCount(p: World, env: Zap.Env, ds: seq<Zap.Directive>)
    requires |p.syms| == 3 && !env.cplusplus && env.output && ds == [Zap.Global("a"), Zap.Global("b")]
    requires p.syms[0].name == "a" && p.syms[1].name == "b" && p.syms[2].name == "d"
    requires p.syms[0].state == p.syms[1].state == Zapped && p.syms[0].obj.Some? && p.syms[1].obj.Some?
    ensures Zap.LinesRun(env, Zap.Start(p, env.src), ds, 2).nzap == 2
  {
    hide Zap.LinesRun;
    assert "a"[0] != "b"[0] && "b"[0] != "d"[0] && "a"[0] != "d"[0];
    assert Find(p.syms, "a") == 0 && Find(p.syms, "b") == 1;
    assert Counts(env, p, ds, 0) && Counts(env, p, ds, 1);
    ReportIsCount(env, p, ds);
    assert Sum(1, Counted(env, p, ds)) == Sum(0, Counted(env, p, ds)) + 1;
    assert Sum(2, Counted(env, p, ds)) == Sum(1, Counted(env, p, ds)) + 1;
  }

  /** No global shall be left and two are; the first rebuild reports two removed exports, one of them zapped long
      ago, so the loop stops there and one global remains. */
  lemma OldZapsMissTarget(src: Source, order: seq<nat>, builds: nat -> Rebuild.Build, time: int)
    requires Once(order, 3) && src.name == "a.c" && builds(0) == Rebuild.Built(["\t.globl\ta", "\t.globl\tb"], time)
    ensures var w := Recompile.WithDummy(OldZapTable(src));
            var p := PlanRun(w, 2, order, |order|).0;
            && TargetGlobals(w, []) == 2
            && Schedule.Finished(Rebuild.Reports(p, [0, 1], builds, true), 2, 1)
            && TargetGlobals(w, [0]) == 1
  {
    var w := Recompile.WithDummy(OldZapTable(src));
    var p := PlanRun(w, 2, order, |order|).0;
    OldZapTablePlanned(src, order);
    OldZapGlobals(src);
    FirstReportIsTwo(p, builds, time);
    ReportsTwo(Rebuild.Reports(p, [0, 1], builds, true));
  }

  lemma ReportsTwo(results: seq<int>)
    requires |results| == 2 && results[0] == 2
    ensures Schedule.Finished(results, 2, 1)
  {
    assert Schedule.Zaps(results, 0) == 0 && Schedule.Zaps(results, 1) == Schedule.Zaps(results, 0) + results[0];
  }

  lemma FirstReportIsTwo(p: World, builds: nat -> Rebuild.Build, time: int)
    requires builds(0) == Rebuild.Built(["\t.globl\ta", "\t.globl\tb"], time)
    requires |p.syms| == 3 && ObjAt(p, 0).source == Some(0) && |p.srcs| > 0 && p.srcs[0].name == "a.c"
    requires p.syms[0].name == "a" && p.syms[1].name == "b" && p.syms[2].name == "d"
    requires p.syms[0].state == p.syms[1].state == Zapped && p.syms[0].obj.Some? && p.syms[1].obj.Some?
    ensures Rebuild.Reports(p, [0, 1], builds, true)[0] == 2
  {
    hide Zap.LinesRun, Zap.DirectiveOf;
    var lines := ["\t.globl\ta", "\t.globl\tb"];
    Zap.GlobalExactly(true, lines[0], "a");
    Zap.GlobalExactly(true, lines[1], "b");
    var ds := Zap.Directives(true, lines);
    assert ds == [Zap.Global("a"), Zap.Global("b")];
    Rebuild.CppExactly("a.c");
    assert Rebuild.RebuildAll(p, [0, 1], builds, true, 0) == p;
    BothCount(p, Rebuild.EnvOf(p, 0), ds);
    assert Rebuild.Reread(p, 0, lines, true).nzap == 2;
  }

  lemma OldZapGlobals(src: Source)
    ensures var w := Recompile.WithDummy(OldZapTable(src));
            TargetGlobals(w, []) == 2 && TargetGlobals(w, [0]) == 1
  {
    var w := Recompile.WithDummy(OldZapTable(src));
    assert Flips(w, 1) && !Redone(w, [0], 2) && Redone(w, [0], 1);
    var before, after := GlobalIn(w, []), GlobalIn(w, [0]);
    assert before(0) == 0 && before(1) == 1 && before(2) == 1;
    assert after(0) == 0 && after(1) == 0 && after(2) == 1;
    assert Sum(3, before) == Sum(2, before) + before(2) == Sum(1, before) + before(1) + before(2);
    assert Sum(1, before) == Sum(0, before) + before(0);
    assert Sum(3, after) == Sum(2, after) + after(2) == Sum(1, after) + after(1) + after(2);
    assert Sum(1, after) == Sum(0, after) + after(0);
  }
}
