/** get_summary and do_recompilation in the heap: plan, list, sort and rebuild until enough symbols are zapped. */
module GtsRecompile {
  import opened CText
  import opened GtsWorld
  import opened GtsOrder
  import opened GtsPasses
  import opened GtsPlanning
  import opened GtsTable
  import opened GtsSort
  import Rewrite = GtsRewrite
  import Store = GtsStore
  import Sharing = GtsSharing
  import Db = GtsDatabase
  import RoundTrip = GtsRoundTrip
  import Schedule = GtsSchedule
  import Rebuild = GtsRebuild

  /** get_summary */
  method GetSummary(table: EhSymTable) returns (s: Summary)
    requires table.Valid()
    modifies table.syms`obj, table.syms`state, table.objs`recompile, table.objs`needsUnzap, table.objs`nusers
    ensures table.Valid() && table.Shape() && table.W() == old(table.W())
    ensures s == SummaryOver(table.W(), table.Walk(), |table.Walk()|)
  {
    hide table.Valid, table.W, table.Shape, table.Walk, Run;
    table.WalkIsOnce();
    SummaryRun(State(table.W(), Summarize(NO_SUMMARY), false), table.Walk(), |table.Walk()|);
    var c, rc := table.Map(SummaryMappee(NO_SUMMARY));
    s := c.sums;
  }

  /** The pass over the table that finds the unused objects. */
  method CountUsersPass(table: EhSymTable)
    requires table.Valid()
    modifies table.syms`obj, table.syms`state, table.objs`recompile, table.objs`needsUnzap, table.objs`nusers
    ensures table.Valid() && table.Shape()
    ensures table.W() == Run(State(old(table.W()), CountUsers, false), table.Walk(), |table.Walk()|).w
  {
    hide table.Valid, table.W, table.Shape, table.Walk, Run;
    table.WalkIsOnce();
    var c, rc := table.Map(NusersMappee);
  }

  /** Walks the table with recompile_init_mappee, starting from a list that consists of the dummy only. */
  method PlanPass(table: EhSymTable, dummy: EhObject) returns (info: Callback)
    requires table.Valid() && dummy in table.objs
    modifies table.syms`obj, table.syms`state, table.objs`recompile, table.objs`needsUnzap, table.objs`nusers
    ensures table.Valid() && table.Shape() && info.RecompileMappee? && info.list in table.objs
    ensures var r := PlanRun(old(table.W()), dummy.id, table.Walk(), |table.Walk()|);
            table.W() == r.0 && PlanOf(info) == r.1
  {
    hide table.Valid, table.W, table.Shape, table.Walk, Run, PlanRun;
    table.WalkIsOnce();
    RecompileRun(table.W(), dummy.id, table.Walk(), |table.Walk()|);
    var rc;
    info, rc := table.Map(RecompileMappee(dummy, 0, 0, 0, 0));
  }

  /** The loop that copies the list into an array of exactly its length. */
  method CopyList(table: EhSymTable, list: EhObject, size: nat, dummy: EhObject, ghost nodes: seq<nat>)
    returns (recompiles: array<EhObject?>)
    requires table.Valid() && list in table.objs && dummy in table.objs
    requires ListIs(table.W(), list.id, nodes, dummy.id) && size == |nodes|
    ensures fresh(recompiles) && recompiles.Length == |nodes|
    ensures forall k | 0 <= k < |nodes| ::
              recompiles[k] != null && recompiles[k] in table.objs && recompiles[k].id == nodes[k]
  {
    hide table.Valid, table.W, ListIs;
    recompiles := new EhObject?[size](_ => null);
    var n, obj := 0, list;
    ghost var w := table.W();
    ListAt(w, list.id, nodes, dummy.id, 0);
    while obj != dummy
      invariant table.Valid() && table.W() == w && obj in table.objs && n <= |nodes|
      invariant obj.id == if n == |nodes| then dummy.id else nodes[n]
      invariant forall k | 0 <= k < n ::
                  recompiles[k] != null && recompiles[k] in table.objs && recompiles[k].id == nodes[k]
      decreases |nodes| - n
    {
      table.SameId(obj, dummy);
      table.ObjAtId(obj);
      ListAt(w, list.id, nodes, dummy.id, n);
      recompiles[n] := obj;
      table.LinkKnown(obj);
      n, obj := n + 1, obj.recompile;
    }
    ListAt(w, list.id, nodes, dummy.id, n);
  }

  // --- The order of rebuilding -------------------------------------------------------------------

  function JobOf(o: EhObject): Schedule.Job
    reads o`needsUnzap, o`source
  {
    Schedule.Job(o.needsUnzap,
                 if o.source == null then None
                 else Some(Schedule.JobSource(o.source.id, o.source.directory, o.source.name)))
  }

  /** Either no preference list tells directories apart, or every source has a directory. */
  ghost predicate Comparable(v: seq<EhObject>, prefs: Option<seq<string>>, unprefs: Option<seq<string>>)
    reads v
  {
    && (forall o | o in v :: o.source != null)
    && ((Schedule.Inert(prefs) && Schedule.Inert(unprefs)) || forall o | o in v :: Schedule.Placed(JobOf(o)))
  }

  ghost predicate InOrder(r: seq<EhObject>, prefs: Option<seq<string>>, unprefs: Option<seq<string>>)
    reads r`needsUnzap, r`source
  {
    forall i, j | 0 <= i < j < |r| :: Schedule.Compare(JobOf(r[i]), JobOf(r[j]), prefs, unprefs) <= 0
  }

  /** The same of the objects at the given places of the state. */
  ghost function JobAt(w: World, o: nat): Schedule.Job {
    var x := ObjAt(w, o);
    Schedule.Job(x.needsUnzap,
                 if x.source.None? || x.source.value >= |w.srcs| then None
                 else Some(Schedule.JobSource(x.source.value, w.srcs[x.source.value].directory,
                                              w.srcs[x.source.value].name)))
  }

  ghost predicate Ordered(w: World, ids: seq<nat>, prefs: Option<seq<string>>, unprefs: Option<seq<string>>) {
    forall i, j | 0 <= i < j < |ids| :: Schedule.Compare(JobAt(w, ids[i]), JobAt(w, ids[j]), prefs, unprefs) <= 0
  }

  lemma InOrderIsOrdered(table: EhSymTable, r: seq<EhObject>, prefs: Option<seq<string>>, unprefs: Option<seq<string>>)
    requires table.Valid() && (forall o | o in r :: o in table.objs) && InOrder(r, prefs, unprefs)
    ensures Ordered(table.W(), ObjectIds(r), prefs, unprefs)
  {
    hide table.Valid, table.W, Schedule.Compare;
    forall i | 0 <= i < |r| ensures JobAt(table.W(), r[i].id) == JobOf(r[i]) {
      table.ObjAtId(r[i]);
      if r[i].source != null {
        table.SourceAt(r[i]);
      }
    }
  }

  lemma JobsRecorded(table: EhSymTable, a: EhObject, b: EhObject)
    requires table.Valid() && a in table.objs && b in table.objs
    ensures Schedule.SameRecord(JobOf(a), JobOf(b))
  {
    hide table.Valid, table.W;
    table.SourceIds(a, b);
  }

  lemma JobsPreorder(table: EhSymTable, v: seq<EhObject>, prefs: Option<seq<string>>, unprefs: Option<seq<string>>,
                     a: EhObject, b: EhObject, c: EhObject)
    requires table.Valid() && a in table.objs && b in table.objs && c in table.objs
    requires a in v && b in v && c in v && Comparable(v, prefs, unprefs)
    ensures Schedule.Compare(JobOf(a), JobOf(b), prefs, unprefs) == -Schedule.Compare(JobOf(b), JobOf(a), prefs, unprefs)
    ensures Schedule.Transitive(JobOf(a), JobOf(b), JobOf(c), prefs, unprefs)
  {
    hide table.Valid, table.W, Schedule.Compare;
    JobsRecorded(table, a, b);
    JobsRecorded(table, b, c);
    JobsRecorded(table, a, c);
    Schedule.CompareSwap(JobOf(a), JobOf(b), prefs, unprefs);
    if Schedule.Inert(prefs) && Schedule.Inert(unprefs) {
      Schedule.InertIsTransitive(JobOf(a), JobOf(b), JobOf(c), prefs, unprefs);
    } else {
      Schedule.CompareIsPreorder(JobOf(a), JobOf(b), JobOf(c), prefs, unprefs);
    }
  }

  /** qsort with recompile_compare */
  method SortObjects(table: EhSymTable, v: seq<EhObject>, prefs: Option<seq<string>>, unprefs: Option<seq<string>>)
    returns (r: seq<EhObject>)
    requires table.Valid() && forall o | o in v :: o in table.objs
    ensures multiset(r) == multiset(v) && forall o | o in r :: o in v
    ensures Comparable(v, prefs, unprefs) ==> InOrder(r, prefs, unprefs)
  {
    hide table.Valid, table.W, Schedule.Compare, JobOf, Comparable;
    ghost var consistent := Comparable(v, prefs, unprefs);
    var cmp := (a: EhObject, b: EhObject) reads a, b => Schedule.Compare(JobOf(a), JobOf(b), prefs, unprefs);
    forall a, b, c | a in v && b in v && c in v && consistent
      ensures cmp(a, b) == -cmp(b, a)
      ensures cmp(a, b) <= 0 && cmp(b, c) <= 0 ==> cmp(a, c) <= 0
    {
      JobsPreorder(table, v, prefs, unprefs, a, b, c);
    }
    r := Qsort(v, cmp, consistent);
    forall i, j | 0 <= i < j < |r| && consistent
      ensures Schedule.Compare(JobOf(r[i]), JobOf(r[j]), prefs, unprefs) <= 0
    {
      assert cmp(r[i], r[j]) <= 0;
    }
  }

  // --- Rebuilding --------------------------------------------------------------------------------

  /** suffix_name(s) is ".cpp": the loop of strrchr. */
  method IsCpp(s: string) returns (cplusplus: bool)
    ensures cplusplus == (Rebuild.Suffix(s) == ".cpp")
  {
    var n := |s|;
    Rebuild.NoDot(s[n..]);
    while n > 0 && s[n - 1] != '.'
      invariant 0 <= n <= |s| && '.' !in s[n..]
    {
      assert s[n - 1..] == [s[n - 1]] + s[n..];
      n := n - 1;
    }
    if n == 0 {
      assert s[0..] == s;
      Rebuild.NoDot(s);
      cplusplus := false;
    } else {
      Rebuild.LastDot(s, n - 1);
      cplusplus := s[n - 1..] == ".cpp";
    }
  }

  /** EhObjectRebuild */
  method RebuildObject(table: EhSymTable, obj: EhObject, b: Rebuild.Build, irix: bool) returns (rv: int)
    requires table.Valid() && obj in table.objs
    modifies table, table.heads, table.syms, table.objs, table.srcs
    ensures table.Valid() && table.OnlyNew() && old(table.objs) <= table.objs && table.srcs == old(table.srcs)
    ensures Rebuild.Outcome(table.W(), rv) == Rebuild.RebuildOne(old(table.W()), obj.id, b, irix)
  {
    hide table.Valid, table.W, Rebuild.Reread, SetTime;
    table.ObjAtId(obj);
    if obj.source == null || b.NotCompiled? {
      return -1;
    }
    var source := obj.source;
    var nzap := RereadSource(table, obj, b.lines, irix);
    match b {
      case Broken(_) => rv := -1;
      case Reverted(_) => rv := 0;
      case Built(_, time) =>
        table.PutTime(source, time);
        rv := nzap;
      case NotArchived(_, time) =>
        table.PutTime(source, time);
        rv := -1;
    }
  }

  method RereadSource(table: EhSymTable, obj: EhObject, lines: seq<string>, irix: bool) returns (nzap: nat)
    requires table.Valid() && obj in table.objs && obj.source != null
    modifies table, table.heads, table.syms, table.objs
    ensures table.Valid() && table.OnlyNew() && old(table.objs) <= table.objs && table.srcs == old(table.srcs)
    ensures old(obj.source) in table.srcs
    ensures var p := Rebuild.Reread(old(table.W()), old(obj.source.id), lines, irix);
            table.W() == p.w && nzap == p.nzap
  {
    hide table.Valid, table.W;
    table.SourceIds(obj, obj);
    table.SourceAt(obj);
    var cplusplus := IsCpp(obj.source.name);
    var out;
    out, nzap := Rewrite.EhSourceZapFp(table, obj.source, lines, true, cplusplus, irix);
  }

  /** The rebuild loop. It takes the objects it has rebuilt, done in number, off the list. */
  method RebuildLoop(table: EhSymTable, recompiles: seq<EhObject>, delta: nat, builds: nat -> Rebuild.Build, irix: bool)
    returns (rv: int, ghost done: nat)
    requires table.Valid() && (forall o | o in recompiles :: o in table.objs)
    modifies table, table.heads, table.syms, table.objs, table.srcs
    ensures table.Valid() && table.OnlyNew()
    ensures Rebuild.RebuiltFrom(old(table.W()), ObjectIds(recompiles), delta, builds, irix, rv, done, table.W())
  {
    hide table.Valid, table.W, Rebuild.RebuildOne, Rebuild.RebuildAll, Rebuild.TakeOff, Schedule.SoFar,
         Schedule.FailsAt, Schedule.Finished;
    ghost var w, ids := table.W(), ObjectIds(recompiles);
    ghost var results := Rebuild.Reports(w, ids, builds, irix);
    Rebuild.RebuildNone(w, ids, builds, irix);
    Schedule.LoopStarts(results, delta);
    var n, nzaps := 0, 0;
    done := 0;
    while n < |recompiles| && nzaps < delta
      invariant table.Valid() && table.OnlyNew() && old(table.objs) <= table.objs && table.srcs == old(table.srcs)
      invariant done == n <= |recompiles| && table.W() == Rebuild.RebuildAll(w, ids, builds, irix, n)
      invariant Schedule.SoFar(results, delta, n, nzaps)
    {
      Rebuild.RebuildNext(w, ids, builds, irix, n);
      Schedule.LoopGoesOn(results, delta, n, nzaps);
      var r := RebuildAndTakeOff(table, recompiles[n], builds(recompiles[n].id), irix);
      if r == -1 {
        return -1, n;
      }
      nzaps := nzaps + r;
      n, done := n + 1, n + 1;
    }
    Schedule.LoopEnds(results, delta, n, nzaps);
    rv := n;
  }

  /** One round of the loop. */
  method RebuildAndTakeOff(table: EhSymTable, obj: EhObject, b: Rebuild.Build, irix: bool) returns (rv: int)
    requires table.Valid() && obj in table.objs
    modifies table, table.heads, table.syms, table.objs, table.srcs
    ensures table.Valid() && table.OnlyNew() && old(table.objs) <= table.objs && table.srcs == old(table.srcs)
    ensures rv == Rebuild.RebuildOne(old(table.W()), obj.id, b, irix).rv
    ensures table.W() == Rebuild.Round(old(table.W()), obj.id, b, irix)
  {
    hide table.Valid, table.W, Rebuild.RebuildOne;
    rv := RebuildObject(table, obj, b, irix);
    if rv != -1 {
      table.ClearRecompile(obj);   // clean up now
    }
  }

  /** Every source that an object has names its directory, unless no preference list tells directories apart. */
  ghost predicate Usable(w: World, prefs: Option<seq<string>>, unprefs: Option<seq<string>>) {
    (Schedule.Inert(prefs) && Schedule.Inert(unprefs))
    || forall o | 0 <= o < |w.objs| && w.objs[o].source.Some? && w.objs[o].source.value < |w.srcs| ::
         w.srcs[w.objs[o].source.value].directory.Some?
  }

  /** The list that the pass has left, copied into an array and sorted. */
  method SortPlanned(table: EhSymTable, info: Callback, dummy: EhObject, ghost start: World,
                     prefs: Option<seq<string>>, unprefs: Option<seq<string>>)
    returns (order: seq<EhObject>)
    requires table.Valid() && table.Shape() && dummy in table.objs && info.RecompileMappee? && info.list in table.objs
    requires ListStart(start, dummy.id) && Once(table.Walk(), |start.syms|)
    requires var r := PlanRun(start, dummy.id, table.Walk(), |table.Walk()|);
             table.W() == r.0 && PlanOf(info) == r.1
    ensures forall o | o in order :: o in table.objs
    ensures multiset(ObjectIds(order)) == multiset(Planned(start, table.Walk(), |table.Walk()|))
    ensures Usable(start, prefs, unprefs) ==> InOrder(order, prefs, unprefs)
  {
    hide table.Valid, table.W, table.Shape, table.Walk, PlanRun, Planned, InOrder, Schedule.Inert,
         ListIs, ListStart, Once, Comparable, Usable;
    ghost var nodes := Planned(start, table.Walk(), |table.Walk()|);
    PlannedObjects(start, dummy.id, table.Walk());
    var recompiles := CopyList(table, info.list, info.count, dummy, nodes);
    var v: seq<EhObject> := recompiles[..];
    assert ObjectIds(v) == nodes;
    forall o | o in v ensures o in table.objs && CanBuild(ObjAt(start, o.id)) {
      var k :| 0 <= k < |v| && v[k] == o;
      assert nodes[k] in nodes;
    }
    StartIsWf(start, dummy.id);
    PlanHalfway(start, dummy.id, table.Walk(), |table.Walk()|);
    if Usable(start, prefs, unprefs) {
      CanCompare(table, start, v, prefs, unprefs);
    }
    order := SortObjects(table, v, prefs, unprefs);
    ObjectIdsPermuted(order, v);
  }

  lemma StartIsWf(w: World, sentinel: nat)
    requires ListStart(w, sentinel)
    ensures Wf(w)
  {
  }

  /** The dummy is a record of its own, the newest one. */
  ghost function WithDummy(w: World): (r: World)
    ensures |r.objs| > 0
  {
    w.(objs := w.objs + [NewObject(None, None)])
  }

  ghost predicate NoLinks(w: World) {
    forall o | 0 <= o < |w.objs| :: w.objs[o].recompile == None
  }

  lemma ReadyToPlan(w: World, prefs: Option<seq<string>>, unprefs: Option<seq<string>>)
    requires Wf(w) && NoLinks(w)
    ensures ListStart(WithDummy(w), |w.objs|)
    ensures Usable(w, prefs, unprefs) ==> Usable(WithDummy(w), prefs, unprefs)
  {
  }

  /** What the first half of do_recompilation leaves: the state, and the sorted list of objects to rebuild. */
  ghost predicate PlannedFrom(w: World, walk: seq<nat>, planned: World, ids: seq<nat>,
                              prefs: Option<seq<string>>, unprefs: Option<seq<string>>)
  {
    var start := WithDummy(w);
    && planned == PlanRun(start, |start.objs| - 1, walk, |walk|).0
    && multiset(ids) == multiset(Planned(start, walk, |walk|))
    && (Usable(w, prefs, unprefs) ==> Ordered(planned, ids, prefs, unprefs))
  }

  /** The first half of do_recompilation: flip what can be flipped, list the owners, sort the list. */
  method PlanRecompilation(table: EhSymTable, prefs: Option<seq<string>>, unprefs: Option<seq<string>>)
    returns (order: seq<EhObject>)
    requires table.Valid() && NoLinks(table.W())
    modifies table`objs, table`nobjects, table.syms`obj, table.syms`state
    modifies table.objs`recompile, table.objs`needsUnzap, table.objs`nusers
    ensures table.Valid() && table.OnlyNew() && forall o | o in order :: o in table.objs
    ensures table.Shape() && PlannedFrom(old(table.W()), old(table.Walk()), table.W(), ObjectIds(order), prefs, unprefs)
  {
    hide table.Valid, table.W, table.Shape, table.Walk, PlanRun, Planned, InOrder, Ordered, Schedule.Inert,
         ListStart, Once, NoLinks, Usable;
    table.ValidIsWf();
    ReadyToPlan(table.W(), prefs, unprefs);
    table.WalkIsOnce();
    ghost var start := WithDummy(table.W());
    var dummy := table.AddObject(None, null);
    var info := PlanPass(table, dummy);
    order := SortPlanned(table, info, dummy, start, prefs, unprefs);
    if InOrder(order, prefs, unprefs) {
      InOrderIsOrdered(table, order, prefs, unprefs);
    }
  }

  lemma CanCompare(table: EhSymTable, start: World, v: seq<EhObject>,
                   prefs: Option<seq<string>>, unprefs: Option<seq<string>>)
    requires table.Valid() && SameObjects(start, table.W()) && Usable(start, prefs, unprefs)
    requires forall o | o in v :: o in table.objs && CanBuild(ObjAt(start, o.id))
    ensures Comparable(v, prefs, unprefs)
  {
    hide table.Valid, table.W, Schedule.Inert;
    forall o | o in v ensures o.source != null {
      table.ObjAtId(o);
    }
    forall o | o in v && !(Schedule.Inert(prefs) && Schedule.Inert(unprefs)) ensures Schedule.Placed(JobOf(o)) {
      table.ObjAtId(o);
      table.SourceAt(o);
      assert start.objs[o.id].source == Some(o.source.id);
    }
  }

  lemma ObjectIdsPermuted(a: seq<EhObject>, b: seq<EhObject>)
    requires multiset(a) == multiset(b)
    ensures multiset(ObjectIds(a)) == multiset(ObjectIds(b))
  {
    var id := (o: EhObject) => o.id;
    MappedPermuted(a, b, id);
    assert ObjectIds(a) == Mapped(a, id) && ObjectIds(b) == Mapped(b, id);
  }

  ghost function ObjectIds(v: seq<EhObject>): (r: seq<nat>)
    ensures |r| == |v| && forall i | 0 <= i < |v| :: r[i] == v[i].id
  {
    seq(|v|, i requires 0 <= i < |v| => v[i].id)
  }

  /** The data base written half way, when there is a file for it. */
  ghost predicate Saved(w: World, address: nat -> int, lines: seq<string>) {
    exists vector ::
      RoundTrip.FlushVector(w, vector) && Sharing.Sorted(w, address, vector)
      && lines == Db.Dump(w, vector, |vector|).lines
  }

  method SaveHalfway(table: EhSymTable, save: bool) returns (saved: Option<seq<string>>)
    requires table.Valid() && Sharing.Addresses(table.address)
    modifies table.syms`obj, table.syms`state, table.objs`recompile, table.objs`needsUnzap, table.objs`nusers
    ensures table.Valid() && table.W() == old(table.W())
    ensures saved.Some? == save && (save ==> Saved(table.W(), table.address, saved.value))
  {
    hide table.Valid, table.W, RoundTrip.FlushVector, Sharing.Sorted, Db.Dump;
    saved := None;
    if save {
      var lines;
      ghost var vector;
      lines, vector := Store.EhSymTableFpDump(table);
      saved := Some(lines);
    }
  }

  /** do_recompilation. Nothing happens while the target is met. Otherwise objects are rebuilt until the exports that
      the rebuilds report as removed are as many as the globals by which it is missed; GtsTarget tells what that means
      for the target. save says whether a data base is written; builds(id) is
      what happens when the object allocated as number id is rebuilt. */
  method DoRecompilation(table: EhSymTable, maxGlobals: nat, prefs: Option<seq<string>>, unprefs: Option<seq<string>>,
                         save: bool, builds: nat -> Rebuild.Build, irix: bool)
    returns (rv: int, order: seq<EhObject>, saved: Option<seq<string>>, ghost planned: World, ghost done: nat)
    requires table.Valid() && NoLinks(table.W()) && Sharing.Addresses(table.address)
    modifies table, table.heads, table.syms, table.objs, table.srcs
    ensures table.Valid() && table.OnlyNew() && table.Shape()
    ensures Globals(old(table.W()), old(table.Walk())) <= maxGlobals ==>
              rv == 0 && order == [] && saved == None && table.W() == old(table.W())
    ensures Globals(old(table.W()), old(table.Walk())) > maxGlobals ==>
              && PlannedFrom(old(table.W()), old(table.Walk()), planned, ObjectIds(order), prefs, unprefs)
              && saved.Some? == save && (save ==> Saved(planned, table.address, saved.value))
              && Rebuild.RebuiltFrom(planned, ObjectIds(order),
                                     Globals(old(table.W()), old(table.Walk())) - maxGlobals, builds, irix, rv, done,
                                     table.W())
  {
    hide table.Valid, table.W, table.Shape, table.Walk, SummaryOver, NoLinks, PlannedFrom, Saved, Rebuild.RebuiltFrom,
         Sharing.Addresses, ObjectIds;
    var s := GetSummary(table);
    if s.nused + s.ndefined <= maxGlobals {
      return 0, [], None, table.W(), 0;
    }
    order := PlanRecompilation(table, prefs, unprefs);
    planned := table.W();
    saved := SaveHalfway(table, save);
    rv, done := RebuildLoop(table, order, s.nused + s.ndefined - maxGlobals, builds, irix);
  }

  /** The globals of the target: those that are used and those that are merely defined. */
  ghost function Globals(w: World, walk: seq<nat>): nat {
    SummaryOver(w, walk, |walk|).nused + SummaryOver(w, walk, |walk|).ndefined
  }
}
