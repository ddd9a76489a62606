/** What a recompilation pass plans: the exact account of the symbols it moves between the summary's
    counters, and the intrusive list of objects to rebuild. */
module GtsPlanning {
  import opened CText
  import opened GtsWorld
  import opened GtsOrder
  import opened GtsPasses

  /** The pass changes the state of symbol i. */
  ghost predicate Flips(w: World, i: nat) {
    (WantsUnzap(w, i) || WantsZap(w, i)) && CanBuild(ObjAt(w, SymAt(w, i).obj.value))
  }

  ghost function Flipped(w: World, i: nat): Sym {
    if !Flips(w, i) then SymAt(w, i)
    else SymAt(w, i).(state := if WantsUnzap(w, i) then Defined else Zapped)
  }

  /** Recompiling changes neither what an object is nor who uses it. */
  ghost predicate SameObjects(w: World, w': World) {
    && |w'.objs| == |w.objs| && w'.srcs == w.srcs
    && forall o | 0 <= o < |w.objs| ::
         w'.objs[o].name == w.objs[o].name && w'.objs[o].source == w.objs[o].source
         && w'.objs[o].nusers == w.objs[o].nusers
  }

  const NO_PLAN := Plan(0, 0, 0, 0, 0)

  /** The recompile pass over the first k symbols of the order, from an empty list that ends at sentinel. */
  ghost function PlanRun(w: World, sentinel: nat, order: seq<nat>, k: nat): (World, Plan)
    requires k <= |order|
  {
    if k == 0 then (w, NO_PLAN.(list := sentinel))
    else RecompileStep(PlanRun(w, sentinel, order, k - 1).0, PlanRun(w, sentinel, order, k - 1).1, order[k - 1])
  }

  /** It is what walking the table with recompile_init_mappee computes. */
  lemma {:induction false} RecompileRun(w: World, sentinel: nat, order: seq<nat>, k: nat)
    requires k <= |order|
    ensures var r := PlanRun(w, sentinel, order, k);
            Run(State(w, Recompile(NO_PLAN.(list := sentinel)), false), order, k) == State(r.0, Recompile(r.1), false)
  {
    if k > 0 {
      RecompileRun(w, sentinel, order, k - 1);
    }
  }

  /** Half way through the pass: the symbols met so far have their final state, the others their old one. */
  ghost predicate Halfway(w: World, w': World, met: seq<nat>) {
    && SameObjects(w, w') && |w'.syms| == |w.syms|
    && (forall i {:trigger w'.syms[i]} | 0 <= i < |w.syms| ::
          w'.syms[i] == if i in met then Flipped(w, i) else w.syms[i])
  }

  lemma StepHalfway(w: World, w': World, p: Plan, met: seq<nat>, i: nat)
    requires Wf(w) && Halfway(w, w', met) && i < |w.syms| && i !in met
    ensures Halfway(w, RecompileStep(w', p, i).0, met + [i])
    ensures Flips(w', i) == Flips(w, i) && WantsZap(w', i) == WantsZap(w, i) && WantsUnzap(w', i) == WantsUnzap(w, i)
    ensures SymAt(w', i) == SymAt(w, i)
  {
    assert w'.syms[i] == w.syms[i];
    var s := RecompileStep(w', p, i).0;
    assert s.syms == w'.syms[i := Flipped(w, i)];
    assert SameObjects(w', s);
  }

  lemma NotMet(order: seq<nat>, k: nat)
    requires 0 < k <= |order| && Distinct(order)
    ensures order[k - 1] !in order[..k - 1] && order[..k] == order[..k - 1] + [order[k - 1]]
  {
  }

  lemma {:induction false} PlanHalfway(w: World, sentinel: nat, order: seq<nat>, k: nat)
    requires Wf(w) && Once(order, |w.syms|) && k <= |order|
    ensures Halfway(w, PlanRun(w, sentinel, order, k).0, order[..k])
  {
    if k > 0 {
      PlanHalfway(w, sentinel, order, k - 1);
      var r := PlanRun(w, sentinel, order, k - 1);
      NotMet(order, k);
      StepHalfway(w, r.0, r.1, order[..k - 1], order[k - 1]);
    }
  }

  // --- The account -------------------------------------------------------------------------------

  ghost function SummaryOver(w: World, order: seq<nat>, k: nat): Summary
    requires k <= |order|
  {
    if k == 0 then NO_SUMMARY else SummaryStep(w, SummaryOver(w, order, k - 1), order[k - 1])
  }

  /** get_summary: the summary pass computes SummaryOver and changes no symbol. */
  lemma {:induction false} SummaryRun(st: State, order: seq<nat>, k: nat)
    requires k <= |order| && st.pass == Summarize(NO_SUMMARY) && !st.stopped
    ensures Run(st, order, k) == State(st.w, Summarize(SummaryOver(st.w, order, k)), false)
  {
    if k > 0 {
      SummaryRun(st, order, k - 1);
    }
  }

  function Grand(s: Summary): nat {
    s.ndefined + s.nused + s.nundefined + s.nzapped + s.nzappedNowused + s.ninlined + s.nunlinked + s.ndeadcode
  }

  lemma {:induction false} SummaryIsTotal(w: World, order: seq<nat>, k: nat)
    requires k <= |order|
    ensures Grand(SummaryOver(w, order, k)) == k
  {
    if k > 0 {
      SummaryIsTotal(w, order, k - 1);
    }
  }

  /** What the eight counters stand for. */
  datatype Kind = Used | Unused | Unlinked | Dead | ZappedQuiet | ZappedUsed | Inlined | Unresolved

  ghost predicate IsOf(w: World, kind: Kind, i: nat) {
    var s := SymAt(w, i);
    var linked := s.obj.Some? && ObjAt(w, s.obj.value).nusers > 0;
    match kind
    case Used => s.obj.Some? && s.state == Defined && s.ngusers > 0
    case Unused => s.state == Defined && s.ngusers == 0 && linked && s.nlusers > 0
    case Dead => s.state == Defined && s.ngusers == 0 && linked && s.nlusers == 0
    case Unlinked => s.obj.Some? && s.state == Defined && s.ngusers == 0 && !linked
    case ZappedQuiet => s.obj.Some? && s.state == Zapped && s.ngusers == 0
    case ZappedUsed => s.obj.Some? && s.state == Zapped && s.ngusers > 0
    case Inlined => s.state == Inline
    case Unresolved => s.state == Undefined || (s.obj.None? && s.state != Inline)
  }

  ghost function Counter(s: Summary, kind: Kind): nat {
    match kind
    case Used => s.nused
    case Unused => s.ndefined
    case Dead => s.ndeadcode
    case Unlinked => s.nunlinked
    case ZappedQuiet => s.nzapped
    case ZappedUsed => s.nzappedNowused
    case Inlined => s.ninlined
    case Unresolved => s.nundefined
  }

  ghost function OfKind(w: World, kind: Kind): nat -> int {
    (i: nat) => if IsOf(w, kind, i) then 1 else 0
  }

  lemma {:induction false} KindRun(w: World, order: seq<nat>, k: nat, kind: Kind)
    requires k <= |order|
    ensures Counter(SummaryOver(w, order, k), kind) == Total(order[..k], OfKind(w, kind))
  {
    if k > 0 {
      KindRun(w, order, k - 1, kind);
      var i := order[k - 1];
      assert order[..k] == order[..k - 1] + [i];
      TotalAppend(order[..k - 1], [i], OfKind(w, kind));
      assert Total([i], OfKind(w, kind)) == OfKind(w, kind)(i) + Total([i][1..], OfKind(w, kind));
    }
  }

  /** Each counter is the number of symbols of its kind. */
  lemma SummaryCountsKinds(w: World, order: seq<nat>, kind: Kind)
    requires Once(order, |w.syms|)
    ensures Counter(SummaryOver(w, order, |order|), kind) == Sum(|w.syms|, OfKind(w, kind))
  {
    KindRun(w, order, |order|, kind);
    assert order[..|order|] == order;
    TotalIsSum(order, |w.syms|, OfKind(w, kind));
  }

  /** Every symbol is of exactly one kind. */
  lemma OneKind(w: World, i: nat) returns (one: Kind)
    ensures IsOf(w, one, i) && forall other :: IsOf(w, other, i) ==> other == one
  {
    var s := SymAt(w, i);
    one := if s.state == Inline then Inlined
           else if s.obj.None? || s.state == Undefined then Unresolved
           else if s.state == Zapped then (if s.ngusers > 0 then ZappedUsed else ZappedQuiet)
           else if s.ngusers > 0 then Used
           else if ObjAt(w, s.obj.value).nusers == 0 then Unlinked
           else if s.nlusers > 0 then Unused else Dead;
  }

  /** How a summary taken after the pass differs from the one taken before it. */
  ghost predicate Moved(s: Summary, s': Summary, p: Plan) {
    && s'.ndefined + p.zap == s.ndefined && s'.nzapped == s.nzapped + p.zap
    && s'.nused == s.nused + p.unzap && s'.nzappedNowused + p.unzap == s.nzappedNowused
    && s'.nundefined == s.nundefined && s'.ninlined == s.ninlined
    && s'.nunlinked == s.nunlinked && s'.ndeadcode == s.ndeadcode
  }

  lemma SummaryStepMoved(w: World, w': World, s: Summary, s': Summary, p: Plan, q: Plan, i: nat)
    requires Wf(w) && i < |w.syms|
    requires SameObjects(w, w') && SymAt(w', i) == Flipped(w, i)
    requires Moved(s, s', p) && p.wish == s.ndefined + s.nzappedNowused
    requires q.zap == p.zap + if Flips(w, i) && WantsZap(w, i) then 1 else 0
    requires q.unzap == p.unzap + if Flips(w, i) && WantsUnzap(w, i) then 1 else 0
    requires q.wish == p.wish + if WantsZap(w, i) || WantsUnzap(w, i) then 1 else 0
    ensures var t := SummaryStep(w, s, i);
            Moved(t, SummaryStep(w', s', i), q) && q.wish == t.ndefined + t.nzappedNowused
  {
  }

  lemma StepCounters(w: World, p: Plan, i: nat)
    ensures var q := RecompileStep(w, p, i).1;
            && q.zap == p.zap + (if Flips(w, i) && WantsZap(w, i) then 1 else 0)
            && q.unzap == p.unzap + (if Flips(w, i) && WantsUnzap(w, i) then 1 else 0)
            && q.wish == p.wish + (if WantsZap(w, i) || WantsUnzap(w, i) then 1 else 0)
  {
  }

  ghost predicate Accounted(w: World, end: World, order: seq<nat>, k: nat, p: Plan)
    requires k <= |order|
  {
    && p.wish == SummaryOver(w, order, k).ndefined + SummaryOver(w, order, k).nzappedNowused
    && Moved(SummaryOver(w, order, k), SummaryOver(end, order, k), p)
  }

  lemma {:induction false} AccountRun(w: World, sentinel: nat, order: seq<nat>, k: nat, end: World)
    requires Wf(w) && Once(order, |w.syms|) && k <= |order|
    requires Halfway(w, end, order)
    ensures Accounted(w, end, order, k, PlanRun(w, sentinel, order, k).1)
  {
    hide RecompileStep, SummaryStep, SameObjects, Flipped, Flips, WantsZap, WantsUnzap;
    if k > 0 {
      AccountRun(w, sentinel, order, k - 1, end);
      PlanHalfway(w, sentinel, order, k - 1);
      var r, i := PlanRun(w, sentinel, order, k - 1), order[k - 1];
      NotMet(order, k);
      StepHalfway(w, r.0, r.1, order[..k - 1], i);
      StepCounters(r.0, r.1, i);
      SummaryStepMoved(w, end, SummaryOver(w, order, k - 1), SummaryOver(end, order, k - 1),
                       r.1, RecompileStep(r.0, r.1, i).1, i);
    }
  }

  /** Run right after a summary, the recompile pass wishes for exactly the symbols counted as unused or as
      zapped but used, and a second summary differs only by the symbols it moved. */
  lemma PlanningAccount(w: World, sentinel: nat, order: seq<nat>)
    requires Wf(w) && Once(order, |w.syms|)
    ensures var (end, p) := PlanRun(w, sentinel, order, |order|);
            var s, s' := SummaryOver(w, order, |order|), SummaryOver(end, order, |order|);
            && p.wish == s.ndefined + s.nzappedNowused
            && p.zap <= s.ndefined && p.unzap <= s.nzappedNowused
            && s' == s.(ndefined := s.ndefined - p.zap, nzapped := s.nzapped + p.zap,
                        nused := s.nused + p.unzap, nzappedNowused := s.nzappedNowused - p.unzap)
            && Grand(s) == |w.syms| && Grand(s') == |end.syms| == |w.syms|
  {
    var (end, p) := PlanRun(w, sentinel, order, |order|);
    PlanHalfway(w, sentinel, order, |order|);
    assert order[..|order|] == order;
    AccountRun(w, sentinel, order, |order|, end);
    SummaryIsTotal(w, order, |order|);
    SummaryIsTotal(end, order, |order|);
    OnceLength(order, |w.syms|);
  }

  /** The symbol's owner has a name and a source. */
  ghost predicate Buildable(w: World, i: nat) {
    SymAt(w, i).obj.Some? && var o := ObjAt(w, SymAt(w, i).obj.value); o.name.Some? && o.source.Some?
  }

  /** The pass zaps the symbols that are merely defined and gives the zapped ones that are used their definition back, if
      their owners can be built; it changes no symbol otherwise. */
  lemma PlannedStates(w: World, sentinel: nat, order: seq<nat>, i: nat)
    requires Wf(w) && Once(order, |w.syms|) && i < |w.syms|
    ensures var end := PlanRun(w, sentinel, order, |order|).0;
            && |end.syms| == |w.syms|
            && end.syms[i] == if Buildable(w, i) && IsOf(w, Unused, i) then w.syms[i].(state := Zapped)
                              else if Buildable(w, i) && IsOf(w, ZappedUsed, i) then w.syms[i].(state := Defined)
                              else w.syms[i]
  {
    hide PlanRun;
    PlanHalfway(w, sentinel, order, |order|);
    assert order[..|order|] == order && i in order;
    assert PlanRun(w, sentinel, order, |order|).0.syms[i] == Flipped(w, i);
  }

  /** Symbol i of object o gets its definition back. */
  ghost function Unzapped(w: World, o: nat): nat -> int {
    (i: nat) => if Flips(w, i) && WantsUnzap(w, i) && SymAt(w, i).obj == Some(o) then 1 else 0
  }

  lemma UnzapStepCounts(w: World, p: Plan, i: nat, o: nat)
    requires o < |w.objs|
    ensures var r := RecompileStep(w, p, i).0;
            |r.objs| == |w.objs| && r.objs[o].needsUnzap == w.objs[o].needsUnzap + Unzapped(w, o)(i)
  {
  }

  lemma {:induction false} UnzapRun(w: World, sentinel: nat, order: seq<nat>, k: nat, o: nat)
    requires Wf(w) && Once(order, |w.syms|) && k <= |order| && o < |w.objs|
    ensures var r := PlanRun(w, sentinel, order, k).0;
            |r.objs| == |w.objs| && r.objs[o].needsUnzap == w.objs[o].needsUnzap + Total(order[..k], Unzapped(w, o))
  {
    if k > 0 {
      UnzapRun(w, sentinel, order, k - 1, o);
      PlanHalfway(w, sentinel, order, k - 1);
      var r, i := PlanRun(w, sentinel, order, k - 1), order[k - 1];
      NotMet(order, k);
      StepHalfway(w, r.0, r.1, order[..k - 1], i);
      UnzapStepCounts(r.0, r.1, i, o);
      TotalAppend(order[..k - 1], [i], Unzapped(w, o));
      assert Total([i], Unzapped(w, o)) == Unzapped(w, o)(i) + Total([i][1..], Unzapped(w, o));
    }
  }

  /** The pass raises each object's unzap count by the number of its symbols that get their definition back. */
  lemma UnzapsCounted(w: World, sentinel: nat, order: seq<nat>, o: nat)
    requires Wf(w) && Once(order, |w.syms|) && o < |w.objs|
    ensures var end := PlanRun(w, sentinel, order, |order|).0;
            && o < |end.objs|
            && end.objs[o].needsUnzap == w.objs[o].needsUnzap + Sum(|w.syms|, Unzapped(w, o))
  {
    UnzapRun(w, sentinel, order, |order|, o);
    assert order[..|order|] == order;
    TotalIsSum(order, |w.syms|, Unzapped(w, o));
  }

  // --- The intrusive list ------------------------------------------------------------------------

  /** The links from head through nodes lead to the sentinel, and only the nodes are linked. */
  ghost predicate ListIs(w: World, head: nat, nodes: seq<nat>, sentinel: nat) {
    && head == (if nodes == [] then sentinel else nodes[0])
    && (forall j | 0 <= j < |nodes| :: nodes[j] < |w.objs|)
    && (forall j {:trigger w.objs[nodes[j]]} | 0 <= j < |nodes| ::
          w.objs[nodes[j]].recompile == Some(if j + 1 == |nodes| then sentinel else nodes[j + 1]))
    && Distinct(nodes) && sentinel !in nodes
    && (forall o {:trigger w.objs[o]} | 0 <= o < |w.objs| && o != sentinel ::
          w.objs[o].recompile.Some? ==> o in nodes)
  }

  lemma ListAt(w: World, head: nat, nodes: seq<nat>, sentinel: nat, n: nat)
    requires ListIs(w, head, nodes, sentinel) && n <= |nodes|
    ensures head == if nodes == [] then sentinel else nodes[0]
    ensures n < |nodes| ==>
              && nodes[n] < |w.objs| && nodes[n] != sentinel
              && w.objs[nodes[n]].recompile == Some(if n + 1 == |nodes| then sentinel else nodes[n + 1])
  {
    assert n < |nodes| ==> nodes[n] in nodes;
  }

  ghost function Push(nodes: seq<nat>, o: nat): seq<nat> {
    if o in nodes then nodes else [o] + nodes
  }

  /** The objects that the first k symbols put on the list, latest first. */
  ghost function Planned(w: World, order: seq<nat>, k: nat): seq<nat>
    requires k <= |order|
  {
    if k == 0 then []
    else
      var nodes, i := Planned(w, order, k - 1), order[k - 1];
      if Flips(w, i) then Push(nodes, SymAt(w, i).obj.value) else nodes
  }

  lemma EnlistKeepsList(w: World, p: Plan, o: nat, nodes: seq<nat>, sentinel: nat)
    requires ListIs(w, p.list, nodes, sentinel) && o < |w.objs| && o != sentinel
    requires p.count == |nodes|
    ensures var e := Enlist(w, p, o);
            ListIs(e.0, e.1.list, Push(nodes, o), sentinel) && e.1.count == |Push(nodes, o)|
  {
    if o !in nodes {
      HeadKeepsList(w, p.list, o, nodes, sentinel);
    } else {
      var j :| 0 <= j < |nodes| && nodes[j] == o;
      assert w.objs[nodes[j]].recompile.Some?;
    }
  }

  /** An object that is not on the list can be put at its head. */
  lemma HeadKeepsList(w: World, head: nat, o: nat, nodes: seq<nat>, sentinel: nat)
    requires ListIs(w, head, nodes, sentinel) && o < |w.objs| && o != sentinel && o !in nodes
    ensures ListIs(PutObj(w, o, w.objs[o].(recompile := Some(head))), o, [o] + nodes, sentinel)
  {
    var v, nodes' := PutObj(w, o, w.objs[o].(recompile := Some(head))), [o] + nodes;
    forall j {:trigger nodes'[j]} | 0 <= j < |nodes'|
      ensures nodes'[j] < |w.objs| &&
              v.objs[nodes'[j]].recompile == Some(if j + 1 == |nodes'| then sentinel else nodes'[j + 1])
    {
      if j > 0 {
        assert nodes'[j] == nodes[j - 1] && w.objs[nodes[j - 1]].recompile.Some?;
        assert nodes[j - 1] != o;
      }
    }
    forall x {:trigger v.objs[x]} | 0 <= x < |v.objs| && x != sentinel && v.objs[x].recompile.Some?
      ensures x in nodes'
    {
      assert x != o ==> v.objs[x] == w.objs[x];
    }
  }

  lemma SameLinksKeepList(w: World, w': World, head: nat, nodes: seq<nat>, sentinel: nat)
    requires ListIs(w, head, nodes, sentinel) && |w'.objs| == |w.objs|
    requires forall o | 0 <= o < |w.objs| :: w'.objs[o].recompile == w.objs[o].recompile
    ensures ListIs(w', head, nodes, sentinel)
  {
  }

  lemma FlipKeepsList(w: World, p: Plan, i: nat, o: nat, state: SymState, nodes: seq<nat>, sentinel: nat)
    requires ListIs(w, p.list, nodes, sentinel) && o < |w.objs| && o != sentinel && p.count == |nodes|
    ensures var e := Enlist(SetState(w, i, state), p, o);
            && ListIs(e.0, e.1.list, Push(nodes, o), sentinel)
            && ListIs(AddUnzap(e.0, o), e.1.list, Push(nodes, o), sentinel)
            && e.1.count == |Push(nodes, o)|
  {
    var w1 := SetState(w, i, state);
    SameLinksKeepList(w, w1, p.list, nodes, sentinel);
    EnlistKeepsList(w1, p, o, nodes, sentinel);
    var e := Enlist(w1, p, o);
    SameLinksKeepList(e.0, AddUnzap(e.0, o), e.1.list, Push(nodes, o), sentinel);
  }

  lemma StepKeepsList(w: World, p: Plan, i: nat, o: nat, nodes: seq<nat>, sentinel: nat)
    requires ListIs(w, p.list, nodes, sentinel) && p.count == |nodes|
    requires Flips(w, i) ==> SymAt(w, i).obj == Some(o) && o < |w.objs| && o != sentinel
    ensures var q := RecompileStep(w, p, i);
            var nodes' := if Flips(w, i) then Push(nodes, o) else nodes;
            ListIs(q.0, q.1.list, nodes', sentinel) && q.1.count == |nodes'|
  {
    if Flips(w, i) {
      FlipKeepsList(w, p, i, o, if WantsUnzap(w, i) then Defined else Zapped, nodes, sentinel);
    }
  }

  /** Before the pass no object is linked, and no symbol points at the sentinel. */
  ghost predicate ListStart(w: World, sentinel: nat) {
    && Wf(w) && sentinel < |w.objs|
    && (forall i | 0 <= i < |w.syms| :: w.syms[i].obj != Some(sentinel))
    && (forall o | 0 <= o < |w.objs| :: w.objs[o].recompile == None)
  }

  lemma ListStep(w: World, w': World, p: Plan, met: seq<nat>, i: nat, nodes: seq<nat>, sentinel: nat)
    requires ListStart(w, sentinel) && Halfway(w, w', met) && i < |w.syms| && i !in met
    requires ListIs(w', p.list, nodes, sentinel) && p.count == |nodes|
    ensures var q := RecompileStep(w', p, i);
            var nodes' := if Flips(w, i) then Push(nodes, SymAt(w, i).obj.value) else nodes;
            ListIs(q.0, q.1.list, nodes', sentinel) && q.1.count == |nodes'|
  {
    StepHalfway(w, w', p, met, i);
    StepKeepsList(w', p, i, if w.syms[i].obj.Some? then w.syms[i].obj.value else sentinel, nodes, sentinel);
  }

  /** At every moment of the pass the links form an acyclic list that ends at the sentinel. */
  lemma {:induction false} ListRun(w: World, sentinel: nat, order: seq<nat>, k: nat)
    requires ListStart(w, sentinel) && Once(order, |w.syms|) && k <= |order|
    ensures var r := PlanRun(w, sentinel, order, k);
            var nodes := Planned(w, order, k);
            ListIs(r.0, r.1.list, nodes, sentinel) && r.1.count == |nodes|
  {
    if k > 0 {
      ListRun(w, sentinel, order, k - 1);
      PlanHalfway(w, sentinel, order, k - 1);
      var r := PlanRun(w, sentinel, order, k - 1);
      NotMet(order, k);
      ListStep(w, r.0, r.1, order[..k - 1], order[k - 1], Planned(w, order, k - 1), sentinel);
    }
  }

  lemma {:induction false} PlannedMembers(w: World, order: seq<nat>, k: nat, o: nat)
    requires k <= |order|
    ensures o in Planned(w, order, k)
            <==> exists x :: 0 <= x < k && Flips(w, order[x]) && SymAt(w, order[x]).obj == Some(o)
  {
    if k > 0 {
      PlannedMembers(w, order, k - 1, o);
    }
  }

  /** Symbol i belongs to object o and the pass changed its state. */
  ghost predicate Changed(w: World, w': World, o: nat, i: nat) {
    SymAt(w, i).obj == Some(o) && SymAt(w', i).state != SymAt(w, i).state
  }

  /** The list holds, once each, exactly the buildable objects that own a symbol whose state changed. */
  lemma PlannedObjects(w: World, sentinel: nat, order: seq<nat>)
    requires ListStart(w, sentinel) && Once(order, |w.syms|)
    ensures var (end, p) := PlanRun(w, sentinel, order, |order|);
            var nodes := Planned(w, order, |order|);
            && ListIs(end, p.list, nodes, sentinel)
            && p.count == |nodes|
            && (forall o: nat :: o in nodes <==>
                  ObjAt(w, o).name.Some? && ObjAt(w, o).source.Some? && exists i: nat :: Changed(w, end, o, i))
  {
    var (end, p) := PlanRun(w, sentinel, order, |order|);
    ListRun(w, sentinel, order, |order|);
    PlanHalfway(w, sentinel, order, |order|);
    assert order[..|order|] == order;
    forall o: nat
      ensures o in Planned(w, order, |order|) <==>
                CanBuild(ObjAt(w, o)) && exists i: nat :: Changed(w, end, o, i)
    {
      PlannedOwner(w, end, order, o);
    }
  }

  lemma PlannedOwner(w: World, end: World, order: seq<nat>, o: nat)
    requires Wf(w) && Once(order, |w.syms|) && Halfway(w, end, order)
    ensures o in Planned(w, order, |order|) <==>
              CanBuild(ObjAt(w, o)) && exists i: nat :: Changed(w, end, o, i)
  {
    PlannedMembers(w, order, |order|, o);
    if o in Planned(w, order, |order|) {
      var x :| 0 <= x < |order| && Flips(w, order[x]) && SymAt(w, order[x]).obj == Some(o);
      assert order[x] in order;
      assert Changed(w, end, o, order[x]);
    } else {
      forall i: nat ensures !Changed(w, end, o, i) || !CanBuild(ObjAt(w, o)) {
        if i < |w.syms| && SymAt(w, i).obj == Some(o) {
          assert i in order;
          var x :| 0 <= x < |order| && order[x] == i;
          assert !Flips(w, order[x]);
          assert end.syms[i] == Flipped(w, i);
        }
      }
    }
  }
}
