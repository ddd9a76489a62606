/** The callbacks that EhSymTableMap applies to every symbol, and what a whole pass of each leaves behind. */
module GtsPasses {
  import opened CText
  import opened GtsWorld
  import opened GtsOrder

  datatype Summary = Summary(ndefined: nat, nused: nat, nundefined: nat, nzapped: nat,
                             nzappedNowused: nat, ninlined: nat, nunlinked: nat, ndeadcode: nat)

  const NO_SUMMARY := Summary(0, 0, 0, 0, 0, 0, 0, 0)

  /** The recompilation plan: the head of the intrusive list and four counters. */
  datatype Plan = Plan(list: nat, count: nat, wish: nat, unzap: nat, zap: nat)

  /** A callback together with the argument block it updates. Probe stands for any other callback:
      it notes the symbol and returns -1 on the names stop accepts. */
  datatype Pass =
    | Fixup(oOld: nat, oNew: nat)
    | Flush(vector: Option<seq<nat>>, index: nat)
    | Summarize(sums: Summary)
    | CountUsers
    | Recompile(plan: Plan)
    | Probe(stop: string -> bool, visited: seq<nat>)

  datatype State = State(w: World, pass: Pass, stopped: bool)

  predicate IsFlushed(s: Sym) {
    s.state == Inline || IsDefined(s) || IsZapped(s)
  }

  function SummaryStep(w: World, s: Summary, i: nat): Summary {
    var sym := SymAt(w, i);
    if IsDefined(sym) then
      if sym.ngusers != 0 then s.(nused := s.nused + 1)
      else if ObjAt(w, sym.obj.value).nusers == 0 then s.(nunlinked := s.nunlinked + 1)
      else if sym.nlusers != 0 then s.(ndefined := s.ndefined + 1)
      else s.(ndeadcode := s.ndeadcode + 1)
    else if IsZapped(sym) then
      if sym.ngusers != 0 then s.(nzappedNowused := s.nzappedNowused + 1)
      else s.(nzapped := s.nzapped + 1)
    else if sym.state == Inline then s.(ninlined := s.ninlined + 1)
    else s.(nundefined := s.nundefined + 1)
  }

  function AddUsers(w: World, o: nat, n: nat): World {
    PutObj(w, o, ObjAt(w, o).(nusers := ObjAt(w, o).nusers + n))
  }

  function CountUsersStep(w: World, i: nat): World {
    var sym := SymAt(w, i);
    if sym.obj.None? then w else AddUsers(w, sym.obj.value, sym.ngusers)
  }

  /** Puts o at the head of the recompile list unless its link shows it is already on it. */
  function Enlist(w: World, p: Plan, o: nat): (World, Plan) {
    if ObjAt(w, o).recompile.Some? then (w, p)
    else (PutObj(w, o, ObjAt(w, o).(recompile := Some(p.list))), Plan(o, p.count + 1, p.wish, p.unzap, p.zap))
  }

  predicate WantsUnzap(w: World, i: nat) {
    IsZapped(SymAt(w, i)) && SymAt(w, i).ngusers != 0
  }

  predicate WantsZap(w: World, i: nat) {
    var sym := SymAt(w, i);
    IsDefined(sym) && sym.ngusers == 0 && sym.nlusers != 0 && ObjAt(w, sym.obj.value).nusers != 0
  }

  function AddUnzap(w: World, o: nat): World {
    PutObj(w, o, ObjAt(w, o).(needsUnzap := ObjAt(w, o).needsUnzap + 1))
  }

  function UnzapStep(w: World, p: Plan, i: nat, o: nat): (World, Plan) {
    if CanBuild(ObjAt(w, o)) then
      var e := Enlist(SetState(w, i, Defined), p, o);
      (AddUnzap(e.0, o), Plan(e.1.list, e.1.count, e.1.wish + 1, e.1.unzap + 1, e.1.zap))
    else (w, Plan(p.list, p.count, p.wish + 1, p.unzap, p.zap))
  }

  function ZapStep(w: World, p: Plan, i: nat, o: nat): (World, Plan) {
    if CanBuild(ObjAt(w, o)) then
      var e := Enlist(SetState(w, i, Zapped), p, o);
      (e.0, Plan(e.1.list, e.1.count, e.1.wish + 1, e.1.unzap, e.1.zap + 1))
    else (w, Plan(p.list, p.count, p.wish + 1, p.unzap, p.zap))
  }

  function RecompileStep(w: World, p: Plan, i: nat): (World, Plan) {
    if WantsUnzap(w, i) then UnzapStep(w, p, i, SymAt(w, i).obj.value)
    else if WantsZap(w, i) then ZapStep(w, p, i, SymAt(w, i).obj.value)
    else (w, p)
  }

  /** One callback on symbol i; nothing happens once a callback has returned -1. */
  function Step(st: State, i: nat): State {
    if st.stopped then st
    else match st.pass
      case Fixup(oOld, oNew) => st.(w := PutSym(st.w, i, Redirect(SymAt(st.w, i), oOld, oNew)))
      case Flush(vector, index) =>
        if !IsFlushed(SymAt(st.w, i)) then st
        else st.(pass := Flush(if vector.None? then None else Some(vector.value + [i]), index + 1))
      case Summarize(sums) => st.(pass := Summarize(SummaryStep(st.w, sums, i)))
      case CountUsers => st.(w := CountUsersStep(st.w, i))
      case Recompile(plan) =>
        var (w, p) := RecompileStep(st.w, plan, i);
        State(w, Recompile(p), false)
      case Probe(stop, visited) =>
        State(st.w, Probe(stop, visited + [i]), stop(SymAt(st.w, i).name))
  }

  /** The state after the first k symbols of the order. */
  ghost function Run(st: State, order: seq<nat>, k: nat): State
    requires k <= |order|
  {
    if k == 0 then st else Step(Run(st, order, k - 1), order[k - 1])
  }

  /** The same walk, told from the symbol it is at. */
  ghost function Walk(st: State, order: seq<nat>): State
    decreases |order|
  {
    if order == [] then st else Walk(Step(st, order[0]), order[1..])
  }

  lemma {:induction false} WalkIsRun(st: State, order: seq<nat>, k: nat)
    requires k <= |order|
    ensures Walk(Run(st, order, k), order[k..]) == Run(st, order, |order|)
    decreases |order| - k
  {
    if k < |order| {
      WalkIsRun(st, order, k + 1);
      assert order[k..][1..] == order[k + 1..];
    }
  }

  lemma WalkStarts(st: State, bk: seq<nat>, size: nat)
    ensures Walk(st, WalkFrom(bk, size, 0)) == Run(st, WalkOrder(bk, size), |WalkOrder(bk, size)|)
  {
    WalkIsRun(st, WalkOrder(bk, size), 0);
    assert WalkOrder(bk, size)[0..] == WalkOrder(bk, size);
  }

  lemma WalkedAll(st: State, bk: seq<nat>, size: nat)
    ensures Walk(st, WalkFrom(bk, size, size)) == st
  {
  }

  /** After a callback has returned -1 the rest of the order changes nothing. */
  lemma {:induction false} WalkStopped(st: State, order: seq<nat>)
    requires st.stopped
    ensures Walk(st, order) == st
    decreases |order|
  {
    if order != [] {
      WalkStopped(st, order[1..]);
    }
  }

  lemma {:induction false} ProbeRun(st: State, order: seq<nat>, k: nat)
    requires k <= |order| && st.pass.Probe? && st.pass.visited == [] && !st.stopped
    requires forall x | 0 <= x < k :: !st.pass.stop(SymAt(st.w, order[x]).name)
    ensures Run(st, order, k) == State(st.w, Probe(st.pass.stop, order[..k]), false)
  {
    if k > 0 {
      ProbeRun(st, order, k - 1);
      assert order[..k] == order[..k - 1] + [order[k - 1]];
    }
  }

  /** A table walk hands every symbol to the callback exactly once unless a callback returns -1. */
  lemma MapVisitsEachOnce(st: State, bk: seq<nat>, size: nat)
    requires st.pass.Probe? && st.pass.visited == [] && !st.stopped
    requires |bk| == |st.w.syms| && forall i | 0 <= i < |bk| :: bk[i] < size
    requires forall i | 0 <= i < |st.w.syms| :: !st.pass.stop(st.w.syms[i].name)
    ensures |WalkOrder(bk, size)| == |bk|
    ensures var r := Run(st, WalkOrder(bk, size), |bk|);
            !r.stopped && r.w == st.w && r.pass.Probe? && Once(r.pass.visited, |st.w.syms|)
  {
    var order := WalkOrder(bk, size);
    WalkMeetsEachOnce(bk, size);
    ProbeRun(st, order, |order|);
    assert order[..|order|] == order;
  }

  lemma {:induction false} FixupRun(st: State, order: seq<nat>, k: nat)
    requires k <= |order| && st.pass.Fixup? && !st.stopped
    ensures var r := Run(st, order, k);
            && r == st.(w := st.w.(syms := r.w.syms)) && |r.w.syms| == |st.w.syms|
            && forall i | 0 <= i < |st.w.syms| ::
                 r.w.syms[i] == if i in order[..k] then Redirect(st.w.syms[i], st.pass.oOld, st.pass.oNew)
                                else st.w.syms[i]
  {
    if k > 0 {
      FixupRun(st, order, k - 1);
      assert order[..k] == order[..k - 1] + [order[k - 1]];
    }
  }

  /** The fix-up pass redirects every symbol of the table, whatever order the buckets are walked in. */
  lemma FixupPass(st: State, order: seq<nat>)
    requires Once(order, |st.w.syms|) && st.pass.Fixup? && !st.stopped
    ensures Run(st, order, |order|) == st.(w := FixupAll(st.w, st.pass.oOld, st.pass.oNew))
  {
    FixupRun(st, order, |order|);
    assert order[..|order|] == order;
    assert Run(st, order, |order|).w.syms == RedirectAll(st.w.syms, st.pass.oOld, st.pass.oNew);
  }
}
