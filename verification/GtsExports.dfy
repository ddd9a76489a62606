/** What a pass over assembler does to the symbol of one name, told from the table before the pass and the file's
    directives alone. */
module GtsExports {
  import opened CText
  import opened GtsWorld
  import opened GtsZap
  import opened GtsOwn

  predicate Exports(d: Directive, name: string) {
    d.Global? && d.name == name
  }

  predicate Exported(ds: seq<Directive>, k: nat, name: string)
    requires k <= |ds|
  {
    exists x :: 0 <= x < k && Exports(ds[x], name)
  }

  /** Directive x exports from an included C++ file. */
  predicate Included(env: Env, ds: seq<Directive>, x: nat)
    requires x <= |ds|
  {
    env.cplusplus && !Own(env.name, true, ds, x)
  }

  /** One of the first k directives exports the name from an included C++ file. */
  predicate MadeInline(env: Env, ds: seq<Directive>, k: nat, name: string)
    requires k <= |ds|
  {
    exists x :: 0 <= x < k && Exports(ds[x], name) && Included(env, ds, x)
  }

  /** The first of them that exports the name does not do so from an included C++ file. */
  predicate MadeReal(env: Env, ds: seq<Directive>, k: nat, name: string)
    requires k <= |ds|
  {
    exists x :: 0 <= x < k && Exports(ds[x], name) && !Included(env, ds, x) && !Exported(ds, x, name)
  }

  // --- One more directive ------------------------------------------------------------------------

  lemma ExportedMore(ds: seq<Directive>, k: nat, name: string)
    requires k < |ds|
    ensures Exported(ds, k + 1, name) <==> Exported(ds, k, name) || Exports(ds[k], name)
  {
  }

  lemma MadeInlineMore(env: Env, ds: seq<Directive>, k: nat, name: string)
    requires k < |ds|
    ensures MadeInline(env, ds, k + 1, name)
            <==> MadeInline(env, ds, k, name) || (Exports(ds[k], name) && Included(env, ds, k))
  {
    hide Included;
  }

  lemma MadeRealMore(env: Env, ds: seq<Directive>, k: nat, name: string)
    requires k < |ds|
    ensures MadeReal(env, ds, k + 1, name)
            <==> MadeReal(env, ds, k, name)
                 || (Exports(ds[k], name) && !Included(env, ds, k) && !Exported(ds, k, name))
  {
    hide Included, Exported;
  }

  /** A name that is exported is made real or made inline first. */
  lemma {:induction false} RealOrInline(env: Env, ds: seq<Directive>, k: nat, name: string)
    requires k <= |ds|
    ensures Exported(ds, k, name) <==> MadeReal(env, ds, k, name) || MadeInline(env, ds, k, name)
  {
    hide Included, Exported, MadeReal, MadeInline;
    if k > 0 {
      RealOrInline(env, ds, k - 1, name);
      ExportedMore(ds, k - 1, name);
      MadeInlineMore(env, ds, k - 1, name);
      MadeRealMore(env, ds, k - 1, name);
    } else {
      NothingExported(env, ds, name);
    }
  }

  lemma NothingExported(env: Env, ds: seq<Directive>, name: string)
    ensures !Exported(ds, 0, name) && !MadeReal(env, ds, 0, name) && !MadeInline(env, ds, 0, name)
  {
  }

  // --- The symbol of a name ----------------------------------------------------------------------

  /** What is known of the symbol of a name: its place, its state, and whether it has an object. */
  datatype Entry = Absent | Present(place: nat, state: SymState, owned: bool)

  function EntryOf(w: World, name: string): Entry {
    var s := Find(w.syms, name);
    if s < 0 then Absent else Present(s, SymAt(w, s).state, SymAt(w, s).obj.Some?)
  }

  lemma NewEntry(w: World, s: Sym, name: string)
    requires Find(w.syms, s.name) < 0
    ensures EntryOf(Insert(w, s), name)
            == if s.name == name then Present(|w.syms|, s.state, s.obj.Some?) else EntryOf(w, name)
  {
    FindAfterInsert(w.syms, s, name);
  }

  /** Making a symbol inline changes its own entry only. */
  lemma InlineEntry(w: World, name: string, other: string)
    ensures var before, after := EntryOf(w, other), EntryOf(MakeInline(w, name), other);
            after == if name != other then before
                     else if before.Absent? then Present(|w.syms|, Inline, false)
                     else before.(state := Inline)
  {
    var s := Find(w.syms, name);
    if s < 0 {
      NewEntry(w, NewSym(name, None, Inline), other);
    } else {
      var v := MakeInline(w, name);
      FindSameNames(w.syms, v.syms, other);
    }
  }

  /** A real global changes its own entry only: it has an object afterwards. */
  lemma JoinEntry(src: nat, w: World, cur: nat, name: string, other: string)
    ensures var before, after := EntryOf(w, other), EntryOf(Join(src, w, cur, name).0, other);
            after == if name != other then before
                     else if before.Absent? then Present(|w.syms|, Defined, true)
                     else before.(owned := true)
  {
    var s, v := Find(w.syms, name), Join(src, w, cur, name).0;
    if s < 0 {
      NewEntry(w, NewSym(name, Some(cur), Defined), other);
    } else {
      hide Join;
      JoinKnown(src, w, cur, name);
      FindSameNames(w.syms, v.syms, other);
    }
  }

  lemma JoinKnown(src: nat, w: World, cur: nat, name: string)
    requires Find(w.syms, name) >= 0
    ensures var v := Join(src, w, cur, name).0;
            && |v.syms| == |w.syms|
            && forall i | 0 <= i < |w.syms| ::
                 && v.syms[i].name == w.syms[i].name && v.syms[i].state == w.syms[i].state
                 && v.syms[i].obj.Some? == (i == Find(w.syms, name) || w.syms[i].obj.Some?)
  {
  }

  /** The entry of a name after the first k directives. */
  ghost function EntryAfter(env: Env, w: World, ds: seq<Directive>, k: nat, name: string): Entry
    requires k <= |ds|
  {
    EntryOf(LinesRun(env, Start(w, env.src), ds, k).w, name)
  }

  lemma EntryStep(env: Env, st: Pass, d: Directive, name: string)
    ensures var before, after := EntryOf(st.w, name), EntryOf(LineStep(env, st, d).w, name);
            var inline := (!st.own && env.cplusplus) || (before.Present? && before.state == Inline);
            if !Exports(d, name) then after == before
            else if inline then after.Present? && after.state == Inline
                                && (before.Present? ==> after.place == before.place && after.owned == before.owned)
                                && (before.Absent? ==> after.place == |st.w.syms| && !after.owned)
            else after.Present? && after.owned
                 && (before.Present? ==> after.place == before.place && after.state == before.state)
                 && (before.Absent? ==> after.place == |st.w.syms| && after.state == Defined)
  {
    if d.Global? {
      if TreatInline(env, st, d.name) {
        InlineEntry(st.w, d.name, name);
      } else {
        JoinEntry(env.src, st.w, st.cur, d.name, name);
      }
    }
  }

  lemma LineGrows(env: Env, st: Pass, d: Directive)
    ensures |st.w.syms| <= |LineStep(env, st, d).w.syms|
  {
    hide Find;
  }

  lemma {:induction false} TableGrows(env: Env, st: Pass, ds: seq<Directive>, j: nat, k: nat)
    requires j <= k <= |ds|
    ensures |LinesRun(env, st, ds, j).w.syms| <= |LinesRun(env, st, ds, k).w.syms|
    decreases k
  {
    hide LineStep;
    if j < k {
      TableGrows(env, st, ds, j, k - 1);
      LineGrows(env, LinesRun(env, st, ds, k - 1), ds[k - 1]);
    }
  }

  /** The name is inline after k directives exactly when it was before or was exported from an included C++ file;
      otherwise it has the state it had, and an object exactly when it had one or was exported. */
  lemma {:induction false} NameRun(env: Env, w: World, ds: seq<Directive>, k: nat, name: string)
    requires k <= |ds|
    ensures var before, after := EntryOf(w, name), EntryAfter(env, w, ds, k, name);
            var inline := IsInline(w, name) || MadeInline(env, ds, k, name);
            && (after.Absent? <==> before.Absent? && !Exported(ds, k, name))
            && (after.Present? ==>
                  && (if before.Present? then after.place == before.place else after.place >= |w.syms|)
                  && after.state == (if inline then Inline else if before.Present? then before.state else Defined)
                  && (after.owned <==> (before.Present? && before.owned)
                                       || (!IsInline(w, name) && MadeReal(env, ds, k, name))))
  {
    hide Included, Exported, MadeReal, MadeInline, LineStep;
    var st := Start(w, env.src);
    if k > 0 {
      NameRun(env, w, ds, k - 1, name);
      ExportedMore(ds, k - 1, name);
      MadeInlineMore(env, ds, k - 1, name);
      MadeRealMore(env, ds, k - 1, name);
      RealOrInline(env, ds, k - 1, name);
      OwnRun(env, st, ds, k - 1);
      IncludedIs(env, ds, k - 1);
      TableGrows(env, st, ds, 0, k - 1);
      EntryStep(env, LinesRun(env, st, ds, k - 1), ds[k - 1], name);
    } else {
      NothingExported(env, ds, name);
    }
  }

  lemma IncludedIs(env: Env, ds: seq<Directive>, x: nat)
    requires x <= |ds|
    ensures Included(env, ds, x) == (env.cplusplus && !Own(env.name, true, ds, x))
  {
  }

  // --- Which exports are real globals ------------------------------------------------------------

  /** The file exports the name as a real global. */
  predicate RealExport(env: Env, w: World, ds: seq<Directive>, k: nat, name: string)
    requires k <= |ds|
  {
    !IsInline(w, name) && MadeReal(env, ds, k, name)
  }

  /** Directive k is treated as an inline's exactly when the name was inline before or an export up to here lies
      in an included C++ file. */
  lemma TreatedInline(env: Env, w: World, ds: seq<Directive>, k: nat)
    requires k < |ds| && ds[k].Global?
    ensures TreatInline(env, LinesRun(env, Start(w, env.src), ds, k), ds[k].name)
            <==> IsInline(w, ds[k].name) || MadeInline(env, ds, k + 1, ds[k].name)
  {
    hide LinesRun, Included, MadeInline, MadeReal, Exported;
    NameRun(env, w, ds, k, ds[k].name);
    MadeInlineMore(env, ds, k, ds[k].name);
    OwnRun(env, Start(w, env.src), ds, k);
    IncludedIs(env, ds, k);
    InlineAbsent(env, w, ds, k, ds[k].name);
  }

  lemma InlineAbsent(env: Env, w: World, ds: seq<Directive>, k: nat, name: string)
    requires k <= |ds|
    ensures IsInline(w, name) ==> EntryOf(w, name).Present?
    ensures MadeInline(env, ds, k, name) ==> Exported(ds, k, name)
  {
  }

  /** An export that is not treated as an inline's is, or follows, the first one, which makes the name real. */
  lemma RealMore(env: Env, ds: seq<Directive>, k: nat, name: string)
    requires k < |ds|
    ensures MadeReal(env, ds, k + 1, name)
            <==> MadeReal(env, ds, k, name) || (Exports(ds[k], name) && !MadeInline(env, ds, k + 1, name))
  {
    hide Included, Exported, MadeReal, MadeInline;
    MadeInlineMore(env, ds, k, name);
    MadeRealMore(env, ds, k, name);
    RealOrInline(env, ds, k, name);
  }

  lemma SlotIs(env: Env, w: World, ds: seq<Directive>, k: nat, name: string, i: nat)
    requires k <= |ds| && i < |w.syms|
    ensures Slot(LinesRun(env, Start(w, env.src), ds, k).w, name) == i <==> Find(w.syms, name) == i
  {
    hide LinesRun, Included, MadeInline, MadeReal, Exported;
    NameRun(env, w, ds, k, name);
    TableGrows(env, Start(w, env.src), ds, 0, k);
    NothingRead(env, w, ds);
  }

  /** The pass gathers an old symbol exactly when it is the one of its name and the file exports the name as a real
      global: the name is not inline, and no export up to the first lies in an included C++ file. */
  lemma {:induction false} GatheredExactly(env: Env, w: World, ds: seq<Directive>, k: nat, i: nat)
    requires k <= |ds| && i < |w.syms|
    ensures i in Gathered(env, Start(w, env.src), ds, k)
            <==> Find(w.syms, w.syms[i].name) == i && RealExport(env, w, ds, k, w.syms[i].name)
  {
    hide LinesRun, Included, MadeInline, MadeReal, Exported, TreatInline;
    var name := w.syms[i].name;
    if k > 0 {
      GatheredExactly(env, w, ds, k - 1, i);
      RealMore(env, ds, k - 1, name);
      if ds[k - 1].Global? {
        var d := ds[k - 1];
        TreatedInline(env, w, ds, k - 1);
        SlotIs(env, w, ds, k - 1, d.name, i);
      }
    } else {
      NothingExported(env, ds, name);
    }
  }

  lemma NothingRead(env: Env, w: World, ds: seq<Directive>)
    ensures LinesRun(env, Start(w, env.src), ds, 0).w.syms == w.syms
  {
  }

  /** It gathers nothing exactly when the file exports no name as a real global. */
  lemma {:induction false} GatheredNothing(env: Env, w: World, ds: seq<Directive>, k: nat)
    requires k <= |ds|
    ensures Gathered(env, Start(w, env.src), ds, k) == [] <==> forall name: string :: !RealExport(env, w, ds, k, name)
  {
    hide LinesRun, Included, MadeInline, MadeReal, Exported;
    if k > 0 {
      GatheredNothing(env, w, ds, k - 1);
      forall name: string
        ensures RealExport(env, w, ds, k, name)
                <==> RealExport(env, w, ds, k - 1, name)
                     || (Exports(ds[k - 1], name) && !IsInline(w, name) && !MadeInline(env, ds, k, name))
      {
        RealMore(env, ds, k - 1, name);
      }
      if ds[k - 1].Global? {
        TreatedInline(env, w, ds, k - 1);
        assert Exports(ds[k - 1], ds[k - 1].name);
      }
    } else {
      forall name: string ensures !RealExport(env, w, ds, k, name) {
        NothingExported(env, ds, name);
      }
    }
  }
}
