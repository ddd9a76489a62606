/** What reading an object file does to each symbol: who refers to it, who owns it, and when a record of the data base
    hands its source and its symbols over to the file. All is told from the table before and the file alone. */
module GtsOwners {
  import opened CText
  import opened GtsWorld
  import opened GtsUsers

  // --- Relocations -------------------------------------------------------------------------------

  ghost function Mentions(table: seq<nat>, i: nat): set<nat> {
    set j: nat | j < |table| && table[j] == i
  }

  lemma {:induction false} RefsCount(table: seq<nat>, i: nat)
    ensures Refs(table, i) == |Mentions(table, i)|
    decreases |table|
  {
    if table == [] {
      assert Mentions(table, i) == {};
    } else {
      var n := |table| - 1;
      RefsCount(table[..n], i);
      assert Mentions(table, i) == Mentions(table[..n], i) + if table[n] == i then {n} else {};
    }
  }

  /** The relocations that name symbol i: number j of table k. */
  ghost function AllMentions(tables: seq<seq<nat>>, i: nat): set<(nat, nat)> {
    set k: nat, j: nat | k < |tables| && j < |tables[k]| && tables[k][j] == i :: (k, j)
  }

  ghost function At(k: nat, js: set<nat>): set<(nat, nat)> {
    set j: nat | j in js :: (k, j)
  }

  lemma {:induction false} AtCount(k: nat, js: set<nat>)
    ensures |At(k, js)| == |js|
    decreases js
  {
    if j :| j in js {
      AtCount(k, js - {j});
      assert At(k, js) == At(k, js - {j}) + {(k, j)};
    } else {
      assert At(k, js) == {};
    }
  }

  /** A symbol is counted once for each relocation of each table that names it. */
  lemma {:induction false} AllRefsCount(tables: seq<seq<nat>>, i: nat)
    ensures AllRefs(tables, i) == |AllMentions(tables, i)|
    decreases |tables|
  {
    if tables == [] {
      assert AllMentions(tables, i) == {};
    } else {
      var n := |tables| - 1;
      AllRefsCount(tables[..n], i);
      RefsCount(tables[n], i);
      AtCount(n, Mentions(tables[n], i));
      assert AllMentions(tables, i) == AllMentions(tables[..n], i) + At(n, Mentions(tables[n], i));
    }
  }

  // --- The symbol of a name ----------------------------------------------------------------------

  /** What is known of the symbol of a name. */
  datatype Known = Unknown | Known(place: nat, state: SymState, ngusers: nat, nlusers: nat)

  ghost function KnownOf(w: World, name: string): Known {
    var s := Find(w.syms, name);
    if s < 0 then Unknown else Known(s, SymAt(w, s).state, SymAt(w, s).ngusers, SymAt(w, s).nlusers)
  }

  lemma InsertKnown(w: World, s: Sym, name: string)
    requires Find(w.syms, s.name) < 0
    ensures KnownOf(Insert(w, s), name)
            == if s.name == name then Known(|w.syms|, s.state, s.ngusers, s.nlusers) else KnownOf(w, name)
  {
    FindAfterInsert(w.syms, s, name);
  }

  lemma PutKnown(w: World, i: nat, s: Sym, name: string)
    requires i == Find(w.syms, s.name)
    ensures KnownOf(PutSym(w, i, s), name)
            == if s.name == name then Known(i, s.state, s.ngusers, s.nlusers) else KnownOf(w, name)
  {
    FindSameNames(w.syms, PutSym(w, i, s).syms, name);
  }

  lemma ClaimKnown(w: World, s: nat, o: nat, name: string)
    ensures KnownOf(Claim(w, s, o), name) == KnownOf(w, name)
    ensures s < |w.syms| ==> SymAt(Claim(w, s, o), s).name == w.syms[s].name
    ensures |Claim(w, s, o).syms| == |w.syms|
  {
    ClaimChangesOwners(w, s, o);
    FindSameNames(w.syms, Claim(w, s, o).syms, name);
  }

  lemma EstablishKnown(w: World, o: nat, name: string, other: string)
    ensures var before, after := KnownOf(w, other), KnownOf(Establish(w, o, name), other);
            after == if name != other then before
                     else if before.Unknown? then Known(|w.syms|, Defined, 0, 0) else before.(state := Defined)
  {
    hide Claim;
    var s := Find(w.syms, name);
    if s >= 0 {
      var v := Claim(w, s, o);
      ClaimKnown(w, s, o, name);
      ClaimKnown(w, s, o, other);
      PutKnown(v, s, SymAt(v, s).(state := Defined), other);
    } else {
      InsertKnown(w, NewSym(name, Some(o), Defined), other);
    }
  }

  lemma DefineKnown(w: World, o: nat, name: string, refs: nat, other: string)
    ensures var before, after := KnownOf(w, other), KnownOf(Define(w, o, name, refs), other);
            after == if name != other then before
                     else if before.Unknown? then Known(|w.syms|, Defined, 0, refs)
                     else before.(state := Defined, nlusers := before.nlusers + refs)
  {
    hide Establish;
    EstablishKnown(w, o, name, name);
    EstablishKnown(w, o, name, other);
    var u, i := Establish(w, o, name), Slot(w, name);
    assert Find(u.syms, name) == i;
    PutKnown(u, i, SymAt(u, i).(nlusers := SymAt(u, i).nlusers + refs), other);
  }

  lemma MentionKnown(w: World, name: string, other: string)
    ensures var before, after := KnownOf(w, other), KnownOf(Mention(w, name), other);
            after == if name != other || before.Known? then before else Known(|w.syms|, Undefined, 0, 0)
  {
    if Find(w.syms, name) < 0 {
      InsertKnown(w, NewSym(name, None, Undefined), other);
    }
  }

  lemma ReferKnown(w: World, name: string, other: string)
    ensures var before, after := KnownOf(w, other), KnownOf(Refer(w, name), other);
            after == if name != other then before
                     else if before.Unknown? then Known(|w.syms|, Undefined, 1, 0)
                     else before.(ngusers := before.ngusers + 1)
  {
    hide Mention;
    MentionKnown(w, name, name);
    MentionKnown(w, name, other);
    var u, i := Mention(w, name), Slot(w, name);
    assert Find(u.syms, name) == i;
    PutKnown(u, i, SymAt(u, i).(ngusers := SymAt(u, i).ngusers + 1), other);
  }

  ghost predicate DefinesName(e: ElfSym, name: string) {
    e.global && e.defined && e.name == name
  }

  ghost predicate RefersTo(e: ElfSym, name: string) {
    e.global && !e.defined && e.name == name
  }

  lemma EntryKnown(w: World, o: nat, e: ElfSym, refs: nat, name: string)
    ensures var before, after := KnownOf(w, name), KnownOf(EntryStep(w, o, e, refs), name);
            after == if IsInline(w, name) then before
                     else if DefinesName(e, name) then
                       (if before.Unknown? then Known(|w.syms|, Defined, 0, refs)
                        else before.(state := Defined, nlusers := before.nlusers + refs))
                     else if RefersTo(e, name) then
                       (if before.Unknown? then Known(|w.syms|, Undefined, 1, 0)
                        else before.(ngusers := before.ngusers + 1))
                     else before
  {
    hide Define, Refer;
    if e.global && !IsInline(w, e.name) {
      if e.defined {
        DefineKnown(w, o, e.name, refs, name);
      } else {
        ReferKnown(w, e.name, name);
      }
    }
  }

  /** The first k entries define the name, or refer to it. */
  ghost predicate DefinedBy(f: ElfFile, k: nat, name: string)
    requires k <= |f.entries|
  {
    exists x :: 0 <= x < k && DefinesName(f.entries[x], name)
  }

  ghost predicate ReferredBy(f: ElfFile, k: nat, name: string)
    requires k <= |f.entries|
  {
    exists x :: 0 <= x < k && RefersTo(f.entries[x], name)
  }

  /** How many of the first k entries refer to the name. */
  ghost function Referrals(f: ElfFile, k: nat, name: string): nat
    requires k <= |f.entries|
  {
    if k == 0 then 0 else Referrals(f, k - 1, name) + if RefersTo(f.entries[k - 1], name) then 1 else 0
  }

  /** How many relocations name those that define it. */
  ghost function Relocations(f: ElfFile, k: nat, name: string): nat
    requires k <= |f.entries|
  {
    if k == 0 then 0
    else Relocations(f, k - 1, name)
         + if DefinesName(f.entries[k - 1], name) then |AllMentions(f.tables, k - 1)| else 0
  }

  lemma DefinedMore(f: ElfFile, k: nat, name: string)
    requires k < |f.entries|
    ensures DefinedBy(f, k + 1, name) <==> DefinedBy(f, k, name) || DefinesName(f.entries[k], name)
    ensures ReferredBy(f, k + 1, name) <==> ReferredBy(f, k, name) || RefersTo(f.entries[k], name)
  {
  }

  /** A symbol gets one global user for each entry that refers to its name, one local user for each relocation that
      names an entry that defines it, and is defined if there is such an entry; inline symbols are left alone. */
  lemma {:induction false} NameRead(w: World, o: nat, f: ElfFile, k: nat, name: string)
    requires k <= |f.entries|
    ensures var before, after := KnownOf(w, name), KnownOf(EntriesRun(w, o, f, k), name);
            && |w.syms| <= |EntriesRun(w, o, f, k).syms|
            && (IsInline(w, name) ==> after == before)
            && (!IsInline(w, name) ==>
                  (after.Unknown? <==> before.Unknown? && !DefinedBy(f, k, name) && !ReferredBy(f, k, name)))
            && (!IsInline(w, name) && after.Known? ==>
                  && (if before.Known? then after.place == before.place else after.place >= |w.syms|)
                  && after.state == (if DefinedBy(f, k, name) then Defined
                                     else if before.Known? then before.state else Undefined)
                  && after.ngusers == (if before.Known? then before.ngusers else 0) + Referrals(f, k, name)
                  && after.nlusers == (if before.Known? then before.nlusers else 0) + Relocations(f, k, name))
  {
    hide EntryStep, DefinedBy, ReferredBy, KnownOf, IsInline, AllMentions, AllRefs;
    if k > 0 {
      NotNamed(f, k - 1, name);
      NameRead(w, o, f, k - 1, name);
      var v := EntriesRun(w, o, f, k - 1);
      EntriesCountUsers(w, o, f, k - 1);
      EntryKnown(v, o, f.entries[k - 1], AllRefs(f.tables, k - 1), name);
      EntryGrows(v, o, f.entries[k - 1], AllRefs(f.tables, k - 1));
      AllRefsCount(f.tables, k - 1);
      DefinedMore(f, k - 1, name);
    } else {
      NotNamed(f, 0, name);
      NothingRead(f, name);
    }
  }

  lemma {:induction false} NotNamed(f: ElfFile, k: nat, name: string)
    requires k <= |f.entries|
    ensures !DefinedBy(f, k, name) ==> Relocations(f, k, name) == 0
    ensures !ReferredBy(f, k, name) ==> Referrals(f, k, name) == 0
  {
    if k > 0 {
      NotNamed(f, k - 1, name);
      DefinedMore(f, k - 1, name);
    }
  }

  lemma EntryGrows(w: World, o: nat, e: ElfSym, refs: nat)
    ensures |w.syms| <= |EntryStep(w, o, e, refs).syms|
  {
    hide Find;
  }

  lemma NothingRead(f: ElfFile, name: string)
    ensures !DefinedBy(f, 0, name) && !ReferredBy(f, 0, name)
  {
  }

  // --- Owners ------------------------------------------------------------------------------------

  /** The entry defines symbol i of the table before. */
  ghost predicate Hits(w: World, e: ElfSym, i: nat) {
    e.global && e.defined && !IsInline(w, e.name) && Find(w.syms, e.name) == i
  }

  ghost predicate Hit(w: World, f: ElfFile, k: nat, i: nat)
    requires k <= |f.entries|
  {
    exists x :: 0 <= x < k && Hits(w, f.entries[x], i)
  }

  /** The entry defines a symbol of the nameless record q. */
  ghost predicate Meets(w: World, e: ElfSym, q: nat) {
    var s := Find(w.syms, e.name);
    s >= 0 && Hits(w, e, s) && SymAt(w, s).obj == Some(q) && ObjAt(w, q).name.None?
  }

  /** The source of the record that the entry meets. */
  ghost function MetSource(w: World, e: ElfSym): Option<nat> {
    var s := Find(w.syms, e.name);
    if s >= 0 && Hits(w, e, s) && SymAt(w, s).obj.Some? && ObjAt(w, SymAt(w, s).obj.value).name.None?
    then SymSource(w, s) else None
  }

  /** The source that the file's record has after k entries: the first that a nameless record brings along. */
  ghost function Given(w: World, f: ElfFile, k: nat): Option<nat>
    requires k <= |f.entries|
  {
    if k == 0 then None
    else if Given(w, f, k - 1).Some? then Given(w, f, k - 1)
    else MetSource(w, f.entries[k - 1])
  }

  /** The nameless record q has handed over: it was met when the file had no other source. */
  ghost predicate HandedOver(w: World, f: ElfFile, k: nat, q: nat)
    requires k <= |f.entries|
  {
    exists x :: 0 <= x < k && Meets(w, f.entries[x], q)
                && (Given(w, f, x) == None || Given(w, f, x) == ObjAt(w, q).source)
  }

  /** Who owns symbol i after k entries. */
  ghost function OwnerAfter(w: World, f: ElfFile, k: nat, i: nat): Option<nat>
    requires k <= |f.entries|
  {
    match SymAt(w, i).obj
    case None => if Hit(w, f, k, i) then Some(|w.objs|) else None
    case Some(q) => if HandedOver(w, f, k, q) then Some(|w.objs|) else Some(q)
  }

  ghost predicate OwnersAre(w: World, f: ElfFile, k: nat, v: World)
    requires k <= |f.entries|
  {
    && v.objs == w.objs + [NewObject(f.name, Given(w, f, k))] && |w.syms| <= |v.syms|
    && (forall i: nat {:trigger SymAt(v, i)} | i < |w.syms| :: SymAt(v, i).obj == OwnerAfter(w, f, k, i))
    && (forall i: nat {:trigger SymAt(v, i)} | |w.syms| <= i < |v.syms| ::
          SymAt(v, i).obj.Some? ==> SymAt(v, i).obj == Some(|w.objs|))
  }

  lemma HitMore(w: World, f: ElfFile, k: nat, i: nat)
    requires k < |f.entries|
    ensures Hit(w, f, k + 1, i) <==> Hit(w, f, k, i) || Hits(w, f.entries[k], i)
  {
    hide Hits;
  }

  lemma HandedMore(w: World, f: ElfFile, k: nat, q: nat)
    requires k < |f.entries|
    ensures HandedOver(w, f, k + 1, q)
            <==> HandedOver(w, f, k, q)
                 || (Meets(w, f.entries[k], q) && (Given(w, f, k) == None || Given(w, f, k) == ObjAt(w, q).source))
  {
    hide Meets, Given;
  }

  /** A source that was handed over stays the file's. */
  lemma {:induction false} GivenStays(w: World, f: ElfFile, k: nat, q: nat)
    requires k <= |f.entries| && HandedOver(w, f, k, q)
    ensures ObjAt(w, q).source.Some? ==> Given(w, f, k) == ObjAt(w, q).source
  {
    hide HandedOver, Meets, MetSource;
    if k == 0 {
      NoneHanded(w, f, q);
    } else {
      HandedMore(w, f, k - 1, q);
      if HandedOver(w, f, k - 1, q) {
        GivenStays(w, f, k - 1, q);
      } else {
        MeetsSource(w, f.entries[k - 1], q);
      }
    }
  }

  lemma NoneHanded(w: World, f: ElfFile, q: nat)
    ensures !HandedOver(w, f, 0, q)
  {
  }

  lemma MeetsSource(w: World, e: ElfSym, q: nat)
    requires Meets(w, e, q)
    ensures MetSource(w, e) == ObjAt(w, q).source
  {
  }

  /** The places and the inlines are those of the table before. */
  ghost predicate Placed(w: World, v: World, name: string) {
    && IsInline(v, name) == IsInline(w, name)
    && (if Find(w.syms, name) >= 0 then Find(v.syms, name) == Find(w.syms, name)
        else Find(v.syms, name) < 0 || Find(v.syms, name) >= |w.syms|)
  }

  /** What an entry does to owners, by whether it defines a known symbol, an unknown one, or none. */
  lemma EntryOwner(v: World, o: nat, e: ElfSym, refs: nat)
    ensures var u, s := EntryStep(v, o, e, refs), Find(v.syms, e.name);
            var known, defines := s >= 0, e.global && e.defined && !IsInline(v, e.name);
            var c := if known && defines then Claim(v, s, o) else v;
            && u.objs == c.objs && |v.syms| <= |u.syms| && |c.syms| == |v.syms|
            && (known ==> |u.syms| == |v.syms|)
            && (forall i: nat {:trigger SymAt(u, i)} | i < |v.syms| :: SymAt(u, i).obj == SymAt(c, i).obj)
            && (forall i: nat {:trigger SymAt(u, i)} | |v.syms| <= i < |u.syms| ::
                  SymAt(u, i).obj == if defines then Some(o) else None)
  {
    var s := Find(v.syms, e.name);
    if e.global && e.defined && !IsInline(v, e.name) && s >= 0 {
      ClaimChangesOwners(v, s, o);
    }
  }

  /** An entry that changes no owner. */
  lemma OwnersStay(w: World, f: ElfFile, k: nat, v: World, u: World)
    requires k < |f.entries| && OwnersAre(w, f, k, v)
    requires Given(w, f, k + 1) == Given(w, f, k)
    requires forall i: nat :: i < |w.syms| && SymAt(w, i).obj.None? && Hits(w, f.entries[k], i) ==> Hit(w, f, k, i)
    requires forall q: nat :: Meets(w, f.entries[k], q) ==>
                                HandedOver(w, f, k, q) || (Given(w, f, k).Some? && Given(w, f, k) != ObjAt(w, q).source)
    requires u.objs == v.objs && |v.syms| <= |u.syms|
    requires forall i: nat {:trigger SymAt(u, i)} | i < |v.syms| :: SymAt(u, i).obj == SymAt(v, i).obj
    requires forall i: nat {:trigger SymAt(u, i)} | |v.syms| <= i < |u.syms| ::
               SymAt(u, i).obj.Some? ==> SymAt(u, i).obj == Some(|w.objs|)
    ensures OwnersAre(w, f, k + 1, u)
  {
    hide Hits, Hit, Meets, HandedOver, Given;
    forall i: nat | i < |w.syms| ensures SymAt(u, i).obj == OwnerAfter(w, f, k + 1, i) {
      HitMore(w, f, k, i);
      assert SymAt(u, i).obj == SymAt(v, i).obj == OwnerAfter(w, f, k, i);
      if SymAt(w, i).obj.Some? {
        HandedMore(w, f, k, SymAt(w, i).obj.value);
      }
    }
    forall i: nat | |w.syms| <= i < |u.syms| && SymAt(u, i).obj.Some? ensures SymAt(u, i).obj == Some(|w.objs|) {
      assert i < |v.syms| ==> SymAt(u, i).obj == SymAt(v, i).obj;
    }
  }

  lemma UnmetStays(w: World, f: ElfFile, k: nat)
    requires k < |f.entries| && forall q: nat :: !Meets(w, f.entries[k], q)
    ensures Given(w, f, k + 1) == Given(w, f, k)
  {
    var e := f.entries[k];
    var s := Find(w.syms, e.name);
    if s >= 0 && SymAt(w, s).obj.Some? {
      assert !Meets(w, e, SymAt(w, s).obj.value);
    }
  }

  /** A symbol without an owner joins the file's record. */
  lemma AdoptedByFile(w: World, f: ElfFile, k: nat, v: World, u: World, s: nat)
    requires k < |f.entries| && OwnersAre(w, f, k, v) && s < |u.syms| && SymAt(v, s).obj.None?
    requires forall q: nat :: !Meets(w, f.entries[k], q)
    requires forall i: nat :: i < |w.syms| ==> (Hits(w, f.entries[k], i) <==> i == s)
    requires u.objs == v.objs && |v.syms| <= |u.syms|
    requires forall i: nat {:trigger SymAt(u, i)} | i < |u.syms| ::
               SymAt(u, i).obj == if i == s then Some(|w.objs|) else SymAt(v, i).obj
    ensures OwnersAre(w, f, k + 1, u)
  {
    hide Hits, Hit, Meets, HandedOver, Given;
    UnmetStays(w, f, k);
    forall i: nat | i < |w.syms| ensures SymAt(u, i).obj == OwnerAfter(w, f, k + 1, i) {
      HitMore(w, f, k, i);
      assert SymAt(v, i).obj == OwnerAfter(w, f, k, i);
      if SymAt(w, i).obj.Some? {
        HandedMore(w, f, k, SymAt(w, i).obj.value);
      }
    }
    forall i: nat | |w.syms| <= i < |u.syms| && SymAt(u, i).obj.Some? ensures SymAt(u, i).obj == Some(|w.objs|) {
      assert i < |v.syms| && i != s ==> SymAt(u, i).obj == SymAt(v, i).obj;
    }
  }

  /** A nameless record hands over its source and its symbols. */
  lemma RecordHandsOver(w: World, f: ElfFile, k: nat, v: World, u: World, q: nat)
    requires Wf(w) && k < |f.entries| && OwnersAre(w, f, k, v) && q < |w.objs|
    requires Meets(w, f.entries[k], q) && !HandedOver(w, f, k, q)
    requires Given(w, f, k) == None || Given(w, f, k) == ObjAt(w, q).source
    requires u.objs == v.objs[|w.objs| := v.objs[|w.objs|].(source := ObjAt(w, q).source)] && |u.syms| == |v.syms|
    requires forall i: nat {:trigger SymAt(u, i)} | i < |u.syms| ::
               SymAt(u, i).obj == if SymAt(v, i).obj == Some(q) then Some(|w.objs|) else SymAt(v, i).obj
    ensures OwnersAre(w, f, k + 1, u)
  {
    hide Hits, Hit, Meets, HandedOver, MetSource;
    MeetsSource(w, f.entries[k], q);
    forall i: nat | i < |w.syms| ensures SymAt(u, i).obj == OwnerAfter(w, f, k + 1, i) {
      HitMore(w, f, k, i);
      MetHitsOwned(w, f.entries[k], q, i);
      assert SymAt(v, i).obj == OwnerAfter(w, f, k, i);
      assert SymAt(u, i).obj == if SymAt(v, i).obj == Some(q) then Some(|w.objs|) else SymAt(v, i).obj;
      if SymAt(w, i).obj.Some? {
        HandedMore(w, f, k, SymAt(w, i).obj.value);
        MeetsOne(w, f.entries[k], q, SymAt(w, i).obj.value);
      }
    }
    forall i: nat | |w.syms| <= i < |u.syms| && SymAt(u, i).obj.Some? ensures SymAt(u, i).obj == Some(|w.objs|) {
      assert SymAt(v, i).obj.Some? ==> SymAt(v, i).obj == Some(|w.objs|);
    }
  }

  lemma MeetsOne(w: World, e: ElfSym, q: nat, p: nat)
    requires Meets(w, e, q)
    ensures Meets(w, e, p) <==> p == q
  {
  }

  lemma MetHitsOwned(w: World, e: ElfSym, q: nat, i: nat)
    requires Meets(w, e, q)
    ensures Hits(w, e, i) ==> SymAt(w, i).obj == Some(q)
  {
  }

  lemma NotDefining(w: World, f: ElfFile, k: nat, v: World, refs: nat)
    requires k < |f.entries| && OwnersAre(w, f, k, v) && Placed(w, v, f.entries[k].name)
    requires var e := f.entries[k]; !(e.global && e.defined) || IsInline(w, e.name)
    ensures OwnersAre(w, f, k + 1, EntryStep(v, |w.objs|, f.entries[k], refs))
  {
    hide EntryStep, Claim;
    EntryOwner(v, |w.objs|, f.entries[k], refs);
    UnmetStays(w, f, k);
    OwnersStay(w, f, k, v, EntryStep(v, |w.objs|, f.entries[k], refs));
  }

  /** The entry defines a name that the table before did not know. */
  lemma DefinesNew(w: World, f: ElfFile, k: nat, v: World, refs: nat)
    requires k < |f.entries| && OwnersAre(w, f, k, v) && Placed(w, v, f.entries[k].name)
    requires var e := f.entries[k]; e.global && e.defined && Find(w.syms, e.name) < 0
    ensures OwnersAre(w, f, k + 1, EntryStep(v, |w.objs|, f.entries[k], refs))
  {
    hide EntryStep;
    var o, e := |w.objs|, f.entries[k];
    var u, s := EntryStep(v, o, e, refs), Find(v.syms, e.name);
    EntryOwner(v, o, e, refs);
    UnmetStays(w, f, k);
    if s >= 0 && SymAt(v, s).obj.None? {
      AdoptedByFile(w, f, k, v, u, s);
    } else {
      assert s >= 0 ==> OwnClaim(v, s, o);
      OwnersStay(w, f, k, v, u);
    }
  }

  /** A symbol of the file's record is defined again: that changes nothing. */
  ghost predicate OwnClaim(v: World, s: nat, o: nat) {
    && Claim(v, s, o).objs == v.objs
    && forall i: nat {:trigger SymAt(Claim(v, s, o), i)} :: SymAt(Claim(v, s, o), i).obj == SymAt(v, i).obj
  }

  lemma OwnClaimKeeps(v: World, s: nat, o: nat)
    requires SymAt(v, s).obj == Some(o)
    ensures OwnClaim(v, s, o)
  {
  }

  /** The entry defines a symbol of the table before. */
  lemma DefinesKnown(w: World, f: ElfFile, k: nat, v: World, refs: nat, s: nat)
    requires Wf(w) && k < |f.entries| && OwnersAre(w, f, k, v) && Placed(w, v, f.entries[k].name)
    requires Hits(w, f.entries[k], s)
    ensures OwnersAre(w, f, k + 1, EntryStep(v, |w.objs|, f.entries[k], refs))
  {
    hide EntryStep, Hit, HandedOver, Wf;
    var o, e := |w.objs|, f.entries[k];
    var u := EntryStep(v, o, e, refs);
    EntryOwner(v, o, e, refs);
    assert SymAt(v, s).obj == OwnerAfter(w, f, k, s);
    match SymAt(w, s).obj
    case None =>
      UnmetStays(w, f, k);
      if Hit(w, f, k, s) {
        OwnClaimKeeps(v, s, o);
        OwnersStay(w, f, k, v, u);
      } else {
        AdoptedByFile(w, f, k, v, u, s);
      }
    case Some(q) => DefinesOwned(w, f, k, v, refs, s, q);
  }

  lemma DefinesOwned(w: World, f: ElfFile, k: nat, v: World, refs: nat, s: nat, q: nat)
    requires Wf(w) && k < |f.entries| && OwnersAre(w, f, k, v) && Placed(w, v, f.entries[k].name)
    requires Hits(w, f.entries[k], s) && SymAt(w, s).obj == Some(q)
    ensures OwnersAre(w, f, k + 1, EntryStep(v, |w.objs|, f.entries[k], refs))
  {
    hide EntryStep, Hit, HandedOver;
    var o, e := |w.objs|, f.entries[k];
    var u := EntryStep(v, o, e, refs);
    EntryOwner(v, o, e, refs);
    assert SymAt(v, s).obj == OwnerAfter(w, f, k, s);
    assert q < |w.objs|;
    if HandedOver(w, f, k, q) {
      GivenStays(w, f, k, q);
      OwnClaimKeeps(v, s, o);
      OwnersStay(w, f, k, v, u);
    } else if ObjAt(w, q).name.Some? {
      UnmetStays(w, f, k);
      OwnersStay(w, f, k, v, u);
    } else if Given(w, f, k).Some? && Given(w, f, k) != ObjAt(w, q).source {
      OwnersStay(w, f, k, v, u);
    } else {
      RecordHandsOver(w, f, k, v, u, q);
    }
  }

  lemma OwnersStep(w: World, f: ElfFile, k: nat, v: World, refs: nat)
    requires Wf(w) && k < |f.entries| && OwnersAre(w, f, k, v) && Placed(w, v, f.entries[k].name)
    ensures OwnersAre(w, f, k + 1, EntryStep(v, |w.objs|, f.entries[k], refs))
  {
    hide EntryStep, Wf, OwnersAre, Placed;
    var e := f.entries[k];
    if !(e.global && e.defined) || IsInline(w, e.name) {
      NotDefining(w, f, k, v, refs);
    } else if Find(w.syms, e.name) < 0 {
      DefinesNew(w, f, k, v, refs);
    } else {
      DefinesKnown(w, f, k, v, refs, Find(w.syms, e.name));
    }
  }

  lemma PlacesStay(w: World, o: nat, f: ElfFile, k: nat, name: string)
    requires k <= |f.entries|
    ensures Placed(w, EntriesRun(w, o, f, k), name)
  {
    NameRead(w, o, f, k, name);
    EntriesCountUsers(w, o, f, k);
  }

  lemma StartOwners(w: World, f: ElfFile)
    ensures OwnersAre(w, f, 0, w.(objs := w.objs + [NewObject(f.name, None)]))
  {
    forall i: nat | i < |w.syms| ensures SymAt(w, i).obj == OwnerAfter(w, f, 0, i) {
      assert !Hit(w, f, 0, i);
      if SymAt(w, i).obj.Some? {
        NoneHanded(w, f, SymAt(w, i).obj.value);
      }
    }
  }

  /** Whoever owns the symbols after k entries, and what the file's record has been given, can be told from the table
      before and the file. */
  lemma {:induction false} OwnersRun(w: World, f: ElfFile, k: nat)
    requires Wf(w) && k <= |f.entries|
    ensures OwnersAre(w, f, k, EntriesRun(w.(objs := w.objs + [NewObject(f.name, None)]), |w.objs|, f, k))
  {
    hide EntryStep, Wf, OwnersAre;
    var start := w.(objs := w.objs + [NewObject(f.name, None)]);
    if k > 0 {
      OwnersRun(w, f, k - 1);
      PlacesStay(start, |w.objs|, f, k - 1, f.entries[k - 1].name);
      OwnersStep(w, f, k - 1, EntriesRun(start, |w.objs|, f, k - 1), AllRefs(f.tables, k - 1));
    } else {
      StartOwners(w, f);
    }
  }

  // --- A file ------------------------------------------------------------------------------------

  /** Reading a file adds one record, which has the file's name and the first source that was handed over, and no
      users or links; the other records stay as they were. Each old symbol belongs to whom the entries say. */
  lemma FileOwners(w: World, f: ElfFile)
    requires Wf(w)
    ensures var v, n := ReadFile(w, f), |f.entries|;
            && v.objs == w.objs + [Object(f.name, Given(w, f, n), None, 0, 0)] && v.srcs == w.srcs
            && |w.syms| <= |v.syms|
            && (forall i | 0 <= i < |w.syms| ::
                  v.syms[i].name == w.syms[i].name && v.syms[i].obj == OwnerAfter(w, f, n, i))
            && (forall i | |w.syms| <= i < |v.syms| && v.syms[i].obj.Some? :: v.syms[i].obj == Some(|w.objs|))
  {
    var start := w.(objs := w.objs + [NewObject(f.name, None)]);
    var v := ReadFile(w, f);
    OwnersRun(w, f, |f.entries|);
    NamesStay(start, |w.objs|, f, |f.entries|);
    forall i | 0 <= i < |v.syms| ensures v.syms[i] == SymAt(v, i) {
    }
  }

  lemma {:induction false} NamesStay(w: World, o: nat, f: ElfFile, k: nat)
    requires k <= |f.entries|
    ensures var v := EntriesRun(w, o, f, k);
            v.srcs == w.srcs && |w.syms| <= |v.syms| && forall i | 0 <= i < |w.syms| :: v.syms[i].name == w.syms[i].name
  {
    hide EntryStep;
    if k > 0 {
      NamesStay(w, o, f, k - 1);
      EntryNames(EntriesRun(w, o, f, k - 1), o, f.entries[k - 1], AllRefs(f.tables, k - 1));
    }
  }

  lemma EntryNames(w: World, o: nat, e: ElfSym, refs: nat)
    ensures var v := EntryStep(w, o, e, refs);
            v.srcs == w.srcs && |w.syms| <= |v.syms| && forall i | 0 <= i < |w.syms| :: v.syms[i].name == w.syms[i].name
  {
    hide Find;
  }

  /** A nameless record with a source that the file meets hands everything over to the file, unless the file meets
      another source: then the file can be built if it has a name. */
  lemma RecordGivesAll(w: World, f: ElfFile, x: nat, q: nat)
    requires Wf(w) && x < |f.entries| && Meets(w, f.entries[x], q) && ObjAt(w, q).source.Some?
    requires forall y, p | 0 <= y < |f.entries| && Meets(w, f.entries[y], p) ::
               ObjAt(w, p).source.None? || ObjAt(w, p).source == ObjAt(w, q).source
    ensures var v, o := ReadFile(w, f), |w.objs|;
            && |v.objs| == o + 1 && v.objs[o].source == ObjAt(w, q).source
            && (v.objs[o].name.Some? && v.objs[o].source.Some? <==> f.name.Some?)
            && |w.syms| <= |v.syms|
            && forall i | 0 <= i < |w.syms| && w.syms[i].obj == Some(q) :: v.syms[i].obj == Some(o)
  {
    hide Meets, MetSource, HandedOver;
    FileOwners(w, f);
    OnlyGiven(w, f, x, q);
    HandedMore(w, f, x, q);
    HandedStays(w, f, x + 1, |f.entries|, q);
    GivenStays(w, f, |f.entries|, q);
  }

  lemma {:induction false} OnlyGiven(w: World, f: ElfFile, k: nat, q: nat)
    requires k <= |f.entries|
    requires forall y, p | 0 <= y < |f.entries| && Meets(w, f.entries[y], p) ::
               ObjAt(w, p).source.None? || ObjAt(w, p).source == ObjAt(w, q).source
    ensures Given(w, f, k).None? || Given(w, f, k) == ObjAt(w, q).source
  {
    if k > 0 {
      OnlyGiven(w, f, k - 1, q);
      var e := f.entries[k - 1];
      if MetSource(w, e).Some? {
        var p := SymAt(w, Find(w.syms, e.name)).obj.value;
        assert Meets(w, e, p);
      }
    }
  }

  lemma {:induction false} HandedStays(w: World, f: ElfFile, j: nat, k: nat, q: nat)
    requires j <= k <= |f.entries| && HandedOver(w, f, j, q)
    ensures HandedOver(w, f, k, q)
    decreases k
  {
    hide HandedOver, Meets, Given;
    if j < k {
      HandedStays(w, f, j, k - 1, q);
      HandedMore(w, f, k - 1, q);
    }
  }

  // --- A link line -------------------------------------------------------------------------------

  ghost predicate Defines(f: ElfFile, name: string) {
    DefinedBy(f, |f.entries|, name)
  }

  lemma ReadOneMore(w: World, fs: seq<ElfFile>, m: nat)
    requires m < |fs|
    ensures ReadFiles(w, fs[..m + 1]) == ReadFile(ReadFiles(w, fs[..m]), fs[m])
  {
    assert fs[..m + 1][..m] == fs[..m];
  }

  /** Every file gets its record, in the order of the link line. */
  lemma {:induction false} FilesRecords(w: World, fs: seq<ElfFile>, m: nat)
    requires Wf(w) && m <= |fs|
    ensures var v := ReadFiles(w, fs[..m]);
            && Wf(v) && |v.objs| == |w.objs| + m && v.srcs == w.srcs
            && (forall o | 0 <= o < |w.objs| :: v.objs[o] == w.objs[o])
            && (forall j | 0 <= j < m :: v.objs[|w.objs| + j].name == fs[j].name)
            && (forall name: string :: IsInline(v, name) == IsInline(w, name))
  {
    hide Wf, ReadFile, IsInline;
    if m > 0 {
      FilesRecords(w, fs, m - 1);
      ReadOneMore(w, fs, m - 1);
      FilesCountUsers(w, fs[..m]);
      FileOwners(ReadFiles(w, fs[..m - 1]), fs[m - 1]);
      FileWf(ReadFiles(w, fs[..m - 1]), fs[m - 1]);
    }
  }

  lemma FileWf(w: World, f: ElfFile)
    requires Wf(w)
    ensures Wf(ReadFile(w, f))
  {
    var start := w.(objs := w.objs + [NewObject(f.name, None)]);
    EntriesWf(start, |w.objs|, f, |f.entries|);
  }

  lemma {:induction false} EntriesWf(w: World, o: nat, f: ElfFile, k: nat)
    requires Wf(w) && o < |w.objs| && k <= |f.entries|
    ensures Wf(EntriesRun(w, o, f, k)) && |EntriesRun(w, o, f, k).objs| == |w.objs|
  {
    hide Wf, EntryStep;
    if k > 0 {
      EntriesWf(w, o, f, k - 1);
      EntryWf(EntriesRun(w, o, f, k - 1), o, f.entries[k - 1], AllRefs(f.tables, k - 1));
    }
  }

  /** The name's symbol, if there is one, has no owner. */
  ghost predicate Ownerless(w: World, name: string) {
    Find(w.syms, name) >= 0 ==> SymAt(w, Find(w.syms, name)).obj.None?
  }

  ghost predicate OwnedBy(w: World, name: string, o: nat) {
    Find(w.syms, name) >= 0 && SymAt(w, Find(w.syms, name)).obj == Some(o)
  }

  lemma EntryOwnerless(w: World, o: nat, e: ElfSym, refs: nat, name: string)
    requires Ownerless(w, name) && (!DefinesName(e, name) || IsInline(w, name))
    ensures Ownerless(EntryStep(w, o, e, refs), name)
  {
    hide EntryStep;
    EntryKnown(w, o, e, refs, name);
    EntryOwner(w, o, e, refs);
  }

  lemma {:induction false} StaysOwnerless(w: World, o: nat, f: ElfFile, k: nat, name: string)
    requires k <= |f.entries| && Ownerless(w, name) && !DefinedBy(f, k, name)
    ensures Ownerless(EntriesRun(w, o, f, k), name)
  {
    hide EntryStep, Ownerless;
    if k > 0 {
      DefinedMore(f, k - 1, name);
      StaysOwnerless(w, o, f, k - 1, name);
      EntryOwnerless(EntriesRun(w, o, f, k - 1), o, f.entries[k - 1], AllRefs(f.tables, k - 1), name);
    }
  }

  lemma FileAndName(w: World, f: ElfFile, name: string)
    requires Wf(w) && !IsInline(w, name)
    ensures var v := ReadFile(w, f);
            && (Ownerless(w, name) && !Defines(f, name) ==> Ownerless(v, name))
            && (Ownerless(w, name) && Defines(f, name) ==> OwnedBy(v, name, |w.objs|))
            && (forall o: nat | OwnedBy(w, name, o) && ObjAt(w, o).name.Some? :: OwnedBy(v, name, o))
  {
    var v, n, start := ReadFile(w, f), |f.entries|, w.(objs := w.objs + [NewObject(f.name, None)]);
    FileOwners(w, f);
    NameRead(start, |w.objs|, f, n, name);
    assert KnownOf(start, name) == KnownOf(w, name) && IsInline(start, name) == IsInline(w, name);
    var i, j := Find(w.syms, name), Find(v.syms, name);
    if Defines(f, name) {
      var x :| 0 <= x < n && DefinesName(f.entries[x], name);
      DefinedEntriesAreOwned(start, |w.objs|, f, n, x);
      assert i >= 0 ==> Hits(w, f.entries[x], i);
    } else if Ownerless(w, name) {
      StaysOwnerless(start, |w.objs|, f, n, name);
    }
    if i >= 0 {
      assert Hit(w, f, n, i) ==> Defines(f, name) by {
        if x :| 0 <= x < n && Hits(w, f.entries[x], i) {
          assert DefinesName(f.entries[x], name);
        }
      }
      assert v.syms[i] == SymAt(v, i) && w.syms[i] == SymAt(w, i);
    } else {
      assert j >= |w.syms| ==> SymAt(v, j) == v.syms[j];
    }
  }

  /** A symbol that has no owner yet belongs to the first file of the link line that defines it, for good if that file
      has a name. */
  lemma {:induction false} FirstDefinerOwns(w: World, fs: seq<ElfFile>, m: nat, name: string)
    requires Wf(w) && m <= |fs| && !IsInline(w, name) && Ownerless(w, name)
    ensures (forall j | 0 <= j < m :: !Defines(fs[j], name)) ==> Ownerless(ReadFiles(w, fs[..m]), name)
    ensures forall j | 0 <= j < m && Defines(fs[j], name) && fs[j].name.Some?
                       && (forall h | 0 <= h < j :: !Defines(fs[h], name)) ::
              OwnedBy(ReadFiles(w, fs[..m]), name, |w.objs| + j)
  {
    hide Wf, ReadFile, IsInline, Ownerless, OwnedBy, Defines;
    if m > 0 {
      FirstDefinerOwns(w, fs, m - 1, name);
      FilesRecords(w, fs, m - 1);
      ReadOneMore(w, fs, m - 1);
      FileAndName(ReadFiles(w, fs[..m - 1]), fs[m - 1], name);
    }
  }
}
