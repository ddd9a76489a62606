/** Why the dump is sorted: no NULL object is followed, and each object's symbols stay together, which is exactly
    what loading needs to restore which symbols share an object. */
module GtsSharing {
  import opened CText
  import opened GtsWorld
  import opened GtsOrder
  import opened GtsPasses
  import opened GtsDatabase
  import opened GtsRoundTrip

  /** Different source records have different addresses. */
  ghost predicate Addresses(address: nat -> int) {
    forall s, t :: address(s) == address(t) ==> s == t
  }

  /** flush_compare is a consistent order, so sorting by it makes sense. */
  lemma FlushIsPreorder(w: World, address: nat -> int, i: nat, j: nat, k: nat)
    requires Addresses(address)
    ensures FlushCompare(w, address, i, i) == 0
    ensures FlushCompare(w, address, i, j) == -FlushCompare(w, address, j, i)
    ensures FlushCompare(w, address, i, j) <= 0 && FlushCompare(w, address, j, k) <= 0
            ==> FlushCompare(w, address, i, k) <= 0
  {
    var a, b, c := SymAt(w, i).name, SymAt(w, j).name, SymAt(w, k).name;
    StrCmpEqual(a, a);
    StrCmpSwap(a, b);
    if StrCmp(a, b) <= 0 && StrCmp(b, c) <= 0 {
      StrCmpTransitive(a, b, c);
    }
  }

  ghost predicate Sorted(w: World, address: nat -> int, v: seq<nat>) {
    forall x, y | 0 <= x < y < |v| :: FlushCompare(w, address, v[x], v[y]) <= 0
  }

  /** What sorting means: symbols without an object come first, by name, then those whose objects have no source, then
      the others by the address of the source. */
  lemma SortedMeans(w: World, address: nat -> int, v: seq<nat>, x: nat, y: nat)
    requires Sorted(w, address, v) && x < y < |v|
    ensures var a, b := SymAt(w, v[x]), SymAt(w, v[y]);
            && (b.obj.None? ==> a.obj.None? && (a.name == b.name || Before(a.name, b.name)))
            && (SourceOf(w, b.obj).None? ==> SourceOf(w, a.obj).None?)
            && (SourceOf(w, a.obj).Some? ==>
                  SourceOf(w, b.obj).Some? && address(SourceOf(w, a.obj).value) <= address(SourceOf(w, b.obj).value))
  {
    var a, b := SymAt(w, v[x]), SymAt(w, v[y]);
    assert FlushCompare(w, address, v[x], v[y]) <= 0;
    StrCmpEqual(a.name, b.name);
    StrCmpIsDictionary(a.name, b.name);
  }

  /** In a sorted vector the symbols without an object come first, so the dump never comes from an object to
      a NULL one; it would follow the NULL pointer to find the source. */
  lemma NoNullFollowed(w: World, address: nat -> int, v: seq<nat>, k: nat)
    requires Sorted(w, address, v) && k < |v| && SymAt(w, v[k]).obj == None
    ensures Dump(w, v, k).obj == None
  {
    if k > 0 {
      assert FlushCompare(w, address, v[k - 1], v[k]) <= 0;
    }
  }

  // --- Which symbols share an object after loading -----------------------------------------------

  ghost function ObjOf(w: World, v: seq<nat>, x: nat): Option<nat>
    requires x < |v|
  {
    SymAt(w, v[x]).obj
  }

  /** The symbol at place x is the first of a run of symbols of an object with a source. */
  ghost predicate Starts(w: World, v: seq<nat>, x: nat)
    requires x < |v|
  {
    ObjOf(w, v, x) != (if x == 0 then None else ObjOf(w, v, x - 1)) && SourceOf(w, ObjOf(w, v, x)).Some?
  }

  /** How many source lines are written for the first k symbols. */
  ghost function Written(w: World, v: seq<nat>, k: nat): nat
    requires k <= |v|
  {
    if k == 0 then 0 else Written(w, v, k - 1) + if Starts(w, v, k - 1) then 1 else 0
  }

  lemma StartsWithLine(w: World, v: seq<nat>, x: nat)
    requires x < |v|
    ensures |SourceLines(w, Dump(w, v, x).obj, SymAt(w, v[x]).obj)| == if Starts(w, v, x) then 1 else 0
  {
    hide SourceText, SymbolLines;
  }

  /** Loading makes one object for each of them; this is the one being loaded after the first k symbols. */
  ghost function Loaded(w: World, v: seq<nat>, k: nat): Option<nat>
    requires k <= |v|
  {
    if Written(w, v, k) == 0 then None else Some(Written(w, v, k) - 1)
  }

  /** n objects were loaded, the latest is the current one, and the symbols belong to the given ones. */
  ghost predicate StateNumbered(st: Loading, n: nat, owners: seq<Option<nat>>) {
    && |st.w.objs| == n && st.obj == (if n == 0 then None else Some(n - 1))
    && |st.w.syms| == |owners| && forall t | 0 <= t < |owners| :: st.w.syms[t].obj == owners[t]
  }

  ghost predicate Numbered(lines: seq<string>, n: nat, owners: seq<Option<nat>>) {
    var r := Load(FRESH, lines, |lines|);
    r.Some? && StateNumbered(r.value, n, owners)
  }

  ghost function OwnersOf(w: World, v: seq<nat>, k: nat): seq<Option<nat>>
    requires k <= |v|
  {
    if k == 0 then []
    else OwnersOf(w, v, k - 1) + if Persisted(w, v[k - 1]) then [OwnerOf(w, v, k)] else []
  }

  ghost function OwnerOf(w: World, v: seq<nat>, k: nat): Option<nat>
    requires 0 < k <= |v|
  {
    if SymAt(w, v[k - 1]).state == Inline then None else Loaded(w, v, k)
  }

  lemma SourceNumbered(w: World, lines: seq<string>, n: nat, owners: seq<Option<nat>>, last: Option<nat>, obj: Option<nat>)
    requires Numbered(lines, n, owners)
    requires SourceOf(w, obj).Some? ==> Writable(SrcAt(w, SourceOf(w, obj).value))
    ensures Numbered(lines + SourceLines(w, last, obj), n + |SourceLines(w, last, obj)|, owners)
  {
    hide Writable, SourceText, ParseLine, LoadLine, Load;
    if obj != last && SourceOf(w, obj).Some? {
      var src := SrcAt(w, SourceOf(w, obj).value);
      SourceRestored(src);
      LoadOne(FRESH, lines, SourceText(src));
      assert |lines + [SourceText(src)]| == |lines| + 1;
    } else {
      assert lines + SourceLines(w, last, obj) == lines;
    }
  }

  lemma NewestNumbered(st: Loading, n: nat, owners: seq<Option<nat>>, sym: Sym, owner: Option<nat>)
    requires StateNumbered(st, n, owners) && Find(st.w.syms, sym.name) < 0
    requires sym.state == Inline || sym.state == Defined || sym.state == Zapped
    requires owner == if sym.state == Inline || n == 0 then None else Some(n - 1)
    ensures StateNumbered(LoadSymbol(st, sym.name, TagOf(sym.state)), n, owners + [owner])
  {
  }

  lemma SymbolNumbered(w: World, lines: seq<string>, n: nat, owners: seq<Option<nat>>, i: nat, owner: Option<nat>)
    requires Numbered(lines, n, owners) && (Persisted(w, i) ==> LineName(SymAt(w, i).name))
    requires Find(Load(FRESH, lines, |lines|).value.w.syms, SymAt(w, i).name) < 0
    requires owner == if SymAt(w, i).state == Inline || n == 0 then None else Some(n - 1)
    ensures Numbered(lines + SymbolLines(w, SymAt(w, i)), n, owners + if Persisted(w, i) then [owner] else [])
  {
    hide LineName, SymbolText, ParseLine, LoadSymbol, Load, StateNumbered, Find;
    var sym := SymAt(w, i);
    if Persisted(w, i) {
      var st, text := Load(FRESH, lines, |lines|).value, SymbolText(sym.name, TagOf(sym.state));
      SymbolLine(sym.name, TagOf(sym.state));
      LoadOne(FRESH, lines, text);
      NewestNumbered(st, n, owners, sym, owner);
      assert SymbolLines(w, sym) == [text] && |lines + [text]| == |lines| + 1;
    } else {
      assert lines + SymbolLines(w, sym) == lines && owners + [] == owners;
    }
  }

  lemma NotFoundYet(w: World, kept: seq<nat>, lines: seq<string>, obj: Option<nat>, name: string)
    requires Reads(w, kept, lines, obj) && forall t | 0 <= t < |kept| :: SymAt(w, kept[t]).name != name
    ensures Find(Load(FRESH, lines, |lines|).value.w.syms, name) < 0
  {
    var v := Load(FRESH, lines, |lines|).value.w;
    forall t | 0 <= t < |v.syms| ensures v.syms[t].name != name {
      assert CopyOf(w, kept[t], v, t);
    }
  }

  lemma {:induction false} DumpNumbered(w: World, v: seq<nat>, k: nat)
    requires Listing(w, v) && Dumpable(w, v) && k <= |v|
    ensures Numbered(Dump(w, v, k).lines, Written(w, v, k), OwnersOf(w, v, k))
  {
    hide Numbered, Reads, Dumpable, Listing, Persisted, LineName, Writable, DumpStep, Dump, Starts;
    DumpStart(w, v);
    if k > 0 {
      DumpNumbered(w, v, k - 1);
      DumpReadBack(w, v, k - 1);
      NewName(w, v, k - 1);
      DumpNext(w, v, k);
      StartsWithLine(w, v, k - 1);
      DumpableAt(w, v, k - 1);
      StepNumbered(w, Kept(w, v, k - 1), Dump(w, v, k - 1), v[k - 1], Written(w, v, k - 1), Written(w, v, k),
                   OwnersOf(w, v, k - 1), OwnerOf(w, v, k));
    }
  }

  lemma DumpStart(w: World, v: seq<nat>)
    ensures Numbered(Dump(w, v, 0).lines, Written(w, v, 0), OwnersOf(w, v, 0))
  {
  }

  lemma DumpNext(w: World, v: seq<nat>, k: nat)
    requires 0 < k <= |v|
    ensures Dump(w, v, k) == DumpStep(w, Dump(w, v, k - 1), v[k - 1])
  {
    hide DumpStep;
  }

  lemma DumpableAt(w: World, v: seq<nat>, x: nat)
    requires Dumpable(w, v) && x < |v|
    ensures Persisted(w, v[x]) ==> LineName(SymAt(w, v[x]).name)
    ensures SourceOf(w, ObjOf(w, v, x)).Some? ==> Writable(SrcAt(w, SourceOf(w, ObjOf(w, v, x)).value))
  {
  }

  lemma StepNumbered(w: World, kept: seq<nat>, d: Dumping, i: nat, n: nat, n': nat, owners: seq<Option<nat>>,
                     owner: Option<nat>)
    requires Numbered(d.lines, n, owners) && Reads(w, kept, d.lines, d.obj)
    requires Persisted(w, i) ==> LineName(SymAt(w, i).name)
    requires SourceOf(w, SymAt(w, i).obj).Some? ==> Writable(SrcAt(w, SourceOf(w, SymAt(w, i).obj).value))
    requires forall t | 0 <= t < |kept| :: SymAt(w, kept[t]).name != SymAt(w, i).name
    requires n' == n + |SourceLines(w, d.obj, SymAt(w, i).obj)|
    requires owner == if SymAt(w, i).state == Inline || n' == 0 then None else Some(n' - 1)
    ensures Numbered(DumpStep(w, d, i).lines, n', owners + if Persisted(w, i) then [owner] else [])
  {
    hide Numbered, Reads, Persisted, LineName, Writable, SourceLines, SymbolLines, SourceOf;
    var obj := SymAt(w, i).obj;
    SourceRead(w, kept, d.lines, d.obj, obj);
    SourceNumbered(w, d.lines, n, owners, d.obj, obj);
    NotFoundYet(w, kept, d.lines + SourceLines(w, d.obj, obj), obj, SymAt(w, i).name);
    SymbolNumbered(w, d.lines + SourceLines(w, d.obj, obj), n', owners, i, owner);
  }

  lemma {:induction false} KeptAt(w: World, v: seq<nat>, x: nat, k: nat)
    requires x < k <= |v| && Persisted(w, v[x])
    ensures |Kept(w, v, x)| == |OwnersOf(w, v, x)| < |Kept(w, v, k)| == |OwnersOf(w, v, k)|
    ensures Kept(w, v, k)[|Kept(w, v, x)|] == v[x] && OwnersOf(w, v, k)[|Kept(w, v, x)|] == OwnerOf(w, v, x + 1)
  {
    SameLengths(w, v, x);
    SameLengths(w, v, k);
    if x < k - 1 {
      KeptAt(w, v, x, k - 1);
    }
  }

  lemma {:induction false} SameLengths(w: World, v: seq<nat>, k: nat)
    requires k <= |v|
    ensures |Kept(w, v, k)| == |OwnersOf(w, v, k)|
  {
    if k > 0 {
      SameLengths(w, v, k - 1);
    }
  }

  /** The symbol at place x of the vector is found again, in the object whose source line precedes it. */
  lemma FoundWithOwner(w: World, v: seq<nat>, x: nat)
    requires Listing(w, v) && Dumpable(w, v) && x < |v| && Persisted(w, v[x])
    ensures var lines := Dump(w, v, |v|).lines;
            && Load(FRESH, lines, |lines|).Some?
            && var u := Load(FRESH, lines, |lines|).value.w;
               Find(u.syms, SymAt(w, v[x]).name) >= 0
               && SymAt(u, Find(u.syms, SymAt(w, v[x]).name)).obj == OwnerOf(w, v, x + 1)
  {
    var n := |v|;
    DumpNumbered(w, v, n);
    DumpReadBack(w, v, n);
    KeptAt(w, v, x, n);
    var lines, kept := Dump(w, v, n).lines, Kept(w, v, n);
    var u, t := Load(FRESH, lines, |lines|).value.w, |Kept(w, v, x)|;
    assert CopyOf(w, kept[t], u, t);
    CopiedNames(w, v, kept, u);
    assert u.syms[t].name == SymAt(w, v[x]).name;
  }

  lemma {:induction false} WrittenGrows(w: World, v: seq<nat>, x: nat, z: nat)
    requires x <= z <= |v|
    ensures Written(w, v, x) <= Written(w, v, z)
  {
    if x < z {
      WrittenGrows(w, v, x, z - 1);
    }
  }

  lemma {:induction false} SourceIsWritten(w: World, v: seq<nat>, k: nat)
    requires 0 < k <= |v| && SourceOf(w, ObjOf(w, v, k - 1)).Some?
    ensures Written(w, v, k) > 0
  {
    if k > 1 && ObjOf(w, v, k - 1) == ObjOf(w, v, k - 2) {
      SourceIsWritten(w, v, k - 1);
    }
  }

  /** All symbols from place x to place z belong to one object. */
  ghost predicate OneRun(w: World, v: seq<nat>, x: nat, z: nat)
    requires x <= z < |v|
  {
    forall y | x <= y <= z :: ObjOf(w, v, y) == ObjOf(w, v, z)
  }

  /** No source line is written between two symbols whose objects have sources exactly when one object owns
      them and all between them. */
  lemma {:induction false} OneRunUnwritten(w: World, v: seq<nat>, x: nat, z: nat)
    requires x <= z < |v|
    requires SourceOf(w, ObjOf(w, v, x)).Some? && SourceOf(w, ObjOf(w, v, z)).Some?
    ensures Written(w, v, x + 1) == Written(w, v, z + 1) <==> OneRun(w, v, x, z)
    decreases z
  {
    if x < z {
      WrittenGrows(w, v, x + 1, z);
      if ObjOf(w, v, z) == ObjOf(w, v, z - 1) {
        OneRunUnwritten(w, v, x, z - 1);
      }
    }
  }

  /** A symbol whose loaded object says something: persisted, and not inline. */
  ghost predicate Owned(w: World, i: nat) {
    Persisted(w, i) && SymAt(w, i).state != Inline
  }

  /** Two symbols are found again, and share an object after loading exactly when they did before. */
  ghost predicate SharesAlike(w: World, u: World, i: nat, j: nat) {
    var t, t' := Find(u.syms, SymAt(w, i).name), Find(u.syms, SymAt(w, j).name);
    t >= 0 && t' >= 0 && (SymAt(u, t).obj == SymAt(u, t').obj <==> SymAt(w, i).obj == SymAt(w, j).obj)
  }

  /** Two symbols share an object after loading if and only if they and all between them did before. */
  lemma SharingExactly(w: World, v: seq<nat>, x: nat, z: nat)
    requires Listing(w, v) && Dumpable(w, v) && x <= z < |v| && Owned(w, v[x]) && Owned(w, v[z])
    ensures var lines := Dump(w, v, |v|).lines;
            && Load(FRESH, lines, |lines|).Some?
            && var u := Load(FRESH, lines, |lines|).value.w;
               var t, t' := Find(u.syms, SymAt(w, v[x]).name), Find(u.syms, SymAt(w, v[z]).name);
               t >= 0 && t' >= 0 && (SymAt(u, t).obj == SymAt(u, t').obj <==> OneRun(w, v, x, z))
  {
    hide Dumpable, Listing, Dump, Load, Written, OneRun, Starts;
    FoundWithOwner(w, v, x);
    FoundWithOwner(w, v, z);
    SourceIsWritten(w, v, x + 1);
    SourceIsWritten(w, v, z + 1);
    OneRunUnwritten(w, v, x, z);
  }

  /** Between two symbols of one object there are only symbols of that object. */
  ghost predicate Grouped(w: World, v: seq<nat>) {
    forall x, z | 0 <= x <= z < |v| && Owned(w, v[x]) && Owned(w, v[z]) && ObjOf(w, v, x) == ObjOf(w, v, z) ::
      OneRun(w, v, x, z)
  }

  /** Loading the dump gives u. */
  ghost predicate LoadedInto(w: World, v: seq<nat>, u: World) {
    var lines := Dump(w, v, |v|).lines;
    Load(FRESH, lines, |lines|).Some? && Load(FRESH, lines, |lines|).value.w == u
  }

  lemma PairShares(w: World, v: seq<nat>, u: World, x: nat, z: nat)
    requires Listing(w, v) && Dumpable(w, v) && x <= z < |v| && Owned(w, v[x]) && Owned(w, v[z])
    requires LoadedInto(w, v, u)
    ensures SharesAlike(w, u, v[x], v[z]) && SharesAlike(w, u, v[z], v[x])
            <==> (SymAt(w, v[x]).obj == SymAt(w, v[z]).obj ==> OneRun(w, v, x, z))
  {
    hide Dumpable, Listing, Dump, Load, Owned;
    SharingExactly(w, v, x, z);
    assert OneRun(w, v, x, z) ==> ObjOf(w, v, x) == ObjOf(w, v, z);
  }

  /** Loading a dump restores which symbols share an object if and only if the dump keeps the symbols of each
      object together. */
  lemma SharingRestored(w: World, v: seq<nat>)
    requires UniqueNames(w) && FlushVector(w, v) && Dumpable(w, v)
    ensures var lines := Dump(w, v, |v|).lines;
            && Load(FRESH, lines, |lines|).Some?
            && var u := Load(FRESH, lines, |lines|).value.w;
               (forall i, j | 0 <= i < |w.syms| && 0 <= j < |w.syms| && Owned(w, i) && Owned(w, j) ::
                  SharesAlike(w, u, i, j))
               <==> Grouped(w, v)
  {
    DumpReadBack(w, v, |v|);
    var u := Load(FRESH, Dump(w, v, |v|).lines, |Dump(w, v, |v|).lines|).value.w;
    if Grouped(w, v) {
      forall i, j | 0 <= i < |w.syms| && 0 <= j < |w.syms| && Owned(w, i) && Owned(w, j)
        ensures SharesAlike(w, u, i, j)
      {
        GroupedShares(w, v, u, i, j);
      }
    } else {
      var x, z :| 0 <= x <= z < |v| && Owned(w, v[x]) && Owned(w, v[z]) && ObjOf(w, v, x) == ObjOf(w, v, z)
                  && !OneRun(w, v, x, z);
      PairShares(w, v, u, x, z);
      assert v[x] < |w.syms| && v[z] < |w.syms|;
    }
  }

  lemma GroupedShares(w: World, v: seq<nat>, u: World, i: nat, j: nat)
    requires UniqueNames(w) && FlushVector(w, v) && Dumpable(w, v) && Grouped(w, v)
    requires i < |w.syms| && j < |w.syms| && Owned(w, i) && Owned(w, j)
    requires LoadedInto(w, v, u)
    ensures SharesAlike(w, u, i, j)
  {
    hide Dumpable, LoadedInto, SharesAlike;
    assert i in v && j in v;
    var x :| 0 <= x < |v| && v[x] == i;
    var z :| 0 <= z < |v| && v[z] == j;
    assert Listing(w, v);
    if x <= z {
      PairShares(w, v, u, x, z);
    } else {
      PairShares(w, v, u, z, x);
    }
  }

  // --- When the dump keeps objects together ------------------------------------------------------

  /** No two symbols belong to different objects of the same source. */
  ghost predicate OneObjectPerSource(w: World) {
    forall i: nat, j: nat {:trigger SymSource(w, i), SymSource(w, j)} ::
      SymSource(w, i).Some? && SymSource(w, i) == SymSource(w, j) ==> SymAt(w, i).obj == SymAt(w, j).obj
  }

  lemma Contiguous(w: World, address: nat -> int, v: seq<nat>, x: nat, y: nat, z: nat)
    requires Addresses(address) && Sorted(w, address, v) && OneObjectPerSource(w)
    requires x <= y <= z < |v| && SymAt(w, v[x]).obj == SymAt(w, v[z]).obj && SourceOf(w, SymAt(w, v[z]).obj).Some?
    ensures SymAt(w, v[y]).obj == SymAt(w, v[z]).obj
  {
    if x < y < z {
      assert FlushCompare(w, address, v[x], v[y]) <= 0;
      assert FlushCompare(w, address, v[y], v[z]) <= 0;
      assert SymSource(w, v[y]) == SymSource(w, v[z]);
    }
  }

  /** With one object for each source, sorting keeps the symbols of each object together. */
  lemma SortedIsGrouped(w: World, address: nat -> int, v: seq<nat>)
    requires Addresses(address) && Sorted(w, address, v) && OneObjectPerSource(w)
    ensures Grouped(w, v)
  {
    forall x, z | 0 <= x <= z < |v| && Owned(w, v[x]) && Owned(w, v[z]) && ObjOf(w, v, x) == ObjOf(w, v, z)
      ensures OneRun(w, v, x, z)
    {
      forall y | x <= y <= z ensures ObjOf(w, v, y) == ObjOf(w, v, z) {
        Contiguous(w, address, v, x, y, z);
      }
    }
  }
}
