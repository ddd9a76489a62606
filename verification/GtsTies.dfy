/** Which tables every dump restores with their sharing: flush_compare does not tell objects of one source apart, and
    qsort may put their symbols in any order. */
module GtsTies {
  import opened CText
  import opened GtsWorld
  import opened GtsOrder
  import opened GtsPasses
  import opened GtsDatabase
  import opened GtsRoundTrip
  import opened GtsSharing

  /** Two persisted symbols of one object, and a flushed symbol of another object with the same source. */
  ghost predicate Interleaves(w: World, a: nat, b: nat, c: nat) {
    && a < |w.syms| && b < |w.syms| && c < |w.syms| && a != c
    && Owned(w, a) && Owned(w, c) && IsFlushed(w.syms[b])
    && w.syms[a].obj == w.syms[c].obj && w.syms[b].obj != w.syms[a].obj
    && SymSource(w, b) == SymSource(w, a)
  }

  ghost predicate CanInterleave(w: World) {
    exists a, b, c :: Interleaves(w, a, b, c)
  }

  // --- Sorting one more symbol -------------------------------------------------------------------

  /** Everything before place j may stand before i, and everything from there on behind it. */
  ghost predicate PlaceOf(w: World, address: nat -> int, v: seq<nat>, i: nat, j: nat) {
    && j <= |v|
    && (forall k | 0 <= k < j :: FlushCompare(w, address, v[k], i) <= 0)
    && (forall k | j <= k < |v| :: FlushCompare(w, address, i, v[k]) <= 0)
  }

  lemma {:induction false} FindPlace(w: World, address: nat -> int, v: seq<nat>, i: nat) returns (j: nat)
    requires Addresses(address) && Sorted(w, address, v)
    ensures PlaceOf(w, address, v, i, j)
  {
    hide FlushCompare, Addresses;
    j := |v|;
    if v != [] {
      var n := |v| - 1;
      FlushIsPreorder(w, address, v[n], i, i);
      if FlushCompare(w, address, v[n], i) <= 0 {
        forall k | 0 <= k < n ensures FlushCompare(w, address, v[k], i) <= 0 {
          FlushIsPreorder(w, address, v[k], v[n], i);
        }
      } else {
        j := FindPlace(w, address, v[..n], i);
      }
    }
  }

  /** Symbols that compare equal. */
  ghost predicate Tied(w: World, address: nat -> int, block: seq<nat>) {
    block != [] && forall x, y | 0 <= x < |block| && 0 <= y < |block| :: FlushCompare(w, address, block[x], block[y]) == 0
  }

  lemma BlockSorted(w: World, address: nat -> int, v: seq<nat>, block: seq<nat>, j: nat)
    requires Addresses(address) && Sorted(w, address, v) && Tied(w, address, block)
    requires PlaceOf(w, address, v, block[0], j)
    ensures Sorted(w, address, v[..j] + block + v[j..])
  {
    hide FlushCompare, Addresses;
    forall k, x | 0 <= k < j && 0 <= x < |block| ensures FlushCompare(w, address, v[k], block[x]) <= 0 {
      FlushIsPreorder(w, address, v[k], block[0], block[x]);
    }
    forall k, x | j <= k < |v| && 0 <= x < |block| ensures FlushCompare(w, address, block[x], v[k]) <= 0 {
      FlushIsPreorder(w, address, block[x], block[0], v[k]);
    }
    var u := v[..j] + block + v[j..];
    forall x, y | 0 <= x < y < |u| ensures FlushCompare(w, address, u[x], u[y]) <= 0 {
      var b := |block|;
      assert u[x] == if x < j then v[x] else if x < j + b then block[x - j] else v[x - b];
      assert u[y] == if y < j then v[y] else if y < j + b then block[y - j] else v[y - b];
    }
  }

  /** A sorted list of the flushed symbols among the first n, some left out. */
  ghost predicate SortedRest(w: World, address: nat -> int, n: nat, out: set<nat>, v: seq<nat>) {
    && Sorted(w, address, v) && Distinct(v)
    && forall i: nat :: i in v <==> i < n && i < |w.syms| && IsFlushed(w.syms[i]) && i !in out
  }

  lemma {:induction false} SortRest(w: World, address: nat -> int, n: nat, out: set<nat>) returns (v: seq<nat>)
    requires Addresses(address) && n <= |w.syms|
    ensures SortedRest(w, address, n, out, v)
  {
    hide FlushCompare, Addresses;
    v := [];
    if n > 0 {
      v := SortRest(w, address, n - 1, out);
      if IsFlushed(w.syms[n - 1]) && n - 1 !in out {
        var j := FindPlace(w, address, v, n - 1);
        FlushSelf(w, address, n - 1);
        BlockSorted(w, address, v, [n - 1], j);
        Inserted(v, [n - 1], j);
        v := v[..j] + [n - 1] + v[j..];
      }
    }
  }

  lemma FlushSelf(w: World, address: nat -> int, i: nat)
    requires Addresses(address)
    ensures Tied(w, address, [i])
  {
    hide FlushCompare;
    FlushIsPreorder(w, address, i, i, i);
  }

  lemma Inserted(v: seq<nat>, block: seq<nat>, j: nat)
    requires Distinct(v) && Distinct(block) && j <= |v| && forall x | 0 <= x < |block| :: block[x] !in v
    ensures var u := v[..j] + block + v[j..];
            Distinct(u) && forall i: nat :: i in u <==> i in v || i in block
  {
    var u, b := v[..j] + block + v[j..], |block|;
    assert v == v[..j] + v[j..];
    forall x, y | 0 <= x < y < |u| ensures u[x] != u[y] {
      assert u[x] == if x < j then v[x] else if x < j + b then block[x - j] else v[x - b];
      assert u[y] == if y < j then v[y] else if y < j + b then block[y - j] else v[y - b];
    }
  }

  // --- The table ---------------------------------------------------------------------------------

  lemma TiedThree(w: World, address: nat -> int, a: nat, b: nat, c: nat)
    requires Interleaves(w, a, b, c)
    ensures Tied(w, address, [a, b, c]) && Distinct([a, b, c])
  {
  }

  lemma InterleavedDump(w: World, address: nat -> int, a: nat, b: nat, c: nat) returns (v: seq<nat>)
    requires Addresses(address) && Interleaves(w, a, b, c)
    ensures FlushVector(w, v) && Sorted(w, address, v) && !Grouped(w, v)
  {
    hide FlushCompare, Addresses;
    var rest := SortRest(w, address, |w.syms|, {a, b, c});
    var j := FindPlace(w, address, rest, a);
    var block := [a, b, c];
    TiedThree(w, address, a, b, c);
    BlockSorted(w, address, rest, block, j);
    Inserted(rest, block, j);
    v := rest[..j] + block + rest[j..];
    forall x | 0 <= x < |v| ensures v[x] < |w.syms| && IsFlushed(w.syms[v[x]]) {
      assert v[x] in v;
    }
    assert v[j] == a && v[j + 1] == b && v[j + 2] == c;
    assert ObjOf(w, v, j + 1) != ObjOf(w, v, j + 2);
  }

  lemma SortedTies(w: World, address: nat -> int, v: seq<nat>, x: nat, y: nat, z: nat)
    requires Addresses(address) && Sorted(w, address, v) && FlushVector(w, v) && x <= y <= z < |v|
    requires Owned(w, v[x]) && Owned(w, v[z]) && ObjOf(w, v, x) == ObjOf(w, v, z) != ObjOf(w, v, y)
    ensures Interleaves(w, v[x], v[y], v[z])
  {
    assert FlushCompare(w, address, v[x], v[y]) <= 0 && FlushCompare(w, address, v[y], v[z]) <= 0;
  }

  /** Every sorted dump of a table keeps the symbols of each object together if and only if the table has no two
      persisted symbols of one object and a flushed symbol of another object with the same source. */
  lemma AlwaysGrouped(w: World, address: nat -> int)
    requires Addresses(address)
    ensures (forall v | FlushVector(w, v) && Sorted(w, address, v) :: Grouped(w, v)) <==> !CanInterleave(w)
  {
    if CanInterleave(w) {
      var a, b, c :| Interleaves(w, a, b, c);
      var v := InterleavedDump(w, address, a, b, c);
    } else {
      forall v | FlushVector(w, v) && Sorted(w, address, v) ensures Grouped(w, v) {
        forall x, z | 0 <= x <= z < |v| && Owned(w, v[x]) && Owned(w, v[z]) && ObjOf(w, v, x) == ObjOf(w, v, z)
          ensures OneRun(w, v, x, z)
        {
          forall y | x <= y <= z ensures ObjOf(w, v, y) == ObjOf(w, v, z) {
            if ObjOf(w, v, y) != ObjOf(w, v, z) {
              SortedTies(w, address, v, x, y, z);
            }
          }
        }
      }
    }
  }

  /** Every flushed symbol can be written. */
  ghost predicate AllDumpable(w: World) {
    forall i | 0 <= i < |w.syms| && IsFlushed(w.syms[i]) ::
      && (Persisted(w, i) ==> LineName(SymAt(w, i).name))
      && (SymSource(w, i).Some? ==> Writable(SrcAt(w, SymSource(w, i).value)))
  }

  /** Loading the lines of the dump restores which symbols share an object. */
  ghost predicate RestoresSharing(w: World, v: seq<nat>) {
    var lines := Dump(w, v, |v|).lines;
    && Load(FRESH, lines, |lines|).Some?
    && forall i, j | 0 <= i < |w.syms| && 0 <= j < |w.syms| && Owned(w, i) && Owned(w, j) ::
         SharesAlike(w, Load(FRESH, lines, |lines|).value.w, i, j)
  }

  /** So a table is sure to get its sharing back from any dump that qsort may make if and only if it cannot
      interleave. */
  lemma SharingOfTable(w: World, address: nat -> int)
    requires Addresses(address) && UniqueNames(w) && AllDumpable(w)
    ensures (forall v | FlushVector(w, v) && Sorted(w, address, v) :: RestoresSharing(w, v)) <==> !CanInterleave(w)
  {
    hide Sorted, Grouped, RestoresSharing, CanInterleave;
    forall v | FlushVector(w, v) ensures RestoresSharing(w, v) <==> Grouped(w, v) {
      GroupedRestores(w, v);
    }
    AlwaysGrouped(w, address);
  }

  lemma GroupedRestores(w: World, v: seq<nat>)
    requires UniqueNames(w) && AllDumpable(w) && FlushVector(w, v)
    ensures RestoresSharing(w, v) <==> Grouped(w, v)
  {
    hide Grouped, Owned, SharesAlike, Dump, Load;
    assert Dumpable(w, v);
    SharingRestored(w, v);
  }

  // --- A table that loses it ---------------------------------------------------------------------

  /** f and h of one object, g of another object with the same source. */
  function TiedTable(src: Source): World {
    World([Sym("f", Some(0), 0, 0, Defined), Sym("h", Some(0), 0, 0, Defined), Sym("g", Some(1), 0, 0, Defined)],
          [NewObject(Some("a.o"), Some(0)), NewObject(Some("b.o"), Some(0))], [src])
  }

  lemma TiedTableDumps(src: Source, address: nat -> int)
    requires Writable(src)
    ensures var w := TiedTable(src);
            && Wf(w) && UniqueNames(w) && FlushVector(w, [0, 2, 1]) && Sorted(w, address, [0, 2, 1])
            && Dumpable(w, [0, 2, 1])
  {
    hide Writable, NoSpace;
    var w, v := TiedTable(src), [0, 2, 1];
    Letters();
    assert forall i | 0 <= i < 3 && IsFlushed(w.syms[i]) :: i in v by {
      assert v[0] == 0 && v[1] == 2 && v[2] == 1;
    }
  }

  lemma Letters()
    ensures "f" != "h" && "h" != "g" && "f" != "g" && LineName("f") && LineName("g") && LineName("h")
  {
    assert "f"[0] != "h"[0] && "h"[0] != "g"[0] && "f"[0] != "g"[0];
  }

  /** Dumped in the order f, g, h, which flush_compare accepts, f and h no longer share an object when loaded. */
  lemma TiesLoseSharing(src: Source, address: nat -> int) returns (u: World)
    requires Writable(src)
    ensures var w := TiedTable(src);
            && FlushVector(w, [0, 2, 1]) && Sorted(w, address, [0, 2, 1])
            && LoadedInto(w, [0, 2, 1], u) && !SharesAlike(w, u, 0, 1)
  {
    hide Writable, Sorted, FlushVector, Dumpable, Dump, Load, UniqueNames, Wf;
    var w, v := TiedTable(src), [0, 2, 1];
    TiedTableDumps(src, address);
    assert Listing(w, v) by {
      TiedTableLists(src, address);
    }
    SharingExactly(w, v, 0, 2);
    assert ObjOf(w, v, 1) == Some(1) && ObjOf(w, v, 2) == Some(0);
    var lines := Dump(w, v, |v|).lines;
    u := Load(FRESH, lines, |lines|).value.w;
  }

  lemma TiedTableLists(src: Source, address: nat -> int)
    requires Writable(src)
    ensures Listing(TiedTable(src), [0, 2, 1])
  {
    hide Writable;
    TiedTableDumps(src, address);
  }
}
