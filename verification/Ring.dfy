/** The circular list of DS_InitList, DS_AppendLink, DS_InsertLink and DS_RemoveLink. */
module Ring {
  import opened GtsOrder

  /** Index i + 1, or i - 1, all round a ring of n links. */
  function Succ(i: int, n: int): int {
    if i + 1 == n then 0 else i + 1
  }

  function Pred(i: int, n: int): int {
    if i == 0 then n - 1 else i - 1
  }

  class DSLink {
    var next: DSLink?
    var prev: DSLink?
    var thing: object?

    constructor (thing: object?)
      ensures next == null && prev == null && this.thing == thing
    {
      next, prev, this.thing := null, null, thing;
    }
  }

  /** next and prev are inverse to one another, all round. */
  ghost predicate Linked(ring: seq<DSLink>)
    reads ring
  {
    && Distinct(ring)
    && (forall i {:trigger ring[i].next} | 0 <= i < |ring| :: ring[i].next == ring[Succ(i, |ring|)])
    && (forall i {:trigger ring[i].prev} | 0 <= i < |ring| :: ring[i].prev == ring[Pred(i, |ring|)])
  }

  /** Index i of a ring without its k-th link, in the whole ring. */
  function Skip(i: int, k: int): int {
    if i < k then i else i + 1
  }

  type Links = map<DSLink, DSLink?>

  ghost function Nexts(ring: seq<DSLink>): (m: Links)
    reads ring
  {
    map x | x in ring :: x.next
  }

  ghost function Prevs(ring: seq<DSLink>): (m: Links)
    reads ring
  {
    map x | x in ring :: x.prev
  }

  /** The ring as its links were at some moment. */
  ghost predicate WasLinked(ring: seq<DSLink>, nexts: Links, prevs: Links) {
    && Distinct(ring)
    && (forall x | x in ring :: x in nexts && x in prevs)
    && (forall i {:trigger nexts[ring[i]]} | 0 <= i < |ring| :: nexts[ring[i]] == ring[Succ(i, |ring|)])
    && (forall i {:trigger prevs[ring[i]]} | 0 <= i < |ring| :: prevs[ring[i]] == ring[Pred(i, |ring|)])
  }

  lemma Remember(ring: seq<DSLink>, k: nat)
    requires Linked(ring) && k < |ring|
    ensures WasLinked(ring, Nexts(ring), Prevs(ring))
    ensures ring[k].next == ring[Succ(k, |ring|)] && ring[k].prev == ring[Pred(k, |ring|)]
  {
  }

  /** With its neighbours joined, the ring without the k-th link is linked. */
  lemma StillLinked(was: seq<DSLink>, nexts: Links, prevs: Links, k: nat)
    requires WasLinked(was, nexts, prevs) && 0 < k < |was|
    requires forall x | x in was && x != was[k] ::
               && x.next == (if x == prevs[was[k]] then nexts[was[k]] else nexts[x])
               && x.prev == (if x == nexts[was[k]] then prevs[was[k]] else prevs[x])
    ensures Linked(was[..k] + was[k + 1..])
  {
    var ring := was[..k] + was[k + 1..];
    forall i | 0 <= i < |ring| ensures ring[i].next == ring[Succ(i, |ring|)] && ring[i].prev == ring[Pred(i, |ring|)] {
      hide WasLinked, Linked;
      SkipAll(was, nexts, prevs, k, i);
      SkipSteps(|was|, k, i);
      WasAt(was, nexts, prevs, k, k);
      WasAt(was, nexts, prevs, Skip(i, k), Pred(k, |was|));
      WasAt(was, nexts, prevs, Skip(i, k), Succ(k, |was|));
    }
    StillDistinct(was, nexts, prevs, k);
  }

  lemma StillDistinct(was: seq<DSLink>, nexts: Links, prevs: Links, k: nat)
    requires WasLinked(was, nexts, prevs) && 0 < k < |was|
    ensures Distinct(was[..k] + was[k + 1..])
  {
  }

  /** The i-th link without the k-th, and its neighbours, in the whole ring. */
  lemma SkipAll(was: seq<DSLink>, nexts: Links, prevs: Links, k: nat, i: nat)
    requires WasLinked(was, nexts, prevs) && 0 < k < |was| && i < |was| - 1
    ensures var ring := was[..k] + was[k + 1..];
            && ring[i] == was[Skip(i, k)] && ring[i] in was && ring[i] != was[k]
            && ring[Succ(i, |ring|)] == was[Skip(Succ(i, |ring|), k)]
            && ring[Pred(i, |ring|)] == was[Skip(Pred(i, |ring|), k)]
  {
  }

  lemma WasAt(was: seq<DSLink>, nexts: Links, prevs: Links, i: nat, j: nat)
    requires WasLinked(was, nexts, prevs) && i < |was| && j < |was|
    ensures was[i] in nexts && was[i] in prevs
    ensures nexts[was[i]] == was[Succ(i, |was|)] && prevs[was[i]] == was[Pred(i, |was|)]
    ensures was[i] == was[j] <==> i == j
  {
  }

  /** Stepping round the ring without the k-th link is stepping round the whole one and over that link. */
  lemma SkipSteps(n: nat, k: nat, i: nat)
    requires 0 < k < n && i < n - 1
    ensures 0 <= Skip(i, k) < n && Skip(i, k) != k
    ensures Skip(Succ(i, n - 1), k) == if Skip(i, k) == Pred(k, n) then Succ(k, n) else Succ(Skip(i, k), n)
    ensures Skip(Pred(i, n - 1), k) == if Skip(i, k) == Succ(k, n) then Pred(k, n) else Pred(Skip(i, k), n)
  {
  }

  /** With lnk between its last link and its first the ring is linked. */
  lemma AppendedIsLinked(was: seq<DSLink>, nexts: Links, prevs: Links, lnk: DSLink)
    requires WasLinked(was, nexts, prevs) && was != [] && lnk !in was
    requires lnk.next == was[0] && lnk.prev == was[|was| - 1]
    requires forall x | x in was ::
               && x.next == (if x == was[|was| - 1] then lnk else nexts[x])
               && x.prev == (if x == was[0] then lnk else prevs[x])
    ensures Linked(was + [lnk])
  {
    var ring := was + [lnk];
    forall i | 0 <= i < |was| ensures ring[i].next == ring[Succ(i, |ring|)] && ring[i].prev == ring[Pred(i, |ring|)] {
      hide WasLinked, Linked;
      WasAt(was, nexts, prevs, i, |was| - 1);
      WasAt(was, nexts, prevs, i, 0);
      assert was[i] in was;
    }
  }

  /** With lnk between its first link and the next one the ring is linked. */
  lemma InsertedIsLinked(was: seq<DSLink>, nexts: Links, prevs: Links, lnk: DSLink)
    requires WasLinked(was, nexts, prevs) && was != [] && lnk !in was
    requires lnk.next == was[Succ(0, |was|)] && lnk.prev == was[0]
    requires forall x | x in was ::
               && x.next == (if x == was[0] then lnk else nexts[x])
               && x.prev == (if x == was[Succ(0, |was|)] then lnk else prevs[x])
    ensures Linked([was[0], lnk] + was[1..])
  {
    var ring := [was[0], lnk] + was[1..];
    var n := |ring|;
    assert forall i | 2 <= i < n :: ring[i] == was[i - 1];
    forall i | 0 <= i < n ensures ring[i].next == ring[Succ(i, n)] && ring[i].prev == ring[Pred(i, n)] {
      hide WasLinked, Linked;
      if i != 1 {
        var j := if i == 0 then 0 else i - 1;
        WasAt(was, nexts, prevs, j, 0);
        WasAt(was, nexts, prevs, j, Succ(0, |was|));
        assert was[j] in was;
      }
    }
  }

  class DSList {
    const link: DSLink
    /** The links in the order of next, the list's own link first. */
    ghost var ring: seq<DSLink>

    ghost predicate Valid()
      reads this, ring
    {
      |ring| > 0 && ring[0] == link && Linked(ring)
    }

    ghost function Contents(): seq<DSLink>
      reads this
      requires |ring| > 0
    {
      ring[1..]
    }

    constructor ()
      ensures Valid() && Contents() == [] && fresh(link)
    {
      link := new DSLink(null);
      new;
      link.next, link.prev := link, link;
      ring := [link];
    }

    /** DS_InitList, on a list that may be in use. */
    method InitList()
      modifies this, link
      ensures Valid() && Contents() == [] && link.thing == null
    {
      link.next := link;
      link.prev := link;
      link.thing := null;
      ring := [link];
    }

    /** DS_ListEmpty */
    method ListEmpty() returns (empty: bool)
      requires Valid()
      ensures empty <==> Contents() == []
    {
      assert ring[0].next == ring[Succ(0, |ring|)];
      empty := link.next == link;
    }

    /** DS_AppendLink */
    method AppendLink(lnk: DSLink)
      requires Valid() && lnk !in ring
      modifies this, link`prev, link.prev`next, lnk`next, lnk`prev
      ensures Valid() && Contents() == old(Contents()) + [lnk]
    {
      hide Linked, WasLinked, Distinct;
      ghost var was, nexts, prevs := ring, Nexts(ring), Prevs(ring);
      Remember(ring, 0);
      lnk.next := link;
      lnk.prev := link.prev;
      link.prev.next := lnk;
      link.prev := lnk;
      ring := ring + [lnk];
      AppendedIsLinked(was, nexts, prevs, lnk);
    }

    /** DS_InsertLink */
    method InsertLink(lnk: DSLink)
      requires Valid() && lnk !in ring
      modifies this, link`next, link.next`prev, lnk`next, lnk`prev
      ensures Valid() && Contents() == [lnk] + old(Contents())
    {
      hide Linked, WasLinked, Distinct;
      ghost var was, nexts, prevs := ring, Nexts(ring), Prevs(ring);
      Remember(ring, 0);
      lnk.next := link.next;
      lnk.prev := link;
      link.next.prev := lnk;
      link.next := lnk;
      ring := [link, lnk] + ring[1..];
      InsertedIsLinked(was, nexts, prevs, lnk);
    }

    /** DS_RemoveLink, which is not told the list; lst is the one that lnk is in. */
    static method RemoveLink(lnk: DSLink, ghost lst: DSList)
      requires lst.Valid() && lnk in lst.Contents()
      modifies lst, lnk`next, lnk`prev, lnk.next`prev, lnk.prev`next
      ensures lst.Valid() && lst.Contents() == Without(old(lst.Contents()), lnk)
      ensures lnk.next == null && lnk.prev == null && lnk !in lst.ring
      ensures forall x | x in lst.ring :: x in old(lst.ring)
    {
      hide Linked, Distinct, Without, WasLinked;
      ghost var was := lst.ring;
      ghost var k :| 1 <= k < |was| && was[k] == lnk;
      ghost var nexts, prevs := Nexts(was), Prevs(was);
      Remember(was, k);
      Apart(was, k);
      lnk.next.prev := lnk.prev;
      lnk.prev.next := lnk.next;
      lnk.next := null;
      lnk.prev := null;
      lst.ring := was[..k] + was[k + 1..];
      StillLinked(was, nexts, prevs, k);
      assert lst.Contents() == was[1..][..k - 1] + was[1..][k..];
    }

    /** The loop that follows next from DS_ListHead until DS_ListIterDone. */
    method Forward() returns (met: seq<DSLink>)
      requires Valid()
      ensures met == Contents()
    {
      assert ring[0].next == ring[Succ(0, |ring|)];
      met := [];
      var lnk := link.next;
      while lnk != link
        invariant |met| < |ring| && met == ring[1..|met| + 1] && lnk == ring[Succ(|met|, |ring|)]
        decreases |ring| - |met|
      {
        met := met + [lnk];
        assert ring[|met|].next == lnk.next;
        lnk := lnk.next;
      }
    }

    /** The loop that follows prev from DS_ListTail until DS_ListIterDone. */
    method Backward() returns (met: seq<DSLink>)
      requires Valid()
      ensures met == Reverse(Contents()) && |met| == |Contents()|
      ensures forall k | 0 <= k < |met| :: met[k] == Contents()[|met| - 1 - k]
    {
      assert ring[0].prev == ring[Pred(0, |ring|)];
      met := [];
      var lnk := link.prev;
      ghost var k := |ring| - 1;
      assert ring[k + 1..] == [];
      while lnk != link
        invariant 0 <= k < |ring| && met == Reverse(ring[k + 1..]) && lnk == ring[k]
        decreases k
      {
        assert ring[k..] == [lnk] + ring[k + 1..];
        assert lnk.prev == ring[k].prev;
        met := met + [lnk];
        lnk := lnk.prev;
        k := k - 1;
      }
      forall i | 0 <= i < |met| ensures met[i] == Contents()[|met| - 1 - i] {
        ReverseAt(Contents(), i);
      }
    }
  }

  function Without<T(==)>(s: seq<T>, x: T): seq<T> {
    if s == [] then [] else if s[0] == x then s[1..] else [s[0]] + Without(s[1..], x)
  }

  lemma {:induction false} WithoutAt<T>(s: seq<T>, k: nat)
    requires k < |s| && Distinct(s)
    ensures Without(s, s[k]) == s[..k] + s[k + 1..]
  {
    if k > 0 {
      WithoutAt(s[1..], k - 1);
      assert s[..k] == [s[0]] + s[1..][..k - 1];
    }
  }

  function Reverse<T>(s: seq<T>): (r: seq<T>)
    ensures |r| == |s|
  {
    if s == [] then [] else Reverse(s[1..]) + [s[0]]
  }

  lemma Apart(s: seq<DSLink>, k: nat)
    requires Linked(s) && 0 < k < |s|
    ensures Without(s[1..], s[k]) == s[1..][..k - 1] + s[1..][k..] && s[k] !in s[..k] + s[k + 1..]
  {
    WithoutAt(s[1..], k - 1);
  }

  /** Removing undoes appending and inserting. */
  lemma {:induction false} AddedAndRemoved(s: seq<DSLink>, x: DSLink)
    requires x !in s
    ensures Without(s + [x], x) == s == Without([x] + s, x)
  {
    if s != [] {
      AddedAndRemoved(s[1..], x);
      assert (s + [x])[1..] == s[1..] + [x];
    }
    assert ([x] + s)[1..] == s;
  }

  lemma {:induction false} ReverseAt<T>(s: seq<T>, k: nat)
    requires k < |s|
    ensures Reverse(s)[k] == s[|s| - 1 - k]
  {
    if |s| > 1 {
      ReverseAt(s[1..], if k < |s| - 1 then k else 0);
    }
  }

  // --- Whole runs -----------------------------------------------------------------------------------

  datatype Op = Init | Append(lnk: DSLink) | Insert(lnk: DSLink) | Remove(lnk: DSLink)

  /** What an operation makes of the list's contents. */
  function After(s: seq<DSLink>, op: Op): seq<DSLink> {
    match op
    case Init => []
    case Append(x) => s + [x]
    case Insert(x) => [x] + s
    case Remove(x) => Without(s, x)
  }

  function AfterAll(s: seq<DSLink>, ops: seq<Op>): seq<DSLink>
    decreases |ops|
  {
    if ops == [] then s else AfterAll(After(s, ops[0]), ops[1..])
  }

  /** Only links that are not in the list are added and only links of the list are removed. */
  predicate Allowed(lst: DSList, s: seq<DSLink>, ops: seq<Op>)
    decreases |ops|
  {
    ops == [] || (
      && (match ops[0] case Init => true case Remove(x) => x in s case Append(x) => x != lst.link && x !in s
          case Insert(x) => x != lst.link && x !in s)
      && Allowed(lst, After(s, ops[0]), ops[1..]))
  }

  /** The links that a run may touch. */
  function Touched(ops: seq<Op>): set<DSLink> {
    set op | op in ops && !op.Init? :: op.lnk
  }

  /** Any run keeps the ring closed both ways and does to its contents what it does to a sequence. */
  method Run(lst: DSList, ops: seq<Op>)
    requires lst.Valid() && Allowed(lst, lst.Contents(), ops)
    modifies lst, lst.ring, Touched(ops)
    ensures lst.Valid() && lst.Contents() == AfterAll(old(lst.Contents()), ops)
  {
    assert ops[0..] == ops;
    for i := 0 to |ops|
      invariant lst.Valid() && Allowed(lst, lst.Contents(), ops[i..])
      invariant AfterAll(lst.Contents(), ops[i..]) == AfterAll(old(lst.Contents()), ops)
      invariant forall x | x in lst.ring :: x in old(lst.ring) || x in Touched(ops)
    {
      assert ops[i..][0] == ops[i] && ops[i..][1..] == ops[i + 1..];
      assert !ops[i].Init? ==> ops[i].lnk in Touched(ops);
      Perform(lst, ops[i]);
    }
  }

  method Perform(lst: DSList, op: Op)
    requires lst.Valid() && Allowed(lst, lst.Contents(), [op])
    modifies lst, lst.ring, if op.Init? then {} else {op.lnk}
    ensures lst.Valid() && lst.Contents() == After(old(lst.Contents()), op)
    ensures forall x | x in lst.ring :: x in old(lst.ring) || (!op.Init? && x == op.lnk)
  {
    match op
    case Init => lst.InitList();
    case Append(x) => lst.AppendLink(x);
    case Insert(x) => lst.InsertLink(x);
    case Remove(x) => DSList.RemoveLink(x, lst);
  }
}
