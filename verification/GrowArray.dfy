/** The growable array of pointers and the stack on top of it. */
module GrowArray {
  import opened GtsOrder

  type Pointer = object?

  // --- Capacities -----------------------------------------------------------------------------------

  ghost predicate IsCapacity(n: int) {
    n == 0 || exists k: nat :: n == 16 * Pow2(k)
  }

  /** start doubled until it reaches min. */
  function Doubled(start: nat, min: int): (r: nat)
    requires start > 0
    ensures r >= start && r >= min
    decreases min - start
  {
    if start < min then Doubled(start + start, min) else start
  }

  lemma {:induction false} DoubledIsLeast(start: nat, min: int)
    requires start > 0 && IsCapacity(start)
    ensures IsCapacity(Doubled(start, min))
    ensures Doubled(start, min) == start || Doubled(start, min) < 2 * min
    decreases min - start
  {
    if start < min {
      var k: nat :| start == 16 * Pow2(k);
      assert 16 * Pow2(k + 1) == start + start;
      DoubledIsLeast(start + start, min);
    }
  }

  function NewSizeOf(alloc: nat, min: int): nat {
    Doubled(if alloc > 16 then alloc else 16, min)
  }

  /** The capacity after GuaranteeSize(iSize): it grows, or is only copied, when it equals iSize too. */
  function Guaranteed(alloc: nat, iSize: int): nat {
    if alloc <= iSize then NewSizeOf(alloc, iSize) else alloc
  }

  lemma GuaranteedIsCapacity(alloc: nat, iSize: int)
    requires IsCapacity(alloc)
    ensures IsCapacity(Guaranteed(alloc, iSize)) && Guaranteed(alloc, iSize) >= alloc
    ensures iSize >= 0 ==> Guaranteed(alloc, iSize) >= 16
    ensures Guaranteed(alloc, iSize) >= iSize
    ensures alloc == iSize >= 16 ==> Guaranteed(alloc, iSize) == alloc
  {
    assert 16 == 16 * Pow2(0);
    if alloc > 0 {
      var k: nat :| alloc == 16 * Pow2(k);
    }
    DoubledIsLeast(if alloc > 16 then alloc else 16, iSize);
  }

  /** Capacity, and pointers copied so far, after n elements were added to a new array. */
  datatype Growth = Growth(alloc: nat, copied: nat)

  function AddRun(n: nat): Growth {
    if n == 0 then Growth(0, 0)
    else
      var g := AddRun(n - 1);
      Growth(Guaranteed(g.alloc, n), g.copied + if g.alloc <= n then g.alloc else 0)
  }

  /** Every capacity is copied twice: once to one of the same size when it is reached, once to the next. */
  lemma {:induction false} AddRunExactly(n: nat)
    requires n > 0
    ensures var g := AddRun(n);
            && IsCapacity(g.alloc) && n <= g.alloc && (g.alloc == 16 || g.alloc < 2 * n) && g.alloc >= 16
            && g.copied == 2 * g.alloc - 32 + if n == g.alloc then g.alloc else 0
  {
    if n == 1 {
      GuaranteedIsCapacity(0, 1);
      assert AddRun(0) == Growth(0, 0);
      assert Guaranteed(0, 1) == 16;
    } else {
      AddRunExactly(n - 1);
      var a := AddRun(n - 1).alloc;
      GuaranteedIsCapacity(a, n);
      if n == a + 1 {
        assert Doubled(a, n) == Doubled(a + a, n) == a + a;
      }
    }
  }

  /** Adding n elements to a new array copies at most 4n pointers. */
  lemma AddRunBound(n: nat)
    ensures AddRun(n).copied <= 4 * n && IsCapacity(AddRun(n).alloc) && n <= AddRun(n).alloc
  {
    if n > 0 {
      AddRunExactly(n);
    }
  }

  // --- Additions and deletions ----------------------------------------------------------------------

  datatype Edit = Append(t: Pointer) | Drop(nIndex: nat)

  function Edited(s: seq<Pointer>, e: Edit): seq<Pointer> {
    match e
    case Append(t) => s + [t]
    case Drop(i) => if i < |s| then s[..i] + s[i + 1..] else s
  }

  /** The elements of a new array after the edits. */
  function EditedAll(es: seq<Edit>): seq<Pointer> {
    if es == [] then [] else Edited(EditedAll(es[..|es| - 1]), es[|es| - 1])
  }

  /** The greatest size so far. */
  function Peak(es: seq<Edit>): nat {
    if es == [] then 0
    else
      var p, n := Peak(es[..|es| - 1]), |EditedAll(es)|;
      if n > p then n else p
  }

  /** The least capacity for p elements. */
  function Capacity(p: nat): nat {
    if p == 0 then 0 else Doubled(16, p)
  }

  /** The pointers that the edits copy: an addition that fills the capacity for the greatest size so far, or
      exceeds it, copies that capacity. */
  function Copies(es: seq<Edit>): nat {
    if es == [] then 0
    else
      var before := es[..|es| - 1];
      var c := Capacity(Peak(before));
      Copies(before) + if es[|es| - 1].Append? && |EditedAll(before)| + 1 >= c then c else 0
  }

  lemma {:induction false} DoubledTwice(start: nat, p: int, q: int)
    requires start > 0 && p <= q
    ensures Doubled(Doubled(start, p), q) == Doubled(start, q)
    decreases p - start
  {
    if start < p {
      DoubledTwice(start + start, p, q);
    }
  }

  /** Deletions do not matter to the capacity: it is always the least one for the greatest size so far. */
  lemma CapacityOfPeak(p: nat, n: nat)
    requires 0 < n <= p + 1
    ensures Guaranteed(Capacity(p), n) == Capacity(if n > p then n else p)
  {
    if n > p {
      DoubledTwice(16, p, n);
    }
  }

  lemma {:induction false} SizeWithinPeak(es: seq<Edit>)
    ensures |EditedAll(es)| <= Peak(es)
  {
  }

  // --- The array ------------------------------------------------------------------------------------

  function IndexOf(s: seq<Pointer>, x: Pointer): (r: int)
    ensures -1 <= r < |s| && (r >= 0 ==> s[r] == x) && (r < 0 <==> x !in s)
    ensures forall j | 0 <= j < r :: s[j] != x
  {
    if s == [] then -1
    else if s[0] == x then 0
    else
      var r := IndexOf(s[1..], x);
      if r < 0 then -1 else r + 1
  }

  class CXP_GrowableArray {
    var m_pData: array?<Pointer>
    var m_iSize: int
    var m_iAllocSize: int
    /** Pointers that XP_BCOPY has moved. */
    ghost var copied: nat

    ghost predicate Valid()
      reads this
    {
      && 0 <= m_iSize <= m_iAllocSize && IsCapacity(m_iAllocSize)
      && (m_pData == null <==> m_iAllocSize == 0)
      && (m_pData != null ==> m_pData.Length == m_iAllocSize)
    }

    ghost function Contents(): (s: seq<Pointer>)
      reads this, m_pData
      requires Valid()
      ensures |s| == m_iSize
    {
      if m_pData == null then [] else m_pData[..m_iSize]
    }

    method NewSize(iMinSize: int) returns (iNewSize: int)
      requires Valid()
      ensures iNewSize == NewSizeOf(m_iAllocSize, iMinSize)
    {
      iNewSize := if m_iAllocSize > 16 then m_iAllocSize else 16;
      while iNewSize < iMinSize
        invariant iNewSize > 0 && Doubled(iNewSize, iMinSize) == NewSizeOf(m_iAllocSize, iMinSize)
        decreases iMinSize - iNewSize
      {
        iNewSize := iNewSize + iNewSize;
      }
    }

    method GuaranteeSize(iSize: int)
      requires Valid()
      modifies this`m_pData, this`m_iAllocSize, this`copied
      ensures Valid() && Contents() == old(Contents())
      ensures m_iAllocSize == Guaranteed(old(m_iAllocSize), iSize) >= iSize
      ensures copied == old(copied) + if old(m_iAllocSize) <= iSize then old(m_iAllocSize) else 0
      ensures m_pData == old(m_pData) || fresh(m_pData)
    {
      GuaranteedIsCapacity(m_iAllocSize, iSize);
      if m_iAllocSize <= iSize {
        var iNewSize := NewSize(iSize);
        var pNewData := new Pointer[iNewSize];
        if m_iAllocSize != 0 {
          forall i | 0 <= i < m_iAllocSize {
            pNewData[i] := m_pData[i];
          }
          copied := copied + m_iAllocSize;
        }
        m_pData := pNewData;
        m_iAllocSize := iNewSize;
      }
    }

    constructor (iStartSize: int)
      ensures Valid() && Contents() == [] && copied == 0 && (m_pData != null ==> fresh(m_pData))
      ensures m_iAllocSize == if iStartSize == 0 then 0 else Guaranteed(0, iStartSize)
      ensures iStartSize == 0 ==> m_pData == null
    {
      m_pData, m_iSize, m_iAllocSize, copied := null, 0, 0, 0;
      new;
      if iStartSize != 0 {
        GuaranteeSize(iStartSize);
      }
    }

    method SetSize(iSize: int)
      requires Valid() && 0 <= iSize
      modifies this
      ensures Valid() && m_iSize == iSize && (m_pData == old(m_pData) || fresh(m_pData))
      ensures m_iAllocSize == Guaranteed(old(m_iAllocSize), iSize)
      ensures copied == old(copied) + if old(m_iAllocSize) <= iSize then old(m_iAllocSize) else 0
      ensures forall i | 0 <= i < iSize && i < old(m_iSize) :: Contents()[i] == old(Contents())[i]
    {
      GuaranteeSize(iSize);
      m_iSize := iSize;
    }

    method Add(newElement: Pointer) returns (index: int)
      requires Valid()
      modifies this, m_pData
      ensures Valid() && Contents() == old(Contents()) + [newElement] && index == old(m_iSize)
      ensures m_iAllocSize == Guaranteed(old(m_iAllocSize), index + 1)
      ensures copied == old(copied) + if old(m_iAllocSize) <= index + 1 then old(m_iAllocSize) else 0
      ensures m_pData == old(m_pData) || fresh(m_pData)
    {
      GuaranteeSize(m_iSize + 1);
      m_pData[m_iSize] := newElement;
      index := m_iSize;
      m_iSize := m_iSize + 1;
    }

    /** The loop that moves the elements from nIndex on, or from 1 on, up by one place. */
    method ShuffleUp(n: int)
      requires m_pData != null && 0 <= n < m_iSize < m_pData.Length
      modifies m_pData
      ensures m_pData[..n] == old(m_pData[..n]) && m_pData[n + 1..m_iSize + 1] == old(m_pData[n..m_iSize])
    {
      var iLowerLimit := if n > 1 then n else 1;
      var data, i := m_pData, m_iSize;
      ghost var s := data[..m_iSize];
      while i >= iLowerLimit
        invariant iLowerLimit - 1 <= i <= m_iSize
        invariant forall j | 0 <= j <= i && j < m_iSize :: data[j] == s[j]
        invariant forall j | i <= j < m_iSize :: data[j + 1] == s[j]
      {
        data[i] := data[i - 1];
        i := i - 1;
      }
      assert data[..n] == s[..n];
      assert data[n + 1..m_iSize + 1] == s[n..];
    }

    /** The element is placed at n, in front of those that are there. */
    method Place(newElement: Pointer, n: int)
      requires m_pData != null && 0 <= n <= m_iSize < m_pData.Length
      modifies m_pData
      ensures m_pData[..m_iSize + 1] == old(m_pData[..n]) + [newElement] + old(m_pData[n..m_iSize])
    {
      if n < m_iSize {
        ShuffleUp(n);
        m_pData[n] := newElement;
      } else {
        m_pData[m_iSize] := newElement;
      }
      assert m_pData[..m_iSize + 1] == m_pData[..n] + [m_pData[n]] + m_pData[n + 1..m_iSize + 1];
    }

    method Insert(newElement: Pointer, nIndex: int) returns (index: int)
      requires Valid()
      modifies this, m_pData
      ensures Valid() && index == old(m_iSize) && (m_pData == old(m_pData) || fresh(m_pData))
      ensures m_iAllocSize == Guaranteed(old(m_iAllocSize), index + 1)
      ensures copied == old(copied) + if old(m_iAllocSize) <= index + 1 then old(m_iAllocSize) else 0
      ensures var s := old(Contents());
              var n := if nIndex < 0 then 0 else if nIndex < |s| then nIndex else |s|;
              Contents() == s[..n] + [newElement] + s[n..]
    {
      hide Guaranteed, IsCapacity;
      ghost var s := Contents();
      GuaranteeSize(m_iSize + 1);
      var n := if nIndex < 0 then 0 else nIndex;
      n := if n < m_iSize then n else m_iSize;
      assert m_pData[..n] == s[..n] && m_pData[n..m_iSize] == s[n..];
      Place(newElement, n);
      index := m_iSize;
      m_iSize := m_iSize + 1;
    }

    method Delete(nIndex: int) returns (index: int)
      requires Valid() && 0 <= nIndex
      modifies this`m_iSize, m_pData
      ensures Valid() && index == m_iSize - 1
      ensures var s := old(Contents());
              Contents() == if nIndex < |s| then s[..nIndex] + s[nIndex + 1..] else s
    {
      ghost var s, data := Contents(), m_pData;
      if nIndex < m_iSize {
        var i := nIndex;
        while i < m_iSize - 1
          invariant Valid() && nIndex <= i < m_iSize == |s| && m_pData == data
          invariant forall j | nIndex <= j < i :: data[j] == s[j + 1]
          invariant forall j | 0 <= j < nIndex || i <= j < |s| :: data[j] == s[j]
        {
          m_pData[i] := m_pData[i + 1];
          i := i + 1;
        }
        m_iSize := m_iSize - 1;
        assert Contents() == s[..nIndex] + s[nIndex + 1..];
      }
      index := m_iSize - 1;
    }

    /** The Delete that is given an element. */
    method DeleteElement(element: Pointer) returns (index: int)
      requires Valid()
      modifies this`m_iSize, m_pData
      ensures Valid() && index == m_iSize - 1
      ensures var s := old(Contents());
              var k := IndexOf(s, element);
              Contents() == if k < 0 then s else s[..k] + s[k + 1..]
    {
      var i := Find(element);
      if i >= 0 {
        index := Delete(i);
      } else {
        index := m_iSize - 1;
      }
    }

    method Find(element: Pointer) returns (index: int)
      requires Valid()
      ensures index == IndexOf(Contents(), element)
    {
      var i := 0;
      while i < m_iSize
        invariant 0 <= i <= m_iSize && element !in Contents()[..i]
      {
        if m_pData[i] == element {
          return i;
        }
        assert Contents()[..i + 1] == Contents()[..i] + [m_pData[i]];
        i := i + 1;
      }
      return -1;
    }

    method Empty()
      requires Valid()
      modifies this`m_iSize
      ensures Valid() && Contents() == []
    {
      m_iSize := 0;
    }
  }

  /** A run of additions to a new array. */
  method AddAll(xs: seq<Pointer>) returns (a: CXP_GrowableArray)
    ensures a.Valid() && a.Contents() == xs && a.copied <= 4 * |xs|
  {
    hide Doubled, Guaranteed, IsCapacity;
    a := new CXP_GrowableArray(0);
    for i := 0 to |xs|
      invariant a.Valid() && fresh(a) && (a.m_pData != null ==> fresh(a.m_pData)) && a.Contents() == xs[..i]
      invariant Growth(a.m_iAllocSize, a.copied) == AddRun(i)
    {
      var _ := a.Add(xs[i]);
    }
    AddRunBound(|xs|);
  }

  /** Any run of additions and deletions on a new array: what it holds, its capacity, and exactly what was copied. */
  method EditAll(es: seq<Edit>) returns (a: CXP_GrowableArray)
    ensures a.Valid() && a.Contents() == EditedAll(es)
    ensures a.m_iAllocSize == Capacity(Peak(es)) && a.copied == Copies(es)
  {
    hide Doubled, Guaranteed, IsCapacity, Capacity, EditedAll, Peak, Copies;
    a := new CXP_GrowableArray(0);
    NoEdits();
    for i := 0 to |es|
      invariant a.Valid() && fresh(a) && (a.m_pData != null ==> fresh(a.m_pData))
      invariant a.Contents() == EditedAll(es[..i])
      invariant a.m_iAllocSize == Capacity(Peak(es[..i])) && a.copied == Copies(es[..i])
    {
      assert es[..i + 1] == es[..i] + [es[i]];
      OneMore(es[..i], es[i]);
      SizeWithinPeak(es[..i]);
      match es[i] {
        case Append(t) =>
          CapacityOfPeak(Peak(es[..i]), a.m_iSize + 1);
          var _ := a.Add(t);
        case Drop(k) =>
          var _ := a.Delete(k);
      }
    }
    assert es[..|es|] == es;
  }

  lemma NoEdits()
    ensures EditedAll([]) == [] && Capacity(Peak([])) == 0 && Copies([]) == 0
  {
  }

  lemma OneMore(es: seq<Edit>, e: Edit)
    ensures var s, p, c := EditedAll(es), Peak(es), Capacity(Peak(es));
            && EditedAll(es + [e]) == Edited(s, e)
            && Peak(es + [e]) == (if |Edited(s, e)| > p then |Edited(s, e)| else p)
            && Copies(es + [e]) == Copies(es) + if e.Append? && |s| + 1 >= c then c else 0
  {
    assert (es + [e])[..|es|] == es;
  }

  /** So there is no bound for each edit: one element below its capacity an array is copied whole for every
      addition that a deletion follows. */
  method ChurnCopiesAll(a: CXP_GrowableArray, t: Pointer, rounds: nat)
    requires a.Valid() && a.m_iSize + 1 == a.m_iAllocSize
    modifies a, a.m_pData
    ensures a.Valid() && a.Contents() == old(a.Contents()) && a.m_iAllocSize == old(a.m_iAllocSize)
    ensures a.copied == old(a.copied) + rounds * a.m_iAllocSize
  {
    hide Doubled, Guaranteed, IsCapacity;
    for i := 0 to rounds
      invariant a.Valid() && (a.m_pData == old(a.m_pData) || fresh(a.m_pData))
      invariant a.Contents() == old(a.Contents()) && a.m_iAllocSize == old(a.m_iAllocSize)
      invariant a.copied == old(a.copied) + i * a.m_iAllocSize
    {
      FullStays(a);
      var index := a.Add(t);
      var _ := a.Delete(index);
      assert (i + 1) * a.m_iAllocSize == i * a.m_iAllocSize + a.m_iAllocSize;
    }
  }

  lemma FullStays(a: CXP_GrowableArray)
    requires a.Valid() && a.m_iSize + 1 == a.m_iAllocSize
    ensures Guaranteed(a.m_iAllocSize, a.m_iSize + 1) == a.m_iAllocSize
  {
    var k: nat :| a.m_iAllocSize == 16 * Pow2(k);
    GuaranteedIsCapacity(a.m_iAllocSize, a.m_iAllocSize);
  }

  // --- The stack ------------------------------------------------------------------------------------

  class CXP_PtrStack {
    const base: CXP_GrowableArray
    var m_iTop: int

    /** The array of a stack only ever grows by Add. */
    ghost predicate Valid()
      reads this, base
    {
      && base.Valid() && -1 <= m_iTop < base.m_iSize
      && Growth(base.m_iAllocSize, base.copied) == AddRun(base.m_iSize)
    }

    /** Bottom first. */
    ghost function Stack(): seq<Pointer>
      reads this, base, base.m_pData
      requires Valid()
    {
      base.Contents()[..m_iTop + 1]
    }

    constructor ()
      ensures Valid() && Stack() == [] && base.m_iSize == 0 && fresh(base) && base.m_pData == null
    {
      base := new CXP_GrowableArray(0);
      m_iTop := -1;
    }

    method IsEmpty() returns (r: bool)
      requires Valid()
      ensures r <==> Stack() == []
    {
      r := m_iTop == -1;
    }

    /** The array grows only when the stack is higher than it ever was. */
    method Push(t: Pointer)
      requires Valid()
      modifies this, base, base.m_pData
      ensures Valid() && Stack() == old(Stack()) + [t]
      ensures base.m_iSize == if |Stack()| > old(base.m_iSize) then |Stack()| else old(base.m_iSize)
      ensures base.m_pData == old(base.m_pData) || fresh(base.m_pData)
    {
      hide Guaranteed, IsCapacity;
      m_iTop := m_iTop + 1;
      if m_iTop >= base.m_iSize {
        var _ := base.Add(t);
      } else {
        base.m_pData[m_iTop] := t;
      }
    }

    method Top() returns (t: Pointer)
      requires Valid() && Stack() != []
      ensures t == Stack()[|Stack()| - 1]
    {
      t := base.m_pData[m_iTop];
    }

    method Pop() returns (t: Pointer)
      requires Valid() && Stack() != []
      modifies this`m_iTop
      ensures Valid() && old(Stack()) == Stack() + [t]
    {
      t := base.m_pData[m_iTop];
      m_iTop := m_iTop - 1;
    }

    method Reset()
      requires Valid()
      modifies this`m_iTop
      ensures Valid() && Stack() == []
    {
      m_iTop := -1;
    }

    method StackSize() returns (n: int)
      requires Valid()
      ensures n == |Stack()|
    {
      n := m_iTop + 1;
    }
  }

  // --- Whole runs of a stack ------------------------------------------------------------------------

  datatype Op = Push(t: Pointer) | Pop | Reset

  /** What an operation makes of a stack and of its greatest height so far. */
  function After(s: seq<Pointer>, op: Op): seq<Pointer> {
    match op
    case Push(t) => s + [t]
    case Pop => if s == [] then [] else s[..|s| - 1]
    case Reset => []
  }

  function AfterAll(s: seq<Pointer>, ops: seq<Op>): seq<Pointer> {
    if ops == [] then s else After(AfterAll(s, ops[..|ops| - 1]), ops[|ops| - 1])
  }

  function Height(ops: seq<Op>): nat {
    if ops == [] then 0
    else
      var h, n := Height(ops[..|ops| - 1]), |AfterAll([], ops)|;
      if n > h then n else h
  }

  /** Any run on a new stack, a pop of the empty stack left out, leaves what it leaves of a sequence, and
      copies at most four pointers for each level of its greatest height. */
  method Run(ops: seq<Op>) returns (s: CXP_PtrStack)
    ensures s.Valid() && s.Stack() == AfterAll([], ops)
    ensures s.base.m_iSize == Height(ops) && s.base.copied <= 4 * Height(ops)
  {
    hide AddRun, Guaranteed, IsCapacity;
    s := new CXP_PtrStack();
    for i := 0 to |ops|
      invariant fresh(s) && fresh(s.base) && (s.base.m_pData != null ==> fresh(s.base.m_pData))
      invariant s.Valid() && s.Stack() == AfterAll([], ops[..i]) && s.base.m_iSize == Height(ops[..i])
    {
      assert ops[..i + 1][..i] == ops[..i];
      match ops[i]
      case Push(t) => s.Push(t);
      case Pop =>
        var empty := s.IsEmpty();
        if !empty {
          var _ := s.Pop();
        }
      case Reset => s.Reset();
    }
    assert ops[..|ops|] == ops;
    AddRunBound(s.base.m_iSize);
  }
}
