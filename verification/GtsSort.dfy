/** qsort: the library's sort, of which only this is known: the result has the same elements, and they are in
    an order that the comparison accepts if there is such an order. */
module GtsSort {

  /** Elements are compared where they are, in the heap, which sorting does not change. They come out sorted
      when the comparison is consistent, a total preorder on them, as the C standard asks of callers. */
  method Qsort<T>(v: seq<T>, cmp: (T, T) ~> int, ghost consistent: bool) returns (r: seq<T>)
    requires forall a, b | a in v && b in v :: cmp.requires(a, b)
    requires consistent ==> forall a, b | a in v && b in v :: cmp(a, b) > 0 ==> cmp(b, a) <= 0
    requires consistent ==> forall a, b, c | a in v && b in v && c in v ::
               cmp(a, b) <= 0 && cmp(b, c) <= 0 ==> cmp(a, c) <= 0
    ensures multiset(r) == multiset(v)
    ensures forall x | x in r :: x in v
    ensures forall i, j | 0 <= i < j < |r| :: cmp.requires(r[i], r[j]) && (consistent ==> cmp(r[i], r[j]) <= 0)
  {
    r := [];
    for i := 0 to |v|
      invariant multiset(r) == multiset(v[..i]) && forall x | x in r :: x in v
      invariant forall k, l | 0 <= k < l < |r| :: cmp.requires(r[k], r[l]) && (consistent ==> cmp(r[k], r[l]) <= 0)
    {
      r := InsertOne(r, v[i], cmp, consistent);
      assert v[..i + 1] == v[..i] + [v[i]];
      forall x | x in r ensures x in v {
        assert x in multiset(v[..i + 1]);
      }
    }
    assert v[..|v|] == v;
  }

  /** x is put behind the elements of r that it follows. */
  method InsertOne<T>(r: seq<T>, x: T, cmp: (T, T) ~> int, ghost consistent: bool) returns (s: seq<T>)
    requires forall k, l | 0 <= k < l < |r| :: cmp.requires(r[k], r[l]) && (consistent ==> cmp(r[k], r[l]) <= 0)
    requires forall a | a in r :: cmp.requires(a, x) && cmp.requires(x, a)
    requires forall a | a in r :: consistent && cmp(a, x) > 0 ==> cmp(x, a) <= 0
    requires forall a, b | a in r && b in r && cmp.requires(a, b) ::
               consistent && cmp(x, a) <= 0 && cmp(a, b) <= 0 ==> cmp(x, b) <= 0
    ensures multiset(s) == multiset(r) + multiset{x}
    ensures forall k, l | 0 <= k < l < |s| :: cmp.requires(s[k], s[l]) && (consistent ==> cmp(s[k], s[l]) <= 0)
  {
    var j := 0;
    while j < |r| && cmp(r[j], x) <= 0
      invariant j <= |r| && forall k | 0 <= k < j :: cmp(r[k], x) <= 0
    {
      j := j + 1;
    }
    s := r[..j] + [x] + r[j..];
    Inserted(r, x, j);
    if consistent {
      forall k | j <= k < |r| ensures cmp(x, r[k]) <= 0 {
        assert cmp(x, r[j]) <= 0;
      }
    }
  }

  lemma Inserted<T>(r: seq<T>, x: T, j: nat)
    requires j <= |r|
    ensures var s := r[..j] + [x] + r[j..];
            && multiset(s) == multiset(r) + multiset{x}
            && (forall k | 0 <= k < j :: s[k] == r[k]) && s[j] == x && (forall k | j < k < |s| :: s[k] == r[k - 1])
  {
    assert r == r[..j] + r[j..];
  }

  ghost function Mapped<T, U>(v: seq<T>, f: T -> U): (r: seq<U>)
    ensures |r| == |v| && forall i | 0 <= i < |v| :: r[i] == f(v[i])
  {
    seq(|v|, i requires 0 <= i < |v| => f(v[i]))
  }

  lemma MappedConcat<T, U>(a: seq<T>, b: seq<T>, f: T -> U)
    ensures Mapped(a + b, f) == Mapped(a, f) + Mapped(b, f)
  {
  }

  lemma WithoutOne<T, U>(b: seq<T>, p: nat, f: T -> U)
    requires p < |b|
    ensures multiset(b[..p] + b[p + 1..]) == multiset(b) - multiset{b[p]}
    ensures multiset(Mapped(b, f)) == multiset(Mapped(b[..p] + b[p + 1..], f)) + multiset{f(b[p])}
  {
    assert b == b[..p] + ([b[p]] + b[p + 1..]);
    MappedConcat(b[..p], [b[p]] + b[p + 1..], f);
    MappedConcat([b[p]], b[p + 1..], f);
    MappedConcat(b[..p], b[p + 1..], f);
    assert Mapped([b[p]], f) == [f(b[p])];
  }

  /** What is true of the elements of two permutations is true of their images. */
  lemma {:induction false} MappedPermuted<T, U>(a: seq<T>, b: seq<T>, f: T -> U)
    requires multiset(a) == multiset(b)
    ensures multiset(Mapped(a, f)) == multiset(Mapped(b, f))
    decreases |a|
  {
    if a == [] {
      assert |multiset(b)| == 0;
    } else {
      assert a[0] in multiset(b);
      var p :| 0 <= p < |b| && b[p] == a[0];
      WithoutOne(a, 0, f);
      WithoutOne(b, p, f);
      MappedPermuted(a[..0] + a[1..], b[..p] + b[p + 1..], f);
    }
  }
}
