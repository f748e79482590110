/** Sequence facts used by the resolver model, and PHP's `usort`. */
module Sequences {

  /** `a` is `b` with some elements left out, order kept. */
  predicate IsSubsequence<T(==)>(a: seq<T>, b: seq<T>)
    decreases |b|
  {
    if a == [] then true
    else if b == [] then false
    else if a[|a| - 1] == b[|b| - 1] then IsSubsequence(a[..|a| - 1], b[..|b| - 1])
    else IsSubsequence(a, b[..|b| - 1])
  }

  lemma {:induction false} SubsequenceMultiset<T>(a: seq<T>, b: seq<T>)
    requires IsSubsequence(a, b)
    ensures multiset(a) <= multiset(b)
    decreases |b|
  {
    if a != [] {
      assert b != [];
      var b' := b[..|b| - 1];
      assert b == b' + [b[|b| - 1]];
      if a[|a| - 1] == b[|b| - 1] {
        var a' := a[..|a| - 1];
        assert a == a' + [a[|a| - 1]];
        SubsequenceMultiset(a', b');
      } else {
        SubsequenceMultiset(a, b');
      }
    }
  }

  lemma {:induction false} SubsequenceExtend<T>(a: seq<T>, b: seq<T>, x: T)
    requires IsSubsequence(a, b)
    ensures IsSubsequence(a, b + [x]) && IsSubsequence(a + [x], b + [x])
  {
    assert (b + [x])[..|b|] == b;
    assert (a + [x])[..|a|] == a;
    if a != [] && a[|a| - 1] == x {
      SubsequencePrefix(a, b);
    }
  }

  /** Dropping the last element of `a` keeps it a subsequence. */
  lemma {:induction false} SubsequencePrefix<T>(a: seq<T>, b: seq<T>)
    requires a != [] && IsSubsequence(a, b)
    ensures IsSubsequence(a[..|a| - 1], b)
    decreases |b|, 0
  {
    var a' := a[..|a| - 1];
    var b' := b[..|b| - 1];
    if a[|a| - 1] == b[|b| - 1] {
      SubsequenceWeaken(a', b', b[|b| - 1]);
      assert b' + [b[|b| - 1]] == b;
    } else {
      SubsequencePrefix(a, b');
      SubsequenceWeaken(a', b', b[|b| - 1]);
      assert b' + [b[|b| - 1]] == b;
    }
  }

  lemma {:induction false} SubsequenceWeaken<T>(a: seq<T>, b: seq<T>, x: T)
    requires IsSubsequence(a, b)
    ensures IsSubsequence(a, b + [x])
    decreases |b|, 1
  {
    assert (b + [x])[..|b|] == b;
    if a != [] && a[|a| - 1] == x {
      SubsequencePrefix(a, b);
    }
  }

  /** Reversal, read from the last element: `Reversed(s + [x]) == [x] + Reversed(s)`. */
  function Reversed<T>(s: seq<T>): seq<T>
  {
    if s == [] then [] else [s[|s| - 1]] + Reversed(s[..|s| - 1])
  }

  lemma {:induction false} ReversedMultiset<T>(s: seq<T>)
    ensures |Reversed(s)| == |s|
    ensures multiset(Reversed(s)) == multiset(s)
  {
    if s != [] {
      ReversedMultiset(s[..|s| - 1]);
      assert s == s[..|s| - 1] + [s[|s| - 1]];
    }
  }

  /** `cmp` orders the elements of `s` consistently: any two are comparable
      and "not after" is transitive. */
  ghost predicate TotalPreorderOn<T>(cmp: (T, T) -> int, s: seq<T>)
  {
    && (forall x, y | x in s && y in s :: cmp(x, y) <= 0 || cmp(y, x) <= 0)
    && (forall x, y, z | x in s && y in s && z in s :: cmp(x, y) <= 0 && cmp(y, z) <= 0 ==> cmp(x, z) <= 0)
  }

  /** No element of `s` comes before one that `cmp` places after it. */
  ghost predicate SortedBy<T>(cmp: (T, T) -> int, s: seq<T>)
  {
    forall i, j | 0 <= i < j < |s| :: cmp(s[i], s[j]) <= 0
  }

  /** PHP's `usort`: reorders `s` with the three-way comparator `cmp`, in place
      on an array (here an insertion sort; which permutation PHP's own sort picks
      for an inconsistent comparator is not modelled). The result is always a
      permutation of the input, and it is sorted whenever `cmp` is a consistent
      order on the input's elements. */
  method USort<T(0)>(s: seq<T>, cmp: (T, T) -> int) returns (r: seq<T>)
    ensures multiset(r) == multiset(s)
    ensures TotalPreorderOn(cmp, s) ==> SortedBy(cmp, r)
  {
    var a := new T[|s|](k requires 0 <= k < |s| => s[k]);
    assert a[..] == s;
    ghost var consistent := TotalPreorderOn(cmp, s);
    var i := 1;
    while i < a.Length
      invariant a.Length == 0 || 1 <= i <= a.Length
      invariant multiset(a[..]) == multiset(s)
      invariant consistent ==> OrderedBetween(cmp, a[..], 0, if a.Length == 0 then 0 else i)
    {
      InsertLast(a, i, cmp, s, consistent);
      i := i + 1;
    }
    r := a[..];
  }

  /** Every pair of positions in `lo..hi` of `t` is in `cmp` order. */
  ghost predicate OrderedBetween<T>(cmp: (T, T) -> int, t: seq<T>, lo: int, hi: int)
    requires 0 <= lo && hi <= |t|
  {
    forall p, q | lo <= p < q < hi :: cmp(t[p], t[q]) <= 0
  }

  /** The state of the insertion of `t[i]`: it has moved down to `j`; the rest
      of `t[..i + 1]` is ordered around it. */
  ghost predicate Inserting<T>(cmp: (T, T) -> int, t: seq<T>, j: int, i: int)
    requires 0 <= j <= i < |t|
  {
    && OrderedBetween(cmp, t, 0, j)
    && OrderedBetween(cmp, t, j + 1, i + 1)
    && (forall p, q | 0 <= p < j < q <= i :: cmp(t[p], t[q]) <= 0)
    && (forall q | j < q <= i :: cmp(t[j], t[q]) <= 0)
  }

  lemma SwapMultiset<T>(t: seq<T>, j: int)
    requires 0 < j < |t|
    ensures multiset(t[j - 1 := t[j]][j := t[j - 1]]) == multiset(t)
  {
    var t1 := t[j - 1 := t[j]];
    assert multiset(t1) == multiset(t) - multiset{t[j - 1]} + multiset{t[j]};
    assert multiset(t1[j := t[j - 1]]) == multiset(t1) - multiset{t[j]} + multiset{t[j - 1]};
  }

  lemma SwapStep<T>(cmp: (T, T) -> int, s: seq<T>, t: seq<T>, j: int, i: int)
    requires TotalPreorderOn(cmp, s) && multiset(t) == multiset(s)
    requires 0 < j <= i < |t| && Inserting(cmp, t, j, i)
    requires cmp(t[j - 1], t[j]) > 0
    ensures Inserting(cmp, t[j - 1 := t[j]][j := t[j - 1]], j - 1, i)
  {
    var t' := t[j - 1 := t[j]][j := t[j - 1]];
    assert t[j - 1] in multiset(t) && t[j] in multiset(t);
    assert cmp(t[j], t[j - 1]) <= 0;
    forall q | j - 1 < q <= i
      ensures cmp(t'[j - 1], t'[q]) <= 0
    {
      if q > j {
        assert t[q] in multiset(t);
        assert cmp(t[j - 1], t[q]) <= 0;
      }
    }
  }

  lemma InsertDone<T>(cmp: (T, T) -> int, s: seq<T>, t: seq<T>, j: int, i: int)
    requires TotalPreorderOn(cmp, s) && multiset(t) == multiset(s)
    requires 0 <= j <= i < |t| && Inserting(cmp, t, j, i)
    requires j == 0 || cmp(t[j - 1], t[j]) <= 0
    ensures OrderedBetween(cmp, t, 0, i + 1)
  {
    forall p | 0 <= p < j
      ensures cmp(t[p], t[j]) <= 0
    {
      if p < j - 1 {
        InPool(s, t, p);
        InPool(s, t, j - 1);
        InPool(s, t, j);
        Transitive(cmp, s, t[p], t[j - 1], t[j]);
      }
    }
    forall p, q | 0 <= p < q < i + 1
      ensures cmp(t[p], t[q]) <= 0
    {
      if q < j {
      } else if q == j {
      } else if p < j {
      } else if p == j {
      } else {
      }
    }
  }

  /** Every element of a permutation of `s` is an element of `s`. */
  lemma InPool<T>(s: seq<T>, t: seq<T>, k: int)
    requires multiset(t) == multiset(s) && 0 <= k < |t|
    ensures t[k] in s
  {
    assert t[k] in multiset(t);
  }

  lemma Transitive<T>(cmp: (T, T) -> int, s: seq<T>, x: T, y: T, z: T)
    requires TotalPreorderOn(cmp, s) && x in s && y in s && z in s
    requires cmp(x, y) <= 0 && cmp(y, z) <= 0
    ensures cmp(x, z) <= 0
  {
  }

  /** Exchanging the out-of-order pair at `j - 1`, `j` keeps the elements and
      moves the inserted element one place down. */
  lemma SwapPreserves<T>(cmp: (T, T) -> int, s: seq<T>, t: seq<T>, j: int, i: int, consistent: bool)
    requires 0 < j <= i < |t| && multiset(t) == multiset(s)
    requires consistent ==> TotalPreorderOn(cmp, s) && Inserting(cmp, t, j, i)
    requires cmp(t[j - 1], t[j]) > 0
    ensures multiset(t[j - 1 := t[j]][j := t[j - 1]]) == multiset(s)
    ensures consistent ==> Inserting(cmp, t[j - 1 := t[j]][j := t[j - 1]], j - 1, i)
  {
    SwapMultiset(t, j);
    if consistent {
      SwapStep(cmp, s, t, j, i);
    }
  }

  /** Exchanges `a[j - 1]` and `a[j]`. */
  method Swap<T>(a: array<T>, j: int)
    requires 0 < j < a.Length
    modifies a
    ensures a[..] == old(a[..])[j - 1 := old(a[j])][j := old(a[j - 1])]
  {
    a[j - 1], a[j] := a[j], a[j - 1];
  }

  /** One step of the insertion sort: moves `a[i]` left past every element
      that `cmp` places after it. */
  method InsertLast<T>(a: array<T>, i: nat, cmp: (T, T) -> int, ghost s: seq<T>, ghost consistent: bool)
    requires i < a.Length
    requires multiset(a[..]) == multiset(s)
    requires consistent ==> TotalPreorderOn(cmp, s) && OrderedBetween(cmp, a[..], 0, i)
    modifies a
    ensures multiset(a[..]) == multiset(s)
    ensures consistent ==> OrderedBetween(cmp, a[..], 0, i + 1)
  {
    var j := i;
    while 0 < j && cmp(a[j - 1], a[j]) > 0
      invariant 0 <= j <= i
      invariant multiset(a[..]) == multiset(s)
      invariant consistent ==> Inserting(cmp, a[..], j, i)
    {
      SwapPreserves(cmp, s, a[..], j, i, consistent);
      Swap(a, j);
      j := j - 1;
    }
    if consistent {
      InsertDone(cmp, s, a[..], j, i);
    }
  }
}
