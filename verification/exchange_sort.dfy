/** The quadratic exchange sort the scheduler writes out three times (parking.cpp:208-217,
    259-265, 287-293): for each position i, every later position j whose element is
    strictly smaller than the one at i is swapped into i. */
module ExchangeSort {

  ghost predicate StrictOrder<T(!new)>(less: (T, T) -> bool) {
    && (forall a :: !less(a, a))
    && (forall a, b, c :: less(a, b) && less(b, c) ==> less(a, c))
  }

  /** Incomparability is transitive: what a key-based `<` (or a lexicographic one) satisfies. */
  ghost predicate NegativelyTransitive<T(!new)>(less: (T, T) -> bool) {
    forall a, b, c :: !less(a, b) && !less(b, c) ==> !less(a, c)
  }

  /** Ascending in the sense of the source's comparisons: no later element is strictly smaller. */
  ghost predicate SortedBy<T(!new)>(s: seq<T>, less: (T, T) -> bool) {
    forall i, j :: 0 <= i < j < |s| ==> !less(s[j], s[i])
  }

  /** Position p holds a minimal element, and every earlier element is strictly larger. */
  ghost predicate FirstMinimal<T(!new)>(s: seq<T>, less: (T, T) -> bool, p: int) {
    && 0 <= p < |s|
    && (forall k :: 0 <= k < |s| ==> !less(s[k], s[p]))
    && (forall k :: 0 <= k < p ==> less(s[p], s[k]))
  }

  function Swap<T(!new)>(s: seq<T>, i: nat, j: nat): (r: seq<T>)
    requires i < |s| && j < |s|
    ensures |r| == |s| && r[i] == s[j] && r[j] == s[i]
    ensures forall k :: 0 <= k < |s| && k != i && k != j ==> r[k] == s[k]
  {
    s[i := s[j]][j := s[i]]
  }

  /** The inner loop of one outer iteration: positions j.. are compared against position i. */
  function Pass<T(!new)>(s: seq<T>, less: (T, T) -> bool, i: nat, j: nat): (r: seq<T>)
    requires i < j <= |s|
    ensures |r| == |s| && r[..i] == s[..i]
    decreases |s| - j
  {
    if j == |s| then s
    else if less(s[j], s[i]) then
      assert Swap(s, i, j)[..i] == s[..i];
      Pass(Swap(s, i, j), less, i, j + 1)
    else
      Pass(s, less, i, j + 1)
  }

  lemma SwapMultiset<T(!new)>(s: seq<T>, i: nat, j: nat)
    requires i < j < |s|
    ensures multiset(Swap(s, i, j)) == multiset(s)
  {
    var r := Swap(s, i, j);
    assert s == s[..i] + [s[i]] + s[i + 1..j] + [s[j]] + s[j + 1..];
    assert r == s[..i] + [s[j]] + s[i + 1..j] + [s[i]] + s[j + 1..];
  }

  /** The inner loop only rearranges its input. */
  lemma {:induction false} PassPermutes<T(!new)>(s: seq<T>, less: (T, T) -> bool, i: nat, j: nat)
    requires i < j <= |s|
    ensures multiset(Pass(s, less, i, j)) == multiset(s)
    decreases |s| - j
  {
    if j < |s| {
      if less(s[j], s[i]) {
        var s' := Swap(s, i, j);
        SwapMultiset(s, i, j);
        PassPermutes(s', less, i, j + 1);
        assert Pass(s, less, i, j) == Pass(s', less, i, j + 1);
      } else {
        PassPermutes(s, less, i, j + 1);
        assert Pass(s, less, i, j) == Pass(s, less, i, j + 1);
      }
    }
  }

  /** Swapping a strictly smaller element into position i keeps every element between them
      not below position i. */
  lemma SwapKeepsMinimum<T(!new)>(s: seq<T>, less: (T, T) -> bool, i: nat, j: nat)
    requires i < j < |s|
    requires StrictOrder(less)
    requires forall k :: i < k < j ==> !less(s[k], s[i])
    requires less(s[j], s[i])
    ensures forall k :: i < k < j + 1 ==> !less(Swap(s, i, j)[k], Swap(s, i, j)[i])
  {
    var s' := Swap(s, i, j);
    forall k | i < k < j + 1
      ensures !less(s'[k], s'[i])
    {
      if k < j {
        NotBelowSmaller(less, s[k], s[j], s[i]);
      } else {
        Asymmetric(less, s[j], s[i]);
      }
    }
  }

  /** After the inner loop no later element is strictly smaller than the one at position i. */
  lemma {:induction false} PassMinimum<T(!new)>(s: seq<T>, less: (T, T) -> bool, i: nat, j: nat)
    requires i < j <= |s|
    requires StrictOrder(less)
    requires forall k :: i < k < j ==> !less(s[k], s[i])
    ensures forall k :: i < k < |s| ==> !less(Pass(s, less, i, j)[k], Pass(s, less, i, j)[i])
    decreases |s| - j
  {
    if j < |s| {
      if less(s[j], s[i]) {
        var s' := Swap(s, i, j);
        SwapKeepsMinimum(s, less, i, j);
        PassMinimum(s', less, i, j + 1);
        assert Pass(s, less, i, j) == Pass(s', less, i, j + 1);
      } else {
        PassMinimum(s, less, i, j + 1);
        assert Pass(s, less, i, j) == Pass(s, less, i, j + 1);
      }
    }
  }

  lemma SuffixMember<T(!new)>(r: seq<T>, s: seq<T>, i: nat, k: int)
    requires |r| == |s| && i <= k < |r|
    requires multiset(r[i..]) == multiset(s[i..])
    ensures exists m :: i <= m < |s| && s[m] == r[k]
  {
    assert r[k] == r[i..][k - i];
    assert r[k] in multiset(r[i..]);
    assert r[k] in s[i..];
    var m :| 0 <= m < |s[i..]| && s[i..][m] == r[k];
    assert i <= i + m < |s| && s[i + m] == r[k];
  }

  lemma MultisetCancel<T>(a: multiset<T>, b: multiset<T>, c: multiset<T>)
    requires a + b == a + c
    ensures b == c
  {
    forall x
      ensures b[x] == c[x]
    {
      assert (a + b)[x] == a[x] + b[x] && (a + c)[x] == a[x] + c[x];
    }
  }

  /** What one outer iteration hands to the next: the sorted prefix grows by one. */
  lemma PassExtendsPrefix<T(!new)>(s: seq<T>, less: (T, T) -> bool, i: nat)
    requires i < |s|
    requires StrictOrder(less)
    requires forall a, b :: 0 <= a < b < i ==> !less(s[b], s[a])
    requires forall a, k :: 0 <= a < i <= k < |s| ==> !less(s[k], s[a])
    ensures var p := Pass(s, less, i, i + 1);
      && multiset(p) == multiset(s)
      && (forall a, b :: 0 <= a < b < i + 1 ==> !less(p[b], p[a]))
      && (forall a, k :: 0 <= a < i + 1 <= k < |p| ==> !less(p[k], p[a]))
  {
    var p := Pass(s, less, i, i + 1);
    PassPermutes(s, less, i, i + 1);
    assert multiset(p[i..]) == multiset(s[i..]) by {
      assert p == p[..i] + p[i..] && s == s[..i] + s[i..] && p[..i] == s[..i];
      MultisetCancel(multiset(s[..i]), multiset(p[i..]), multiset(s[i..]));
    }
    assert forall a :: 0 <= a < i ==> p[a] == s[a] by {
      forall a | 0 <= a < i ensures p[a] == s[a] { assert p[a] == p[..i][a]; }
    }
    forall a, k | 0 <= a < i + 1 <= k < |p|
      ensures !less(p[k], p[a])
    {
      if a < i {
        SuffixMember(p, s, i, k);
      } else {
        PassMinimum(s, less, i, i + 1);
      }
    }
    forall a, b | 0 <= a < b < i + 1
      ensures !less(p[b], p[a])
    {
      if b == i {
        SuffixMember(p, s, i, i);
      }
    }
  }

  /** The outer loop from position i on. */
  function SortFrom<T(!new)>(s: seq<T>, less: (T, T) -> bool, i: nat): (r: seq<T>)
    requires i <= |s|
    requires StrictOrder(less)
    requires forall a, b :: 0 <= a < b < i ==> !less(s[b], s[a])
    requires forall a, k :: 0 <= a < i <= k < |s| ==> !less(s[k], s[a])
    ensures |r| == |s| && r[..i] == s[..i]
    ensures SortedBy(r, less)
    decreases |s| - i
  {
    if i == |s| then s
    else
      PassExtendsPrefix(s, less, i);
      var p := Pass(s, less, i, i + 1);
      var r := SortFrom(p, less, i + 1);
      assert r[..i] == p[..i] == s[..i] by {
        assert r[..i] == r[..i + 1][..i];
        assert p[..i] == p[..i + 1][..i];
      }
      r
  }

  /** The outer loop only exchanges elements. */
  lemma {:induction false} SortFromPermutes<T(!new)>(s: seq<T>, less: (T, T) -> bool, i: nat)
    requires i <= |s|
    requires StrictOrder(less)
    requires forall a, b :: 0 <= a < b < i ==> !less(s[b], s[a])
    requires forall a, k :: 0 <= a < i <= k < |s| ==> !less(s[k], s[a])
    ensures multiset(SortFrom(s, less, i)) == multiset(s)
    decreases |s| - i
  {
    if i < |s| {
      PassExtendsPrefix(s, less, i);
      SortFromPermutes(Pass(s, less, i, i + 1), less, i + 1);
    }
  }

  /** The whole sort: ascending under `less` (a permutation of its input by SortPermutes). */
  function Sort<T(!new)>(s: seq<T>, less: (T, T) -> bool): (r: seq<T>)
    requires StrictOrder(less)
    ensures |r| == |s|
    ensures SortedBy(r, less)
  {
    SortFrom(s, less, 0)
  }

  /** The sort is a permutation of its input. */
  lemma SortPermutes<T(!new)>(s: seq<T>, less: (T, T) -> bool)
    requires StrictOrder(less)
    ensures multiset(Sort(s, less)) == multiset(s)
  {
    SortFromPermutes(s, less, 0);
  }

  lemma SuffixAgrees<T(!new)>(c: seq<T>, o: seq<T>, j: nat)
    requires j < |c| == |o| && c[j..] == o[j..]
    ensures c[j] == o[j] && c[j + 1..] == o[j + 1..]
  {
    assert c[j] == c[j..][0];
    assert c[j + 1..] == c[j..][1..];
    assert o[j + 1..] == o[j..][1..];
  }

  lemma Asymmetric<T(!new)>(less: (T, T) -> bool, a: T, b: T)
    requires StrictOrder(less) && less(a, b)
    ensures !less(b, a)
  {
  }

  /** Whatever is not below c is not below anything below c. */
  lemma NotBelowSmaller<T(!new)>(less: (T, T) -> bool, a: T, b: T, c: T)
    requires StrictOrder(less) && !less(a, c) && less(b, c)
    ensures !less(a, b)
  {
  }

  /** Whatever is below c is below anything c is not below. */
  lemma BelowThrough<T(!new)>(less: (T, T) -> bool, a: T, b: T, c: T)
    requires NegativelyTransitive(less) && less(a, c) && !less(b, c)
    ensures less(a, b)
  {
  }

  /** The first pass brings the first minimal element to the front; no later pass moves it. */
  lemma {:induction false} PassHead<T(!new)>(o: seq<T>, c: seq<T>, less: (T, T) -> bool, j: nat, p: nat)
      returns (q: nat)
    requires StrictOrder(less) && NegativelyTransitive(less)
    requires 0 < j <= |o| == |c|
    requires c[j..] == o[j..]
    requires p < j && c[0] == o[p]
    requires forall k :: 0 <= k < j ==> !less(o[k], o[p])
    requires forall k :: 0 <= k < p ==> less(o[p], o[k])
    ensures FirstMinimal(o, less, q) && Pass(c, less, 0, j)[0] == o[q]
    decreases |c| - j
  {
    if j == |c| {
      q := p;
    } else {
      SuffixAgrees(c, o, j);
      if less(c[j], c[0]) {
        var c' := Swap(c, 0, j);
        assert c'[j + 1..] == c[j + 1..];
        NewMinimum(o, less, j, p);
        q := PassHead(o, c', less, j + 1, j);
        assert Pass(c, less, 0, j) == Pass(c', less, 0, j + 1);
      } else {
        q := PassHead(o, c, less, j + 1, p);
        assert Pass(c, less, 0, j) == Pass(c, less, 0, j + 1);
      }
    }
  }

  /** An element strictly below the first minimum of a prefix is the first minimum of the
      longer prefix. */
  lemma NewMinimum<T(!new)>(o: seq<T>, less: (T, T) -> bool, j: nat, p: nat)
    requires StrictOrder(less) && NegativelyTransitive(less)
    requires p < j < |o|
    requires forall k :: 0 <= k < j ==> !less(o[k], o[p])
    requires less(o[j], o[p])
    ensures forall k :: 0 <= k < j + 1 ==> !less(o[k], o[j])
    ensures forall k :: 0 <= k < j ==> less(o[j], o[k])
  {
    forall k | 0 <= k < j
      ensures less(o[j], o[k])
    {
      BelowThrough(less, o[j], o[k], o[p]);
    }
    forall k | 0 <= k < j + 1
      ensures !less(o[k], o[j])
    {
      if k < j {
        Asymmetric(less, o[j], o[k]);
      }
    }
  }

  /** The head of the sorted sequence is the first minimal element of the input. */
  lemma SortHead<T(!new)>(s: seq<T>, less: (T, T) -> bool) returns (q: nat)
    requires StrictOrder(less) && NegativelyTransitive(less)
    requires |s| > 0
    ensures FirstMinimal(s, less, q) && Sort(s, less)[0] == s[q]
  {
    var p := Pass(s, less, 0, 1);
    q := PassHead(s, s, less, 1, 0);
    PassMinimum(s, less, 0, 1);
    assert Sort(s, less) == SortFrom(p, less, 1);
    assert SortFrom(p, less, 1)[..1] == p[..1];
    assert Sort(s, less)[0] == SortFrom(p, less, 1)[..1][0];
  }
}
