/** Small facts about sequences that several modules need. */
module SeqUtil {

  function Map<T, U>(f: T -> U, s: seq<T>): (r: seq<U>)
    ensures |r| == |s|
    ensures forall k :: 0 <= k < |s| ==> r[k] == f(s[k])
  {
    seq(|s|, k requires 0 <= k < |s| => f(s[k]))
  }

  lemma MapAppend<T, U>(f: T -> U, a: seq<T>, b: seq<T>)
    ensures Map(f, a + b) == Map(f, a) + Map(f, b)
  {
  }

  lemma MapRemove<T, U>(f: T -> U, b: seq<T>, k: nat)
    requires k < |b|
    ensures multiset(Map(f, b)) == multiset(Map(f, b[..k] + b[k + 1..])) + multiset{f(b[k])}
  {
    var lo, hi := Map(f, b[..k]), Map(f, b[k + 1..]);
    assert Map(f, b) == lo + [f(b[k])] + hi;
    assert Map(f, b[..k] + b[k + 1..]) == lo + hi;
  }

  /** A value of a permutation of b is found somewhere in b, and the rest of a is a
      permutation of the rest of b. */
  lemma Locate<T>(a: seq<T>, b: seq<T>) returns (k: nat)
    requires multiset(a) == multiset(b) && a != []
    ensures k < |b| && b[k] == a[0]
    ensures multiset(a[1..]) == multiset(RemoveAt(b, k))
  {
    assert a[0] in multiset(b);
    k :| 0 <= k < |b| && b[k] == a[0];
    var r := RemoveAt(b, k);
    RemoveAtMultiset(b, k);
    assert a == [a[0]] + a[1..];
    assert multiset(a[1..]) + multiset{a[0]} == multiset(r) + multiset{a[0]};
    assert multiset(a[1..]) == multiset(a[1..]) + multiset{a[0]} - multiset{a[0]};
  }

  lemma MapHead<T, U>(f: T -> U, a: seq<T>)
    requires a != []
    ensures multiset(Map(f, a)) == multiset(Map(f, a[1..])) + multiset{f(a[0])}
  {
    assert Map(f, a) == [f(a[0])] + Map(f, a[1..]);
  }

  /** Mapping two permutations of each other yields two permutations of each other. */
  lemma {:induction false} MapPermutation<T, U>(f: T -> U, a: seq<T>, b: seq<T>)
    requires multiset(a) == multiset(b)
    ensures multiset(Map(f, a)) == multiset(Map(f, b))
    decreases |a|
  {
    if a == [] {
      assert |b| == |multiset(b)| == |multiset(a)| == 0;
    } else {
      var k := Locate(a, b);
      MapPermutation(f, a[1..], RemoveAt(b, k));
      MapRemove(f, b, k);
      MapHead(f, a);
    }
  }

  /** s read backwards. */
  function Reverse<T>(s: seq<T>): (r: seq<T>)
    ensures |r| == |s|
    ensures forall k :: 0 <= k < |s| ==> r[k] == s[|s| - 1 - k]
  {
    if |s| == 0 then [] else [s[|s| - 1]] + Reverse(s[..|s| - 1])
  }

  /** The sequence 1, 2, ..., n. */
  function OneTo(n: nat): (r: seq<int>)
    ensures |r| == n
    ensures forall k :: 0 <= k < n ==> r[k] == k + 1
  {
    if n == 0 then [] else OneTo(n - 1) + [n]
  }

  /** Removing position k keeps the others in order. */
  function RemoveAt<T>(s: seq<T>, k: nat): (r: seq<T>)
    requires k < |s|
    ensures |r| == |s| - 1
    ensures forall j :: 0 <= j < k ==> r[j] == s[j]
    ensures forall j :: k <= j < |r| ==> r[j] == s[j + 1]
    ensures forall x {:trigger x in r} :: x in r ==> x in s
  {
    s[..k] + s[k + 1..]
  }

  /** A value other than the one removed is still there. */
  lemma RemoveAtKeeps<T>(s: seq<T>, k: nat, x: T)
    requires k < |s| && x in s && x != s[k]
    ensures x in RemoveAt(s, k)
  {
    var i :| 0 <= i < |s| && s[i] == x;
    if i < k {
      assert RemoveAt(s, k)[i] == x;
    } else {
      assert RemoveAt(s, k)[i - 1] == x;
    }
  }

  /** Removing position k takes exactly one copy of s[k] out of the multiset. */
  lemma RemoveAtMultiset<T>(s: seq<T>, k: nat)
    requires k < |s|
    ensures multiset(RemoveAt(s, k)) + multiset{s[k]} == multiset(s)
  {
    assert s == s[..k] + [s[k]] + s[k + 1..];
  }
}
