/** List helpers that the key-suggestion code relies on: the position of an
    element, duplicate-freedom, and Ramda's `difference`, which keeps the
    order of the first list and drops duplicates. */
module Lists {

  /** No element occurs twice. */
  predicate NoDup<T(==)>(s: seq<T>) {
    forall i, j :: 0 <= i < j < |s| ==> s[i] != s[j]
  }

  /** Position of the first occurrence of `x` in `s`, or `|s|` when absent. */
  function IndexOf<T(==)>(x: T, s: seq<T>): (r: nat)
    ensures r <= |s|
    ensures x !in s[..r]
    ensures r < |s| ==> s[r] == x
    ensures r == |s| <==> x !in s
  {
    if s == [] then 0
    else if s[0] == x then 0
    else
      var k := IndexOf(x, s[1..]);
      assert s[..k + 1] == [s[0]] + s[1..][..k];
      k + 1
  }

  /** Any index that satisfies the contract of IndexOf is the one it returns. */
  lemma IndexOfUnique<T>(x: T, s: seq<T>, k: nat)
    requires k <= |s| && x !in s[..k]
    requires k < |s| ==> s[k] == x
    ensures IndexOf(x, s) == k
  {
  }

  /** An element of a prefix is found inside that prefix. */
  lemma IndexOfInPrefix<T>(x: T, s: seq<T>, n: nat)
    requires n <= |s| && x in s[..n]
    ensures IndexOf(x, s) < n
    ensures IndexOf(x, s) == IndexOf(x, s[..n])
  {
    var r := IndexOf(x, s);
    assert s[..n][..r] == s[..r];
    IndexOfUnique(x, s[..n], r);
  }

  /** In a duplicate-free list every element's position is its own index. */
  lemma IndexOfNoDup<T>(s: seq<T>, k: nat)
    requires NoDup(s) && k < |s|
    ensures IndexOf(s[k], s) == k
  {
    IndexOfUnique(s[k], s, k);
  }

  /** `r` holds exactly the elements of `a` that are not in `b`. */
  predicate DifferenceOf<T(==)>(r: seq<T>, a: seq<T>, b: seq<T>) {
    && (forall i :: 0 <= i < |r| ==> r[i] in a && r[i] !in b)
    && (forall i :: 0 <= i < |a| && a[i] !in b ==> a[i] in r)
  }

  /** The elements of `r` come in the order of their first occurrence in `a`. */
  predicate OrderedAsIn<T(==)>(r: seq<T>, a: seq<T>) {
    forall i, j :: 0 <= i < j < |r| ==> IndexOf(r[i], a) < IndexOf(r[j], a)
  }

  /** Ramda `difference(a, b)`: the elements of `a` that are not in `b`, each
      once, in the order of their first occurrence in `a`. */
  function Difference<T(==)>(a: seq<T>, b: seq<T>): (r: seq<T>)
    ensures DifferenceOf(r, a, b)
    ensures NoDup(r)
    ensures |r| <= |a|
    ensures OrderedAsIn(r, a)
  {
    if a == [] then []
    else
      var r := Difference(a[..|a| - 1], b);
      var x := a[|a| - 1];
      assert a == a[..|a| - 1] + [x];
      if x in b || x in r then
        DifferenceKeep(a[..|a| - 1], x, b, r);
        r
      else
        DifferenceAppend(a[..|a| - 1], x, b, r);
        r + [x]
  }

  /** An element already in `b` or already listed adds nothing. */
  lemma DifferenceKeep<T>(front: seq<T>, x: T, b: seq<T>, r: seq<T>)
    requires DifferenceOf(r, front, b) && OrderedAsIn(r, front)
    requires x in b || x in r
    ensures DifferenceOf(r, front + [x], b) && OrderedAsIn(r, front + [x])
  {
    var a := front + [x];
    assert a[..|front|] == front;
    forall y | y in r
      ensures IndexOf(y, a) == IndexOf(y, front)
    {
      IndexOfInPrefix(y, a, |front|);
    }
  }

  /** A new element outside `b` goes at the end, after everything listed. */
  lemma DifferenceAppend<T>(front: seq<T>, x: T, b: seq<T>, r: seq<T>)
    requires DifferenceOf(r, front, b) && OrderedAsIn(r, front) && NoDup(r)
    requires x !in b && x !in r
    ensures DifferenceOf(r + [x], front + [x], b) && OrderedAsIn(r + [x], front + [x]) && NoDup(r + [x])
  {
    var a := front + [x];
    assert a[..|front|] == front;
    assert x !in front;
    IndexOfUnique(x, a, |front|);
    forall y | y in r
      ensures IndexOf(y, a) < |front| && IndexOf(y, a) == IndexOf(y, front)
    {
      IndexOfInPrefix(y, a, |front|);
    }
    var r' := r + [x];
    forall i, j | 0 <= i < j < |r'| ensures IndexOf(r'[i], a) < IndexOf(r'[j], a) {
      assert r'[i] in r;
      if j < |r| {
        assert r'[j] in r;
      }
    }
  }

  /** The order of `Difference(a, b)` is the order of first occurrences in `a`. */
  lemma DifferenceOrder<T>(a: seq<T>, b: seq<T>, x: T, y: T)
    requires x in Difference(a, b) && y in Difference(a, b)
    ensures IndexOf(x, Difference(a, b)) < IndexOf(y, Difference(a, b)) <==> IndexOf(x, a) < IndexOf(y, a)
  {
    var r := Difference(a, b);
    var p, q := IndexOf(x, r), IndexOf(y, r);
    if p == q {
      assert x == y;
    }
  }
}
