/** Levenshtein distance: the least number of single-character insertions,
    deletions and substitutions that turn one string into another. The key
    suggester takes it from a library; here it is the textbook recursive
    definition, and the library is taken to compute exactly this. */
module EditDistance {

  function Min3(x: nat, y: nat, z: nat): (m: nat)
    ensures m <= x && m <= y && m <= z
    ensures m == x || m == y || m == z
  {
    if x <= y && x <= z then x else if y <= z then y else z
  }

  function Max(x: nat, y: nat): nat {
    if x < y then y else x
  }

  /** Edit distance, by the first characters of both strings: drop the head of
      `a` (a deletion), drop the head of `b` (an insertion), or drop both (a
      substitution, free when the heads agree). */
  function Distance(a: string, b: string): nat
    decreases |a| + |b|
  {
    if |a| == 0 then |b|
    else if |b| == 0 then |a|
    else
      Min3(Distance(a[1..], b) + 1, Distance(a, b[1..]) + 1, Distance(a[1..], b[1..]) + if a[0] == b[0] then 0 else 1)
  }

  /** The distance is at most the longer length, at least the difference of
      the lengths, and zero exactly for equal strings. */
  lemma {:induction false} DistanceBounds(a: string, b: string)
    ensures Distance(a, b) <= Max(|a|, |b|)
    ensures Distance(a, b) >= |a| - |b| && Distance(a, b) >= |b| - |a|
    ensures Distance(a, b) == 0 <==> a == b
    decreases |a| + |b|
  {
    if |a| > 0 && |b| > 0 {
      DistanceBounds(a[1..], b);
      DistanceBounds(a, b[1..]);
      DistanceBounds(a[1..], b[1..]);
      if Distance(a, b) == 0 {
        assert a == [a[0]] + a[1..] == [b[0]] + b[1..] == b;
      }
    }
  }

  /** A shared prefix never makes two strings further apart. */
  lemma {:induction false} DistanceCommonPrefix(p: string, x: string, y: string)
    ensures Distance(p + x, p + y) <= Distance(x, y)
    decreases |p|
  {
    if p != [] {
      assert (p + x)[1..] == p[1..] + x;
      assert (p + y)[1..] == p[1..] + y;
      DistanceCommonPrefix(p[1..], x, y);
      assert (p + x)[0] == (p + y)[0];
      assert Distance(p + x, p + y) <= Distance(p[1..] + x, p[1..] + y);
    } else {
      assert p + x == x && p + y == y;
    }
  }

  /** One character appended is one edit away. */
  lemma DistanceAppendOne(x: string, c: char)
    ensures Distance(x, x + [c]) == 1
  {
    DistanceCommonPrefix(x, [], [c]);
    assert x + [] == x;
    DistanceBounds(x, x + [c]);
  }

  /** Deleting one leading character costs at most one edit. */
  lemma DistanceDropHead(c: char, y: string)
    ensures Distance([c] + y, y) <= 1
  {
    if y != [] {
      assert ([c] + y)[1..] == y;
      DistanceBounds(y, y);
    }
  }

  /** Strings with no character in common are as far apart as the longer one
      is long: every position of the longer one needs an edit. */
  lemma {:induction false} DistanceDisjointAlphabets(a: string, b: string)
    requires forall i, j :: 0 <= i < |a| && 0 <= j < |b| ==> a[i] != b[j]
    ensures Distance(a, b) == Max(|a|, |b|)
    decreases |a| + |b|
  {
    if |a| > 0 && |b| > 0 {
      assert a[0] != b[0];
      DistanceDisjointAlphabets(a[1..], b);
      DistanceDisjointAlphabets(a, b[1..]);
      DistanceDisjointAlphabets(a[1..], b[1..]);
    }
  }
}
