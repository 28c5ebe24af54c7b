/** The "did you mean ...?" engine: given the keys a shape requires and the
    keys an object has, pair a missing key with a close extraneous key.
    `DistanceMatrix` is the nested scan (`levenshteinDistanceMatrix`), specified
    by the function `ClosestMatch`; `SuggestKey` is `suggestKey`. */
module SuggestKey {
  import opened Lists
  import opened EditDistance
  import opened Wrappers

  /** One entry of the scan's `results` list. */
  datatype Match = Match(distance: nat, stringA: string, stringB: string)

  /** The suggester's answer: `true` in the source (nothing to suggest), or
      the missing key with the extraneous key that is probably its typo. */
  datatype Suggestion = NoSuggestion | Suggest(missingKey: string, closestExtraneousKey: string)

  /** The `maxDistance` default of the scan. */
  const DefaultMaxDistance: nat := 2

  /** The matches the inner loop pushes while pairing `a` with every string of
      `stringsB` in turn: those within `maxDistance`, in the order of `stringsB`. */
  function Scan(a: string, stringsB: seq<string>, maxDistance: nat): seq<Match> {
    if stringsB == [] then []
    else
      var b := stringsB[|stringsB| - 1];
      var d := Distance(a, b);
      Scan(a, stringsB[..|stringsB| - 1], maxDistance) + (if d <= maxDistance then [Match(d, a, b)] else [])
  }

  /** Everything the nested loops push: the outer loop runs over `stringsA`, the
      inner one over `stringsB` and stops at the first string equal to the outer
      one, so a string is only paired with what comes before its own first
      occurrence in `stringsB`. */
  function Candidates(stringsA: seq<string>, stringsB: seq<string>, maxDistance: nat): seq<Match> {
    if stringsA == [] then []
    else
      var a := stringsA[|stringsA| - 1];
      Candidates(stringsA[..|stringsA| - 1], stringsB, maxDistance) + Scan(a, stringsB[..IndexOf(a, stringsB)], maxDistance)
  }

  /** Every match of a row pairs `a` with a string of `stringsB`, at their
      distance, within `maxDistance`. */
  lemma {:induction false} ScanSound(a: string, stringsB: seq<string>, maxDistance: nat)
    ensures forall m :: m in Scan(a, stringsB, maxDistance) ==>
      m.stringA == a && m.stringB in stringsB && m.distance == Distance(a, m.stringB) && m.distance <= maxDistance
    decreases |stringsB|
  {
    if stringsB != [] {
      ScanSound(a, stringsB[..|stringsB| - 1], maxDistance);
    }
  }

  /** Every pushed match pairs a string of `stringsA` with a different string
      that comes before its first occurrence in `stringsB`, at their distance,
      which is between 1 and `maxDistance`. */
  lemma {:induction false} CandidatesSound(stringsA: seq<string>, stringsB: seq<string>, maxDistance: nat)
    ensures forall m :: m in Candidates(stringsA, stringsB, maxDistance) ==>
      && m.stringA in stringsA
      && m.stringB in stringsB[..IndexOf(m.stringA, stringsB)]
      && m.distance == Distance(m.stringA, m.stringB)
      && 0 < m.distance <= maxDistance
    decreases |stringsA|
  {
    if stringsA != [] {
      var front := stringsA[..|stringsA| - 1];
      var a := stringsA[|stringsA| - 1];
      CandidatesSound(front, stringsB, maxDistance);
      ScanSound(a, stringsB[..IndexOf(a, stringsB)], maxDistance);
      forall m | m in Scan(a, stringsB[..IndexOf(a, stringsB)], maxDistance)
        ensures 0 < m.distance
      {
        DistanceBounds(m.stringA, m.stringB);
      }
    }
  }

  /** Ramda's `sortBy(prop('distance'))`: a stable sort on the distance, here
      an insertion sort that puts an element before the first one that is
      not closer. */
  function Insert(x: Match, s: seq<Match>): seq<Match> {
    if s == [] || x.distance <= s[0].distance then [x] + s
    else [s[0]] + Insert(x, s[1..])
  }

  function SortByDistance(s: seq<Match>): seq<Match> {
    if s == [] then []
    else Insert(s[0], SortByDistance(s[1..]))
  }

  lemma {:induction false} InsertPermutes(x: Match, s: seq<Match>)
    ensures multiset(Insert(x, s)) == multiset(s) + multiset{x}
  {
    if s != [] && x.distance > s[0].distance {
      InsertPermutes(x, s[1..]);
      assert s == [s[0]] + s[1..];
    }
  }

  /** The sort returns a permutation of its input. */
  lemma {:induction false} SortByDistancePermutes(s: seq<Match>)
    ensures multiset(SortByDistance(s)) == multiset(s)
  {
    if s != [] {
      SortByDistancePermutes(s[1..]);
      InsertPermutes(s[0], SortByDistance(s[1..]));
      assert s == [s[0]] + s[1..];
    }
  }

  predicate SortedByDistance(s: seq<Match>) {
    forall i, j :: 0 <= i < j < |s| ==> s[i].distance <= s[j].distance
  }

  lemma {:induction false} InsertSorted(x: Match, s: seq<Match>)
    requires SortedByDistance(s)
    ensures SortedByDistance(Insert(x, s))
  {
    if s != [] && x.distance > s[0].distance {
      InsertSorted(x, s[1..]);
      var r := Insert(x, s[1..]);
      assert r[0] == x || r[0] == s[1];
    }
  }

  /** The sort returns its input ordered by distance. */
  lemma {:induction false} SortByDistanceSorted(s: seq<Match>)
    ensures SortedByDistance(SortByDistance(s))
  {
    if s != [] {
      SortByDistanceSorted(s[1..]);
      InsertSorted(s[0], SortByDistance(s[1..]));
    }
  }

  /** The position of the first element of least distance. */
  function FirstMinimum(s: seq<Match>): (k: nat)
    requires s != []
    ensures k < |s|
    ensures forall i :: 0 <= i < |s| ==> s[k].distance <= s[i].distance
    ensures forall i :: 0 <= i < k ==> s[k].distance < s[i].distance
  {
    if |s| == 1 then 0
    else
      var k := FirstMinimum(s[1..]) + 1;
      if s[0].distance <= s[k].distance then 0 else k
  }

  /** Because the sort is stable, its head is the first element of least
      distance. */
  lemma {:induction false} SortByDistanceHead(s: seq<Match>)
    requires s != []
    ensures SortByDistance(s)[0] == s[FirstMinimum(s)]
  {
    if |s| > 1 {
      SortByDistanceHead(s[1..]);
    }
  }

  /** What `levenshteinDistanceMatrix(stringsA, stringsB, maxDistance)` returns:
      nothing when `stringsA` has no string outside `stringsB`, otherwise the
      head of the sorted matches, if any. */
  function ClosestMatch(stringsA: seq<string>, stringsB: seq<string>, maxDistance: nat): Option<Match> {
    if Difference(stringsA, stringsB) == [] then None
    else First(SortByDistance(Candidates(stringsA, stringsB, maxDistance)))
  }

  /** `const [closestResult] = sortedResults`: the head, if there is one. */
  function First(s: seq<Match>): (r: Option<Match>)
    ensures r.None? <==> s == []
    ensures r.Some? ==> r.value == s[0]
  {
    if s == [] then None else Some(s[0])
  }

  /** One more step of the inner loop. */
  lemma ScanSnoc(a: string, stringsB: seq<string>, maxDistance: nat, j: nat)
    requires j < |stringsB|
    ensures var d := Distance(a, stringsB[j]);
      Scan(a, stringsB[..j + 1], maxDistance) ==
        Scan(a, stringsB[..j], maxDistance) + (if d <= maxDistance then [Match(d, a, stringsB[j])] else [])
  {
    assert stringsB[..j + 1][..j] == stringsB[..j];
  }

  /** One more step of the outer loop. */
  lemma CandidatesSnoc(stringsA: seq<string>, stringsB: seq<string>, maxDistance: nat, i: nat)
    requires i < |stringsA|
    ensures Candidates(stringsA[..i + 1], stringsB, maxDistance) ==
      Candidates(stringsA[..i], stringsB, maxDistance) + Scan(stringsA[i], stringsB[..IndexOf(stringsA[i], stringsB)], maxDistance)
  {
    assert stringsA[..i + 1][..i] == stringsA[..i];
  }

  /** The nested loops of `levenshteinDistanceMatrix`: for each string of
      `stringsA`, walk `stringsB` until the same string turns up, pushing every
      pair within `maxDistance`. The pairs of one outer pass are gathered in
      `row` and appended after the inner loop, which leaves `results` exactly
      as pushing them one by one would. */
  method ScanAll(stringsA: seq<string>, stringsB: seq<string>, maxDistance: nat)
    returns (results: seq<Match>)
    ensures results == Candidates(stringsA, stringsB, maxDistance)
  {
    results := [];
    var i := 0;
    while i < |stringsA|
      invariant 0 <= i <= |stringsA|
      invariant results == Candidates(stringsA[..i], stringsB, maxDistance)
    {
      var stringA := stringsA[i];
      var row: seq<Match> := [];
      var j := 0;
      while j < |stringsB|
        invariant 0 <= j <= |stringsB|
        invariant stringA !in stringsB[..j]
        invariant row == Scan(stringA, stringsB[..j], maxDistance)
      {
        var stringB := stringsB[j];
        if stringA == stringB {
          break;
        }
        var distance := Distance(stringA, stringB);
        if distance <= maxDistance {
          row := row + [Match(distance, stringA, stringB)];
        }
        ScanSnoc(stringA, stringsB, maxDistance, j);
        j := j + 1;
      }
      IndexOfUnique(stringA, stringsB, j);
      results := results + row;
      CandidatesSnoc(stringsA, stringsB, maxDistance, i);
      i := i + 1;
    }
    assert stringsA[..i] == stringsA;
  }

  /** `levenshteinDistanceMatrix`: nothing when no string of `stringsA` is
      missing from `stringsB`, otherwise the nested scan, the stable sort and
      its head. */
  method DistanceMatrix(stringsA: seq<string>, stringsB: seq<string>, maxDistance: nat)
    returns (closest: Option<Match>)
    ensures closest == ClosestMatch(stringsA, stringsB, maxDistance)
  {
    if Difference(stringsA, stringsB) == [] {
      return None;
    }
    var results := ScanAll(stringsA, stringsB, maxDistance);
    var sortedResults := SortByDistance(results);
    closest := First(sortedResults);
  }

  // ---- properties of the scan ----

  /** The pair (i, j) may be scanned: j comes before the first occurrence of
      `stringsA[i]` in `stringsB`. */
  predicate Scanned(stringsA: seq<string>, stringsB: seq<string>, i: int, j: int) {
    0 <= i < |stringsA| && 0 <= j < IndexOf(stringsA[i], stringsB)
  }

  predicate LexLess(i: int, j: int, i': int, j': int) {
    i < i' || (i == i' && j < j')
  }

  lemma {:induction false} ScanComplete(a: string, stringsB: seq<string>, maxDistance: nat, n: nat, j: nat)
    requires j < n <= |stringsB| && Distance(a, stringsB[j]) <= maxDistance
    ensures Match(Distance(a, stringsB[j]), a, stringsB[j]) in Scan(a, stringsB[..n], maxDistance)
    decreases n
  {
    assert stringsB[..n][..n - 1] == stringsB[..n - 1];
    if j < n - 1 {
      ScanComplete(a, stringsB, maxDistance, n - 1, j);
    }
  }

  /** Every scanned pair within `maxDistance` is pushed. */
  lemma {:induction false} CandidatesComplete(stringsA: seq<string>, stringsB: seq<string>, maxDistance: nat, i: nat, j: nat)
    requires Scanned(stringsA, stringsB, i, j) && Distance(stringsA[i], stringsB[j]) <= maxDistance
    ensures Match(Distance(stringsA[i], stringsB[j]), stringsA[i], stringsB[j]) in Candidates(stringsA, stringsB, maxDistance)
    decreases |stringsA|
  {
    var n := |stringsA| - 1;
    if i == n {
      ScanComplete(stringsA[i], stringsB, maxDistance, IndexOf(stringsA[i], stringsB), j);
    } else {
      assert stringsA[..n][i] == stringsA[i];
      CandidatesComplete(stringsA[..n], stringsB, maxDistance, i, j);
    }
  }

  /** Position of a match's pair in the scan: the index of its first string
      in `stringsA`, then of its second string in `stringsB`. */
  predicate ScanOrder(c: seq<Match>, stringsA: seq<string>, stringsB: seq<string>) {
    forall p, q :: 0 <= p < q < |c| ==>
      LexLess(IndexOf(c[p].stringA, stringsA), IndexOf(c[p].stringB, stringsB),
              IndexOf(c[q].stringA, stringsA), IndexOf(c[q].stringB, stringsB))
  }

  lemma ScanOrderConcat(c1: seq<Match>, c2: seq<Match>, stringsA: seq<string>, stringsB: seq<string>)
    requires ScanOrder(c1, stringsA, stringsB) && ScanOrder(c2, stringsA, stringsB)
    requires forall x, y :: x in c1 && y in c2 ==>
      LexLess(IndexOf(x.stringA, stringsA), IndexOf(x.stringB, stringsB),
              IndexOf(y.stringA, stringsA), IndexOf(y.stringB, stringsB))
    ensures ScanOrder(c1 + c2, stringsA, stringsB)
  {
    var c := c1 + c2;
    forall p, q | 0 <= p < q < |c|
      ensures LexLess(IndexOf(c[p].stringA, stringsA), IndexOf(c[p].stringB, stringsB),
                      IndexOf(c[q].stringA, stringsA), IndexOf(c[q].stringB, stringsB))
    {
      if q < |c1| {
        assert c[p] == c1[p] && c[q] == c1[q];
      } else if p < |c1| {
        assert c[p] in c1 && c[q] in c2;
      } else {
        assert c[p] == c2[p - |c1|] && c[q] == c2[q - |c1|];
      }
    }
  }

  lemma {:induction false} ScanOrdered(a: string, stringsA: seq<string>, stringsB: seq<string>, maxDistance: nat, n: nat)
    requires NoDup(stringsB) && n <= |stringsB|
    ensures ScanOrder(Scan(a, stringsB[..n], maxDistance), stringsA, stringsB)
    ensures forall m :: m in Scan(a, stringsB[..n], maxDistance) ==> IndexOf(m.stringB, stringsB) < n
    decreases n
  {
    if n > 0 {
      var front := Scan(a, stringsB[..n - 1], maxDistance);
      assert stringsB[..n][..n - 1] == stringsB[..n - 1];
      ScanOrdered(a, stringsA, stringsB, maxDistance, n - 1);
      ScanSound(a, stringsB[..n - 1], maxDistance);
      IndexOfNoDup(stringsB, n - 1);
      var d := Distance(a, stringsB[n - 1]);
      var last := if d <= maxDistance then [Match(d, a, stringsB[n - 1])] else [];
      assert Scan(a, stringsB[..n], maxDistance) == front + last;
      ScanOrderConcat(front, last, stringsA, stringsB);
    }
  }

  /** With no duplicates on either side, the pushed matches come in the order
      of the scan: outer index first, inner index second. */
  lemma {:induction false} CandidatesOrdered(stringsA: seq<string>, stringsB: seq<string>, maxDistance: nat, n: nat)
    requires NoDup(stringsA) && NoDup(stringsB) && n <= |stringsA|
    ensures ScanOrder(Candidates(stringsA[..n], stringsB, maxDistance), stringsA, stringsB)
    ensures forall m :: m in Candidates(stringsA[..n], stringsB, maxDistance) ==> IndexOf(m.stringA, stringsA) < n
    decreases n
  {
    if n > 0 {
      var front := Candidates(stringsA[..n - 1], stringsB, maxDistance);
      var a := stringsA[n - 1];
      var row := Scan(a, stringsB[..IndexOf(a, stringsB)], maxDistance);
      assert stringsA[..n][..n - 1] == stringsA[..n - 1];
      assert stringsA[..n][n - 1] == a;
      assert Candidates(stringsA[..n], stringsB, maxDistance) == front + row;
      CandidatesOrdered(stringsA, stringsB, maxDistance, n - 1);
      ScanOrdered(a, stringsA, stringsB, maxDistance, IndexOf(a, stringsB));
      ScanSound(a, stringsB[..IndexOf(a, stringsB)], maxDistance);
      IndexOfNoDup(stringsA, n - 1);
      assert forall y :: y in row ==> IndexOf(y.stringA, stringsA) == n - 1;
      ScanOrderConcat(front, row, stringsA, stringsB);
    }
  }

  // ---- properties of the result ----

  /** A returned match pairs a string of `stringsA` with a different string of `stringsB`
      that the scan reaches, at a distance in 1..maxDistance. */
  lemma ClosestMatchSound(stringsA: seq<string>, stringsB: seq<string>, maxDistance: nat)
    requires ClosestMatch(stringsA, stringsB, maxDistance).Some?
    ensures var x := ClosestMatch(stringsA, stringsB, maxDistance).value;
      && x.stringA in stringsA && x.stringB in stringsB[..IndexOf(x.stringA, stringsB)]
      && x.distance == Distance(x.stringA, x.stringB)
      && 0 < x.distance <= maxDistance
  {
    var c := Candidates(stringsA, stringsB, maxDistance);
    var x := SortByDistance(c)[0];
    SortByDistancePermutes(c);
    assert x in multiset(SortByDistance(c));
    CandidatesSound(stringsA, stringsB, maxDistance);
  }

  /** Nothing is returned exactly when every string of `stringsA` is in `stringsB`, or
      when no scanned pair is within `maxDistance`. */
  lemma ClosestMatchNone(stringsA: seq<string>, stringsB: seq<string>, maxDistance: nat)
    ensures ClosestMatch(stringsA, stringsB, maxDistance).None? <==>
      Difference(stringsA, stringsB) == [] ||
      forall i, j :: Scanned(stringsA, stringsB, i, j) ==> Distance(stringsA[i], stringsB[j]) > maxDistance
  {
    var c := Candidates(stringsA, stringsB, maxDistance);
    if Difference(stringsA, stringsB) != [] {
      if c == [] {
        forall i, j | Scanned(stringsA, stringsB, i, j) ensures Distance(stringsA[i], stringsB[j]) > maxDistance {
          if Distance(stringsA[i], stringsB[j]) <= maxDistance {
            CandidatesComplete(stringsA, stringsB, maxDistance, i, j);
          }
        }
      } else {
        var m := c[0];
        assert m in c;
        CandidatesSound(stringsA, stringsB, maxDistance);
        var i := IndexOf(m.stringA, stringsA);
        var j := IndexOf(m.stringB, stringsB[..IndexOf(m.stringA, stringsB)]);
        IndexOfInPrefix(m.stringB, stringsB, IndexOf(m.stringA, stringsB));
        assert Scanned(stringsA, stringsB, i, j) && Distance(stringsA[i], stringsB[j]) <= maxDistance;
      }
    }
  }

  /** The returned match is at least as close as every scanned pair. */
  lemma ClosestMatchMinimal(stringsA: seq<string>, stringsB: seq<string>, maxDistance: nat, i: nat, j: nat)
    requires ClosestMatch(stringsA, stringsB, maxDistance).Some? && Scanned(stringsA, stringsB, i, j)
    ensures ClosestMatch(stringsA, stringsB, maxDistance).value.distance <= Distance(stringsA[i], stringsB[j])
  {
    var c := Candidates(stringsA, stringsB, maxDistance);
    ClosestMatchSound(stringsA, stringsB, maxDistance);
    SortByDistanceHead(c);
    var k := FirstMinimum(c);
    if Distance(stringsA[i], stringsB[j]) <= maxDistance {
      CandidatesComplete(stringsA, stringsB, maxDistance, i, j);
      var y := Match(Distance(stringsA[i], stringsB[j]), stringsA[i], stringsB[j]);
      var p :| 0 <= p < |c| && c[p] == y;
    }
  }

  /** In a list in scan order, a match whose pair comes earlier in the scan
      sits at an earlier position. */
  lemma ScanOrderPosition(c: seq<Match>, stringsA: seq<string>, stringsB: seq<string>, p: nat, k: nat)
    requires ScanOrder(c, stringsA, stringsB) && p < |c| && k < |c|
    requires LexLess(IndexOf(c[p].stringA, stringsA), IndexOf(c[p].stringB, stringsB),
                     IndexOf(c[k].stringA, stringsA), IndexOf(c[k].stringB, stringsB))
    ensures p < k
  {
  }

  /** A scanned pair within `maxDistance` that comes before the pair of
      `Candidates[k]` in the scan was pushed at an earlier position. */
  lemma CandidatesEarlierPair(stringsA: seq<string>, stringsB: seq<string>, maxDistance: nat, i: nat, j: nat, k: nat)
    returns (p: nat)
    requires NoDup(stringsA) && NoDup(stringsB)
    requires Scanned(stringsA, stringsB, i, j) && Distance(stringsA[i], stringsB[j]) <= maxDistance
    requires k < |Candidates(stringsA, stringsB, maxDistance)|
    requires var x := Candidates(stringsA, stringsB, maxDistance)[k];
      LexLess(i, j, IndexOf(x.stringA, stringsA), IndexOf(x.stringB, stringsB))
    ensures p < k
    ensures Candidates(stringsA, stringsB, maxDistance)[p].distance == Distance(stringsA[i], stringsB[j])
  {
    var c := Candidates(stringsA, stringsB, maxDistance);
    CandidatesComplete(stringsA, stringsB, maxDistance, i, j);
    var y := Match(Distance(stringsA[i], stringsB[j]), stringsA[i], stringsB[j]);
    p :| 0 <= p < |c| && c[p] == y;
    IndexOfNoDup(stringsA, i);
    IndexOfNoDup(stringsB, j);
    assert stringsA[..|stringsA|] == stringsA;
    CandidatesOrdered(stringsA, stringsB, maxDistance, |stringsA|);
    ScanOrderPosition(c, stringsA, stringsB, p, k);
  }

  /** Ties go to the first pair of the scan: every scanned pair that comes
      earlier (outer index first, inner second) is strictly further apart. */
  lemma ClosestMatchFirstOnTies(stringsA: seq<string>, stringsB: seq<string>, maxDistance: nat, i: nat, j: nat)
    requires NoDup(stringsA) && NoDup(stringsB)
    requires ClosestMatch(stringsA, stringsB, maxDistance).Some? && Scanned(stringsA, stringsB, i, j)
    requires var x := ClosestMatch(stringsA, stringsB, maxDistance).value;
      LexLess(i, j, IndexOf(x.stringA, stringsA), IndexOf(x.stringB, stringsB))
    ensures ClosestMatch(stringsA, stringsB, maxDistance).value.distance < Distance(stringsA[i], stringsB[j])
  {
    var c := Candidates(stringsA, stringsB, maxDistance);
    var x := ClosestMatch(stringsA, stringsB, maxDistance).value;
    assert c != [] && x == SortByDistance(c)[0];
    SortByDistanceHead(c);
    var k := FirstMinimum(c);
    ClosestMatchSound(stringsA, stringsB, maxDistance);
    if Distance(stringsA[i], stringsB[j]) <= maxDistance {
      var p := CandidatesEarlierPair(stringsA, stringsB, maxDistance, i, j, k);
      assert c[k].distance < c[p].distance;
    }
  }

  // ---- suggestKey ----

  /** `suggestKey(validKeys, testKeys)`: the missing keys are the valid keys
      the object lacks, the extraneous keys those it has beyond them; a
      suggestion is the closest pair of the two within distance 2. */
  function SuggestKey(validKeys: seq<string>, testKeys: seq<string>): (r: Suggestion)
    ensures r.Suggest? ==>
      && r.missingKey in validKeys && r.missingKey !in testKeys
      && r.closestExtraneousKey in testKeys && r.closestExtraneousKey !in validKeys
      && 0 < Distance(r.missingKey, r.closestExtraneousKey) <= DefaultMaxDistance
  {
    var missingKeys := Difference(validKeys, testKeys);
    if missingKeys == [] then NoSuggestion
    else
      var extraneousKeys := Difference(testKeys, validKeys);
      var closest := ClosestMatch(missingKeys, extraneousKeys, DefaultMaxDistance);
      if closest.None? then NoSuggestion
      else
        ClosestMatchSound(missingKeys, extraneousKeys, DefaultMaxDistance);
        Suggest(closest.value.stringA, closest.value.stringB)
  }

  /** A missing key paired with an extraneous key. */
  predicate Mismatch(validKeys: seq<string>, testKeys: seq<string>, m: string, e: string) {
    m in validKeys && m !in testKeys && e in testKeys && e !in validKeys
  }

  /** Missing and extraneous keys never coincide, so the scan inside
      `suggestKey` pairs every missing key with every extraneous key. */
  lemma MismatchScanned(validKeys: seq<string>, testKeys: seq<string>, m: string, e: string)
    requires Mismatch(validKeys, testKeys, m, e)
    ensures var missingKeys := Difference(validKeys, testKeys);
      var extraneousKeys := Difference(testKeys, validKeys);
      && m in missingKeys && e in extraneousKeys
      && Scanned(missingKeys, extraneousKeys, IndexOf(m, missingKeys), IndexOf(e, extraneousKeys))
  {
    var missingKeys := Difference(validKeys, testKeys);
    var extraneousKeys := Difference(testKeys, validKeys);
    var i :| 0 <= i < |validKeys| && validKeys[i] == m;
    var j :| 0 <= j < |testKeys| && testKeys[j] == e;
    assert m in missingKeys && e in extraneousKeys;
    assert m !in extraneousKeys;
  }

  /** A missing key within distance 2 of an extraneous key always yields a
      suggestion. */
  lemma SuggestKeyFindsPair(validKeys: seq<string>, testKeys: seq<string>, m: string, e: string)
    requires Mismatch(validKeys, testKeys, m, e) && Distance(m, e) <= DefaultMaxDistance
    ensures SuggestKey(validKeys, testKeys).Suggest?
  {
    var missingKeys := Difference(validKeys, testKeys);
    var extraneousKeys := Difference(testKeys, validKeys);
    MismatchScanned(validKeys, testKeys, m, e);
    assert missingKeys[0] !in extraneousKeys;
    assert missingKeys[0] in Difference(missingKeys, extraneousKeys);
    ClosestMatchNone(missingKeys, extraneousKeys, DefaultMaxDistance);
    var i, j := IndexOf(m, missingKeys), IndexOf(e, extraneousKeys);
    assert Scanned(missingKeys, extraneousKeys, i, j) && Distance(missingKeys[i], extraneousKeys[j]) <= DefaultMaxDistance;
  }

  /** No suggestion exactly when no missing key is within distance 2 of an
      extraneous key; in particular when no valid key is missing. */
  lemma SuggestKeyNoSuggestionIff(validKeys: seq<string>, testKeys: seq<string>)
    ensures SuggestKey(validKeys, testKeys) == NoSuggestion <==>
      forall m, e :: Mismatch(validKeys, testKeys, m, e) ==> Distance(m, e) > DefaultMaxDistance
  {
    var r := SuggestKey(validKeys, testKeys);
    forall m, e | Mismatch(validKeys, testKeys, m, e) && Distance(m, e) <= DefaultMaxDistance
      ensures r.Suggest?
    {
      SuggestKeyFindsPair(validKeys, testKeys, m, e);
    }
    if r.Suggest? {
      assert Mismatch(validKeys, testKeys, r.missingKey, r.closestExtraneousKey);
    }
  }

  /** The suggested pair is at least as close as every missing/extraneous pair. */
  lemma SuggestKeyMinimal(validKeys: seq<string>, testKeys: seq<string>, m': string, e': string)
    requires SuggestKey(validKeys, testKeys).Suggest? && Mismatch(validKeys, testKeys, m', e')
    ensures var r := SuggestKey(validKeys, testKeys);
      Distance(r.missingKey, r.closestExtraneousKey) <= Distance(m', e')
  {
    var missingKeys := Difference(validKeys, testKeys);
    var extraneousKeys := Difference(testKeys, validKeys);
    MismatchScanned(validKeys, testKeys, m', e');
    ClosestMatchSound(missingKeys, extraneousKeys, DefaultMaxDistance);
    ClosestMatchMinimal(missingKeys, extraneousKeys, DefaultMaxDistance, IndexOf(m', missingKeys), IndexOf(e', extraneousKeys));
  }

  /** A suggestion is the pair the scan returns for the missing and the
      extraneous keys. */
  lemma SuggestKeyIsClosestMatch(validKeys: seq<string>, testKeys: seq<string>)
    requires SuggestKey(validKeys, testKeys).Suggest?
    ensures var x := ClosestMatch(Difference(validKeys, testKeys), Difference(testKeys, validKeys), DefaultMaxDistance);
      var r := SuggestKey(validKeys, testKeys);
      x.Some? && x.value.stringA == r.missingKey && x.value.stringB == r.closestExtraneousKey
  {
  }

  /** Among equally close pairs the suggestion is the first one: its missing
      key comes first in `validKeys` and, for that key, its extraneous key
      comes first in `testKeys`. */
  lemma SuggestKeyFirstOnTies(validKeys: seq<string>, testKeys: seq<string>, m': string, e': string)
    requires SuggestKey(validKeys, testKeys).Suggest? && Mismatch(validKeys, testKeys, m', e')
    requires var r := SuggestKey(validKeys, testKeys);
      Distance(m', e') == Distance(r.missingKey, r.closestExtraneousKey)
    ensures var r := SuggestKey(validKeys, testKeys);
      || IndexOf(r.missingKey, validKeys) < IndexOf(m', validKeys)
      || (r.missingKey == m' && IndexOf(r.closestExtraneousKey, testKeys) <= IndexOf(e', testKeys))
  {
    var r := SuggestKey(validKeys, testKeys);
    var m, e := r.missingKey, r.closestExtraneousKey;
    var missingKeys := Difference(validKeys, testKeys);
    var extraneousKeys := Difference(testKeys, validKeys);
    SuggestKeyIsClosestMatch(validKeys, testKeys);
    MismatchScanned(validKeys, testKeys, m', e');
    MismatchScanned(validKeys, testKeys, m, e);
    var i', j' := IndexOf(m', missingKeys), IndexOf(e', extraneousKeys);
    var i, j := IndexOf(m, missingKeys), IndexOf(e, extraneousKeys);
    var x := ClosestMatch(missingKeys, extraneousKeys, DefaultMaxDistance).value;
    ClosestMatchSound(missingKeys, extraneousKeys, DefaultMaxDistance);
    assert x.distance == Distance(m', e');
    assert missingKeys[i'] == m' && extraneousKeys[j'] == e';
    if LexLess(i', j', i, j) {
      ClosestMatchFirstOnTies(missingKeys, extraneousKeys, DefaultMaxDistance, i', j');
    }
    assert i < i' || (i == i' && j <= j');
    DifferenceOrder(validKeys, testKeys, m, m');
    DifferenceOrder(testKeys, validKeys, e, e');
    if i == i' {
      assert m == missingKeys[i] == m';
    }
  }

  /** When exactly one missing/extraneous pair is within distance 2, that pair
      is the suggestion. */
  lemma SuggestKeySinglePair(validKeys: seq<string>, testKeys: seq<string>, m: string, e: string)
    requires Mismatch(validKeys, testKeys, m, e) && Distance(m, e) <= DefaultMaxDistance
    requires forall m', e' :: Mismatch(validKeys, testKeys, m', e') && (m', e') != (m, e) ==>
      Distance(m', e') > DefaultMaxDistance
    ensures SuggestKey(validKeys, testKeys) == Suggest(m, e)
  {
    SuggestKeyNoSuggestionIff(validKeys, testKeys);
    var r := SuggestKey(validKeys, testKeys);
    assert Mismatch(validKeys, testKeys, r.missingKey, r.closestExtraneousKey);
  }
}
