/// peptide_mapping.py: Hamming distance between equal-length strings and the
/// exhaustive search that keeps every window of the target tying the smallest
/// distance seen so far.
module PeptideMapping {
  import opened Results

  datatype MappingError =
    | LengthMismatch          // ValueError raised by `hamming_distance`
    | DivisionByZero          // ZeroDivisionError: normalising by an empty length
    | ConstructorArity        // TypeError: the match constructor called with too few arguments

  /** One kept window, with the four values the search hands to its match
      record: start offset, inclusive end offset, distance and the window text. */
  datatype Hit = Hit(start: int, end: int, distance: nat, window: string)

  /** Number of positions at which two equal-length strings differ. */
  function Mismatches(s1: string, s2: string): nat
    requires |s1| == |s2|
  {
    if s1 == [] then 0 else (if s1[0] != s2[0] then 1 else 0) + Mismatches(s1[1..], s2[1..])
  }

  lemma {:induction false} MismatchesBound(s1: string, s2: string)
    requires |s1| == |s2|
    ensures Mismatches(s1, s2) <= |s1|
  {
    if s1 != [] {
      MismatchesBound(s1[1..], s2[1..]);
    }
  }

  lemma {:induction false} MismatchesZeroIff(s1: string, s2: string)
    requires |s1| == |s2|
    ensures Mismatches(s1, s2) == 0 <==> s1 == s2
  {
    if s1 != [] {
      MismatchesZeroIff(s1[1..], s2[1..]);
      if s1[0] == s2[0] && s1[1..] == s2[1..] {
        assert s1 == [s1[0]] + s1[1..] && s2 == [s2[0]] + s2[1..];
      }
    }
  }

  lemma {:induction false} MismatchesSymmetric(s1: string, s2: string)
    requires |s1| == |s2|
    ensures Mismatches(s1, s2) == Mismatches(s2, s1)
  {
    if s1 != [] {
      MismatchesSymmetric(s1[1..], s2[1..]);
    }
  }

  /** `hamming_distance(s1, s2)`: a `ValueError` unless the lengths agree,
      otherwise the number of mismatching positions. */
  function HammingDistance(s1: string, s2: string): (r: Result<nat, MappingError>)
    ensures r.Failure? <==> |s1| != |s2|
    ensures r.Failure? ==> r.error == LengthMismatch
    ensures r.Success? ==> r.value <= |s1| && (r.value == 0 <==> s1 == s2)
  {
    if |s1| != |s2| then Failure(LengthMismatch)
    else
      MismatchesBound(s1, s2);
      MismatchesZeroIff(s1, s2);
      Success(Mismatches(s1, s2))
  }

  lemma HammingDistanceSymmetric(s1: string, s2: string)
    ensures HammingDistance(s1, s2) == HammingDistance(s2, s1)
  {
    if |s1| == |s2| {
      MismatchesSymmetric(s1, s2);
    }
  }

  /** `inverted_normalized_hamming_distance(s1, s2)` = 1 - d / len(s1). */
  function InvertedNormalizedHammingDistance(s1: string, s2: string): (r: Result<real, MappingError>)
    ensures r.Failure? <==> |s1| != |s2| || |s1| == 0
    ensures r.Success? ==> 0.0 <= r.value <= 1.0 && (r.value == 1.0 <==> s1 == s2)
  {
    var h := HammingDistance(s1, s2);
    if h.Failure? then Failure(h.error)
    else if |s1| == 0 then Failure(DivisionByZero)
    else
      var d := h.value;
      assert d as real / |s1| as real <= 1.0;
      Success(1.0 - d as real / |s1| as real)
  }

  // ---------------------------------------------------------------------
  // Specification of the search

  /** Distance of the window of the target at offset `i`, as line 45 computes it. */
  function Dist(query: string, target: string, i: nat): nat
    requires i + |query| <= |target|
  {
    Mismatches(target[i..i + |query|], query)
  }

  function HitAt(query: string, target: string, i: nat): Hit
    requires i + |query| <= |target|
  {
    Hit(i, i + |query| - 1, Dist(query, target, i), target[i..i + |query|])
  }

  /** Smallest window distance among offsets 0 .. n-1. */
  function MinDist(query: string, target: string, n: nat): nat
    requires 1 <= n <= |target| - |query| + 1
  {
    if n == 1 then Dist(query, target, 0)
    else
      var m := MinDist(query, target, n - 1);
      var d := Dist(query, target, n - 1);
      if d < m then d else m
  }

  /** The windows among offsets 0 .. n-1 whose distance is `m`, left to right. */
  function Ties(query: string, target: string, n: nat, m: nat): seq<Hit>
    requires n <= |target| - |query| + 1
  {
    if n == 0 then []
    else Ties(query, target, n - 1, m)
         + (if Dist(query, target, n - 1) == m then [HitAt(query, target, n - 1)] else [])
  }

  function WindowCount(query: string, target: string): int {
    |target| - |query| + 1
  }

  /** What the search returns when the target is at least as long as the query:
      every window of minimum distance, in scan order. */
  function Optimal(query: string, target: string): seq<Hit>
    requires |query| <= |target|
  {
    var n := WindowCount(query, target);
    Ties(query, target, n, MinDist(query, target, n))
  }

  lemma {:induction false} MinDistIsMinimum(query: string, target: string, n: nat)
    requires 1 <= n <= |target| - |query| + 1
    ensures forall j :: 0 <= j < n ==> MinDist(query, target, n) <= Dist(query, target, j)
    ensures exists j :: 0 <= j < n && MinDist(query, target, n) == Dist(query, target, j)
  {
    if n == 1 {
      assert MinDist(query, target, n) == Dist(query, target, 0);
    } else {
      MinDistIsMinimum(query, target, n - 1);
      if Dist(query, target, n - 1) < MinDist(query, target, n - 1) {
        assert MinDist(query, target, n) == Dist(query, target, n - 1);
      } else {
        var j :| 0 <= j < n - 1 && MinDist(query, target, n - 1) == Dist(query, target, j);
        assert MinDist(query, target, n) == Dist(query, target, j);
      }
    }
  }

  lemma {:induction false} MinDistBound(query: string, target: string, n: nat)
    requires 1 <= n <= |target| - |query| + 1
    ensures MinDist(query, target, n) <= |query|
  {
    MismatchesBound(target[0..|query|], query);
    MinDistIsMinimum(query, target, n);
    assert MinDist(query, target, n) <= Dist(query, target, 0);
  }

  lemma {:induction false} TiesBelowMinimum(query: string, target: string, n: nat, m: nat)
    requires 1 <= n <= |target| - |query| + 1
    requires m < MinDist(query, target, n)
    ensures Ties(query, target, n, m) == []
  {
    MinDistIsMinimum(query, target, n);
    TiesEmpty(query, target, n, m);
  }

  lemma {:induction false} TiesEmpty(query: string, target: string, n: nat, m: nat)
    requires n <= |target| - |query| + 1
    requires forall j :: 0 <= j < n ==> Dist(query, target, j) != m
    ensures Ties(query, target, n, m) == []
  {
    if n > 0 {
      TiesEmpty(query, target, n - 1, m);
    }
  }

  /** Every kept window carries its own geometry and has distance `m`. */
  lemma {:induction false} TiesSound(query: string, target: string, n: nat, m: nat)
    requires n <= |target| - |query| + 1
    ensures forall k :: 0 <= k < |Ties(query, target, n, m)| ==>
      var h := Ties(query, target, n, m)[k];
      0 <= h.start < n && h == HitAt(query, target, h.start) && h.distance == m
  {
    if n > 0 {
      TiesSound(query, target, n - 1, m);
    }
  }

  /** Every window of distance `m` is kept. */
  lemma {:induction false} TiesComplete(query: string, target: string, n: nat, m: nat, j: nat)
    requires n <= |target| - |query| + 1
    requires j < n && Dist(query, target, j) == m
    ensures exists k :: 0 <= k < |Ties(query, target, n, m)| && Ties(query, target, n, m)[k].start == j
  {
    var ts := Ties(query, target, n, m);
    if j == n - 1 {
      assert ts[|ts| - 1].start == j;
    } else {
      TiesComplete(query, target, n - 1, m, j);
      var k :| 0 <= k < |Ties(query, target, n - 1, m)| && Ties(query, target, n - 1, m)[k].start == j;
      assert ts[k].start == j;
    }
  }

  /** Kept windows appear in strictly ascending offset order. */
  lemma {:induction false} TiesAscending(query: string, target: string, n: nat, m: nat)
    requires n <= |target| - |query| + 1
    ensures forall k, l :: 0 <= k < l < |Ties(query, target, n, m)| ==>
      Ties(query, target, n, m)[k].start < Ties(query, target, n, m)[l].start
  {
    if n > 0 {
      TiesAscending(query, target, n - 1, m);
      TiesSound(query, target, n - 1, m);
    }
  }

  /** The properties of the search result, all in one place: non-empty, each
      window minimal and well placed, every minimal window present, ascending. */
  lemma OptimalProperties(query: string, target: string)
    requires |query| <= |target|
    ensures var hs := Optimal(query, target);
      && |hs| > 0
      && (forall k :: 0 <= k < |hs| ==>
            && 0 <= hs[k].start <= |target| - |query|
            && hs[k].end == hs[k].start + |query| - 1
            && hs[k].window == target[hs[k].start..hs[k].start + |query|]
            && hs[k].distance <= |query|
            && forall j :: 0 <= j <= |target| - |query| ==> hs[k].distance <= Dist(query, target, j))
      && (forall j :: 0 <= j <= |target| - |query| && Dist(query, target, j) == MinDist(query, target, WindowCount(query, target)) ==>
            exists k :: 0 <= k < |hs| && hs[k].start == j)
      && (forall k, l :: 0 <= k < l < |hs| ==> hs[k].start < hs[l].start)
  {
    var n := WindowCount(query, target);
    var m := MinDist(query, target, n);
    MinDistIsMinimum(query, target, n);
    MinDistBound(query, target, n);
    TiesSound(query, target, n, m);
    TiesAscending(query, target, n, m);
    assert Optimal(query, target) == Ties(query, target, n, m);
    var j0 :| 0 <= j0 < n && m == Dist(query, target, j0);
    TiesComplete(query, target, n, m, j0);
    forall j | 0 <= j <= |target| - |query| && Dist(query, target, j) == m
      ensures exists k :: 0 <= k < |Optimal(query, target)| && Optimal(query, target)[k].start == j
    {
      TiesComplete(query, target, n, m, j);
    }
  }

  /** `map(query, target)`: None when no window exists, otherwise every window
      of minimum Hamming distance in left-to-right order. */
  method Map(query: string, target: string) returns (best: Option<seq<Hit>>)
    ensures best.None? <==> |target| < |query|
    ensures best.Some? ==> best.value == Optimal(query, target)
  {
    var bestScore: nat := |query| + 1;
    var bestMatches: Option<seq<Hit>> := None;
    var queryLen := |query|;
    var n := |target| - queryLen + 1;
    var i := 0;
    while i < n
      invariant 0 <= i && (i == 0 || i <= n)
      invariant i == 0 ==> bestMatches.None? && bestScore == |query| + 1
      invariant i > 0 ==> bestScore == MinDist(query, target, i)
                          && bestMatches == Some(Ties(query, target, i, bestScore))
    {
      var t := target[i..i + queryLen];
      var d := HammingDistance(t, query).value;
      assert d == Dist(query, target, i) && HitAt(query, target, i) == Hit(i, i + queryLen - 1, d, t);
      if d <= bestScore {
        if d < bestScore {
          if i > 0 {
            TiesBelowMinimum(query, target, i, d);
          }
          bestMatches := Some([]);
          bestScore := d;
        }
        assert bestMatches.value == Ties(query, target, i, d);
        bestMatches := Some(bestMatches.value + [Hit(i, i + queryLen - 1, d, t)]);
        assert Ties(query, target, i + 1, d) == Ties(query, target, i, d) + [HitAt(query, target, i)];
      } else {
        assert Ties(query, target, i + 1, bestScore) == Ties(query, target, i, bestScore);
      }
      i := i + 1;
    }
    best := bestMatches;
  }

  /** The example in the module's demonstration block: both copies of the query found. */
  lemma QueryTwiceInTarget()
    ensures Optimal("query", "queryquery") == [Hit(0, 4, 0, "query"), Hit(5, 9, 0, "query")]
  {
    var q, t := "query", "queryquery";
    assert t[0..5] == q && t[5..10] == q;
    MismatchesZeroIff(t[0..5], q);
    MismatchesZeroIff(t[5..10], q);
    forall j | 1 <= j <= 4 ensures Dist(q, t, j) > 0 {
      assert t[j..j + 5][0] != q[0];
      MismatchesZeroIff(t[j..j + 5], q);
    }
    assert MinDist(q, t, 6) == 0;
    assert Ties(q, t, 5, 0) == [HitAt(q, t, 0)];
  }

  /** The search exactly as written: on the first window the loop always calls
      the match constructor with four arguments, which needs at least seven. */
  function MapAsWritten(query: string, target: string): (r: Result<Option<seq<Hit>>, MappingError>)
    ensures r.Failure? <==> |query| <= |target|
    ensures r.Success? ==> r.value.None?
  {
    if WindowCount(query, target) <= 0 then Success(None)
    else
      // window 0 has distance at most |query| < |query| + 1, the initial best score
      MismatchesBound(target[0..|query|], query);
      Failure(ConstructorArity)
  }

  lemma MapAsWrittenFailsOnExample()
    ensures MapAsWritten("query", "queryquery") == Failure(ConstructorArity)
    ensures |Optimal("query", "queryquery")| == 2
  {
    QueryTwiceInTarget();
  }
}
