/** The two similarity measures of the scoring table: Jaccard similarity
    of character sets against the three exemplar replies, and the share of
    distinct characters within one answer. Both are ratios of counts,
    written here as exact rationals. */
module Similarity {
  import opened Text
  import opened Config

  /** `n / d` on counts, exactly. */
  function Ratio(n: nat, d: nat): (r: real)
    requires 0 < d
    ensures 0.0 <= r
    ensures n <= d ==> r <= 1.0
    ensures r == 1.0 <==> n == d
    ensures r == 0.0 <==> n == 0
  {
    var r := n as real / d as real;
    assert r * (d as real) == n as real;
    assert r == 1.0 ==> n as real == d as real;
    r
  }

  /** A non-empty string contributes a character to any union. */
  lemma UnionNonEmpty(a: string, b: string)
    requires a != [] || b != []
    ensures |Elements(a) + Elements(b)| > 0
  {
    if a != [] { assert a[0] in Elements(a) + Elements(b); } else { assert b[0] in Elements(a) + Elements(b); }
  }

  /** `jaccard_similarity(a, b)`: shared characters over all characters.
      The source divides by the size of the union without a guard, so `a`
      or `b` must hold a character. */
  function Jaccard(a: string, b: string): (r: real)
    requires a != [] || b != []
    ensures 0.0 <= r <= 1.0
  {
    CardinalityBounds(Elements(a), Elements(b));
    UnionNonEmpty(a, b);
    Ratio(|Elements(a) * Elements(b)|, |Elements(a) + Elements(b)|)
  }

  /** An intersection is no larger than the union, which is no smaller
      than either side. */
  lemma CardinalityBounds(x: set<char>, y: set<char>)
    ensures |x * y| <= |x + y|
    ensures |x| <= |x + y| && |y| <= |x + y|
  {
    assert x * y <= x + y;
    SubsetCardinality(x * y, x + y);
    SubsetCardinality(x, x + y);
    SubsetCardinality(y, x + y);
  }

  /** A subset is no larger than the set, and as large only when equal. */
  lemma SubsetCardinality(x: set<char>, y: set<char>)
    requires x <= y
    ensures |x| <= |y|
    ensures |x| == |y| ==> x == y
  {
    assert y == x + (y - x);
    if |x| == |y| {
      assert |y - x| == 0;
    }
  }

  /** The similarity does not depend on the order of its arguments. */
  lemma JaccardSymmetric(a: string, b: string)
    requires a != [] || b != []
    ensures Jaccard(a, b) == Jaccard(b, a)
  {
    assert Elements(a) * Elements(b) == Elements(b) * Elements(a);
    assert Elements(a) + Elements(b) == Elements(b) + Elements(a);
  }

  /** The similarity is one exactly when both strings use the same
      characters; in particular a non-empty string is fully similar to
      itself. */
  lemma JaccardOneIff(a: string, b: string)
    requires a != [] || b != []
    ensures Jaccard(a, b) == 1.0 <==> Elements(a) == Elements(b)
  {
    var x, y := Elements(a), Elements(b);
    if Jaccard(a, b) == 1.0 {
      assert |x * y| == |x + y|;
      SubsetCardinality(x * y, x + y);
      assert x == x * y;
    }
    if x == y {
      assert x * y == x + y;
    }
  }

  /** The similarity is zero exactly when no character is shared. */
  lemma JaccardZeroIff(a: string, b: string)
    requires a != [] || b != []
    ensures Jaccard(a, b) == 0.0 <==> forall i, j :: 0 <= i < |a| && 0 <= j < |b| ==> a[i] != b[j]
  {
    var x, y := Elements(a), Elements(b);
    if Jaccard(a, b) == 0.0 {
      assert x * y == {};
      forall i, j | 0 <= i < |a| && 0 <= j < |b| ensures a[i] != b[j] {
        assert a[i] in x && b[j] in y && a[i] !in x * y;
      }
    } else {
      assert |x * y| != 0;
      var c :| c in x * y;
      var i :| 0 <= i < |a| && a[i] == c;
      var j :| 0 <= j < |b| && b[j] == c;
      assert a[i] == b[j];
    }
  }

  /** One minus the mean similarity of `a` to three non-empty
      references. */
  function JaccardDistance(a: string, t1: string, t2: string, t3: string): (r: real)
    requires t1 != [] && t2 != [] && t3 != []
    ensures 0.0 <= r <= 1.0
  {
    1.0 - (Jaccard(a, t1) + Jaccard(a, t2) + Jaccard(a, t3)) / 3.0
  }

  /** The distance is one exactly when `a` shares no character with any
      reference, and zero exactly when it uses the same characters as
      each of them. */
  lemma JaccardDistanceExtremes(a: string, t1: string, t2: string, t3: string)
    requires t1 != [] && t2 != [] && t3 != []
    ensures JaccardDistance(a, t1, t2, t3) == 1.0 <==>
      Jaccard(a, t1) == 0.0 && Jaccard(a, t2) == 0.0 && Jaccard(a, t3) == 0.0
    ensures JaccardDistance(a, t1, t2, t3) == 0.0 <==>
      Elements(a) == Elements(t1) && Elements(a) == Elements(t2) && Elements(a) == Elements(t3)
  {
    JaccardOneIff(a, t1);
    JaccardOneIff(a, t2);
    JaccardOneIff(a, t3);
  }

  /** The `jaccard` column: the distance to the three exemplar replies. */
  function ExemplarDistance(a: string): (r: real)
    ensures 0.0 <= r <= 1.0
  {
    JaccardDistance(a, T1, T2, T3)
  }

  /** The `self_similarity` column: distinct characters over length, and
      one for the empty string. */
  function SelfSimilarity(s: string): (r: real)
    ensures 0.0 < r <= 1.0
    ensures s == [] ==> r == 1.0
  {
    ElementsSize(s);
    if |s| == 0 then 1.0 else Ratio(|Elements(s)|, |s|)
  }

  /** The column is one exactly when no character repeats. */
  lemma SelfSimilarityOneIff(s: string)
    ensures SelfSimilarity(s) == 1.0 <==> AllDistinct(s)
  {
    ElementsFullIffDistinct(s);
  }

  /** Two letters, each written twice, give one half. */
  lemma SelfSimilarityExample(a: char, b: char)
    requires a != b
    ensures SelfSimilarity([a, a, b, b]) == 0.5
  {
    assert [a, a, b, b][1..] == [a, b, b];
    assert [a, b, b][1..] == [b, b];
    assert [b, b][1..] == [b];
    assert Elements([a, a, b, b]) == {a, b};
  }
}
