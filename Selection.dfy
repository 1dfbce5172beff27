/** The last step of tweet.py: keep the rows whose score lies strictly
    between 0.4 and 0.65, and pick one of them. The table is sorted by
    score before the filter; the filter's result does not depend on that
    order. */
module Selection {
  import opened Wrappers
  import opened Similarity
  import opened Ranking

  /** A row together with its `score` column. */
  datatype Scored = Scored(row: Candidate, score: real)

  /** `0.4 < score < 0.65`. */
  predicate InBand(x: real) {
    0.4 < x < 0.65
  }

  /** The rows of the table whose score is in the band, in table order. */
  function BandFilter(rows: seq<Scored>): (r: seq<Scored>)
    ensures |r| <= |rows|
    ensures forall x :: x in r <==> x in rows && InBand(x.score)
  {
    if |rows| == 0 then []
    else (if InBand(rows[0].score) then [rows[0]] else []) + BandFilter(rows[1..])
  }

  /** The filter keeps every in-band row as often as the table holds it,
      and no other row. */
  lemma {:induction false} BandFilterCounts(rows: seq<Scored>)
    ensures forall x :: multiset(BandFilter(rows))[x] == if InBand(x.score) then multiset(rows)[x] else 0
  {
    if |rows| > 0 {
      BandFilterCounts(rows[1..]);
      assert rows == [rows[0]] + rows[1..];
    }
  }

  /** `df['score'] = df.apply(score, axis=1)`: the score column of
      every row is set, in place, from the row's metrics. */
  method AddScores(a: array<Scored>)
    requires forall k :: 0 <= k < a.Length ==> WellFormed(a[k].row)
    modifies a
    ensures forall k :: 0 <= k < a.Length ==> a[k] == Scored(old(a[k]).row, Score(old(a[k]).row))
  {
    var i := 0;
    while i < a.Length
      invariant 0 <= i <= a.Length
      invariant forall k :: 0 <= k < i ==> a[k] == Scored(old(a[k]).row, Score(old(a[k]).row))
      invariant forall k :: i <= k < a.Length ==> a[k] == old(a[k])
    {
      a[i] := Scored(a[i].row, Score(a[i].row));
      i := i + 1;
    }
  }

  /** Scores never increase along the table. */
  predicate SortedByScore(rows: seq<Scored>) {
    forall p, q :: 0 <= p < q < |rows| ==> rows[p].score >= rows[q].score
  }

  /** `df.sort_values(by='score', ascending=False, inplace=True)`: the
      table is reordered in place, highest score first. */
  method SortByScore(a: array<Scored>)
    modifies a
    ensures SortedByScore(a[..])
    ensures multiset(a[..]) == multiset(old(a[..]))
  {
    var i := 0;
    while i < a.Length
      invariant 0 <= i <= a.Length
      invariant forall p, q :: 0 <= p < q < i ==> a[p].score >= a[q].score
      invariant multiset(a[..]) == multiset(old(a[..]))
    {
      var j := i;
      while j > 0 && a[j - 1].score < a[j].score
        invariant 0 <= j <= i
        invariant forall p, q :: 0 <= p < q <= i && p != j && q != j ==> a[p].score >= a[q].score
        invariant forall q :: j < q <= i ==> a[j].score >= a[q].score
        invariant multiset(a[..]) == multiset(old(a[..]))
      {
        Swap(a, j - 1, j);
        j := j - 1;
      }
      i := i + 1;
    }
  }

  /** Exchanges two rows of the table. */
  method Swap(a: array<Scored>, i: nat, j: nat)
    requires i < j < a.Length
    modifies a
    ensures a[..] == old(a[..])[i := old(a[j])][j := old(a[i])]
    ensures multiset(a[..]) == multiset(old(a[..]))
  {
    a[i], a[j] := a[j], a[i];
  }

  /** Reordering the table (the descending sort of the source, or any
      other permutation) reorders the filtered rows and changes nothing
      else. */
  lemma BandFilterIgnoresOrder(a: seq<Scored>, b: seq<Scored>)
    requires multiset(a) == multiset(b)
    ensures multiset(BandFilter(a)) == multiset(BandFilter(b))
  {
    BandFilterCounts(a);
    BandFilterCounts(b);
  }

  /** `filtered_df.sample()`, with the random draw given as `pick`: no row
      when the filter kept none, otherwise the kept row at `pick` modulo
      their number. */
  function Select(filtered: seq<Scored>, pick: nat): (r: Option<Scored>)
    ensures r.None? <==> filtered == []
    ensures r.Some? ==> r.value in filtered
  {
    if |filtered| == 0 then None else Some(filtered[pick % |filtered|])
  }

  /** Every kept row can be drawn. */
  lemma SelectReachesAll(filtered: seq<Scored>, i: nat)
    requires i < |filtered|
    ensures Select(filtered, i) == Some(filtered[i])
  {
  }

  /** The chosen row is in the band, and whether some row is chosen does
      not depend on the order of the table. */
  lemma SelectedInBand(a: seq<Scored>, b: seq<Scored>, pick: nat)
    requires multiset(a) == multiset(b)
    ensures Select(BandFilter(a), pick).None? <==> Select(BandFilter(b), pick).None?
    ensures Select(BandFilter(a), pick).Some? ==>
      Select(BandFilter(a), pick).value in b && InBand(Select(BandFilter(a), pick).value.score)
  {
    BandFilterIgnoresOrder(a, b);
    if Select(BandFilter(a), pick).Some? {
      assert Select(BandFilter(a), pick).value in multiset(a);
    }
  }

  /** A row in the band has passed every gate: a disqualified row scores
      zero, which is outside the band. */
  lemma BandSurvivorPassesGates(t: string)
    requires InBand(Score(Measure(t)))
    ensures PassesGates(t)
    ensures 0.4 < ExemplarDistance(t) + SelfSimilarity(t) < 0.65
  {
    ScoreRange(t);
    NotDisqualifiedPassesGates(t);
  }
}
