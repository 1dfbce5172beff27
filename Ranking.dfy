/** The scoring table of tweet.py: one row of metrics per cleaned answer,
    and `score`, which zeroes every row that fails a hard gate and
    otherwise adds the novelty and the character variety of the answer. */
module Ranking {
  import opened Text
  import opened Metrics
  import opened Similarity

  /** One row of the table: the answer and its columns. */
  datatype Candidate = Candidate(
    text: string,
    len: nat,
    digits: nat,
    trump: nat,
    symbols: nat,
    bannedWords: nat,
    repeatedSentences: nat,
    jaccard: real,
    selfSimilarity: real)

  /** The length column agrees with the text, as it does in every row the
      table is built from. */
  predicate WellFormed(c: Candidate) {
    c.len == |c.text|
  }

  /** The row built for one answer. */
  function Measure(t: string): (c: Candidate)
    ensures WellFormed(c) && c.text == t
    ensures c.digits <= c.len && c.symbols <= c.len && c.bannedWords <= 2
    ensures 0.0 <= c.jaccard <= 1.0 && 0.0 < c.selfSimilarity <= 1.0
  {
    Candidate(t, |t|, DigitCount(t), MentionCount(t), SymbolCount(t),
      BannedWordHits(t), RepeatedSentences(t), ExemplarDistance(t), SelfSimilarity(t))
  }

  /** The hard gates of `score`, in the order the source tests them; the
      first character is read only once the length gate has passed, so it
      exists. */
  predicate Disqualified(c: Candidate)
    requires WellFormed(c)
  {
    c.len < 10 || c.len > 250 ||
    c.trump > 0 || c.symbols > 2 ||
    IsPunctuation(c.text[0]) || c.digits > 4 ||
    c.bannedWords > 0 || c.repeatedSentences > 0
  }

  /** `score(row)`. */
  function Score(c: Candidate): real
    requires WellFormed(c)
  {
    if Disqualified(c) then 0.0 else c.jaccard + c.selfSimilarity
  }

  /** A row's score is zero exactly when a gate fails; otherwise it is the
      novelty plus the variety of the answer, which lies in (0, 2]. */
  lemma ScoreRange(t: string)
    ensures 0.0 <= Score(Measure(t)) <= 2.0
    ensures Score(Measure(t)) == 0.0 <==> Disqualified(Measure(t))
    ensures !Disqualified(Measure(t)) ==>
      Score(Measure(t)) == ExemplarDistance(t) + SelfSimilarity(t)
  {
  }

  /** A row that passes every gate, stated on the answer itself. */
  predicate PassesGates(t: string) {
    10 <= |t| <= 250 &&
    !Contains(Lower(t), "trump") && SymbolCount(t) <= 2 &&
    !IsPunctuation(t[0]) && DigitCount(t) <= 4 &&
    !Contains(Lower(t), "hitler") && !Contains(Lower(t), "kill") &&
    AllDistinct(Sentences(t))
  }

  /** A row that is not disqualified passes every gate: in the source's
      terms, it has 10 to 250 characters, no mention of "trump", at most
      two symbols and four digits, no leading punctuation, no banned word
      and no repeated sentence. */
  lemma NotDisqualifiedPassesGates(t: string)
    ensures !Disqualified(Measure(t)) <==> PassesGates(t)
  {
    MentionCountFacts(t);
    RepeatedSentencesZeroIff(t);
  }
}
