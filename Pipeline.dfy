/** One run of the bot, end to end: choose the first friend tweet not yet
    answered, clean every continuation the generator wrote from the
    primed prompt, score the cleaned answers, keep those in the score band
    and reply with one of them, appending the exchange to the log. */
module Pipeline {
  import opened Wrappers
  import opened Cleanup
  import opened Ranking
  import opened Selection
  import opened History

  /** The table row of one answer, with its `score` column. */
  function Row(a: string): Scored {
    Scored(Measure(a), Score(Measure(a)))
  }

  /** A cleaned answer from `generated` that scores inside the band. */
  predicate Eligible(generated: seq<string>, promptUpdated: string, a: string) {
    (exists k :: 0 <= k < |generated| && a == Cleaned(generated[k], promptUpdated)) &&
    InBand(Score(Measure(a)))
  }

  /** The rows of the table built for `answers`, in order. */
  function Rows(answers: seq<string>): (rows: seq<Scored>)
    ensures |rows| == |answers|
    ensures forall k :: 0 <= k < |answers| ==> rows[k] == Row(answers[k])
  {
    seq(|answers|, k requires 0 <= k < |answers| => Row(answers[k]))
  }

  /** Each row measures its own answer, and its score lies in [0, 2], is 0
      exactly when the row is disqualified and is above 0 exactly when the
      answer passes every gate. */
  lemma RowsScored(answers: seq<string>)
    ensures forall k :: 0 <= k < |answers| ==>
      WellFormed(Rows(answers)[k].row) && Rows(answers)[k].row.text == answers[k] &&
      0.0 <= Rows(answers)[k].score <= 2.0 &&
      (Rows(answers)[k].score == 0.0 <==> Disqualified(Rows(answers)[k].row)) &&
      (Rows(answers)[k].score > 0.0 <==> PassesGates(answers[k]))
  {
    forall k | 0 <= k < |answers|
      ensures 0.0 <= Rows(answers)[k].score <= 2.0
      ensures Rows(answers)[k].score == 0.0 <==> Disqualified(Rows(answers)[k].row)
      ensures Rows(answers)[k].score > 0.0 <==> PassesGates(answers[k])
    {
      ScoreRange(answers[k]);
      NotDisqualifiedPassesGates(answers[k]);
    }
  }

  /** `answers = list(map(process, generated))`. */
  method ProcessAll(generated: seq<string>, promptUpdated: string) returns (answers: seq<string>)
    ensures |answers| == |generated|
    ensures forall k :: 0 <= k < |generated| ==> answers[k] == Cleaned(generated[k], promptUpdated)
  {
    answers := [];
    var i := 0;
    while i < |generated|
      invariant 0 <= i <= |generated| && |answers| == i
      invariant forall k :: 0 <= k < i ==> answers[k] == Cleaned(generated[k], promptUpdated)
    {
      var a := Process(generated[i], promptUpdated);
      answers := answers + [a];
      i := i + 1;
    }
  }

  /** The table of metrics built from `answers`, before its score
      column is filled in (each score is 0 until then). */
  method NewTable(answers: seq<string>) returns (table: array<Scored>)
    ensures fresh(table) && table.Length == |answers|
    ensures forall k :: 0 <= k < |answers| ==> table[k] == Scored(Measure(answers[k]), 0.0)
  {
    table := new Scored[|answers|](k requires 0 <= k < |answers| => Scored(Measure(answers[k]), 0.0));
  }

  /** Whatever order the table is in, the draw finds no row exactly when
      no answer scores inside the band, and otherwise draws the row of
      one of the answers. */
  lemma DrawFromTable(answers: seq<string>, table: seq<Scored>, pick: nat)
    requires multiset(table) == multiset(Rows(answers))
    ensures Select(BandFilter(table), pick).None? <==>
      forall k :: 0 <= k < |answers| ==> !InBand(Row(answers[k]).score)
    ensures Select(BandFilter(table), pick).Some? ==>
      exists k :: 0 <= k < |answers| && Select(BandFilter(table), pick).value == Row(answers[k])
  {
    var rows := Rows(answers);
    if Select(BandFilter(table), pick).None? {
      forall k | 0 <= k < |answers| ensures !InBand(Row(answers[k]).score) {
        assert rows[k] in multiset(table);
      }
    } else {
      assert Select(BandFilter(table), pick).value in multiset(rows);
    }
  }

  /** The drawn row (one of the table's, inside the band) carries a
      cleaned answer that is eligible and passes every gate. */
  lemma DrawnIsEligible(generated: seq<string>, promptUpdated: string, answers: seq<string>, r: Scored)
    requires |answers| == |generated|
    requires forall k :: 0 <= k < |generated| ==> answers[k] == Cleaned(generated[k], promptUpdated)
    requires exists k :: 0 <= k < |answers| && r == Row(answers[k])
    requires InBand(r.score)
    ensures Eligible(generated, promptUpdated, r.row.text) && PassesGates(r.row.text)
  {
    var k :| 0 <= k < |answers| && r == Row(answers[k]);
    assert r.row.text == answers[k];
    BandSurvivorPassesGates(r.row.text);
  }

  /** From the generated continuations to the reply: `process` each one,
      build the scored table, sort it, keep the in-band rows and draw one
      (the draw given as `pick`). There is no reply exactly when no
      cleaned answer scores inside the band; a reply is one of the cleaned
      answers, scores inside the band and passes every gate. */
  method RankAndSelect(generated: seq<string>, promptUpdated: string, pick: nat) returns (reply: Option<string>)
    ensures reply.None? <==>
      forall k :: 0 <= k < |generated| ==> !InBand(Score(Measure(Cleaned(generated[k], promptUpdated))))
    ensures reply.Some? ==> Eligible(generated, promptUpdated, reply.value) && PassesGates(reply.value)
  {
    var answers := ProcessAll(generated, promptUpdated);
    var table := NewTable(answers);
    AddScores(table);
    assert table[..] == Rows(answers);
    SortByScore(table);
    var chosen := Select(BandFilter(table[..]), pick);
    DrawFromTable(answers, table[..], pick);
    if chosen.None? {
      reply := None;
    } else {
      reply := Some(chosen.value.row.text);
      DrawnIsEligible(generated, promptUpdated, answers, chosen.value);
    }
  }

  /** What one run does. */
  datatype Outcome =
    | NoNewTweet
    | NoReply(prompt: Tweet)
    | Replied(prompt: Tweet, reply: string)

  /** The script: pick the first unanswered tweet, prime the generator
      with it, and reply when some answer scores inside the band. The
      generator, the random draw and the id of the posted reply are given;
      the log is returned with the new row appended when a reply is
      posted, and unchanged otherwise. */
  method Run(tweets: seq<Tweet>, history: seq<Record>, generate: string -> seq<string>, pick: nat, replyId: nat)
    returns (outcome: Outcome, log: seq<Record>)
    ensures outcome.NoNewTweet? <==> forall i :: 0 <= i < |tweets| ==> tweets[i].id in ProcessedIds(history)
    ensures !outcome.NoNewTweet? ==> FirstUnprocessed(tweets, ProcessedIds(history)) == Some(outcome.prompt)
    ensures outcome.NoReply? ==> forall a :: !Eligible(generate(ComposePrompt(outcome.prompt.text)), ComposePrompt(outcome.prompt.text), a)
    ensures outcome.Replied? ==>
      Eligible(generate(ComposePrompt(outcome.prompt.text)), ComposePrompt(outcome.prompt.text), outcome.reply) &&
      PassesGates(outcome.reply)
    ensures outcome.Replied? ==>
      log == history + [Record(outcome.prompt.id, outcome.prompt.text, replyId, outcome.reply)]
    ensures !outcome.Replied? ==> log == history
  {
    var next := FirstUnprocessed(tweets, ProcessedIds(history));
    if next.None? {
      outcome, log := NoNewTweet, history;
    } else {
      var promptUpdated := ComposePrompt(next.value.text);
      var reply := RankAndSelect(generate(promptUpdated), promptUpdated, pick);
      if reply.None? {
        outcome, log := NoReply(next.value), history;
      } else {
        outcome := Replied(next.value, reply.value);
        log := history + [Record(next.value.id, next.value.text, replyId, reply.value)];
      }
    }
  }
}
