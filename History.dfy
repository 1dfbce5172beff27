/** Which prompt the bot answers: the friends' recent tweets in the order
    they were fetched, and the log of prompts answered in earlier runs. */
module History {
  import opened Wrappers

  /** A fetched tweet: `(tweet.id_str, tweet.full_text)`, with the id read
      as a number. */
  datatype Tweet = Tweet(id: nat, text: string)

  /** One row of the log: the prompt answered and the reply posted. */
  datatype Record = Record(promptId: nat, promptText: string, responseId: nat, responseText: string)

  /** `set(df.prompt_tweet_id)`. */
  function ProcessedIds(history: seq<Record>): (ids: set<nat>)
    ensures forall id :: id in ids <==> exists k :: 0 <= k < |history| && history[k].promptId == id
  {
    set k | 0 <= k < |history| :: history[k].promptId
  }

  /** An empty log has answered nothing, and logging one more exchange
      adds exactly its prompt's id to the answered ones. */
  lemma ProcessedIdsAppend(history: seq<Record>, rec: Record)
    ensures ProcessedIds([]) == {}
    ensures ProcessedIds(history + [rec]) == ProcessedIds(history) + {rec.promptId}
  {
    assert (history + [rec])[|history|] == rec;
    forall id | id in ProcessedIds(history) ensures id in ProcessedIds(history + [rec]) {
      var k :| 0 <= k < |history| && history[k].promptId == id;
      assert (history + [rec])[k] == history[k];
    }
    forall id | id in ProcessedIds(history + [rec]) && id != rec.promptId
      ensures id in ProcessedIds(history)
    {
      var k :| 0 <= k < |history + [rec]| && (history + [rec])[k].promptId == id;
      assert k < |history| && history[k] == (history + [rec])[k];
    }
  }

  /** `tweets[i]` is unprocessed and every tweet before it is processed. */
  predicate FirstUnprocessedAt(tweets: seq<Tweet>, processed: set<nat>, i: int) {
    0 <= i < |tweets| && tweets[i].id !in processed &&
    forall j :: 0 <= j < i ==> tweets[j].id in processed
  }

  /** `next(filter(lambda x: int(x[0]) not in processed, tweets), None)`. */
  function FirstUnprocessed(tweets: seq<Tweet>, processed: set<nat>): (r: Option<Tweet>)
    ensures r.None? <==> forall i :: 0 <= i < |tweets| ==> tweets[i].id in processed
    ensures r.Some? ==> exists i :: FirstUnprocessedAt(tweets, processed, i) && tweets[i] == r.value
  {
    if |tweets| == 0 then None
    else if tweets[0].id !in processed then
      assert FirstUnprocessedAt(tweets, processed, 0);
      Some(tweets[0])
    else
      var r := FirstUnprocessed(tweets[1..], processed);
      assert r.Some? ==> exists i :: FirstUnprocessedAt(tweets, processed, i) && tweets[i] == r.value by {
        if r.Some? {
          var i :| FirstUnprocessedAt(tweets[1..], processed, i) && tweets[1..][i] == r.value;
          assert FirstUnprocessedAt(tweets, processed, i + 1) by {
            forall j | 0 <= j < i + 1 ensures tweets[j].id in processed {
              if j > 0 { assert tweets[j] == tweets[1..][j - 1]; }
            }
          }
        }
      }
      r
  }

  /** Once the answer to a prompt is logged, the next run does not answer
      that prompt again: it finds another unanswered tweet, or none. */
  lemma AnsweredOnce(tweets: seq<Tweet>, history: seq<Record>, rec: Record)
    requires FirstUnprocessed(tweets, ProcessedIds(history)).Some?
    requires rec.promptId == FirstUnprocessed(tweets, ProcessedIds(history)).value.id
    ensures var next := FirstUnprocessed(tweets, ProcessedIds(history + [rec]));
      next.Some? ==> next.value.id != rec.promptId && next.value.id !in ProcessedIds(history)
  {
    ProcessedIdsAppend(history, rec);
  }
}
