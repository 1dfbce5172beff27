# PerryGPT reply selection, modelled in Dafny

PerryGPT is a Twitter bot (`tweet.py`). Each run does the following:

1. It fetches its friends' recent tweets.
2. It picks the first tweet whose id is not yet in its log, `processed.csv`.
3. It primes a GPT-2 generator with that tweet and three exemplar replies, and asks for sixty continuations.
4. It cleans each continuation with `process`.
5. It builds a table with one row per cleaned answer. The columns are the length, digit count, "trump" mentions, non-ASCII/`@` symbols, banned words, repeated sentences, Jaccard distance to the exemplars, and self-similarity.
6. It scores every row, sorts the table by score and keeps the rows scoring strictly between 0.4 and 0.65.
7. It replies with one of those rows, drawn at random, and appends the exchange to the log.

This project models that decision logic and proves what it guarantees. The modules are:

- `Text`: Python string primitives used by the script. These are `strip`, `find`, `rfind`, `lower`, `count`, `replace(p, '')`, `in` and `set(...)`.
- `Urls`: the substitution `re.sub(r'http\S+', '', s)`, written as a scan.
- `Config`: `BANNED_WORDS` and the exemplars `t1`, `t2`, `t3`.
- `Cleanup`: the prompt template and `process`. `Process` is a method that rebinds its text line by line, and is proved equal to the function `Cleaned`.
- `Metrics`: the digit, symbol, mention, banned-word and repeated-sentence columns.
- `Similarity`: `jaccard_similarity` together with the `jaccard` and `self_similarity` columns.
- `Ranking`: the table row, `Candidate`, and `score`.
- `Selection`: the score column and the sort (both in place, on an `array`), the band filter and the draw.
- `History`: the log and the choice of the first unanswered tweet.
- `Pipeline`: one run end to end, with the generator and the random draw passed in as parameters.

Facts about the program that the proofs bring out:

- **The length checks change nothing.** After the slice between the first and the last full stop, the text ends with `.`. So `s[:s.rfind('.')+1]` is the text itself: both `len(s) > 280` steps leave it unchanged, and a cleaned answer can be arbitrarily long (`CleanupUnbounded`). What keeps long answers out of replies is the score gate `len > 250`. A reply therefore has at most 250 characters (`PassesGates`).
- **In-band rows pass every gate.** A disqualified row scores exactly 0. So every row in the band has passed all the hard gates, and its score is distance plus self-similarity.
- **The sort does not change the outcome.** It only reorders the table. The band filter keeps the same rows, with the same multiplicities, in any order. The draw therefore finds a row in one order exactly when it finds one in any other.

Behaviour of the code that is easy to misread:

- **Jaccard on two empty strings.** `jaccard_similarity` divides by the size of the union with no guard, so it fails when both strings are empty. `Jaccard` therefore requires one of its arguments to be non-empty. Every call in the script passes a non-empty exemplar as the second argument.
- **Prompt removal.** `process` removes every occurrence of the primed prompt, wherever it appears, because it uses `str.replace`.
- **Full stops only.** The slice and the truncation in `process` look for `.` alone. Whatever follows the last `.` is dropped, even a sentence that ends in `!` or `?`.
- **Empty sentence pieces count.** The repeated-sentence column counts every piece of the split, including empty ones. For `"A. A. B."` that gives the pieces `A`, `A`, `B` and `""`, so the excess is 1.

## Model

| member | source | states |
|---|---|---|
| Text.StripShape | tweet.py:80 | `strip()` returns a contiguous piece of its argument that neither starts nor ends with whitespace, and is empty exactly when the argument is all whitespace |
| Text.StripNoOp | tweet.py:80 | text without surrounding whitespace is left unchanged by `strip()` |
| Text.StripContained | tweet.py:80 | the stripped text occurs inside the original |
| Text.TrimStartShape | tweet.py:80 | the leading trim drops exactly a whitespace prefix |
| Text.TrimEndShape | tweet.py:80 | the trailing trim drops exactly a whitespace suffix |
| Text.Find | tweet.py:84 | `find('.')` is the first index holding the character, and -1 exactly when there is none |
| Text.RFind | tweet.py:84 | `rfind('.')` is the last index holding the character, and -1 exactly when there is none |
| Text.FindBeforeRFind | tweet.py:84 | the first occurrence is never after the last, and both are missing together |
| Text.RemoveAllLength | tweet.py:80 | `replace(p, '')` shortens the text by the prompt's length once per counted occurrence |
| Text.RemoveAllAbsent | tweet.py:80 | text not containing the prompt is unchanged by the removal |
| Text.CountZeroIff | tweet.py:112 | `count` of a non-empty pattern is zero exactly when the pattern does not occur |
| Text.ElementsSize | tweet.py:117 | a string has at most as many distinct characters as characters, and at least one when non-empty |
| Text.ElementsFullIffDistinct | tweet.py:117 | the number of distinct values equals the length exactly when no value repeats |
| Urls.NonSpaceRun | tweet.py:81 | `\S+` consumes a maximal run of non-whitespace |
| Urls.StripUrlsNoUrl | tweet.py:81 | after `re.sub(r'http\S+', '', s)` no match of the pattern is left anywhere, although the substitution is one left-to-right pass |
| Urls.StripUrlsNoOp | tweet.py:81 | link-free text is unchanged by the substitution |
| Urls.StripUrlsIdempotent | tweet.py:81 | substituting twice is the same as substituting once |
| Urls.NoUrlSubstring | tweet.py:81 | any piece of link-free text is link-free |
| Urls.StripUrlsAgree | tweet.py:81 | the substituted text agrees with the original up to a whitespace boundary or its end, so no match is created across a removed link |
| Cleanup.ComposePromptShape | tweet.py:73-77 | the cleaned prompt tweet holds no link; the primed prompt begins and ends with it and contains a space |
| Cleanup.SliceBetweenDots | tweet.py:84 | the slice between the first and last full stop, stripped, when non-empty ends with `.` and starts with a non-space |
| Cleanup.SliceShape | tweet.py:84 | the slice is empty exactly when there are fewer than two full stops, and always occurs in its input |
| Cleanup.SliceEnds | tweet.py:84 | the start index is never after the end index; they coincide exactly when there are fewer than two full stops |
| Cleanup.TruncateNoOp | tweet.py:85 | a text that is empty, or starts with a non-space and ends with `.`, is unchanged by `s[:s.rfind('.')+1].strip()` |
| Cleanup.CleanupIsSlice | tweet.py:84-86 | `process` returns exactly the slice between the dots of the de-linked text |
| Cleanup.CleanupDots | tweet.py:84-88 | the result of `process` is empty exactly when the de-linked text has fewer than two full stops, and otherwise ends with `.` |
| Cleanup.CleanupInUnlinked | tweet.py:81-88 | the result is a piece of the text after link removal |
| Cleanup.CleanupNoUrl | tweet.py:81-88 | the result carries no link |
| Cleanup.CleanupLength | tweet.py:79-88 | the result is no longer than the generated text |
| Cleanup.DelinkedNoOp | tweet.py:80-81 | text without the prompt, links or surrounding whitespace passes the first two lines unchanged |
| Cleanup.CleanupUnbounded | tweet.py:85-86 | for every n, a text of a full stop, n letters and a full stop comes out with n+1 characters, so the 280 checks do not bound the result |
| Cleanup.Process | tweet.py:79-88 | the five rebinding steps compute `Cleaned(s, prompt)`, which is empty or ends with `.`, carries no link and is no longer than `s` |
| Metrics.CountWhere | tweet.py:111 | a count of matching characters is at most the length; it is zero exactly when none matches and the full length exactly when all match |
| Metrics.CountWhereAppend | tweet.py:113 | the symbol and digit counts add up over concatenation |
| Metrics.MentionCountFacts | tweet.py:112 | the `trump` column is zero exactly when the lower-cased text does not contain "trump", and five times it is at most the length |
| Metrics.BannedHits | tweet.py:114 | the number of banned words contained is at most the number of banned words, and zero exactly when none occurs |
| Metrics.BannedWordHits | tweet.py:114 | the `banned_words` column is at most 2, and zero exactly when neither "hitler" nor "kill" occurs in the lower-cased text |
| Metrics.SplitSentencesShape | tweet.py:115 | `re.split(r"[.!?]", s)` yields one more piece than there are terminators, and no piece holds a terminator |
| Metrics.SplitRejoin | tweet.py:115 | interleaving the pieces with the terminators gives back the text |
| Metrics.SentencesShape | tweet.py:115 | there is one sentence key more than there are terminators in the text, and every key is free of terminators and of surrounding whitespace |
| Metrics.ExcessZeroIff | tweet.py:115 | `sum(Counter.values()) - len(Counter)` is zero exactly when no key repeats |
| Metrics.RepeatedSentencesZeroIff | tweet.py:115 | the `repeated_sentences` column is zero exactly when the stripped pieces are pairwise distinct |
| Metrics.SplitThree | tweet.py:115 | three terminator-free sentences, each closed by `.`, split into those sentences and a final empty piece |
| Metrics.SentencesOfThree | tweet.py:115 | the keys of `"x. y. z."` are x, y, z and the empty string |
| Metrics.RepeatedSentencesExampleRepeat | tweet.py:115 | `"x. x. y."` has excess 1 |
| Metrics.RepeatedSentencesExampleNone | tweet.py:115 | `"x. y. z."` with distinct sentences has excess 0 |
| Similarity.Ratio | tweet.py:97 | a count over a positive count is non-negative, at most 1 when the numerator is not larger, 1 exactly when they are equal and 0 exactly when the numerator is 0 |
| Similarity.Jaccard | tweet.py:95-97 | `jaccard_similarity` lies in [0, 1] (requiring a non-empty side, because the union is the divisor) |
| Similarity.JaccardSymmetric | tweet.py:95-97 | the similarity does not depend on argument order |
| Similarity.JaccardOneIff | tweet.py:95-97 | the similarity is 1 exactly when both strings use the same characters |
| Similarity.JaccardZeroIff | tweet.py:95-97 | the similarity is 0 exactly when no character is shared |
| Similarity.JaccardDistance | tweet.py:116 | one minus the mean similarity to three non-empty references lies in [0, 1] |
| Similarity.JaccardDistanceExtremes | tweet.py:116 | the distance is 1 exactly when no exemplar shares a character, and 0 exactly when every exemplar uses the same character set as the answer |
| Similarity.ExemplarDistance | tweet.py:116 | the `jaccard` column, against `t1`, `t2`, `t3`, lies in [0, 1] |
| Similarity.SelfSimilarity | tweet.py:117 | the `self_similarity` column lies in (0, 1] and is 1 for the empty string |
| Similarity.SelfSimilarityOneIff | tweet.py:117 | the column is 1 exactly when no character repeats |
| Similarity.SelfSimilarityExample | tweet.py:117 | two letters each written twice give 0.5 |
| Ranking.Measure | tweet.py:108-118 | a row's length column is the text's length, digits and symbols are at most the length, banned words at most 2, `jaccard` in [0, 1] and `self_similarity` in (0, 1] |
| Ranking.ScoreRange | tweet.py:99-105 | a score lies in [0, 2], is 0 exactly when a gate fails, and otherwise is the distance plus the self-similarity |
| Ranking.NotDisqualifiedPassesGates | tweet.py:99-105 | a row fails no gate exactly when the answer has 10 to 250 characters, no "trump", at most two symbols and four digits, no leading punctuation, no banned word and pairwise distinct sentences |
| Selection.AddScores | tweet.py:119 | each row's score column is set in place to `score(row)`, and its metrics are kept |
| Selection.SortByScore | tweet.py:120 | the table is reordered in place into non-increasing score order, as a permutation of its rows |
| Selection.BandFilter | tweet.py:125 | the filter keeps exactly the rows whose score lies strictly between 0.4 and 0.65 |
| Selection.BandFilterCounts | tweet.py:125 | each in-band row is kept as many times as the table holds it, and no other row |
| Selection.BandFilterIgnoresOrder | tweet.py:120-125 | permuting the table (as the sort does) permutes the filtered rows |
| Selection.Select | tweet.py:126-129 | no row is drawn exactly when the filter kept none; otherwise the drawn row is a kept row |
| Selection.SelectReachesAll | tweet.py:129 | every kept row can be drawn |
| Selection.SelectedInBand | tweet.py:120-129 | whether a row is drawn does not depend on the table's order, and a drawn row is a row of the table and in band |
| Selection.BandSurvivorPassesGates | tweet.py:99-129 | an answer scoring in the band passes every gate, and its distance plus self-similarity lies in the band |
| History.ProcessedIdsAppend | tweet.py:53 | `set(df.prompt_tweet_id)` of an empty log is empty, and appending a log row adds exactly that row's prompt id |
| History.FirstUnprocessed | tweet.py:53 | there is no new tweet exactly when every fetched tweet's id is logged; otherwise the chosen tweet is unlogged and every tweet before it is logged |
| History.AnsweredOnce | tweet.py:53 | once a reply to the chosen tweet is logged, the next run does not choose it again |
| Pipeline.ProcessAll | tweet.py:92 | `list(map(process, ...))` cleans each continuation in order |
| Pipeline.RowsScored | tweet.py:108-119 | each row of the scored table measures its own answer; its score lies in [0, 2], is 0 exactly when the row is disqualified and is above 0 exactly when the answer passes every gate |
| Pipeline.NewTable | tweet.py:108-118 | a fresh table with one `Measure` row per answer, in order; each score is a 0.0 placeholder, which has no counterpart in the source before line 119 adds the `score` column |
| Pipeline.DrawFromTable | tweet.py:120-129 | in any order of the table, nothing is drawn exactly when no answer scores in the band; otherwise an answer's row is drawn |
| Pipeline.DrawnIsEligible | tweet.py:99-129 | the drawn row's text is a cleaned continuation that scores in the band and passes every gate |
| Pipeline.RankAndSelect | tweet.py:90-129 | there is no reply exactly when no cleaned continuation scores in the band; a reply is such a continuation and passes every gate |
| Pipeline.Run | tweet.py:52-142 | no new tweet exactly when every fetched tweet is logged; otherwise the prompt is the first unlogged tweet. No reply exactly when no cleaned continuation scores in the band. A reply is eligible and passes every gate; the log grows by exactly its row when a reply is posted and is unchanged otherwise |

## Left out

- The Twitter API (tweepy, authentication, fetching timelines, posting the reply) is outside the model.
- Fatal exits on API errors (lines 48-49 and 137-138) are outside the model.
- The fetched tweets are a parameter of `Pipeline.Run`, and the id of the posted reply is the parameter `replyId`.
- The generator (aitextgen, GPT-2, with its `n=60, max_length=220` settings) is opaque. `Pipeline.Run` takes it as a function from the primed prompt to the list of continuations.
- The model-loading retry loop (lines 62-68) only concerns network errors while loading, so it is left out.
- Reading and appending `processed.csv`, and CSV encoding, are outside the model. The log is a sequence of records, read in and returned with the new row appended.
- Tweet ids are natural numbers, so the `int(x[0])` conversion of an id string is assumed to succeed.
- Timing, `print` output and pandas display settings are left out.
- Selection.Select: `sample()` draws uniformly at random. The model takes the draw as a parameter `pick` and returns the kept row at `pick` modulo their number. It does not capture the uniform distribution.
- Selection.SortByScore: it proves a permutation into non-increasing score order by insertion sort. It does not model which order pandas' default quicksort gives to rows with equal scores. That order only affects display and the position the draw indexes.
- Scores, Jaccard similarity and self-similarity are exact rationals (`real`) rather than IEEE doubles. Rounding near the band edges 0.4 and 0.65 is not modelled.
- `str.isdigit` and `str.lower` are modelled on ASCII characters only. The symbol test (`ord(c) >= 128 or c == '@'`) and `strip`'s whitespace set (every code point Python's `str.isspace` accepts) are exact.
- The regular expressions `http\S+` and `[.!?]` are written as the scans they match, not run through a regex engine.
- The string formatting of the prompt template (line 77) is written out literally in `Cleanup.ComposePrompt`. Beyond `Cleanup.ComposePromptShape`, no property of it is stated.
- Similarity.Jaccard: the empty-union case is excluded by the precondition rather than defined. The code would raise a division by zero there, and the script never reaches that case.
