/** Turning one generated continuation into a candidate reply: the nested
    function `process` of tweet.py, and the prompt it is given. */
module Cleanup {
  import opened Text
  import opened Urls
  import opened Config

  /** `re.sub(r'http\S+', '', text).strip()`: the prompt tweet with its
      links removed. */
  function CleanPrompt(tweetText: string): string {
    Strip(StripUrls(tweetText))
  }

  /** The primed prompt: the cleaned tweet, the three exemplar replies,
      each introduced by the bot's name, and the cleaned tweet again. */
  function ComposePrompt(tweetText: string): string {
    var prompt := CleanPrompt(tweetText);
    prompt + " Perry " + T1 + " Perry " + T2 + " Perry " + T3 + " Perry is " + prompt
  }

  /** The cleaned tweet holds no link; the primed prompt starts and ends
      with it and holds a space. */
  lemma ComposePromptShape(tweetText: string)
    ensures NoUrl(CleanPrompt(tweetText))
    ensures |CleanPrompt(tweetText)| < |ComposePrompt(tweetText)|
    ensures ComposePrompt(tweetText)[..|CleanPrompt(tweetText)|] == CleanPrompt(tweetText)
    ensures ComposePrompt(tweetText)[|ComposePrompt(tweetText)| - |CleanPrompt(tweetText)|..] == CleanPrompt(tweetText)
    ensures ' ' in ComposePrompt(tweetText)
  {
    StripUrlsNoUrl(tweetText);
    StripContained(StripUrls(tweetText));
    NoUrlSubstring(StripUrls(tweetText), CleanPrompt(tweetText));
    assert ComposePrompt(tweetText)[|CleanPrompt(tweetText)|] == ' ';
  }

  /** `s[s.find('.')+1 : s.rfind('.')+1].strip()`: drop the fragment before
      the first full stop and the fragment after the last one. */
  function SliceBetweenDots(u: string): (r: string)
    ensures r != [] ==> r[|r| - 1] == '.' && !IsSpace(r[0])
  {
    SliceFacts(u);
    Strip(u[AfterFirstDot(u)..AfterLastDot(u)])
  }

  /** `s.find('.')+1`: the index just after the first full stop, 0 when
      there is none. */
  function AfterFirstDot(u: string): nat {
    Find(u, '.') + 1
  }

  /** `s.rfind('.')+1`: the index just after the last full stop, 0 when
      there is none. */
  function AfterLastDot(u: string): (b: nat)
    ensures b <= |u|
  {
    RFind(u, '.') + 1
  }

  /** `if len(s) > 280: s = s[:s.rfind('.')+1].strip()`. */
  function TruncateAtLastDot(s: string): string {
    if |s| > 280 then Strip(s[..RFind(s, '.') + 1]) else s
  }

  /** The value of `s` after the first line of `process`: the prompt
      removed, then stripped. */
  function Unprompted(s: string, promptUpdated: string): string {
    Strip(RemoveAll(s, promptUpdated))
  }

  /** The same text with its links removed, before the second strip. */
  function Unlinked(s: string, promptUpdated: string): string {
    StripUrls(Unprompted(s, promptUpdated))
  }

  /** The value of `s` after the second line of `process`. */
  function Delinked(s: string, promptUpdated: string): string {
    Strip(Unlinked(s, promptUpdated))
  }

  /** The whole of `process`. */
  function Cleaned(s: string, promptUpdated: string): string {
    TruncateAtLastDot(TruncateAtLastDot(SliceBetweenDots(Delinked(s, promptUpdated))))
  }

  /** A value found at exactly one index occurs once. */
  lemma {:induction false} OccursOnce(u: string, k: nat)
    requires k < |u| && forall j :: 0 <= j < |u| && j != k ==> u[j] != u[k]
    ensures multiset(u)[u[k]] == 1
  {
    var c := u[k];
    assert u == u[..k] + [c] + u[k + 1..];
    assert c !in u[..k];
    assert c !in u[k + 1..];
  }

  /** A value found at two indices occurs at least twice. */
  lemma {:induction false} OccursTwice(u: string, i: nat, j: nat)
    requires i < j < |u| && u[i] == u[j]
    ensures multiset(u)[u[i]] >= 2
  {
    assert u == u[..j] + u[j..];
    assert u[..j][i] == u[i];
    assert u[j..][0] == u[i];
  }

  /** `find` and `rfind` meet exactly when `u` holds fewer than two full
      stops. */
  lemma {:induction false} FewerThanTwoDots(u: string)
    ensures multiset(u)['.'] < 2 <==> Find(u, '.') == RFind(u, '.')
  {
    FindBeforeRFind(u, '.');
    var f, l := Find(u, '.'), RFind(u, '.');
    if f == -1 {
    } else if f == l {
      OccursOnce(u, f);
    } else {
      OccursTwice(u, f, l);
    }
  }

  /** The slice between the dots is empty exactly when `u` holds fewer
      than two full stops, and is always a piece of `u`. */
  lemma {:induction false} SliceShape(u: string)
    ensures SliceBetweenDots(u) == [] <==> multiset(u)['.'] < 2
    ensures Contains(u, SliceBetweenDots(u))
  {
    SliceEnds(u);
    StripSliceContained(u, AfterFirstDot(u), AfterLastDot(u));
  }

  /** The stripped slice between the first and the last full stop, when
      not empty, starts at a non-space and ends at a full stop. */
  lemma {:induction false} SliceFacts(u: string)
    ensures AfterFirstDot(u) <= AfterLastDot(u)
    ensures var r := Strip(u[AfterFirstDot(u)..AfterLastDot(u)]);
      r != [] ==> r[|r| - 1] == '.' && !IsSpace(r[0])
  {
    SliceEnds(u);
    StripShape(u[AfterFirstDot(u)..AfterLastDot(u)]);
  }

  /** The slice is empty exactly when `u` holds fewer than two full stops,
      and otherwise ends with one, which stripping keeps. */
  lemma {:induction false} SliceEnds(u: string)
    ensures AfterFirstDot(u) <= AfterLastDot(u)
    ensures AfterFirstDot(u) == AfterLastDot(u) <==> multiset(u)['.'] < 2
    ensures AfterFirstDot(u) < AfterLastDot(u) ==>
      Strip(u[AfterFirstDot(u)..AfterLastDot(u)]) != [] &&
      Strip(u[AfterFirstDot(u)..AfterLastDot(u)])[|Strip(u[AfterFirstDot(u)..AfterLastDot(u)])| - 1] == '.'
  {
    FindBeforeRFind(u, '.');
    FewerThanTwoDots(u);
    if AfterFirstDot(u) < AfterLastDot(u) {
      assert !IsSpace('.');
      StripKeepsLast(u[AfterFirstDot(u)..AfterLastDot(u)]);
    }
  }

  /** A string that is empty, or starts at a non-space and ends at a full
      stop, is what both truncation steps already produce. */
  lemma {:induction false} TruncateNoOp(s: string)
    requires s == [] || (s[|s| - 1] == '.' && !IsSpace(s[0]))
    ensures TruncateAtLastDot(s) == s
  {
    if |s| > 280 {
      assert RFind(s, '.') == |s| - 1;
      assert s[..|s|] == s;
      StripNoOp(s);
    }
  }

  /** Both truncation steps leave the slice between the dots as it is. */
  lemma {:induction false} CleanupIsSlice(s: string, promptUpdated: string)
    ensures Cleaned(s, promptUpdated) == SliceBetweenDots(Delinked(s, promptUpdated))
  {
    TruncateNoOp(SliceBetweenDots(Delinked(s, promptUpdated)));
  }

  /** The second strip leaves a piece of the de-linked text. */
  lemma {:induction false} DelinkedInUnlinked(s: string, promptUpdated: string)
    ensures Contains(Unlinked(s, promptUpdated), Delinked(s, promptUpdated))
  {
    StripContained(Unlinked(s, promptUpdated));
  }

  /** Cutting the slice out of link-free text leaves it link-free. */
  lemma {:induction false} SliceNoUrl(u: string)
    requires NoUrl(u)
    ensures NoUrl(SliceBetweenDots(u))
  {
    SliceShape(u);
    NoUrlSubstring(u, SliceBetweenDots(u));
  }

  /** After the link removal of `process`, no link is left. */
  lemma {:induction false} UnlinkedNoUrl(s: string, promptUpdated: string)
    ensures NoUrl(Unlinked(s, promptUpdated))
  {
    StripUrlsNoUrl(Unprompted(s, promptUpdated));
  }

  /** What `process` returns is empty exactly when the de-linked text
      has fewer than two full stops, and otherwise ends with a full
      stop. */
  lemma {:induction false} CleanupDots(s: string, promptUpdated: string)
    ensures Cleaned(s, promptUpdated) == [] <==> multiset(Delinked(s, promptUpdated))['.'] < 2
    ensures Cleaned(s, promptUpdated) == [] || Cleaned(s, promptUpdated)[|Cleaned(s, promptUpdated)| - 1] == '.'
  {
    CleanupIsSlice(s, promptUpdated);
    SliceShape(Delinked(s, promptUpdated));
  }

  /** The reply is a piece of the text after link removal. */
  lemma {:induction false} CleanupInUnlinked(s: string, promptUpdated: string)
    ensures Contains(Unlinked(s, promptUpdated), Cleaned(s, promptUpdated))
  {
    CleanupIsSlice(s, promptUpdated);
    SliceShape(Delinked(s, promptUpdated));
    DelinkedInUnlinked(s, promptUpdated);
    ContainsTransitive(Unlinked(s, promptUpdated), Delinked(s, promptUpdated), Cleaned(s, promptUpdated));
  }

  /** The reply carries no link. */
  lemma {:induction false} CleanupNoUrl(s: string, promptUpdated: string)
    ensures NoUrl(Cleaned(s, promptUpdated))
  {
    CleanupInUnlinked(s, promptUpdated);
    UnlinkedNoUrl(s, promptUpdated);
    NoUrlSubstring(Unlinked(s, promptUpdated), Cleaned(s, promptUpdated));
  }

  /** The reply is no longer than the generated text. */
  lemma {:induction false} CleanupLength(s: string, promptUpdated: string)
    ensures |Cleaned(s, promptUpdated)| <= |s|
  {
    CleanupInUnlinked(s, promptUpdated);
    ContainsShorter(Unlinked(s, promptUpdated), Cleaned(s, promptUpdated));
    RemoveAllShorter(s, promptUpdated);
  }

  /** `process` itself, rebinding its local text once per line. */
  method Process(s: string, promptUpdated: string) returns (r: string)
    ensures r == Cleaned(s, promptUpdated)
    ensures r == [] || r[|r| - 1] == '.'
    ensures NoUrl(r) && |r| <= |s|
  {
    r := Strip(RemoveAll(s, promptUpdated));
    assert r == Unprompted(s, promptUpdated);
    r := Strip(StripUrls(r));
    assert r == Delinked(s, promptUpdated);
    r := SliceBetweenDots(r);
    CleanupIsSlice(s, promptUpdated);
    if |r| > 280 { r := Strip(r[..RFind(r, '.') + 1]); }
    if |r| > 280 { r := Strip(r[..RFind(r, '.') + 1]); }
    CleanupDots(s, promptUpdated);
    CleanupNoUrl(s, promptUpdated);
    CleanupLength(s, promptUpdated);
  }

  /** A text that holds neither the prompt nor a link, and neither starts
      nor ends with whitespace, comes through both strips, the prompt
      removal and the link removal unchanged. */
  lemma {:induction false} DelinkedNoOp(s: string, promptUpdated: string)
    requires !Contains(s, promptUpdated) && NoUrl(s)
    requires s == [] || (!IsSpace(s[0]) && !IsSpace(s[|s| - 1]))
    ensures Delinked(s, promptUpdated) == s
  {
    RemoveAllAbsent(s, promptUpdated);
    StripNoOp(s);
    StripUrlsNoOp(s);
  }

  /** A full stop, `n` letters `a` and a full stop. */
  function DotWrapped(n: nat): (s: string)
    ensures |s| == n + 2 && s[0] == '.' && s[n + 1] == '.'
    ensures forall k :: 0 < k <= n ==> s[k] == 'a'
  {
    ['.'] + seq(n, _ => 'a') + ['.']
  }

  /** Such a text holds no space and so no prompt that has one, and no
      link. */
  lemma {:induction false} DotWrappedPlain(n: nat, promptUpdated: string)
    requires ' ' in promptUpdated
    ensures !Contains(DotWrapped(n), promptUpdated) && NoUrl(DotWrapped(n))
  {
    forall i | 0 <= i <= |DotWrapped(n)| ensures !UrlAt(DotWrapped(n)[i..]) {
      if |DotWrapped(n)[i..]| >= 5 { assert DotWrapped(n)[i..][..4][0] == DotWrapped(n)[i]; }
    }
  }

  /** The slice between its two full stops is the letters and the last
      full stop. */
  lemma {:induction false} DotWrappedSlice(n: nat)
    ensures |SliceBetweenDots(DotWrapped(n))| == n + 1
  {
    assert Find(DotWrapped(n), '.') == 0;
    assert RFind(DotWrapped(n), '.') == n + 1;
    StripNoOp(DotWrapped(n)[1..n + 2]);
  }

  /** Neither truncation step bounds the reply: a generated text made of a
      full stop, `n` letters and a full stop comes out with `n + 1`
      characters, for every `n` (so also for `n` above 280). */
  lemma {:induction false} CleanupUnbounded(n: nat, promptUpdated: string)
    requires ' ' in promptUpdated
    ensures |Cleaned(DotWrapped(n), promptUpdated)| == n + 1
  {
    DotWrappedPlain(n, promptUpdated);
    DelinkedNoOp(DotWrapped(n), promptUpdated);
    DotWrappedSlice(n);
    CleanupIsSlice(DotWrapped(n), promptUpdated);
  }
}
