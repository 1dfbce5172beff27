/** The regular-expression substitution `re.sub(r'http\S+', '', s)` that
    tweet.py applies to the prompt tweet and to every generated answer,
    written out as the left-to-right scan the regex engine performs. */
module Urls {
  import opened Text

  /** The pattern `http\S+` matches at the start of `s`. */
  predicate UrlAt(s: string) {
    |s| >= 5 && s[..4] == "http" && !IsSpace(s[4])
  }

  /** Length of the longest leading run of non-whitespace characters:
      what the greedy `\S+` consumes. */
  function NonSpaceRun(s: string): (n: nat)
    ensures n <= |s|
    ensures forall i :: 0 <= i < n ==> !IsSpace(s[i])
    ensures n == |s| || IsSpace(s[n])
  {
    if |s| == 0 || IsSpace(s[0]) then 0 else 1 + NonSpaceRun(s[1..])
  }

  /** At each position either a whole match is dropped and the scan goes on
      after it, or one character is kept and the scan moves by one. */
  function StripUrls(s: string): (r: string)
    ensures |r| <= |s|
    decreases |s|
  {
    if |s| == 0 then []
    else if UrlAt(s) then StripUrls(s[4 + NonSpaceRun(s[4..])..])
    else [s[0]] + StripUrls(s[1..])
  }

  /** No position of `t` starts a match of `http\S+`. */
  predicate NoUrl(t: string) {
    forall i :: 0 <= i <= |t| ==> !UrlAt(t[i..])
  }

  /** A scan that starts at whitespace (or at the end) produces output that
      starts at whitespace (or is empty). */
  lemma StripUrlsFromSpace(s: string)
    requires s == [] || IsSpace(s[0])
    ensures StripUrls(s) == [] || IsSpace(StripUrls(s)[0])
  {
  }

  /** The output agrees with the input up to some index `i`, and at `i` the
      output is at whitespace or has ended: a removal always cuts the
      current word to its end. */
  lemma {:induction false} StripUrlsAgree(s: string) returns (i: nat)
    ensures i <= |s| && i <= |StripUrls(s)|
    ensures StripUrls(s)[..i] == s[..i]
    ensures i == |StripUrls(s)| || IsSpace(StripUrls(s)[i])
    decreases |s|
  {
    if |s| == 0 {
      i := 0;
    } else if UrlAt(s) {
      var rest := s[4 + NonSpaceRun(s[4..])..];
      StripUrlsFromSpace(rest);
      i := 0;
    } else {
      var j := StripUrlsAgree(s[1..]);
      i := j + 1;
      assert StripUrls(s) == [s[0]] + StripUrls(s[1..]);
    }
  }

  /** A string that agrees with `s` up to a point where it has whitespace
      or ends cannot start a match unless `s` does. */
  lemma UrlAtAgreeing(s: string, r: string, n: nat)
    requires n <= |s| && n <= |r| && forall k :: 0 <= k < n ==> r[k] == s[k]
    requires n == |r| || IsSpace(r[n])
    requires UrlAt(r)
    ensures UrlAt(s)
  {
    assert !IsSpace(r[0]) && !IsSpace(r[1]) && !IsSpace(r[2]) && !IsSpace(r[3]) by {
      assert r[..4] == "http";
    }
    assert n >= 5;
    assert s[..4] == r[..4];
  }

  /** When no match starts at the head of `s`, none starts at the head of
      the output either. */
  lemma NoUrlAtHead(s: string)
    requires |s| > 0 && !UrlAt(s)
    ensures !UrlAt(StripUrls(s))
  {
    var r, r' := StripUrls(s), StripUrls(s[1..]);
    assert r == [s[0]] + r';
    var j := StripUrlsAgree(s[1..]);
    forall k | 0 <= k < j + 1 ensures r[k] == s[k] {
      if k > 0 {
        assert r[k] == r'[k - 1] == r'[..j][k - 1];
      }
    }
    assert j + 1 == |r| || r[j + 1] == r'[j];
    if UrlAt(r) {
      UrlAtAgreeing(s, r, j + 1);
    }
  }

  /** Stripping leaves no link behind: the result has no match of
      `http\S+` anywhere, although it is a scan in a single pass. */
  lemma {:induction false} StripUrlsNoUrl(s: string)
    ensures NoUrl(StripUrls(s))
    decreases |s|
  {
    if |s| == 0 {
    } else if UrlAt(s) {
      StripUrlsNoUrl(s[4 + NonSpaceRun(s[4..])..]);
    } else {
      var r, r' := StripUrls(s), StripUrls(s[1..]);
      assert r == [s[0]] + r';
      StripUrlsNoUrl(s[1..]);
      NoUrlAtHead(s);
      forall i | 0 <= i <= |r| ensures !UrlAt(r[i..]) {
        if i == 0 {
          assert r[0..] == r;
        } else {
          assert r[i..] == r'[i - 1..];
        }
      }
    }
  }

  /** Text without links passes through unchanged. */
  lemma {:induction false} StripUrlsNoOp(t: string)
    requires NoUrl(t)
    ensures StripUrls(t) == t
    decreases |t|
  {
    if |t| > 0 {
      assert !UrlAt(t[0..]);
      assert t[0..] == t;
      forall i | 0 <= i <= |t[1..]| ensures !UrlAt(t[1..][i..]) {
        assert t[1..][i..] == t[i + 1..];
      }
      StripUrlsNoOp(t[1..]);
    }
  }

  /** Stripping links twice is the same as stripping them once. */
  lemma StripUrlsIdempotent(s: string)
    ensures StripUrls(StripUrls(s)) == StripUrls(s)
  {
    StripUrlsNoUrl(s);
    StripUrlsNoOp(StripUrls(s));
  }

  /** A piece cut out of link-free text is link-free. */
  lemma NoUrlSubstring(t: string, u: string)
    requires NoUrl(t) && Contains(t, u)
    ensures NoUrl(u)
  {
    var a :| 0 <= a <= |t| - |u| && OccursAt(t, u, a);
    forall i | 0 <= i <= |u| ensures !UrlAt(u[i..]) {
      assert !UrlAt(t[a + i..]);
      if |u[i..]| >= 5 {
        forall k | 0 <= k < 5 ensures u[i..][k] == t[a + i..][k] {
          assert u[i + k] == t[a..a + |u|][i + k];
        }
        assert u[i..][..4] == t[a + i..][..4];
      }
    }
  }
}
