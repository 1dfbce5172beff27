/** The string primitives of Python that tweet.py leans on: `str.strip`,
    `str.find`, `str.rfind`, `str.lower`, `in`, `str.count` and
    `str.replace(old, '')`, stated on strings as sequences of code points. */
module Text {

  /** The characters Python's `str.isspace` (and the regex class `\s`)
      accepts: the ASCII blanks and separators and the Unicode spaces. */
  predicate IsSpace(c: char) {
    var n := c as int;
    n == 0x20 || (0x09 <= n <= 0x0D) || (0x1C <= n <= 0x1F) || n == 0x85 ||
    n == 0xA0 || n == 0x1680 || (0x2000 <= n <= 0x200A) || n == 0x2028 ||
    n == 0x2029 || n == 0x202F || n == 0x205F || n == 0x3000
  }

  /** `pat` occurs in `s` starting at index `i`. */
  predicate OccursAt(s: string, pat: string, i: int) {
    0 <= i <= |s| - |pat| && s[i..i + |pat|] == pat
  }

  /** `pat` occurs in `s` somewhere (Python's `pat in s`). */
  predicate Contains(s: string, pat: string) {
    exists i :: 0 <= i <= |s| - |pat| && OccursAt(s, pat, i)
  }

  /** Drops leading whitespace (`TrimStartShape` states what that
      means). */
  function TrimStart(s: string): (r: string)
    ensures |r| <= |s|
  {
    if |s| > 0 && IsSpace(s[0]) then TrimStart(s[1..]) else s
  }

  /** What is left is a suffix of `s`, it does not start with whitespace,
      and every dropped character is whitespace. */
  lemma {:induction false} TrimStartShape(s: string)
    ensures TrimStart(s) == s[|s| - |TrimStart(s)|..]
    ensures TrimStart(s) == [] || !IsSpace(TrimStart(s)[0])
    ensures forall i :: 0 <= i < |s| - |TrimStart(s)| ==> IsSpace(s[i])
  {
    if |s| > 0 && IsSpace(s[0]) {
      TrimStartShape(s[1..]);
    }
  }

  /** Drops trailing whitespace (`TrimEndShape` states what that means). */
  function TrimEnd(s: string): (r: string)
    ensures |r| <= |s|
  {
    if |s| > 0 && IsSpace(s[|s| - 1]) then TrimEnd(s[..|s| - 1]) else s
  }

  /** What is left is a prefix of `s`, it does not end with whitespace,
      and every dropped character is whitespace. */
  lemma {:induction false} TrimEndShape(s: string)
    ensures TrimEnd(s) == s[..|TrimEnd(s)|]
    ensures TrimEnd(s) == [] || !IsSpace(TrimEnd(s)[|TrimEnd(s)| - 1])
    ensures forall i :: |TrimEnd(s)| <= i < |s| ==> IsSpace(s[i])
  {
    if |s| > 0 && IsSpace(s[|s| - 1]) {
      TrimEndShape(s[..|s| - 1]);
    }
  }

  /** Where the text kept by `strip` begins. */
  function StripOffset(s: string): nat {
    |s| - |TrimStart(s)|
  }

  /** Python's `s.strip()`: the text from the first to the last
      non-whitespace character (`StripShape` states what that means). */
  function Strip(s: string): (r: string)
    ensures |r| <= |s|
  {
    TrimEnd(TrimStart(s))
  }

  /** What `strip` keeps: the piece of `s` that starts at `StripOffset(s)`,
      begins and ends at a non-space, and is empty exactly when `s` is all
      whitespace. */
  lemma StripShape(s: string)
    ensures StripOffset(s) + |Strip(s)| <= |s|
    ensures Strip(s) == s[StripOffset(s)..StripOffset(s) + |Strip(s)|]
    ensures Strip(s) == [] || (!IsSpace(Strip(s)[0]) && !IsSpace(Strip(s)[|Strip(s)| - 1]))
    ensures Strip(s) == [] <==> forall i :: 0 <= i < |s| ==> IsSpace(s[i])
  {
    TrimStartShape(s);
    TrimEndShape(TrimStart(s));
    assert forall i :: StripOffset(s) <= i < |s| ==> s[i] == TrimStart(s)[i - StripOffset(s)];
  }

  /** Stripping keeps a last character that is not whitespace. */
  lemma StripKeepsLast(s: string)
    requires |s| > 0 && !IsSpace(s[|s| - 1])
    ensures Strip(s) != [] && Strip(s)[|Strip(s)| - 1] == s[|s| - 1]
  {
    var t := TrimStart(s);
    StripShape(s);
    TrimStartShape(s);
    assert t != [] && t[|t| - 1] == s[|s| - 1];
    assert TrimEnd(t) == t;
  }

  /** A string that neither starts nor ends with whitespace is left alone
      by `strip`. */
  lemma StripNoOp(s: string)
    requires s == [] || (!IsSpace(s[0]) && !IsSpace(s[|s| - 1]))
    ensures Strip(s) == s
  {
    StripShape(s);
  }

  /** A piece of a text is no longer than the text. */
  lemma ContainsShorter(a: string, b: string)
    requires Contains(a, b)
    ensures |b| <= |a|
  {
    var i :| 0 <= i <= |a| - |b| && OccursAt(a, b, i);
  }

  /** Substrings of substrings are substrings. */
  lemma ContainsTransitive(a: string, b: string, c: string)
    requires Contains(a, b) && Contains(b, c)
    ensures Contains(a, c)
  {
    var i :| 0 <= i <= |a| - |b| && OccursAt(a, b, i);
    var j :| 0 <= j <= |b| - |c| && OccursAt(b, c, j);
    OccursInSlice(a, i, i + |b|, c, j);
  }

  /** An occurrence inside a slice of `u` is an occurrence in `u`. */
  lemma OccursInSlice(u: string, a: nat, b: nat, r: string, k: nat)
    requires a <= b <= |u| && OccursAt(u[a..b], r, k)
    ensures OccursAt(u, r, a + k)
  {
    forall i | 0 <= i < |r| ensures r[i] == u[a + k + i] {
      assert r[i] == u[a..b][k + i];
    }
    assert u[a + k..a + k + |r|] == r;
  }

  /** Stripping leaves a piece of the text. */
  lemma StripContained(u: string)
    ensures Contains(u, Strip(u))
  {
    StripShape(u);
    assert OccursAt(u, Strip(u), StripOffset(u));
  }

  /** Stripping a slice of `u` leaves a piece of `u`. */
  lemma StripSliceContained(u: string, a: nat, b: nat)
    requires a <= b <= |u|
    ensures Contains(u, Strip(u[a..b]))
  {
    StripShape(u[a..b]);
    assert OccursAt(u[a..b], Strip(u[a..b]), StripOffset(u[a..b]));
    OccursInSlice(u, a, b, Strip(u[a..b]), StripOffset(u[a..b]));
  }

  /** Python's `s.find(c)` for a one-character needle: the first index of
      `c`, or -1. */
  function Find(s: string, c: char): (r: int)
    ensures -1 <= r < |s|
    ensures r >= 0 ==> s[r] == c && forall j :: 0 <= j < r ==> s[j] != c
    ensures r == -1 <==> c !in s
  {
    if |s| == 0 then -1
    else if s[0] == c then 0
    else
      var k := Find(s[1..], c);
      if k == -1 then -1 else k + 1
  }

  /** Python's `s.rfind(c)` for a one-character needle: the last index of
      `c`, or -1. */
  function RFind(s: string, c: char): (r: int)
    ensures -1 <= r < |s|
    ensures r >= 0 ==> s[r] == c && forall j :: r < j < |s| ==> s[j] != c
    ensures r == -1 <==> c !in s
  {
    if |s| == 0 then -1
    else if s[|s| - 1] == c then |s| - 1
    else
      assert s == s[..|s| - 1] + [s[|s| - 1]];
      RFind(s[..|s| - 1], c)
  }

  /** The first occurrence of a character is never after its last one. */
  lemma FindBeforeRFind(s: string, c: char)
    ensures Find(s, c) <= RFind(s, c)
    ensures Find(s, c) == -1 <==> RFind(s, c) == -1
  {
  }

  /** Python's `str.lower`, restricted to the ASCII letters. */
  function LowerChar(c: char): char {
    if 'A' <= c <= 'Z' then (c as int + 32) as char else c
  }

  /** `s.lower()`, character by character. */
  function Lower(s: string): string {
    seq(|s|, i requires 0 <= i < |s| => LowerChar(s[i]))
  }

  /** Python's `s.count(pat)`: non-overlapping occurrences scanned left to
      right; an empty pattern is counted `len(s) + 1` times. */
  function Count(s: string, pat: string): nat
    decreases |s|
  {
    if |pat| == 0 then |s| + 1
    else if |s| < |pat| then 0
    else if s[..|pat|] == pat then 1 + Count(s[|pat|..], pat)
    else Count(s[1..], pat)
  }

  /** Python's `s.replace(pat, '')`: the same left-to-right scan as
      `Count`, dropping each occurrence it finds; an empty pattern leaves
      `s` as it is. */
  function RemoveAll(s: string, pat: string): string
    decreases |s|
  {
    if |pat| == 0 || |s| < |pat| then s
    else if s[..|pat|] == pat then RemoveAll(s[|pat|..], pat)
    else [s[0]] + RemoveAll(s[1..], pat)
  }

  /** When `s` does not start with `pat`, the occurrences of `pat` in `s`
      are those in `s[1..]`. */
  lemma ContainsTail(s: string, pat: string)
    requires |s| > 0 && !(|pat| <= |s| && s[..|pat|] == pat)
    ensures Contains(s, pat) <==> Contains(s[1..], pat)
  {
    if Contains(s, pat) {
      var i :| 0 <= i <= |s| - |pat| && OccursAt(s, pat, i);
      assert i != 0;
      assert s[1..][i - 1..i - 1 + |pat|] == s[i..i + |pat|];
      assert OccursAt(s[1..], pat, i - 1);
    }
    if Contains(s[1..], pat) {
      var j :| 0 <= j <= |s[1..]| - |pat| && OccursAt(s[1..], pat, j);
      assert s[j + 1..j + 1 + |pat|] == s[1..][j..j + |pat|];
      assert OccursAt(s, pat, j + 1);
    }
  }

  /** `count` finds nothing exactly when the pattern does not occur. */
  lemma {:induction false} CountZeroIff(s: string, pat: string)
    requires |pat| > 0
    ensures Count(s, pat) == 0 <==> !Contains(s, pat)
    decreases |s|
  {
    if |s| < |pat| {
    } else if s[..|pat|] == pat {
      assert OccursAt(s, pat, 0);
    } else {
      ContainsTail(s, pat);
      CountZeroIff(s[1..], pat);
    }
  }

  /** Every removal drops exactly one occurrence counted by `count`. */
  lemma {:induction false} RemoveAllLength(s: string, pat: string)
    ensures |RemoveAll(s, pat)| == |s| - |pat| * Count(s, pat)
    decreases |s|
  {
    if |pat| == 0 || |s| < |pat| {
    } else if s[..|pat|] == pat {
      RemoveAllLength(s[|pat|..], pat);
      assert |pat| * (1 + Count(s[|pat|..], pat)) == |pat| + |pat| * Count(s[|pat|..], pat);
    } else {
      RemoveAllLength(s[1..], pat);
    }
  }

  /** Removal never lengthens a text. */
  lemma {:induction false} RemoveAllShorter(s: string, pat: string)
    ensures |RemoveAll(s, pat)| <= |s|
  {
    RemoveAllLength(s, pat);
    assert |pat| * Count(s, pat) >= 0;
  }

  /** Removing a pattern that does not occur changes nothing. */
  lemma {:induction false} RemoveAllAbsent(s: string, pat: string)
    requires !Contains(s, pat)
    ensures RemoveAll(s, pat) == s
    decreases |s|
  {
    if |pat| == 0 {
      assert OccursAt(s, pat, 0);
    } else if |s| < |pat| {
    } else {
      assert !OccursAt(s, pat, 0);
      ContainsTail(s, pat);
      RemoveAllAbsent(s[1..], pat);
      assert s == [s[0]] + s[1..];
    }
  }

  /** The set of values in a sequence (Python's `set(s)`, and the keys of
      `Counter(s)`). */
  function Elements<T(!new)>(s: seq<T>): (r: set<T>)
    ensures forall x :: x in r <==> x in s
  {
    set i | 0 <= i < |s| :: s[i]
  }

  /** The values of a non-empty sequence are its first value and the
      values of the rest. */
  lemma ElementsCons<T(!new)>(s: seq<T>)
    requires |s| > 0
    ensures Elements(s) == {s[0]} + Elements(s[1..])
  {
    forall x | x in s ensures x in {s[0]} + Elements(s[1..]) {
      var i :| 0 <= i < |s| && s[i] == x;
      if i > 0 { assert s[1..][i - 1] == x; }
    }
  }

  /** A sequence has no more distinct values than entries, and at least
      one when it is not empty. */
  lemma {:induction false} ElementsSize<T(!new)>(s: seq<T>)
    ensures |Elements(s)| <= |s|
    ensures s != [] ==> |Elements(s)| >= 1
  {
    if |s| > 0 {
      ElementsCons(s);
      ElementsSize(s[1..]);
    }
  }

  /** No value occurs twice. */
  predicate AllDistinct<T(==)>(s: seq<T>) {
    forall i, j :: 0 <= i < j < |s| ==> s[i] != s[j]
  }

  /** A sequence has as many distinct values as entries exactly when no
      value repeats. */
  lemma {:induction false} ElementsFullIffDistinct<T(!new)>(s: seq<T>)
    ensures |Elements(s)| == |s| <==> AllDistinct(s)
  {
    if |s| > 0 {
      var t := s[1..];
      ElementsCons(s);
      ElementsSize(t);
      ElementsFullIffDistinct(t);
      if s[0] in t {
        var k :| 0 <= k < |t| && t[k] == s[0];
        assert s[0] == s[k + 1];
        assert Elements(s) == Elements(t);
      } else {
        assert AllDistinct(s) <==> AllDistinct(t) by {
          if AllDistinct(t) {
            forall i, j | 0 <= i < j < |s| ensures s[i] != s[j] {
              if i == 0 { assert s[j] == t[j - 1]; } else { assert s[i] == t[i - 1] && s[j] == t[j - 1]; }
            }
          }
          if AllDistinct(s) {
            forall i, j | 0 <= i < j < |t| ensures t[i] != t[j] {
              assert t[i] == s[i + 1] && t[j] == s[j + 1];
            }
          }
        }
        assert s[0] !in Elements(t);
      }
    }
  }
}
