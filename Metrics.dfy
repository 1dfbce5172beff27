/** The per-answer counts of the scoring table in tweet.py: digits,
    mentions of "trump", symbols, banned-word hits and repeated sentences,
    and the punctuation test applied to the first character. */
module Metrics {
  import opened Text
  import opened Config

  /** How many characters of `s` satisfy `f`: `sum(map(f, s))`. */
  function CountWhere(s: string, f: char -> bool): (n: nat)
    ensures n <= |s|
    ensures n == 0 <==> forall i :: 0 <= i < |s| ==> !f(s[i])
    ensures n == |s| <==> forall i :: 0 <= i < |s| ==> f(s[i])
  {
    if |s| == 0 then 0 else (if f(s[0]) then 1 else 0) + CountWhere(s[1..], f)
  }

  /** Counting is additive over concatenation, so the count of a text is
      the sum of the counts of any split of it. */
  lemma {:induction false} CountWhereAppend(a: string, b: string, f: char -> bool)
    ensures CountWhere(a + b, f) == CountWhere(a, f) + CountWhere(b, f)
  {
    if |a| > 0 {
      assert (a + b)[1..] == a[1..] + b;
      CountWhereAppend(a[1..], b, f);
    } else {
      assert a + b == b;
    }
  }

  /** `str.isdigit`, restricted to the ASCII digits. */
  predicate IsDigit(c: char) {
    '0' <= c <= '9'
  }

  /** `ord(c) >= 128 or c == '@'`. */
  predicate IsSymbol(c: char) {
    c as int >= 128 || c == '@'
  }

  /** The `digits` column. */
  function DigitCount(s: string): nat {
    CountWhere(s, IsDigit)
  }

  /** The `symbols` column. */
  function SymbolCount(s: string): nat {
    CountWhere(s, IsSymbol)
  }

  /** The `trump` column: `s.lower().count("trump")`. */
  function MentionCount(s: string): nat {
    Count(Lower(s), "trump")
  }

  /** The mention column is zero exactly when the lowered text does not
      contain the name, and each mention takes five characters. */
  lemma MentionCountFacts(s: string)
    ensures MentionCount(s) == 0 <==> !Contains(Lower(s), "trump")
    ensures 5 * MentionCount(s) <= |s|
  {
    CountZeroIff(Lower(s), "trump");
    RemoveAllLength(Lower(s), "trump");
  }

  /** `sum(banned in lowered for banned in words)`: the number of words
      that occur in `lowered`. */
  function BannedHits(lowered: string, words: seq<string>): (n: nat)
    ensures n <= |words|
    ensures n == 0 <==> forall k :: 0 <= k < |words| ==> !Contains(lowered, words[k])
  {
    if |words| == 0 then 0
    else (if Contains(lowered, words[0]) then 1 else 0) + BannedHits(lowered, words[1..])
  }

  /** The `banned_words` column: at most two hits, and none exactly when
      neither word occurs in the lowered text. */
  function BannedWordHits(s: string): (n: nat)
    ensures n <= 2
    ensures n == 0 <==> !Contains(Lower(s), "hitler") && !Contains(Lower(s), "kill")
  {
    assert BannedWords[0] == "hitler" && BannedWords[1..] == ["kill"];
    assert BannedHits(Lower(s), ["kill"]) == if Contains(Lower(s), "kill") then 1 else 0 by {
      assert ["kill"][1..] == [];
    }
    BannedHits(Lower(s), BannedWords)
  }

  /** The characters of the regex class `[.!?]`. */
  predicate IsTerminator(c: char) {
    c == '.' || c == '!' || c == '?'
  }

  /** `re.split(r"[.!?]", s)`: the pieces between terminators, including
      the empty pieces before, between and after them. */
  function SplitSentences(s: string): (r: seq<string>)
    ensures |r| >= 1
  {
    if |s| == 0 then [""]
    else if IsTerminator(s[0]) then [""] + SplitSentences(s[1..])
    else [[s[0]] + SplitSentences(s[1..])[0]] + SplitSentences(s[1..])[1..]
  }

  /** The split yields one piece more than there are terminators, and no
      piece holds a terminator. */
  lemma {:induction false} SplitSentencesShape(s: string)
    ensures |SplitSentences(s)| == 1 + CountWhere(s, IsTerminator)
    ensures forall k :: 0 <= k < |SplitSentences(s)| ==> CountWhere(SplitSentences(s)[k], IsTerminator) == 0
  {
    if |s| > 0 {
      SplitSentencesShape(s[1..]);
      if !IsTerminator(s[0]) {
        assert CountWhere([s[0]] + SplitSentences(s[1..])[0], IsTerminator) == 0 by {
          CountWhereAppend([s[0]], SplitSentences(s[1..])[0], IsTerminator);
          assert [s[0]][1..] == [];
        }
      }
    }
  }

  /** The terminators of `s`, in order. */
  function Terminators(s: string): (t: string)
    ensures |t| == CountWhere(s, IsTerminator)
  {
    if |s| == 0 then []
    else if IsTerminator(s[0]) then [s[0]] + Terminators(s[1..])
    else Terminators(s[1..])
  }

  /** Puts the pieces back together with the given separators between
      them. */
  function Rejoin(pieces: seq<string>, seps: string): string
    requires |pieces| == |seps| + 1
  {
    if |seps| == 0 then pieces[0]
    else pieces[0] + [seps[0]] + Rejoin(pieces[1..], seps[1..])
  }

  /** Prefixing a character to the first piece prefixes it to the whole. */
  lemma {:induction false} RejoinCons(c: char, pieces: seq<string>, seps: string)
    requires |pieces| == |seps| + 1
    ensures Rejoin([[c] + pieces[0]] + pieces[1..], seps) == [c] + Rejoin(pieces, seps)
  {
    if |seps| > 0 {
      assert ([[c] + pieces[0]] + pieces[1..])[1..] == pieces[1..];
    }
  }

  /** Splitting loses nothing: the pieces joined with the terminators that
      separated them give back the text. */
  lemma {:induction false} SplitRejoin(s: string)
    ensures |SplitSentences(s)| == |Terminators(s)| + 1
    ensures Rejoin(SplitSentences(s), Terminators(s)) == s
  {
    SplitSentencesShape(s);
    if |s| > 0 {
      SplitRejoin(s[1..]);
      if IsTerminator(s[0]) {
        assert ([""] + SplitSentences(s[1..]))[1..] == SplitSentences(s[1..]);
        assert s == [s[0]] + s[1..];
      } else {
        RejoinCons(s[0], SplitSentences(s[1..]), Terminators(s[1..]));
        assert s == [s[0]] + s[1..];
      }
    }
  }

  /** The pieces of the split, each stripped: the keys `Counter` counts. */
  function Sentences(s: string): (r: seq<string>)
    ensures |r| == |SplitSentences(s)|
    ensures forall k :: 0 <= k < |r| ==> r[k] == Strip(SplitSentences(s)[k])
  {
    seq(|SplitSentences(s)|, k requires 0 <= k < |SplitSentences(s)| => Strip(SplitSentences(s)[k]))
  }

  /** There is one key more than there are sentence terminators in `s`,
      and every key is free of terminators and of surrounding whitespace. */
  lemma {:induction false} SentencesShape(s: string)
    ensures |Sentences(s)| == 1 + CountWhere(s, IsTerminator)
    ensures forall k :: 0 <= k < |Sentences(s)| ==> CountWhere(Sentences(s)[k], IsTerminator) == 0
    ensures forall k :: 0 <= k < |Sentences(s)| ==>
      Sentences(s)[k] == [] || (!IsSpace(Sentences(s)[k][0]) && !IsSpace(Sentences(s)[k][|Sentences(s)[k]| - 1]))
  {
    SplitSentencesShape(s);
    forall k | 0 <= k < |Sentences(s)|
      ensures CountWhere(Sentences(s)[k], IsTerminator) == 0
      ensures Sentences(s)[k] == [] || (!IsSpace(Sentences(s)[k][0]) && !IsSpace(Sentences(s)[k][|Sentences(s)[k]| - 1]))
    {
      var piece := SplitSentences(s)[k];
      StripShape(piece);
      assert CountWhere(piece, IsTerminator) == 0;
      forall i | 0 <= i < |Strip(piece)| ensures !IsTerminator(Strip(piece)[i]) {
        assert Strip(piece)[i] == piece[StripOffset(piece) + i];
      }
    }
  }

  /** `sum(Counter(keys).values()) - len(Counter(keys))`: one per entry
      minus one per distinct entry. */
  function Excess<T(!new,==)>(keys: seq<T>): nat {
    ElementsSize(keys);
    |keys| - |Elements(keys)|
  }

  /** The excess is zero exactly when no entry repeats. */
  lemma ExcessZeroIff<T(!new)>(keys: seq<T>)
    ensures Excess(keys) == 0 <==> AllDistinct(keys)
  {
    ElementsFullIffDistinct(keys);
  }

  /** The `repeated_sentences` column. */
  function RepeatedSentences(s: string): nat {
    Excess(Sentences(s))
  }

  /** The column is zero exactly when no stripped piece repeats. */
  lemma RepeatedSentencesZeroIff(s: string)
    ensures RepeatedSentences(s) == 0 <==> AllDistinct(Sentences(s))
  {
    ExcessZeroIff(Sentences(s));
  }

  /** A piece without terminators is split into itself. */
  lemma {:induction false} SplitPlain(p: string)
    requires CountWhere(p, IsTerminator) == 0
    ensures SplitSentences(p) == [p]
  {
    if |p| > 0 {
      SplitPlain(p[1..]);
      assert [p[0]] + p[1..] == p;
    }
  }

  /** A piece without terminators followed by a terminator becomes the
      first piece of the split, and the split goes on after it. */
  lemma {:induction false} SplitAfterPiece(p: string, t: char, rest: string)
    requires CountWhere(p, IsTerminator) == 0 && IsTerminator(t)
    ensures SplitSentences(p + [t] + rest) == [p] + SplitSentences(rest)
  {
    if |p| == 0 {
      assert p + [t] + rest == [t] + rest;
      assert ([t] + rest)[1..] == rest;
    } else {
      SplitAfterPiece(p[1..], t, rest);
      assert (p + [t] + rest)[1..] == p[1..] + [t] + rest;
      assert [p[0]] + p[1..] == p;
    }
  }

  /** Three pieces, each closed by a full stop, split into those pieces
      and the empty piece after the last full stop. */
  lemma {:induction false} SplitThree(p: string, q: string, r: string)
    requires CountWhere(p, IsTerminator) == 0 && CountWhere(q, IsTerminator) == 0
    requires CountWhere(r, IsTerminator) == 0
    ensures SplitSentences(p + "." + (q + "." + (r + "."))) == [p, q, r, ""]
  {
    SplitAfterPiece(r, '.', []);
    assert r + "." + [] == r + ".";
    assert SplitSentences([]) == [""];
    SplitAfterPiece(q, '.', r + ".");
    SplitAfterPiece(p, '.', q + "." + (r + "."));
    assert [p] + ([q] + ([r] + [""])) == [p, q, r, ""];
  }

  /** One leading blank before a stripped non-empty text is stripped off. */
  lemma StripAfterBlank(x: string)
    requires x != [] && Strip(x) == x
    ensures Strip(" " + x) == x
  {
    assert (" " + x)[1..] == x;
    assert TrimStart(" " + x) == TrimStart(x);
  }

  /** A blank followed by a piece without terminators has no terminators. */
  lemma BlankPlain(x: string)
    requires CountWhere(x, IsTerminator) == 0
    ensures CountWhere(" " + x, IsTerminator) == 0
  {
    CountWhereAppend(" ", x, IsTerminator);
  }

  /** Three sentences written out with a full stop and a blank after
      each but the last, which ends with a full stop. */
  function ThreeSentences(x: string, y: string, z: string): string {
    x + "." + (" " + y + "." + (" " + z + "."))
  }

  /** The stripped pieces of such a text are the three sentences and the
      empty piece after the last full stop. */
  lemma SentencesOfThree(x: string, y: string, z: string)
    requires x != [] && y != [] && z != []
    requires Strip(x) == x && Strip(y) == y && Strip(z) == z
    requires CountWhere(x, IsTerminator) == 0 && CountWhere(y, IsTerminator) == 0
    requires CountWhere(z, IsTerminator) == 0
    ensures Sentences(ThreeSentences(x, y, z)) == [x, y, z, ""]
  {
    BlankPlain(y);
    BlankPlain(z);
    SplitThree(x, " " + y, " " + z);
    StripAfterBlank(y);
    StripAfterBlank(z);
    StripNoOp("");
  }

  /** Four pieces of which exactly two are equal have excess one. */
  lemma ExcessOneRepeat(x: string, y: string)
    requires x != [] && y != [] && x != y
    ensures Excess([x, x, y, ""]) == 1
  {
    assert Elements([x, x, y, ""]) == {x, y, ""};
  }

  /** Four different pieces have excess zero. */
  lemma ExcessNoRepeat(x: string, y: string, z: string)
    requires x != [] && y != [] && z != [] && x != y && y != z && x != z
    ensures Excess([x, y, z, ""]) == 0
  {
    ExcessZeroIff([x, y, z, ""]);
  }

  /** Writing the same sentence twice and then another one ("A. A. B.")
      repeats one sentence. */
  lemma RepeatedSentencesExampleRepeat(x: string, y: string)
    requires x != [] && y != [] && x != y && Strip(x) == x && Strip(y) == y
    requires CountWhere(x, IsTerminator) == 0 && CountWhere(y, IsTerminator) == 0
    ensures RepeatedSentences(ThreeSentences(x, x, y)) == 1
  {
    SentencesOfThree(x, x, y);
    ExcessOneRepeat(x, y);
  }

  /** Three different sentences ("A. B. C.") repeat nothing. */
  lemma RepeatedSentencesExampleNone(x: string, y: string, z: string)
    requires x != [] && y != [] && z != [] && x != y && y != z && x != z
    requires Strip(x) == x && Strip(y) == y && Strip(z) == z
    requires CountWhere(x, IsTerminator) == 0 && CountWhere(y, IsTerminator) == 0
    requires CountWhere(z, IsTerminator) == 0
    ensures RepeatedSentences(ThreeSentences(x, y, z)) == 0
  {
    SentencesOfThree(x, y, z);
    ExcessNoRepeat(x, y, z);
  }

  /** Python's `string.punctuation`: the 32 ASCII punctuation characters. */
  const Punctuation: string := "!\"#$%&'()*+,-./:;<=>?@[\\]^_`{|}~"

  /** `c in punctuation`. */
  predicate IsPunctuation(c: char) {
    c in Punctuation
  }
}
