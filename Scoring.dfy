/**
 * The relevance scorer: `keyword_score(chunk, question)` tokenises both strings with
 * `re.findall(r"\w+", s.lower())` and counts the chunk's tokens, with repetition, that are
 * among the question's distinct tokens. `\w` is modelled on ASCII letters, digits and `_`.
 */
module Scoring {
  import opened PyStr

  /** One character of the pattern `\w`. */
  predicate IsWordChar(c: char)
  {
    ('a' <= c <= 'z') || ('A' <= c <= 'Z') || ('0' <= c <= '9') || c == '_'
  }

  /** Length of the run of word characters at the start of `s` (what `\w+` matches there, greedily). */
  function WordRun(s: string): (k: nat)
    ensures k <= |s|
    ensures forall i :: 0 <= i < k ==> IsWordChar(s[i])
    ensures k < |s| ==> !IsWordChar(s[k])
  {
    if s != [] && IsWordChar(s[0]) then 1 + WordRun(s[1..]) else 0
  }

  /** `re.findall(r"\w+", s)`: the maximal runs of word characters, left to right. */
  function Words(s: string): (ws: seq<string>)
    ensures forall i :: 0 <= i < |ws| ==> ws[i] != []
    ensures forall i, j :: 0 <= i < |ws| && 0 <= j < |ws[i]| ==> IsWordChar(ws[i][j])
    decreases |s|
  {
    if s == [] then []
    else if !IsWordChar(s[0]) then Words(s[1..])
    else
      var k := WordRun(s);
      [s[..k]] + Words(s[k..])
  }

  /** How many of `ws`, counted with repetition, belong to `terms`. */
  function CountIn(ws: seq<string>, terms: set<string>): (n: nat)
    ensures n <= |ws|
    ensures terms == {} ==> n == 0
  {
    if ws == [] then 0
    else (if ws[0] in terms then 1 else 0) + CountIn(ws[1..], terms)
  }

  /** `set(re.findall(r"\w+", question.lower()))`. */
  function QueryTerms(question: string): set<string>
  {
    set w | w in Words(Lower(question))
  }

  /** `keyword_score(chunk, question)`. */
  function KeywordScore(chunk: string, question: string): (score: int)
    ensures 0 <= score <= |Words(Lower(chunk))|
  {
    CountIn(Words(Lower(chunk)), QueryTerms(question))
  }

  /**
   * The score is never negative and never more than the number of word tokens in the chunk,
   * and it is 0 when the question has no word tokens.
   */
  lemma KeywordScoreBounds(chunk: string, question: string)
    ensures 0 <= KeywordScore(chunk, question) <= |Words(Lower(chunk))|
    ensures Words(Lower(question)) == [] ==> KeywordScore(chunk, question) == 0
  {
  }

  lemma {:induction false} CountInConcat(a: seq<string>, b: seq<string>, terms: set<string>)
    ensures CountIn(a + b, terms) == CountIn(a, terms) + CountIn(b, terms)
  {
    if a != [] {
      assert (a + b)[1..] == a[1..] + b;
      CountInConcat(a[1..], b, terms);
    } else {
      assert a + b == b;
    }
  }

  lemma {:induction false} WordRunStopsAtSeparator(a: string, sep: char, b: string)
    requires !IsWordChar(sep)
    ensures WordRun(a + [sep] + b) == WordRun(a)
  {
    if a == [] {
    } else if IsWordChar(a[0]) {
      assert (a + [sep] + b)[1..] == a[1..] + [sep] + b;
      WordRunStopsAtSeparator(a[1..], sep, b);
    }
  }

  /** A non-word character between two strings keeps their tokens apart: tokenising is additive. */
  lemma {:induction false} WordsAcrossSeparator(a: string, sep: char, b: string)
    requires !IsWordChar(sep)
    ensures Words(a + [sep] + b) == Words(a) + Words(b)
    decreases |a|
  {
    var s := a + [sep] + b;
    if a == [] {
      assert s[1..] == b;
    } else if !IsWordChar(a[0]) {
      assert s[1..] == a[1..] + [sep] + b;
      WordsAcrossSeparator(a[1..], sep, b);
    } else {
      var k := WordRun(s);
      WordRunStopsAtSeparator(a, sep, b);
      assert s[..k] == a[..k];
      assert s[k..] == a[k..] + [sep] + b;
      WordsAcrossSeparator(a[k..], sep, b);
    }
  }

  /**
   * Scores add up over two texts joined by a space: the score is a bag-of-words count, so a
   * chunk that repeats the question's vocabulary scores higher.
   */
  lemma KeywordScoreAdditive(a: string, b: string, question: string)
    ensures KeywordScore(a + " " + b, question) == KeywordScore(a, question) + KeywordScore(b, question)
  {
    LowerConcat(a + " ", b);
    LowerConcat(a, " ");
    assert Lower(" ") == [' '];
    WordsAcrossSeparator(Lower(a), ' ', Lower(b));
    CountInConcat(Words(Lower(a)), Words(Lower(b)), QueryTerms(question));
  }

  /** Repeating a chunk twice, separated by a space, doubles its score. */
  lemma KeywordScoreCountsRepetition(chunk: string, question: string)
    ensures KeywordScore(chunk + " " + chunk, question) == 2 * KeywordScore(chunk, question)
  {
    KeywordScoreAdditive(chunk, chunk, question);
  }

  lemma LowerIdempotent(s: string)
    ensures Lower(Lower(s)) == Lower(s)
  {
  }

  /** The score does not depend on the letter case of either argument. */
  lemma KeywordScoreIgnoresCase(chunk: string, question: string)
    ensures KeywordScore(Lower(chunk), Lower(question)) == KeywordScore(chunk, question)
  {
    LowerIdempotent(chunk);
    LowerIdempotent(question);
  }

  /** A token: a non-empty run of word characters. */
  predicate IsToken(w: string)
  {
    w != [] && forall j :: 0 <= j < |w| ==> IsWordChar(w[j])
  }

  lemma {:induction false} WordRunOfToken(w: string)
    requires forall j :: 0 <= j < |w| ==> IsWordChar(w[j])
    ensures WordRun(w) == |w|
  {
    if w != [] {
      WordRunOfToken(w[1..]);
    }
  }

  lemma WordsOfToken(w: string)
    requires IsToken(w)
    ensures Words(w) == [w]
  {
    WordRunOfToken(w);
    assert w[..|w|] == w && w[|w|..] == [];
  }

  /** Tokens written out with single spaces between them tokenise back to the same tokens. */
  lemma {:induction false} WordsOfSpacedTokens(ws: seq<string>)
    requires forall i :: 0 <= i < |ws| ==> IsToken(ws[i])
    ensures Words(Join(" ", ws)) == ws
  {
    if ws != [] {
      var w := ws[0];
      WordsOfToken(w);
      if |ws| > 1 {
        var rest := Join(" ", ws[1..]);
        WordsOfSpacedTokens(ws[1..]);
        WordsAcrossSeparator(w, ' ', rest);
        assert Join(" ", ws) == w + [' '] + rest;
        assert ws == [w] + ws[1..];
      }
    }
  }

  /** Tokenising is idempotent: the tokens of a text, re-joined with spaces, give the same tokens. */
  lemma TokensRoundTrip(s: string)
    ensures Words(Join(" ", Words(s))) == Words(s)
  {
    WordsOfSpacedTokens(Words(s));
  }
}
