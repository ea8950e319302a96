/** Keyword-overlap scoring of a resume against a job description.

    The two texts arrive here already lower-cased and tokenized: the
    tokenizer and the English stopword list are collaborators, so the token
    sequences and the stopword set are parameters. What remains is a filter
    (alphabetic tokens that are not stopwords), a conversion to sets, an
    intersection and a ratio. The ratio is kept as an exact `real`; the
    floating-point division and the rounding to two decimals are not modelled.
 */
module Scoring {

  /** The outcome of an operation that the source lets raise an exception;
      `message` is the text of that exception. */
  datatype Result<T> = Ok(value: T) | Err(message: string)

  /** The message of the exception raised by an integer division by zero. */
  const DivisionByZero: string := "division by zero"

  /** One character that `str.isalpha` accepts (ASCII letters only). */
  predicate IsLetter(c: char)
  {
    'a' <= c <= 'z' || 'A' <= c <= 'Z'
  }

  /** `str.isalpha`: at least one character, and every character a letter. */
  predicate IsAlpha(w: string)
  {
    |w| > 0 && forall i :: 0 <= i < |w| ==> IsLetter(w[i])
  }

  /** Alphabetic words are closed under concatenation, and a non-letter
      anywhere (a digit, a `+`, a `.`) makes a token non-alphabetic. */
  lemma {:induction false} AlphaConcat(a: string, b: string)
    ensures IsAlpha(a) && IsAlpha(b) ==> IsAlpha(a + b)
    ensures IsAlpha(a + b) ==> (a == [] || IsAlpha(a)) && (b == [] || IsAlpha(b))
  {
    if IsAlpha(a + b) {
      forall i | 0 <= i < |a| ensures IsLetter(a[i]) { assert a[i] == (a + b)[i]; }
      forall i | 0 <= i < |b| ensures IsLetter(b[i]) { assert b[i] == (a + b)[|a| + i]; }
    }
  }

  /** Concrete cases of the alphabetic test: words pass; the empty token,
      tokens with digits and punctuation do not. */
  lemma AlphaExamples()
    ensures IsAlpha("python") && IsAlpha("Flask")
    ensures !IsAlpha("") && !IsAlpha("c++") && !IsAlpha("python3") && !IsAlpha(",")
  {
    assert !IsLetter("c++"[1]);
    assert !IsLetter("python3"[6]);
    assert !IsLetter(","[0]);
  }

  /** A token is kept as a keyword when it is alphabetic and not a stopword. */
  predicate IsKeyword(w: string, stopWords: set<string>)
  {
    IsAlpha(w) && w !in stopWords
  }

  /** No stopword and no non-alphabetic token is ever a keyword; adding
      stopwords can only remove keywords. */
  lemma KeywordExclusions(w: string, stopWords: set<string>, more: set<string>)
    ensures w in stopWords ==> !IsKeyword(w, stopWords)
    ensures !IsAlpha(w) ==> !IsKeyword(w, stopWords)
    ensures IsKeyword(w, stopWords + more) ==> IsKeyword(w, stopWords)
  {
  }

  /** The list comprehension that keeps the keywords of a token sequence, in order. */
  function Keywords(tokens: seq<string>, stopWords: set<string>): (r: seq<string>)
    ensures |r| <= |tokens|
    ensures forall w :: w in r <==> w in tokens && IsKeyword(w, stopWords)
  {
    if tokens == [] then []
    else if IsKeyword(tokens[0], stopWords) then [tokens[0]] + Keywords(tokens[1..], stopWords)
    else Keywords(tokens[1..], stopWords)
  }

  /** `set(keywords)`: the distinct keywords of a token sequence. */
  function KeywordSet(tokens: seq<string>, stopWords: set<string>): (r: set<string>)
    ensures forall w :: w in r <==> w in tokens && IsKeyword(w, stopWords)
  {
    set w | w in Keywords(tokens, stopWords)
  }

  /** The keywords the resume and the job description have in common. */
  function Matched(resumeTokens: seq<string>, jobTokens: seq<string>, stopWords: set<string>): (m: set<string>)
    ensures m <= KeywordSet(resumeTokens, stopWords) && m <= KeywordSet(jobTokens, stopWords)
    ensures forall w :: w in m <==> w in resumeTokens && w in jobTokens && IsKeyword(w, stopWords)
  {
    KeywordSet(resumeTokens, stopWords) * KeywordSet(jobTokens, stopWords)
  }

  /** The percentage of the distinct job keywords that the resume contains.
      With no job keyword the source divides by zero; that is the error result. */
  function Score(resumeTokens: seq<string>, jobTokens: seq<string>, stopWords: set<string>): (r: Result<real>)
    ensures r.Err? <==> forall w :: w in jobTokens ==> !IsKeyword(w, stopWords)
    ensures r.Err? ==> r.message == DivisionByZero
    ensures r.Ok? ==> 0.0 <= r.value <= 100.0
  {
    SetScore(KeywordSet(resumeTokens, stopWords), KeywordSet(jobTokens, stopWords))
  }

  /** The score is the share of the distinct job keywords that were matched:
      score times the number of job keywords is 100 times the number matched. */
  lemma ScoreIsMatchedShare(resumeTokens: seq<string>, jobTokens: seq<string>, stopWords: set<string>)
    requires Score(resumeTokens, jobTokens, stopWords).Ok?
    ensures Score(resumeTokens, jobTokens, stopWords).value * (|KeywordSet(jobTokens, stopWords)| as real)
         == 100.0 * (|Matched(resumeTokens, jobTokens, stopWords)| as real)
  {
  }

  /** The score of two keyword sets: the share of the job keywords that are
      also resume keywords, as a percentage. */
  function SetScore(resumeKeywords: set<string>, jobKeywords: set<string>): (r: Result<real>)
    ensures r.Err? <==> jobKeywords == {}
    ensures r.Err? ==> r.message == DivisionByZero
    ensures r.Ok? ==> 0.0 <= r.value <= 100.0
    ensures r.Ok? ==> r.value * (|jobKeywords| as real) == 100.0 * (|resumeKeywords * jobKeywords| as real)
  {
    if jobKeywords == {} then
      Err(DivisionByZero)
    else
      SubsetCardinality(resumeKeywords * jobKeywords, jobKeywords);
      Ok(Percentage(|resumeKeywords * jobKeywords|, |jobKeywords|))
  }

  /** `part / whole * 100`, computed exactly. */
  function Percentage(part: nat, whole: nat): (p: real)
    requires 0 < whole
    ensures p * (whole as real) == 100.0 * (part as real)
    ensures 0.0 <= p
    ensures part <= whole ==> p <= 100.0
    ensures p == 100.0 <==> part == whole
    ensures p == 0.0 <==> part == 0
  {
    var w := whole as real;
    var x := 100.0 * (part as real);
    DivisionCancels(x, w);
    DivisionCancels(100.0, w);
    DivisionMonotone(0.0, x, w);
    DivisionMonotone(x, 100.0 * w, w);
    x / w
  }

  /** Dividing by a positive number and multiplying by it cancel out. */
  lemma DivisionCancels(x: real, w: real)
    requires 0.0 < w
    ensures (x / w) * w == x
    ensures (x * w) / w == x
  {
  }

  /** Dividing by a positive number keeps the order. */
  lemma DivisionMonotone(x: real, y: real, w: real)
    requires 0.0 < w
    ensures x <= y ==> x / w <= y / w
  {
  }

  /** A larger part of the same whole is a larger percentage. */
  lemma PercentageMonotone(part1: nat, part2: nat, whole: nat)
    requires 0 < whole && part1 <= part2
    ensures Percentage(part1, whole) <= Percentage(part2, whole)
  {
    DivisionMonotone(100.0 * (part1 as real), 100.0 * (part2 as real), whole as real);
  }

  /** A subset is no larger than its superset; equal sizes make them equal. */
  lemma {:induction false} SubsetCardinality(a: set<string>, b: set<string>)
    requires a <= b
    ensures |a| <= |b|
    ensures |a| == |b| ==> a == b
  {
    if b != {} {
      var x :| x in b;
      if x in a {
        SubsetCardinality(a - {x}, b - {x});
      } else {
        SubsetCardinality(a, b - {x});
      }
    }
  }

  // ---------------------------------------------------------------------
  // The keyword filter

  /** The filter works token by token: the keywords of a concatenation are
      the keywords of each part, concatenated, so the order is kept. */
  lemma {:induction false} KeywordsAppend(a: seq<string>, b: seq<string>, stopWords: set<string>)
    ensures Keywords(a + b, stopWords) == Keywords(a, stopWords) + Keywords(b, stopWords)
  {
    if a == [] {
      assert a + b == b;
    } else {
      assert (a + b)[0] == a[0];
      assert (a + b)[1..] == a[1..] + b;
      KeywordsAppend(a[1..], b, stopWords);
      if IsKeyword(a[0], stopWords) {
        var ka, kb := Keywords(a[1..], stopWords), Keywords(b, stopWords);
        assert [a[0]] + (ka + kb) == ([a[0]] + ka) + kb;
      }
    }
  }

  /** One token is kept exactly when it is a keyword. */
  lemma KeywordsSingleton(w: string, stopWords: set<string>)
    ensures Keywords([w], stopWords) == if IsKeyword(w, stopWords) then [w] else []
  {
  }

  /** Filtering a keyword sequence again leaves it unchanged. */
  lemma {:induction false} KeywordsIdempotent(tokens: seq<string>, stopWords: set<string>)
    ensures Keywords(Keywords(tokens, stopWords), stopWords) == Keywords(tokens, stopWords)
  {
    if tokens != [] {
      KeywordsIdempotent(tokens[1..], stopWords);
      if IsKeyword(tokens[0], stopWords) {
        var rest := Keywords(tokens[1..], stopWords);
        assert ([tokens[0]] + rest)[1..] == rest;
      }
    }
  }

  // ---------------------------------------------------------------------
  // Properties of the score

  /** The distinct tokens of a token sequence. */
  function TokenSet(tokens: seq<string>): (r: set<string>)
  {
    set w | w in tokens
  }

  /** Token sequences with the same distinct tokens have the same keyword set. */
  lemma SameTokensSameKeywords(t1: seq<string>, t2: seq<string>, stopWords: set<string>)
    requires TokenSet(t1) == TokenSet(t2)
    ensures KeywordSet(t1, stopWords) == KeywordSet(t2, stopWords)
  {
    forall w ensures w in t1 <==> w in t2 {
      assert w in t1 <==> w in TokenSet(t1);
      assert w in t2 <==> w in TokenSet(t2);
    }
  }

  /** The score depends on the token sequences only through the tokens they
      contain: neither the order nor the repetition of tokens matters. */
  lemma SameTokensSameScore(r1: seq<string>, r2: seq<string>, j1: seq<string>, j2: seq<string>, stopWords: set<string>)
    requires TokenSet(r1) == TokenSet(r2)
    requires TokenSet(j1) == TokenSet(j2)
    ensures Score(r1, j1, stopWords) == Score(r2, j2, stopWords)
  {
    SameTokensSameKeywords(r1, r2, stopWords);
    SameTokensSameKeywords(j1, j2, stopWords);
  }

  /** Permuting the tokens of either input leaves the score unchanged. */
  lemma PermutationInvariant(r1: seq<string>, r2: seq<string>, j1: seq<string>, j2: seq<string>, stopWords: set<string>)
    requires multiset(r1) == multiset(r2)
    requires multiset(j1) == multiset(j2)
    ensures Score(r1, j1, stopWords) == Score(r2, j2, stopWords)
  {
    SameMultisetSameTokens(r1, r2);
    SameMultisetSameTokens(j1, j2);
    SameTokensSameScore(r1, r2, j1, j2, stopWords);
  }

  /** A permutation has the same distinct tokens. */
  lemma SameMultisetSameTokens(t1: seq<string>, t2: seq<string>)
    requires multiset(t1) == multiset(t2)
    ensures TokenSet(t1) == TokenSet(t2)
  {
    forall w ensures w in TokenSet(t1) <==> w in TokenSet(t2) {
      assert w in t1 <==> w in multiset(t1);
      assert w in t2 <==> w in multiset(t2);
    }
  }

  /** Inserting a copy of one of its tokens keeps the distinct tokens. */
  lemma DuplicateKeepsTokens(t: seq<string>, i: nat, k: nat)
    requires i < |t| && k <= |t|
    ensures TokenSet(t[..k] + [t[i]] + t[k..]) == TokenSet(t)
  {
    var t' := t[..k] + [t[i]] + t[k..];
    forall w ensures w in TokenSet(t') <==> w in TokenSet(t) {
      assert t == t[..k] + t[k..];
    }
  }

  /** Repeating a token of the resume, at any position, leaves the score unchanged. */
  lemma DuplicateResumeToken(r: seq<string>, j: seq<string>, stopWords: set<string>, i: nat, k: nat)
    requires i < |r| && k <= |r|
    ensures Score(r[..k] + [r[i]] + r[k..], j, stopWords) == Score(r, j, stopWords)
  {
    DuplicateKeepsTokens(r, i, k);
    SameTokensSameScore(r[..k] + [r[i]] + r[k..], r, j, j, stopWords);
  }

  /** Repeating a token of the job description, at any position, leaves the score unchanged. */
  lemma DuplicateJobToken(r: seq<string>, j: seq<string>, stopWords: set<string>, i: nat, k: nat)
    requires i < |j| && k <= |j|
    ensures Score(r, j[..k] + [j[i]] + j[k..], stopWords) == Score(r, j, stopWords)
  {
    DuplicateKeepsTokens(j, i, k);
    SameTokensSameScore(r, r, j[..k] + [j[i]] + j[k..], j, stopWords);
  }

  /** The score is 100 exactly when every job keyword is among the resume keywords. */
  lemma FullMatch(r: seq<string>, j: seq<string>, stopWords: set<string>)
    requires Score(r, j, stopWords).Ok?
    ensures Score(r, j, stopWords).value == 100.0
        <==> KeywordSet(j, stopWords) <= KeywordSet(r, stopWords)
  {
    var m, js := Matched(r, j, stopWords), KeywordSet(j, stopWords);
    assert m == KeywordSet(r, stopWords) * js;
    assert Score(r, j, stopWords) == Ok(Percentage(|m|, |js|));
    SubsetCardinality(m, js);
    if js <= KeywordSet(r, stopWords) {
      assert m == js;
    }
  }

  /** Scoring a text against itself gives 100 whenever it has a keyword. */
  lemma IdenticalInputs(tokens: seq<string>, stopWords: set<string>)
    requires exists w :: w in tokens && IsKeyword(w, stopWords)
    ensures Score(tokens, tokens, stopWords) == Ok(100.0)
  {
    FullMatch(tokens, tokens, stopWords);
  }

  /** The score is 0 exactly when the two keyword sets are disjoint. */
  lemma NoMatch(r: seq<string>, j: seq<string>, stopWords: set<string>)
    requires Score(r, j, stopWords).Ok?
    ensures Score(r, j, stopWords).value == 0.0
        <==> KeywordSet(r, stopWords) !! KeywordSet(j, stopWords)
  {
    var m, js := Matched(r, j, stopWords), KeywordSet(j, stopWords);
    assert m == KeywordSet(r, stopWords) * js;
    assert Score(r, j, stopWords) == Ok(Percentage(|m|, |js|));
    if Score(r, j, stopWords).value == 0.0 {
      assert m == {};
    }
  }

  /** Adding tokens to the resume never lowers the score. */
  lemma MoreResumeTokensNeverLower(r: seq<string>, extra: seq<string>, j: seq<string>, stopWords: set<string>)
    requires Score(r, j, stopWords).Ok?
    ensures Score(r + extra, j, stopWords).Ok?
    ensures Score(r, j, stopWords).value <= Score(r + extra, j, stopWords).value
  {
    var m1 := Matched(r, j, stopWords);
    var m2 := Matched(r + extra, j, stopWords);
    assert m1 <= m2;
    SubsetCardinality(m1, m2);
    PercentageMonotone(|m1|, |m2|, |KeywordSet(j, stopWords)|);
  }

  // ---------------------------------------------------------------------
  // Worked example

  /** A few entries of the English stopword list, enough for the example. */
  /** A job description made only of stopwords has no keyword: the source
      divides by zero, whatever the rest of the stopword list holds. */
  lemma StopWordsOnlyExample(r: seq<string>, stopWords: set<string>)
    requires {"the", "and", "of", "a"} <= stopWords
    ensures Score(r, ["the", "and", "of", "a"], stopWords) == Err(DivisionByZero)
  {
  }
}
