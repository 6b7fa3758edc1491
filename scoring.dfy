/** The overlap score of a text against the reference vocabulary: the
    fraction of the text's distinct tokens that are vocabulary words. */
module Scoring {
  import opened Outcome
  import opened Text
  import opened Tokenizer

  /** The distinct elements of a word list. */
  function UniqueWords(words: seq<string>): (u: set<string>)
    ensures u == {} <==> words == []
  {
    if words == [] then {} else UniqueWords(words[..|words| - 1]) + {words[|words| - 1]}
  }

  /** The distinct elements are exactly the words that occur in the list. */
  lemma {:induction false} UniqueWordsMembers(words: seq<string>)
    ensures forall w :: w in UniqueWords(words) <==> w in words
  {
    if words != [] {
      var front := words[..|words| - 1];
      UniqueWordsMembers(front);
      assert words == front + [words[|words| - 1]];
    }
  }

  /** A subset is no larger than its superset, and only as large when the two
      are equal. */
  lemma {:induction false} SubsetCardinality<T>(a: set<T>, b: set<T>)
    requires a <= b
    ensures |a| <= |b|
    ensures |a| == |b| ==> a == b
    decreases |b|
  {
    if b != {} {
      var x :| x in b;
      SubsetCardinality(a - {x}, b - {x});
      if x in a {
        assert a == (a - {x}) + {x};
      } else {
        assert a - {x} == a;
      }
    }
  }

  /** A count out of a positive total, as an exact fraction in [0, 1] that
      is 0 exactly for none and 1 exactly for all. */
  function Fraction(count: nat, total: nat): (f: real)
    requires 0 < total && count <= total
    ensures 0.0 <= f <= 1.0
    ensures f == 0.0 <==> count == 0
    ensures f == 1.0 <==> count == total
  {
    var t := total as real;
    var f := count as real / t;
    assert f * t == count as real;
    assert (1.0 - f) * t == t - count as real;
    PositiveFactor(f, t);
    PositiveFactor(1.0 - f, t);
    f
  }

  /** Multiplying by a positive number keeps the sign. */
  lemma PositiveFactor(x: real, t: real)
    requires t > 0.0
    ensures x * t >= 0.0 <==> x >= 0.0
    ensures x * t == 0.0 <==> x == 0.0
  {
  }

  /** The score of a text: |distinct tokens that are vocabulary words| divided
      by |distinct tokens|, as an exact rational. A text without a single
      qualifying token has no score. */
  function ShakespeareScore(text: string, vocabulary: seq<string>): (r: Result<real>)
    ensures r.Failure? <==> Tokens(text) == []
    ensures r.Failure? ==> r.error == DegenerateDocument
    ensures r.Success? ==> 0.0 <= r.value <= 1.0
  {
    var unique := UniqueWords(Tokens(text));
    var common := unique * UniqueWords(vocabulary);
    if |unique| == 0 then
      Failure(DegenerateDocument)
    else
      SubsetCardinality(common, unique);
      Success(Fraction(|common|, |unique|))
  }

  /** A text with at least one token scores the number of its distinct
      tokens that are vocabulary words over the number of its distinct
      tokens. */
  lemma ScoreIsOverlapFraction(text: string, vocabulary: seq<string>)
    requires Tokens(text) != []
    ensures ShakespeareScore(text, vocabulary) ==
      Success(|UniqueWords(Tokens(text)) * UniqueWords(vocabulary)| as real
        / |UniqueWords(Tokens(text))| as real)
  {
  }

  /** The score is 0 exactly when the text shares no token with the
      vocabulary, and 1 exactly when every token of the text is in it. */
  lemma ScoreExtremes(text: string, vocabulary: seq<string>)
    ensures ShakespeareScore(text, vocabulary).Success? ==>
      (ShakespeareScore(text, vocabulary).value == 0.0 <==>
        UniqueWords(Tokens(text)) !! UniqueWords(vocabulary))
    ensures ShakespeareScore(text, vocabulary).Success? ==>
      (ShakespeareScore(text, vocabulary).value == 1.0 <==>
        UniqueWords(Tokens(text)) <= UniqueWords(vocabulary))
  {
    var unique := UniqueWords(Tokens(text));
    var shakespeareWords := UniqueWords(vocabulary);
    var common := unique * shakespeareWords;
    if |unique| > 0 {
      SubsetCardinality(common, unique);
      assert unique !! shakespeareWords ==> common == {};
      assert common == {} ==> unique !! shakespeareWords by {
        if common == {} {
          forall w | w in unique ensures w !in shakespeareWords {
            assert w !in common;
          }
        }
      }
      assert common == unique <==> unique <= shakespeareWords;
    }
  }

  /** Against an empty vocabulary every text with a token scores 0. */
  lemma EmptyVocabularyScoresZero(text: string)
    requires Tokens(text) != []
    ensures ShakespeareScore(text, []) == Success(0.0)
  {
    ScoreExtremes(text, []);
  }

  /** The score sees only the set of tokens: two texts with the same distinct
      tokens have the same score, whatever the order or the repetitions. */
  lemma ScoreDependsOnlyOnWordSet(text1: string, text2: string, vocabulary: seq<string>)
    requires UniqueWords(Tokens(text1)) == UniqueWords(Tokens(text2))
    ensures ShakespeareScore(text1, vocabulary) == ShakespeareScore(text2, vocabulary)
  {
  }

  /** Only the members of the vocabulary matter: two vocabularies with the
      same words, whatever their order and repetitions, give every text the
      same score. */
  lemma VocabularyMembersOnly(text: string, v1: seq<string>, v2: seq<string>)
    requires forall w :: w in v1 <==> w in v2
    ensures ShakespeareScore(text, v1) == ShakespeareScore(text, v2)
  {
    UniqueWordsMembers(v1);
    UniqueWordsMembers(v2);
    assert UniqueWords(v1) == UniqueWords(v2);
  }

  /** Appending, after a whitespace character, words that already occur in a
      text does not change its score. */
  lemma RepeatedWordsIgnored(text: string, c: char, extra: string, vocabulary: seq<string>)
    requires IsSpace(c)
    requires forall k :: 0 <= k < |Tokens(extra)| ==> Tokens(extra)[k] in Tokens(text)
    ensures ShakespeareScore(text + [c] + extra, vocabulary) == ShakespeareScore(text, vocabulary)
  {
    TokensJoin(text, c, extra);
    UniqueWordsMembers(Tokens(text));
    UniqueWordsMembers(Tokens(text) + Tokens(extra));
    assert UniqueWords(Tokens(text) + Tokens(extra)) == UniqueWords(Tokens(text));
  }

  /** A whitespace-free fragment that lower-cases to a word followed only by
      punctuation yields exactly that word as its one token. */
  lemma TokensOfPunctuatedWord(fragment: string, word: string)
    requires IsToken(word) && |word| <= |fragment| && Lower(fragment)[..|word|] == word
    requires forall k :: |word| <= k < |fragment| ==> Lower(fragment)[k] in Punctuation
    requires forall i :: 0 <= i < |fragment| ==> !IsSpace(fragment[i])
    ensures Tokens(fragment) == [word]
  {
    var s := Lower(fragment);
    var n := |word|;
    assert s[0] == word[0] && s[n - 1] == word[n - 1];
    assert !IsUpper(word[0]) && !IsUpper(word[n - 1]);
    StripIsInfix(s, Punctuation, 0, n);
    assert Clean(fragment) == word;
    TokensOfWord(fragment);
  }

  lemma ThouTokens()
    ensures Tokens("Thou") == ["thou"]
  {
    assert ToLower('T') == 't';
    assert Lower("Thou") == "thou" by {
      assert forall i :: 0 <= i < 4 ==> Lower("Thou")[i] == "thou"[i];
    }
    assert "thou"[..4] == "thou";
    TokensOfPunctuatedWord("Thou", "thou");
  }

  lemma ThouStopTokens()
    ensures Tokens("Thou.") == ["thou"]
  {
    assert ToLower('T') == 't';
    assert Lower("Thou.") == "thou." by {
      assert forall i :: 0 <= i < 5 ==> Lower("Thou.")[i] == "thou."[i];
    }
    assert "thou."[..4] == "thou";
    TokensOfPunctuatedWord("Thou.", "thou");
  }

  lemma DothTokens()
    ensures Tokens("doth!") == ["doth"]
  {
    assert Lower("doth!") == "doth!" by {
      assert forall i :: 0 <= i < 5 ==> Lower("doth!")[i] == "doth!"[i];
    }
    assert "doth!"[..4] == "doth";
    TokensOfPunctuatedWord("doth!", "doth");
  }

  lemma HelloTokens()
    ensures Tokens("hello") == ["hello"]
  {
    assert Lower("hello") == "hello" by {
      assert forall i :: 0 <= i < 5 ==> Lower("hello")[i] == "hello"[i];
    }
    assert "hello"[..5] == "hello";
    TokensOfPunctuatedWord("hello", "hello");
  }

  lemma WorldTokens()
    ensures Tokens("world") == ["world"]
  {
    assert Lower("world") == "world" by {
      assert forall i :: 0 <= i < 5 ==> Lower("world")[i] == "world"[i];
    }
    assert "world"[..5] == "world";
    TokensOfPunctuatedWord("world", "world");
  }

  /** The example texts as fragments joined by single spaces. */
  lemma ExampleTextsSplit()
    ensures "Thou doth! Thou." == "Thou" + [' '] + "doth! Thou."
    ensures "doth! Thou." == "doth!" + [' '] + "Thou."
    ensures "hello world" == "hello" + [' '] + "world"
  {
  }

  /** The tokens of the first worked example, in order. */
  lemma FullOverlapTokens()
    ensures Tokens("Thou doth! Thou.") == ["thou", "doth", "thou"]
  {
    ThouTokens();
    ThouStopTokens();
    DothTokens();
    TokensJoin("doth!", ' ', "Thou.");
    TokensJoin("Thou", ' ', "doth! Thou.");
    ExampleTextsSplit();
    assert Tokens("doth! Thou.") == ["doth", "thou"];
  }

  /** The worked example: both distinct tokens of "Thou doth! Thou." are
      vocabulary words, so the score is 1. */
  lemma ExampleFullOverlap()
    ensures ShakespeareScore("Thou doth! Thou.", ["thou", "doth"]) == Success(1.0)
  {
    FullOverlapTokens();
    assert UniqueWords(["thou", "doth", "thou"]) <= UniqueWords(["thou", "doth"]);
    ScoreExtremes("Thou doth! Thou.", ["thou", "doth"]);
  }

  /** The second worked example: no token of "hello world" is in the
      vocabulary, so the score is 0. */
  lemma ExampleNoOverlap()
    ensures ShakespeareScore("hello world", ["thou"]) == Success(0.0)
  {
    HelloTokens();
    WorldTokens();
    TokensJoin("hello", ' ', "world");
    ExampleTextsSplit();
    assert Tokens("hello world") == ["hello", "world"];
    assert UniqueWords(["hello", "world"]) !! UniqueWords(["thou"]);
    ScoreExtremes("hello world", ["thou"]);
  }
}
