/** The tokenizer: split a text on whitespace, lower-case each fragment,
    strip punctuation from both ends, and keep the fragments that are then
    non-empty and made of letters only. */
module Tokenizer {
  import opened Text

  /** The characters stripped from both ends of a fragment. */
  const Punctuation: set<char> :=
    {' ', ',', ';', '.', ':', '\'', '"', '[', ']', '(', ')', '-', '_', '?', '!'}

  /** What the tokenizer emits: a non-empty word of lower-case letters. */
  predicate IsToken(w: string) {
    |w| > 0 && forall i :: 0 <= i < |w| ==> IsLower(w[i])
  }

  /** A fragment lower-cased and stripped of punctuation at both ends. */
  function Clean(fragment: string): (w: string)
    ensures |w| <= |fragment|
    ensures forall i :: 0 <= i < |w| ==> !IsUpper(w[i])
    ensures w == [] || (w[0] !in Punctuation && w[|w| - 1] !in Punctuation)
  {
    StripKeepsLowerCase(Lower(fragment), Punctuation);
    Strip(Lower(fragment), Punctuation)
  }

  /** The cleaned fragments that qualify as words, in fragment order. */
  function TokensOf(fragments: seq<string>): (ws: seq<string>)
    ensures |ws| <= |fragments|
  {
    if fragments == [] then []
    else
      var last := Clean(fragments[|fragments| - 1]);
      TokensOf(fragments[..|fragments| - 1]) + (if IsAlpha(last) then [last] else [])
  }

  /** Every token is a non-empty word of lower-case letters, so in particular
      it has no punctuation at either end. */
  lemma {:induction false} TokensAreWords(fragments: seq<string>)
    ensures forall k :: 0 <= k < |TokensOf(fragments)| ==> IsToken(TokensOf(fragments)[k])
  {
    if fragments != [] {
      var front := fragments[..|fragments| - 1];
      var ws := TokensOf(front);
      TokensAreWords(front);
      var last := Clean(fragments[|fragments| - 1]);
      if IsAlpha(last) {
        assert IsToken(last);
        assert TokensOf(fragments) == ws + [last];
      } else {
        assert TokensOf(fragments) == ws;
      }
    }
  }

  /** The token sequence of a text. */
  function Tokens(text: string): seq<string> {
    TokensOf(Fragments(text))
  }

  /** The tokenizer loop: one cleaned fragment at a time, appended when it
      is alphabetic. */
  method TokenizeText(text: string) returns (words: seq<string>)
    ensures words == Tokens(text)
    ensures |words| <= |Fragments(text)|
    ensures forall k :: 0 <= k < |words| ==> IsToken(words[k])
  {
    var fragments := Fragments(text);
    words := [];
    for i := 0 to |fragments|
      invariant words == TokensOf(fragments[..i])
    {
      var clean := Clean(fragments[i]);
      TokensOfStep(fragments, i);
      if IsAlpha(clean) {
        words := words + [clean];
      }
    }
    assert fragments[..|fragments|] == fragments;
    TokensAreWords(fragments);
  }

  /** One more fragment adds its cleaned form when that is alphabetic, and
      nothing otherwise. */
  lemma TokensOfStep(fragments: seq<string>, i: nat)
    requires i < |fragments|
    ensures TokensOf(fragments[..i + 1]) == TokensOf(fragments[..i]) +
      (if IsAlpha(Clean(fragments[i])) then [Clean(fragments[i])] else [])
  {
    assert fragments[..i + 1][..i] == fragments[..i];
  }

  /** Tokenizing is local to fragments: the tokens of a concatenation of
      fragment lists are the tokens of each list, in order. */
  lemma {:induction false} TokensOfAppend(a: seq<string>, b: seq<string>)
    ensures TokensOf(a + b) == TokensOf(a) + TokensOf(b)
    decreases |b|
  {
    if b == [] {
      assert a + b == a;
    } else {
      var b' := b[..|b| - 1];
      assert (a + b)[..|a + b| - 1] == a + b';
      assert (a + b)[|a + b| - 1] == b[|b| - 1];
      TokensOfAppend(a, b');
    }
  }

  /** The tokens of two texts joined by a whitespace character are the
      tokens of the first followed by the tokens of the second. */
  lemma TokensJoin(a: string, c: char, b: string)
    requires IsSpace(c)
    ensures Tokens(a + [c] + b) == Tokens(a) + Tokens(b)
  {
    RunsJoin(a, c, b, IsSpace);
    TokensOfAppend(Fragments(a), Fragments(b));
  }

  /** A text that is a single whitespace-free fragment yields at most one
      token: its cleaned form, when that is alphabetic. */
  lemma TokensOfWord(w: string)
    requires w != []
    requires forall i :: 0 <= i < |w| ==> !IsSpace(w[i])
    ensures Tokens(w) == if IsAlpha(Clean(w)) then [Clean(w)] else []
  {
    RunsOfRun(w, IsSpace);
    assert [w][..0] == [];
  }
}
