/** The string built-ins the tokenizer and the label oracle rely on:
    splitting into runs separated by a class of characters, lower-casing,
    stripping a set of characters from both ends, and the all-letters test.
    Character classes are restricted to ASCII. */
module Text {

  /** Characters that separate the fragments of a whitespace split. */
  predicate IsSpace(c: char) {
    c == ' ' || ('\t' <= c <= '\r') || ('\U{1C}' <= c <= '\U{1F}')
  }

  predicate IsUpper(c: char) { 'A' <= c <= 'Z' }

  predicate IsLower(c: char) { 'a' <= c <= 'z' }

  predicate IsLetter(c: char) { IsUpper(c) || IsLower(c) }

  function ToLower(c: char): (r: char)
    ensures !IsUpper(r)
    ensures IsLetter(r) <==> IsLetter(c)
    ensures !IsUpper(c) ==> r == c
  {
    if IsUpper(c) then (c as int + 32) as char else c
  }

  /** The string with every upper-case letter replaced by its lower-case form. */
  function Lower(s: string): (r: string)
    ensures |r| == |s|
    ensures forall i :: 0 <= i < |r| ==> !IsUpper(r[i])
    ensures forall i :: 0 <= i < |r| ==> (IsLetter(r[i]) <==> IsLetter(s[i]))
    ensures forall i :: 0 <= i < |s| ==>
      (!IsUpper(s[i]) ==> r[i] == s[i]) &&
      (IsUpper(s[i]) ==> r[i] as int - 'a' as int == s[i] as int - 'A' as int)
  {
    seq(|s|, i requires 0 <= i < |s| => ToLower(s[i]))
  }

  /** A non-empty string of letters only (the empty string is not alphabetic). */
  predicate IsAlpha(s: string) {
    |s| > 0 && forall i :: 0 <= i < |s| ==> IsLetter(s[i])
  }

  /** The length of the longest prefix of s free of separators. */
  function RunLength(s: string, isSep: char -> bool): (n: nat)
    ensures n <= |s|
    ensures forall i :: 0 <= i < n ==> !isSep(s[i])
    ensures n < |s| ==> isSep(s[n])
  {
    if s == [] || isSep(s[0]) then 0 else 1 + RunLength(s[1..], isSep)
  }

  /** The maximal separator-free runs of s, in order: a split on a class of
      separator characters that never yields an empty piece. */
  function Runs(s: string, isSep: char -> bool): (r: seq<string>)
    ensures forall k :: 0 <= k < |r| ==> r[k] != []
    ensures forall k, i :: 0 <= k < |r| && 0 <= i < |r[k]| ==> !isSep(r[k][i])
    decreases |s|
  {
    if s == [] then []
    else if isSep(s[0]) then Runs(s[1..], isSep)
    else
      var n := RunLength(s, isSep);
      [s[..n]] + Runs(s[n..], isSep)
  }

  /** Splitting on whitespace. */
  function Fragments(text: string): (r: seq<string>)
    ensures forall k :: 0 <= k < |r| ==> r[k] != []
    ensures forall k, i :: 0 <= k < |r| && 0 <= i < |r[k]| ==> !IsSpace(r[k][i])
  {
    Runs(text, IsSpace)
  }

  /** A run never reaches past a separator: appending to a string whose run
      already ended, or appending something that starts with a separator,
      leaves the first run unchanged. */
  lemma {:induction false} RunLengthAppend(a: string, t: string, isSep: char -> bool)
    requires RunLength(a, isSep) < |a| || (t != [] && isSep(t[0]))
    ensures RunLength(a + t, isSep) == RunLength(a, isSep)
  {
    if a == [] {
    } else if isSep(a[0]) {
    } else {
      assert (a + t)[1..] == a[1..] + t;
      RunLengthAppend(a[1..], t, isSep);
    }
  }

  /** A separator-free string is a single run. */
  lemma {:induction false} RunLengthOfRun(s: string, isSep: char -> bool)
    requires forall i :: 0 <= i < |s| ==> !isSep(s[i])
    ensures RunLength(s, isSep) == |s|
  {
    if s != [] {
      RunLengthOfRun(s[1..], isSep);
    }
  }

  /** A non-empty separator-free string splits into itself alone. */
  lemma RunsOfRun(s: string, isSep: char -> bool)
    requires s != []
    requires forall i :: 0 <= i < |s| ==> !isSep(s[i])
    ensures Runs(s, isSep) == [s]
  {
    RunLengthOfRun(s, isSep);
    assert s[..|s|] == s && s[|s|..] == [];
  }

  /** Splitting distributes over a separator: the runs of a ++ [c] ++ b are
      the runs of a followed by the runs of b. */
  lemma {:induction false} RunsJoin(a: string, c: char, b: string, isSep: char -> bool)
    requires isSep(c)
    ensures Runs(a + [c] + b, isSep) == Runs(a, isSep) + Runs(b, isSep)
    decreases |a|
  {
    var s := a + [c] + b;
    if a == [] {
      assert s[1..] == b;
    } else if isSep(a[0]) {
      assert s[0] == a[0] && s[1..] == a[1..] + [c] + b;
      RunsJoin(a[1..], c, b, isSep);
    } else {
      var n := RunLength(a, isSep);
      assert s == a + ([c] + b);
      RunLengthAppend(a, [c] + b, isSep);
      assert s[0] == a[0] && RunLength(s, isSep) == n;
      assert Runs(s, isSep) == [s[..n]] + Runs(s[n..], isSep);
      assert s[..n] == a[..n];
      assert s[n..] == a[n..] + [c] + b;
      RunsJoin(a[n..], c, b, isSep);
    }
  }

  /** Removes leading characters that belong to chars. */
  function StripLeading(s: string, chars: set<char>): (r: string)
    ensures |r| <= |s| && r == s[|s| - |r|..]
    ensures forall i :: 0 <= i < |s| - |r| ==> s[i] in chars
    ensures r == [] || r[0] !in chars
  {
    if s != [] && s[0] in chars then StripLeading(s[1..], chars) else s
  }

  /** Removes trailing characters that belong to chars. */
  function StripTrailing(s: string, chars: set<char>): (r: string)
    ensures |r| <= |s| && r == s[..|r|]
    ensures forall i :: |r| <= i < |s| ==> s[i] in chars
    ensures r == [] || r[|r| - 1] !in chars
  {
    if s != [] && s[|s| - 1] in chars then StripTrailing(s[..|s| - 1], chars) else s
  }

  /** Removes characters that belong to chars from both ends. */
  function Strip(s: string, chars: set<char>): (r: string)
    ensures |r| <= |s|
    ensures r == [] || (r[0] !in chars && r[|r| - 1] !in chars)
  {
    StripTrailing(StripLeading(s, chars), chars)
  }

  /** Stripping keeps only characters of s, so a string without upper-case
      letters stays without them. */
  lemma StripKeepsLowerCase(s: string, chars: set<char>)
    requires forall i :: 0 <= i < |s| ==> !IsUpper(s[i])
    ensures forall i :: 0 <= i < |Strip(s, chars)| ==> !IsUpper(Strip(s, chars)[i])
  {
    var leading := StripLeading(s, chars);
    var r := StripTrailing(leading, chars);
    var start := |s| - |leading|;
    assert leading == s[start..];
    assert r == leading[..|r|];
    forall i | 0 <= i < |r| ensures !IsUpper(r[i]) {
      assert r[i] == s[start + i];
    }
  }

  lemma {:induction false} StripLeadingAt(s: string, chars: set<char>, i: nat)
    requires i <= |s|
    requires forall k :: 0 <= k < i ==> s[k] in chars
    requires i == |s| || s[i] !in chars
    ensures StripLeading(s, chars) == s[i..]
  {
    if i > 0 {
      assert s[1..][i - 1..] == s[i..];
      StripLeadingAt(s[1..], chars, i - 1);
    }
  }

  lemma {:induction false} StripTrailingAt(s: string, chars: set<char>, j: nat)
    requires j <= |s|
    requires forall k :: j <= k < |s| ==> s[k] in chars
    requires j == 0 || s[j - 1] !in chars
    ensures StripTrailing(s, chars) == s[..j]
    decreases |s|
  {
    if j < |s| {
      assert s[..|s| - 1][..j] == s[..j];
      StripTrailingAt(s[..|s| - 1], chars, j);
    }
  }

  /** Strip is characterised by where it cuts: if s[..i] and s[j..] consist
      of characters from chars and the kept part s[i..j] neither starts nor
      ends with one (or is empty), then stripping yields exactly s[i..j]. */
  lemma {:induction false} StripIsInfix(s: string, chars: set<char>, i: nat, j: nat)
    requires i <= j <= |s|
    requires forall k :: 0 <= k < i ==> s[k] in chars
    requires forall k :: j <= k < |s| ==> s[k] in chars
    requires i == j || (s[i] !in chars && s[j - 1] !in chars)
    ensures Strip(s, chars) == s[i..j]
  {
    if i == j {
      assert forall k :: 0 <= k < |s| ==> s[k] in chars by {
        forall k | 0 <= k < |s| ensures s[k] in chars {
          if k >= j {
          }
        }
      }
      StripLeadingAt(s, chars, |s|);
    } else {
      StripKeepsInfix(s, chars, i, j);
    }
  }

  lemma {:induction false} StripKeepsInfix(s: string, chars: set<char>, i: nat, j: nat)
    requires i < j <= |s|
    requires forall k :: 0 <= k < i ==> s[k] in chars
    requires forall k :: j <= k < |s| ==> s[k] in chars
    requires s[i] !in chars && s[j - 1] !in chars
    ensures Strip(s, chars) == s[i..j]
  {
    StripLeadingAt(s, chars, i);
    StripTrailingOfSuffix(s, chars, i, j);
  }

  lemma StripTrailingOfSuffix(s: string, chars: set<char>, i: nat, j: nat)
    requires i < j <= |s|
    requires forall k :: j <= k < |s| ==> s[k] in chars
    requires s[j - 1] !in chars
    ensures StripTrailing(s[i..], chars) == s[i..j]
  {
    var t := s[i..];
    forall k | j - i <= k < |t| ensures t[k] in chars {
      assert t[k] == s[k + i];
    }
    StripTrailingAt(t, chars, j - i);
    assert t[..j - i] == s[i..j];
  }
}
