/** The ground-truth oracle: a document is by Shakespeare exactly when the
    part of its file name before the first '.' is "shakespeare". */
module Labels {
  import opened Text

  predicate IsSlash(c: char) { c == '/' }

  /** The last component that is not ".", or "" when there is none. */
  function LastName(components: seq<string>): (name: string)
    ensures name != "."
    ensures name == [] || name in components
  {
    if components == [] then []
    else if components[|components| - 1] == "." then LastName(components[..|components| - 1])
    else components[|components| - 1]
  }

  /** The name is determined by where the trailing "." components start:
      if every component from k on is ".", the name is the component just
      before k, or "" when k is 0. */
  lemma {:induction false} LastNameAt(components: seq<string>, k: nat)
    requires k <= |components|
    requires forall j :: k <= j < |components| ==> components[j] == "."
    requires k == 0 || components[k - 1] != "."
    ensures LastName(components) == if k == 0 then [] else components[k - 1]
    decreases |components|
  {
    if k < |components| {
      var prefix := components[..|components| - 1];
      LastNameAt(prefix, k);
    }
  }

  /** The final component of a path, as a path object names it: separators
      are '/', and empty and "." components do not count. */
  function BaseName(path: string): (name: string)
    ensures forall i :: 0 <= i < |name| ==> name[i] != '/'
    ensures name != "."
  {
    LastName(Runs(path, IsSlash))
  }

  /** The part of a name before its first '.', or the whole name when it has
      no '.' (the first element of a split on '.'). */
  function FirstSegment(name: string): (seg: string)
    ensures |seg| <= |name| && seg == name[..|seg|]
    ensures forall i :: 0 <= i < |seg| ==> seg[i] != '.'
    ensures |seg| < |name| ==> name[|seg|] == '.'
  {
    if name == [] || name[0] == '.' then [] else [name[0]] + FirstSegment(name[1..])
  }

  /** The first segment is determined by where the first '.' is: any prefix
      free of '.' that ends at a '.' or at the end of the name is it. */
  lemma {:induction false} FirstSegmentAt(name: string, k: nat)
    requires k <= |name|
    requires forall i :: 0 <= i < k ==> name[i] != '.'
    requires k == |name| || name[k] == '.'
    ensures FirstSegment(name) == name[..k]
  {
    if k > 0 {
      FirstSegmentAt(name[1..], k - 1);
      assert name[..k] == [name[0]] + name[1..][..k - 1];
    }
  }

  /** The label token of the positive class. */
  const Author: string := "shakespeare"

  /** The ground-truth label of a document, from its path alone. */
  function IsWrittenByShakespeare(path: string): bool {
    FirstSegment(BaseName(path)) == Author
  }

  /** The label is true exactly when the base name is "shakespeare" or starts
      with "shakespeare." (case-sensitively). */
  lemma LabelIsAuthorPrefix(path: string)
    ensures IsWrittenByShakespeare(path) <==>
      var name := BaseName(path);
      |Author| <= |name| && name[..|Author|] == Author &&
      (|name| == |Author| || name[|Author|] == '.')
  {
    var name := BaseName(path);
    if |Author| <= |name| && name[..|Author|] == Author &&
       (|name| == |Author| || name[|Author|] == '.') {
      FirstSegmentAt(name, |Author|);
    }
  }

  /** The base name of a directory joined to a plain file name is that file
      name, whatever the directory. */
  lemma BaseNameOfJoin(dir: string, name: string)
    requires name != [] && name != "."
    requires forall i :: 0 <= i < |name| ==> name[i] != '/'
    ensures BaseName(dir + ['/'] + name) == name
  {
    RunsJoin(dir, '/', name, IsSlash);
    RunsOfRun(name, IsSlash);
    var components := Runs(dir, IsSlash) + [name];
    assert components[|components| - 1] == name;
  }

  /** Corpus file names: the label token decides, case-sensitively and only
      when it is the whole segment before the first '.'. */
  lemma ExamplePositiveLabel(dir: string)
    ensures IsWrittenByShakespeare(dir + "/shakespeare.0350.txt")
  {
    var name := "shakespeare.0350.txt";
    assert dir + "/shakespeare.0350.txt" == dir + ['/'] + name;
    BaseNameOfJoin(dir, name);
    assert name[..11] == Author && name[11] == '.';
    LabelIsAuthorPrefix(dir + ['/'] + name);
  }

  lemma ExampleCapitalisedLabel(dir: string)
    ensures !IsWrittenByShakespeare(dir + "/Shakespeare.0350.txt")
  {
    var name := "Shakespeare.0350.txt";
    assert dir + "/Shakespeare.0350.txt" == dir + ['/'] + name;
    BaseNameOfJoin(dir, name);
    assert name[..11][0] != Author[0];
    LabelIsAuthorPrefix(dir + ['/'] + name);
  }

  lemma ExampleLongerTokenLabel(dir: string)
    ensures !IsWrittenByShakespeare(dir + "/shakespeares.0001.txt")
  {
    var name := "shakespeares.0001.txt";
    assert dir + "/shakespeares.0001.txt" == dir + ['/'] + name;
    BaseNameOfJoin(dir, name);
    assert name[11] != '.';
    LabelIsAuthorPrefix(dir + ['/'] + name);
  }
}
