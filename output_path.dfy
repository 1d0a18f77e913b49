/** The output file name: the input path up to its last '.', followed by
    "_output.avi". */
module OutputPath {

  /** Java's StringIndexOutOfBoundsException, raised by `substring`. */
  datatype Error = StringIndexOutOfBounds

  datatype Result<T> = Ok(value: T) | Err(error: Error)

  const Suffix: string := "_output.avi"

  /** String.lastIndexOf(c): the index of the last occurrence of c, or -1. */
  function LastIndexOf(s: string, c: char): (r: int)
    ensures -1 <= r < |s|
    ensures r == -1 <==> c !in s
    ensures 0 <= r ==> s[r] == c && c !in s[r + 1..]
  {
    if |s| == 0 then -1
    else if s[|s| - 1] == c then |s| - 1
    else
      assert s == s[..|s| - 1] + [s[|s| - 1]];
      LastIndexOf(s[..|s| - 1], c)
  }

  /** String.substring(begin, end): fails unless 0 <= begin <= end <= length. */
  function Substring(s: string, begin: int, end: int): (r: Result<string>)
    ensures r.Err? <==> begin < 0 || end > |s| || begin > end
    ensures r.Ok? ==> r.value == s[begin..end]
  {
    if 0 <= begin <= end <= |s| then Ok(s[begin..end]) else Err(StringIndexOutOfBounds)
  }

  /** The output path: the input up to its last '.', followed by Suffix;
      it fails when the cut falls outside the string. */
  function OutputPathFor(input: string): (r: Result<string>)
    ensures r.Err? ==> r.error == StringIndexOutOfBounds
    ensures r.Ok? ==> |r.value| >= |Suffix| && r.value[|r.value| - |Suffix|..] == Suffix
    ensures r.Ok? ==> r.value[..|r.value| - |Suffix|] <= input
  {
    match Substring(input, 0, LastIndexOf(input, '.'))
    case Ok(stem) => Ok(stem + Suffix)
    case Err(e) => Err(e)
  }

  /** The derivation fails exactly when the input has no '.', because
      lastIndexOf then returns -1 and substring(0, -1) is out of bounds. */
  lemma FailsIffNoDot(input: string)
    ensures OutputPathFor(input).Err? <==> '.' !in input
    ensures OutputPathFor(input).Err? ==> OutputPathFor(input).error == StringIndexOutOfBounds
  {
  }

  /** A derived path is the input cut just before its last '.', with the
      suffix appended. */
  lemma ResultShape(input: string)
    requires OutputPathFor(input).Ok?
    ensures exists k :: (0 <= k < |input| && input[k] == '.' && '.' !in input[k + 1..] &&
                         OutputPathFor(input).value == input[..k] + Suffix)
  {
    var k := LastIndexOf(input, '.');
    assert 0 <= k < |input| && input[k] == '.' && '.' !in input[k + 1..];
  }

  /** For "stem.ext" with no '.' in ext, the output is "stem_output.avi";
      dots inside the stem are kept. */
  lemma ReplacesLastExtension(stem: string, ext: string)
    requires '.' !in ext
    ensures OutputPathFor(stem + "." + ext) == Ok(stem + Suffix)
  {
    var s := stem + "." + ext;
    var k := LastIndexOf(s, '.');
    assert s[|stem|] == '.';
    assert k == |stem|;
    assert s[..k] == stem;
  }
}
