/** TextKit: ASCII character classes and the scanners that search a string (or
    a StringBuilder, which is modelled the same way) from a start index. */
module TextKit {
  import opened Wrappers

  function IsDigit(c: char): (r: bool)
    ensures r <==> c in "0123456789"
  {
    '0' <= c <= '9'
  }

  function IsEnglishLower(c: char): (r: bool)
    ensures r <==> c in "abcdefghijklmnopqrstuvwxyz"
  {
    'a' <= c <= 'z'
  }

  function IsEnglishUpper(c: char): (r: bool)
    ensures r <==> c in "ABCDEFGHIJKLMNOPQRSTUVWXYZ"
  {
    'A' <= c <= 'Z'
  }

  function IsEnglishLetter(c: char): (r: bool)
    ensures r <==> IsEnglishLower(c) || IsEnglishUpper(c)
  {
    ('a' <= c <= 'z') || ('A' <= c <= 'Z')
  }

  /** `r` is the least index at or after `k` whose character satisfies `p`,
      or -1 when no character from `k` on does. */
  ghost predicate LeastMatch(s: string, k: int, p: char -> bool, r: int)
    requires 0 <= k
  {
    if r == -1 then forall i :: k <= i < |s| ==> !p(s[i])
    else k <= r < |s| && p(s[r]) && forall i :: k <= i < r ==> !p(s[i])
  }

  /** `r` is the greatest index at or before `k` whose character satisfies `p`,
      or -1 when no character up to `k` does. */
  ghost predicate GreatestMatch(s: string, k: int, p: char -> bool, r: int)
    requires k < |s|
  {
    if r == -1 then forall i :: 0 <= i <= k ==> !p(s[i])
    else 0 <= r <= k && p(s[r]) && forall i :: r < i <= k ==> !p(s[i])
  }

  /** The forward scan shared by IndexOfWhiteSpace, IndexOfNonWhiteSpace and
      IndexOf; a negative start fails on the first character access. */
  method ScanForward(s: string, startIndex: int, p: char -> bool) returns (r: Result<int>)
    ensures startIndex < 0 ==> r.Err? && r.error == ArgumentOutOfRange
    ensures 0 <= startIndex ==> r.Ok? && LeastMatch(s, startIndex, p, r.value)
  {
    if startIndex < 0 {
      return Err(ArgumentOutOfRange);
    }
    var i := startIndex;
    while i < |s|
      invariant startIndex <= i
      invariant forall j :: startIndex <= j < i && j < |s| ==> !p(s[j])
      decreases |s| - i
    {
      if p(s[i]) {
        return Ok(i);
      }
      i := i + 1;
    }
    return Ok(-1);
  }

  /** The backward scan shared by the two LastIndexOf scanners: a negative start
      gives -1 at once, a start past the end fails on the first access. */
  method ScanBackward(s: string, startIndex: int, p: char -> bool) returns (r: Result<int>)
    ensures startIndex >= |s| ==> r.Err? && r.error == ArgumentOutOfRange
    ensures startIndex < |s| ==> r.Ok? && GreatestMatch(s, startIndex, p, r.value)
  {
    if startIndex >= |s| {
      return Err(ArgumentOutOfRange);
    }
    var i := if startIndex < 0 then -1 else startIndex;
    while i >= 0
      invariant -1 <= i && (i <= startIndex || i == -1)
      invariant forall j :: i < j <= startIndex ==> !p(s[j])
      decreases i
    {
      if p(s[i]) {
        return Ok(i);
      }
      i := i - 1;
    }
    return Ok(-1);
  }

  /** The first whitespace character at or after `startIndex`; `isWhiteSpace`
      stands for char.IsWhiteSpace. */
  method IndexOfWhiteSpace(s: string, startIndex: int, isWhiteSpace: char -> bool) returns (r: Result<int>)
    ensures startIndex < 0 ==> r == Err(ArgumentOutOfRange)
    ensures 0 <= startIndex ==> r.Ok? && LeastMatch(s, startIndex, isWhiteSpace, r.value)
  {
    r := ScanForward(s, startIndex, isWhiteSpace);
  }

  method IndexOfNonWhiteSpace(s: string, startIndex: int, isWhiteSpace: char -> bool) returns (r: Result<int>)
    ensures startIndex < 0 ==> r == Err(ArgumentOutOfRange)
    ensures 0 <= startIndex ==> r.Ok? && LeastMatch(s, startIndex, c => !isWhiteSpace(c), r.value)
  {
    r := ScanForward(s, startIndex, c => !isWhiteSpace(c));
  }

  method LastIndexOfWhiteSpace(s: string, startIndex: int, isWhiteSpace: char -> bool) returns (r: Result<int>)
    ensures startIndex >= |s| ==> r == Err(ArgumentOutOfRange)
    ensures startIndex < |s| ==> r.Ok? && GreatestMatch(s, startIndex, isWhiteSpace, r.value)
  {
    r := ScanBackward(s, startIndex, isWhiteSpace);
  }

  method LastIndexOfNonWhiteSpace(s: string, startIndex: int, isWhiteSpace: char -> bool) returns (r: Result<int>)
    ensures startIndex >= |s| ==> r == Err(ArgumentOutOfRange)
    ensures startIndex < |s| ==> r.Ok? && GreatestMatch(s, startIndex, c => !isWhiteSpace(c), r.value)
  {
    r := ScanBackward(s, startIndex, c => !isWhiteSpace(c));
  }

  /** IndexOf(StringBuilder, char, int): the builder's indexer throws
      IndexOutOfRangeException for a negative start. */
  method IndexOf(builder: string, character: char, startIndex: int) returns (r: Result<int>)
    ensures startIndex < 0 ==> r == Err(IndexOutOfRange)
    ensures 0 <= startIndex ==> r.Ok? && LeastMatch(builder, startIndex, c => c == character, r.value)
  {
    var scan := ScanForward(builder, startIndex, c => c == character);
    r := if scan.Ok? then scan else Err(IndexOutOfRange);
  }
}
