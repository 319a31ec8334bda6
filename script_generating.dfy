/** The two string helpers of the script generator: turning an arbitrary name
    into a unique C# identifier, and keeping the last few levels of a path. */
module ScriptGenerating {
  import opened Wrappers
  import opened TextKit
  import ArrayExtension

  /** The character a lowercase ASCII letter becomes when shifted by 'A' - 'a'. */
  function Capitalized(c: char): (r: char)
    ensures IsEnglishLower(c) ==> IsEnglishUpper(r)
    ensures !IsEnglishLower(c) ==> r == c
  {
    if IsEnglishLower(c) then (c as int - 'a' as int + 'A' as int) as char else c
  }

  /** May `c` be kept at position 0 (`atStart`) or later of an identifier? */
  predicate Allowed(c: char, atStart: bool) {
    if atStart then c == '_' || IsEnglishLetter(c)
    else c == '_' || IsDigit(c) || IsEnglishLetter(c)
  }

  /** What the sanitising loop turns the rest `s` of the name into, given
      whether nothing has been kept yet and whether the next kept character is
      to be capitalised. */
  function Clean(s: string, atStart: bool, upper: bool): (r: string)
    ensures |r| <= |s|
    ensures atStart && upper ==> r == [] || (Allowed(r[0], true) && !IsEnglishLower(r[0]))
  {
    if s == [] then []
    else if !Allowed(s[0], atStart) then Clean(s[1..], atStart, true)
    else if upper then [Capitalized(s[0])] + Clean(s[1..], false, false)
    else [s[0]] + Clean(s[1..], false, false)
  }

  /** The sanitised form of a whole name. */
  function Sanitized(name: string): string {
    Clean(name, true, true)
  }

  /** A C# identifier of the restricted alphabet: '_', ASCII letters and digits,
      not starting with a digit. */
  predicate IsIdentifier(s: string) {
    (forall i :: 0 <= i < |s| ==> Allowed(s[i], i == 0))
  }

  /** The characters the loop keeps, before any capitalisation. */
  function Kept(s: string, atStart: bool): (r: string)
    ensures |r| <= |s|
  {
    if s == [] then []
    else if !Allowed(s[0], atStart) then Kept(s[1..], atStart)
    else [s[0]] + Kept(s[1..], false)
  }

  /** Every character of the result is allowed where it stands. */
  lemma {:induction false} CleanIsIdentifier(s: string, atStart: bool, upper: bool)
    ensures forall i :: 0 <= i < |Clean(s, atStart, upper)| ==>
      Allowed(Clean(s, atStart, upper)[i], atStart && i == 0)
  {
    if s != [] {
      CleanIsIdentifier(s[1..], atStart, true);
      CleanIsIdentifier(s[1..], false, false);
    }
  }

  lemma SanitizedIsIdentifier(name: string)
    ensures IsIdentifier(Sanitized(name))
    ensures Sanitized(name) == [] || !IsEnglishLower(Sanitized(name)[0])
  {
    CleanIsIdentifier(name, true, true);
  }

  /** The result is the kept characters in their order, each either unchanged
      or, when it is a lowercase letter, capitalised. */
  lemma {:induction false} CleanIsKeptUpToCase(s: string, atStart: bool, upper: bool)
    ensures |Clean(s, atStart, upper)| == |Kept(s, atStart)|
    ensures forall i :: 0 <= i < |Kept(s, atStart)| ==>
      Clean(s, atStart, upper)[i] in {Kept(s, atStart)[i], Capitalized(Kept(s, atStart)[i])}
  {
    if s != [] {
      if !Allowed(s[0], atStart) {
        CleanIsKeptUpToCase(s[1..], atStart, true);
      } else {
        CleanIsKeptUpToCase(s[1..], false, false);
        var c, k := Clean(s[1..], false, false), Kept(s[1..], false);
        var y := if upper then Capitalized(s[0]) else s[0];
        assert Clean(s, atStart, upper) == [y] + c;
        assert Kept(s, atStart) == [s[0]] + k;
        ConsUpToCase(c, k, s[0], y);
      }
    }
  }

  /** One more kept character, unchanged or capitalised, in front of a
      result that is its kept characters up to case. */
  lemma ConsUpToCase(c: string, k: string, x: char, y: char)
    requires y in {x, Capitalized(x)} && |c| == |k|
    requires forall i :: 0 <= i < |k| ==> c[i] in {k[i], Capitalized(k[i])}
    ensures forall i :: 0 <= i < |[x] + k| ==> ([y] + c)[i] in {([x] + k)[i], Capitalized(([x] + k)[i])}
  {
    forall i | 0 <= i < |[x] + k|
      ensures ([y] + c)[i] in {([x] + k)[i], Capitalized(([x] + k)[i])}
    {
      if i > 0 {
        assert ([y] + c)[i] == c[i - 1] && ([x] + k)[i] == k[i - 1];
      }
    }
  }

  /** A name that is already an identifier loses nothing: only its first
      character is capitalised. */
  lemma {:induction false} CleanOfIdentifier(s: string, atStart: bool, upper: bool)
    requires s != [] && forall i :: 0 <= i < |s| ==> Allowed(s[i], atStart && i == 0)
    ensures Clean(s, atStart, upper) == [if upper then Capitalized(s[0]) else s[0]] + s[1..]
  {
    var rest := s[1..];
    if rest != [] {
      assert forall i :: 0 <= i < |rest| ==> Allowed(rest[i], false && i == 0) by {
        forall i | 0 <= i < |rest| ensures Allowed(rest[i], false) {
          assert rest[i] == s[i + 1];
        }
      }
      CleanOfIdentifier(rest, false, false);
      assert [rest[0]] + rest[1..] == rest;
    }
  }

  /** Sanitising is idempotent. */
  lemma SanitizedIdempotent(name: string)
    ensures Sanitized(Sanitized(name)) == Sanitized(name)
  {
    var s := Sanitized(name);
    SanitizedIsIdentifier(name);
    if s != [] {
      CleanOfIdentifier(s, true, true);
      assert [s[0]] + s[1..] == s;
    }
  }

  /** GetVariableName(originalName, fallbackName, list): sanitise the name in
      place, fall back when it comes out empty or is already listed, append the
      chosen name to the list and return it. */
  method GetVariableName(originalName: string, fallbackName: string, list: ArrayExtension.List<string>)
    returns (name: string)
    modifies list
    ensures name == (if Sanitized(originalName) == [] || Sanitized(originalName) in old(list.items)
                     then fallbackName else Sanitized(originalName))
    ensures list.items == old(list.items) + [name]
  {
    var chars := SanitizeName(originalName);
    if |chars| == 0 || chars in list.items {
      name := fallbackName;
    } else {
      name := chars;
    }
    list.items := list.items + [name];
  }

  /** The loop of GetVariableName: drop each character not allowed where it
      stands, and capitalise the first kept character and each one kept right
      after a dropped one. */
  method SanitizeName(originalName: string) returns (chars: string)
    ensures chars == Sanitized(originalName)
  {
    chars := originalName;
    var upper := true;
    var i := 0;
    while i < |chars|
      invariant 0 <= i <= |chars|
      invariant chars[..i] + Clean(chars[i..], i == 0, upper) == Sanitized(originalName)
      decreases |chars| - i
    {
      var c := chars[i];
      var invalid := !Allowed(c, i == 0);
      if invalid {
        DropStep(chars, i, i == 0, upper);
        chars := chars[..i] + chars[i + 1..];
        upper := true;
      } else {
        ghost var was := chars;
        ghost var d := if upper then Capitalized(c) else c;
        KeepStep(chars, i, i == 0, upper);
        if upper {
          chars := chars[i := Capitalized(c)];
          upper := false;
        }
        assert chars[..i + 1] == was[..i] + [d] && chars[i + 1..] == was[i + 1..];
        i := i + 1;
      }
    }
    assert chars[..i] == chars && chars[i..] == [];
  }

  /** A character not allowed where it stands is dropped, and the next kept
      one is capitalised. */
  lemma DropStep(chars: string, i: nat, atStart: bool, upper: bool)
    requires i < |chars| && !Allowed(chars[i], atStart)
    ensures var n := chars[..i] + chars[i + 1..];
      n[..i] + Clean(n[i..], atStart, true) == chars[..i] + Clean(chars[i..], atStart, upper)
  {
    var n := chars[..i] + chars[i + 1..];
    assert n[..i] == chars[..i] && n[i..] == chars[i + 1..] == chars[i..][1..];
  }

  /** A character allowed where it stands is kept, capitalised when `upper`. */
  lemma KeepStep(chars: string, i: nat, atStart: bool, upper: bool)
    requires i < |chars| && Allowed(chars[i], atStart)
    ensures chars[..i] + Clean(chars[i..], atStart, upper)
      == (chars[..i] + [if upper then Capitalized(chars[i]) else chars[i]]) + Clean(chars[i + 1..], false, false)
  {
    assert chars[i..][1..] == chars[i + 1..];
  }

  /** The number of '/' in a string. */
  function Slashes(s: string): (n: nat)
    ensures n <= |s|
  {
    if s == [] then 0 else (if s[0] == '/' then 1 else 0) + Slashes(s[1..])
  }

  function Max0(x: int): nat {
    if x < 0 then 0 else x
  }

  /** The path after removing the extension: everything before the last '.';
      a path with no '.' makes Substring(0, -1) throw. */
  function WithoutExtension(path: string, lastDot: int): (r: Result<string>)
    requires -1 <= lastDot < |path|
  {
    if lastDot < 0 then Err(ArgumentOutOfRange) else Ok(path[..lastDot])
  }

  /** `r` is the part of `p` after its (depth+1)-th '/' counted from the end,
      or all of `p` when it has no more than `depth` slashes. */
  predicate IsSubpath(p: string, depth: int, r: string) {
    && |r| <= |p| && r == p[|p| - |r|..]
    && (Slashes(p) <= Max0(depth) ==> r == p)
    && (Slashes(p) > Max0(depth) ==> |r| < |p| && p[|p| - |r| - 1] == '/' && Slashes(r) == Max0(depth))
  }

  /** GetSubpath(path, depth, removeExtension): drop the extension when asked,
      then keep the last depth+1 levels of the path (a negative depth counts as 0). */
  method GetSubpath(path: string, depth: int, removeExtension: bool) returns (r: Result<string>)
    ensures removeExtension ==> (r.Err? <==> '.' !in path)
    ensures !removeExtension ==> r.Ok?
    ensures r.Err? ==> r.error == ArgumentOutOfRange
    ensures r.Ok? ==> IsSubpath(if removeExtension then path[..LastDot(path)] else path, depth, r.value)
  {
    var p := path;
    if removeExtension {
      var dot := ScanBackward(path, |path| - 1, c => c == '.');
      LastDotIsLastMatch(path, dot.value);
      var cut := WithoutExtension(path, dot.value);
      if cut.Err? {
        return Err(cut.error);
      }
      p := cut.value;
    }
    var levels := TrailingLevels(p, depth);
    return Ok(levels);
  }

  /** The backward scan of GetSubpath over the (extension-free) path. */
  method TrailingLevels(p: string, depth: int) returns (r: string)
    ensures IsSubpath(p, depth, r)
  {
    var remaining := depth;
    var i := |p| - 1;
    while i >= 0
      invariant -1 <= i < |p|
      invariant Slashes(p[i + 1..]) <= Max0(depth)
      invariant remaining == depth - Slashes(p[i + 1..])
    {
      assert p[i..][1..] == p[i + 1..];
      if p[i] == '/' {
        if remaining <= 0 {
          SlashesOfSuffix(p, i + 1);
          return p[i + 1..];
        }
        remaining := remaining - 1;
      }
      i := i - 1;
    }
    assert p[0..] == p;
    return p;
  }

  /** A string has at least as many slashes as any of its suffixes, and more when
      a slash is dropped. */
  lemma {:induction false} SlashesOfSuffix(p: string, k: nat)
    requires 0 < k <= |p| && p[k - 1] == '/'
    ensures Slashes(p) > Slashes(p[k..])
  {
    if k == 1 {
      assert p[1..] == p[k..];
    } else {
      assert p[1..][k - 1..] == p[k..];
      SlashesOfSuffix(p[1..], k - 1);
    }
  }

  /** The index of the last '.' of a path, or -1. */
  function LastDot(path: string): (k: int)
    ensures -1 <= k < |path|
    ensures k >= 0 ==> path[k] == '.' && forall j :: k < j < |path| ==> path[j] != '.'
    ensures k == -1 <==> '.' !in path
  {
    if path == [] then -1
    else if path[|path| - 1] == '.' then |path| - 1
    else LastDot(path[..|path| - 1])
  }

  lemma LastDotIsLastMatch(path: string, k: int)
    requires k < |path|
    requires GreatestMatch(path, |path| - 1, c => c == '.', k)
    ensures k == LastDot(path)
  {
  }
}
