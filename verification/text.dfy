/**
 * The string operations the command-line parser relies on: Rust's `trim`
 * (which strips characters with the Unicode White_Space property from both
 * ends), `starts_with`, and `to_lowercase` restricted to ASCII letters.
 */
module Text {

  /** The code points with the Unicode White_Space property. */
  const WHITESPACE: set<int> := {
    0x09, 0x0A, 0x0B, 0x0C, 0x0D, 0x20, 0x85, 0xA0, 0x1680,
    0x2000, 0x2001, 0x2002, 0x2003, 0x2004, 0x2005, 0x2006, 0x2007, 0x2008, 0x2009, 0x200A,
    0x2028, 0x2029, 0x202F, 0x205F, 0x3000 }

  /** Rust's `char::is_whitespace`. */
  predicate IsWhitespace(c: char)
  {
    c as int in WHITESPACE
  }

  /** Neither end of `s` is whitespace. */
  predicate IsTrimmed(s: string)
  {
    s == [] || (!IsWhitespace(s[0]) && !IsWhitespace(s[|s| - 1]))
  }

  /** `str::trim_start`: the suffix left after dropping leading whitespace. */
  function TrimStart(s: string): (r: string)
    ensures |r| <= |s| && r == s[|s| - |r|..]
    ensures forall k :: 0 <= k < |s| - |r| ==> IsWhitespace(s[k])
    ensures r == [] || !IsWhitespace(r[0])
  {
    if s != [] && IsWhitespace(s[0]) then TrimStart(s[1..]) else s
  }

  /** `str::trim_end`: the prefix left after dropping trailing whitespace. */
  function TrimEnd(s: string): (r: string)
    ensures |r| <= |s| && r == s[..|r|]
    ensures forall k :: |r| <= k < |s| ==> IsWhitespace(s[k])
    ensures r == [] || !IsWhitespace(r[|r| - 1])
  {
    if s != [] && IsWhitespace(s[|s| - 1]) then TrimEnd(s[..|s| - 1]) else s
  }

  /** `str::trim`: whitespace dropped from both ends. */
  function Trim(s: string): (r: string)
    ensures IsTrimmed(r)
    ensures |r| <= |s|
  {
    var t := TrimStart(s);
    var r := TrimEnd(t);
    assert r == [] || r[0] == t[0];
    r
  }

  /** What trimming keeps is one contiguous piece of `s`, and all it drops is whitespace. */
  lemma TrimDropsOnlyWhitespace(s: string)
    ensures var r, i := Trim(s), |s| - |TrimStart(s)|;
      && r == s[i..i + |r|]
      && (forall k :: 0 <= k < i ==> IsWhitespace(s[k]))
      && (forall k :: i + |r| <= k < |s| ==> IsWhitespace(s[k]))
  {
    var t := TrimStart(s);
    var i := |s| - |t|;
    assert Trim(s) == TrimEnd(t);
    TrimWindow(s, t, i);
    TrailingWhitespace(s, t, TrimEnd(t), i);
  }

  lemma TrimWindow(s: string, t: string, i: nat)
    requires i <= |s| && t == s[i..]
    ensures |TrimEnd(t)| <= |s| - i && TrimEnd(t) == s[i..i + |TrimEnd(t)|]
  {
    var r := TrimEnd(t);
    assert r == t[..|r|];
    assert s[i..i + |r|] == s[i..][..|r|];
  }

  lemma TrailingWhitespace(s: string, t: string, r: string, i: nat)
    requires i <= |s| && t == s[i..] && r == TrimEnd(t)
    ensures forall k :: i + |r| <= k < |s| ==> IsWhitespace(s[k])
  {
    forall k | i + |r| <= k < |s|
      ensures IsWhitespace(s[k])
    {
      assert s[k] == t[k - i];
    }
  }

  /** Trimming a string without whitespace at its ends leaves it unchanged; so trimming is idempotent. */
  lemma TrimTrimmed(s: string)
    requires IsTrimmed(s)
    ensures Trim(s) == s
  {
  }

  lemma TrimIdempotent(s: string)
    ensures Trim(Trim(s)) == Trim(s)
  {
    TrimTrimmed(Trim(s));
  }

  /** `str::starts_with`. */
  predicate StartsWith(s: string, prefix: string): (b: bool)
    ensures b <==> |prefix| <= |s| && forall i :: 0 <= i < |prefix| ==> s[i] == prefix[i]
  {
    |prefix| <= |s| && s[..|prefix|] == prefix
  }

  /** One character lower-cased, for ASCII letters only. */
  function LowerAscii(c: char): (l: char)
    ensures 'A' <= c <= 'Z' ==> 'a' <= l <= 'z' && l as int == c as int + 32
    ensures !('A' <= c <= 'Z') ==> l == c
  {
    if 'A' <= c <= 'Z' then (c as int + 32) as char else c
  }

  /** `str::to_lowercase`, restricted to ASCII letters: same length, every other character kept. */
  function ToLowerAscii(s: string): (r: string)
    ensures |r| == |s|
    ensures forall i :: 0 <= i < |s| ==> r[i] == LowerAscii(s[i])
  {
    seq(|s|, i requires 0 <= i < |s| => LowerAscii(s[i]))
  }

  /** Lower-casing twice is lower-casing once. */
  lemma ToLowerIdempotent(s: string)
    ensures ToLowerAscii(ToLowerAscii(s)) == ToLowerAscii(s)
  {
  }
}
