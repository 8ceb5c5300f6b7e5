/**
 * UTF-8, the byte form Rust's `String::as_bytes` exposes: the answer record
 * writes its name with it. A `char` is a Unicode scalar value. The encoding
 * is computed on byte values as integers (`CodeUnits`) and then stored as
 * bytes one for one.
 */
module Utf8 {

  /** A byte value in 0..255 stored as a byte; only zero becomes the zero byte. */
  function ToByte(v: int): (b: bv8)
    requires 0 <= v < 256
    ensures b == 0 <==> v == 0
  {
    v as bv8
  }

  /**
   * The values of the one to four bytes UTF-8 uses for the scalar value `cp`,
   * always the shortest form: the length is fixed by the range of `cp` and the
   * lead byte announces that length.
   */
  function CodeUnits(cp: int): (u: seq<int>)
    requires 0 <= cp < 0x11_0000
    ensures 1 <= |u| <= 4
    ensures |u| == 1 <==> cp < 0x80
    ensures |u| == 1 ==> u[0] == cp
    ensures |u| > 1 ==> 0xC0 <= u[0] < 0xF8 && forall i :: 1 <= i < |u| ==> 0x80 <= u[i] < 0xC0
    ensures |u| == (if cp < 0x80 then 1 else if cp < 0x800 then 2 else if cp < 0x1_0000 then 3 else 4)
    ensures |u| == 2 ==> u[0] < 0xE0
    ensures |u| == 3 ==> 0xE0 <= u[0] < 0xF0
    ensures |u| == 4 ==> 0xF0 <= u[0]
  {
    if cp < 0x80 then [cp]
    else if cp < 0x800 then [0xC0 + cp / 64, 0x80 + cp % 64]
    else if cp < 0x1_0000 then [0xE0 + cp / 64 / 64, 0x80 + cp / 64 % 64, 0x80 + cp % 64]
    else [0xF0 + cp / 64 / 64 / 64, 0x80 + cp / 64 / 64 % 64, 0x80 + cp / 64 % 64, 0x80 + cp % 64]
  }

  /** The UTF-8 bytes of one character; only NUL has a zero byte in its encoding. */
  function EncodeChar(c: char): (r: seq<bv8>)
    ensures 1 <= |r| <= 4
    ensures |r| == 1 <==> (c as int) < 0x80
    ensures forall i :: 0 <= i < |r| ==> (r[i] == 0 <==> c == '\0')
  {
    var u := CodeUnits(c as int);
    seq(|u|, i requires 0 <= i < |u| => ToByte(u[i]))
  }

  /** `str::as_bytes`: the UTF-8 bytes of every character, in order. */
  function Encode(s: string): (r: seq<bv8>)
    ensures |r| >= |s|
    ensures |r| == |s| <==> IsAscii(s)
  {
    if s == [] then []
    else
      AsciiCons(s);
      EncodeChar(s[0]) + Encode(s[1..])
  }

  /** The bytes of a string hold a zero byte exactly when the string holds a NUL character. */
  lemma {:induction false} EncodeZeroIffNul(s: string)
    ensures 0 in Encode(s) <==> '\0' in s
  {
    if s != [] {
      EncodeZeroIffNul(s[1..]);
      var h, t := EncodeChar(s[0]), Encode(s[1..]);
      assert Encode(s) == h + t;
      assert '\0' in s <==> s[0] == '\0' || '\0' in s[1..];
      if s[0] == '\0' {
        assert h[0] == 0;
        assert (h + t)[0] == 0;
      } else {
        assert 0 !in h;
      }
    }
  }

  /** The scalar value a well-formed sequence of one to four byte values stands for. */
  function DecodeUnits(u: seq<int>): int
    requires 1 <= |u| <= 4
  {
    if |u| == 1 then u[0]
    else if |u| == 2 then (u[0] - 0xC0) * 64 + (u[1] - 0x80)
    else if |u| == 3 then (u[0] - 0xE0) * 4096 + (u[1] - 0x80) * 64 + (u[2] - 0x80)
    else (u[0] - 0xF0) * 262144 + (u[1] - 0x80) * 4096 + (u[2] - 0x80) * 64 + (u[3] - 0x80)
  }

  /** Decoding the byte values of any scalar value's encoding gives that scalar value back. */
  lemma CodeUnitsDecode(cp: int)
    requires 0 <= cp < 0x11_0000
    ensures DecodeUnits(CodeUnits(cp)) == cp
  {
    if cp >= 0x1_0000 {
      FourUnits(cp);
    } else if cp >= 0x800 {
      ThreeUnits(cp);
    }
  }

  lemma ThreeUnits(cp: int)
    requires 0x800 <= cp < 0x1_0000
    ensures DecodeUnits(CodeUnits(cp)) == cp
  {
    var a := cp / 64;
    assert cp == a * 64 + cp % 64;
    assert a == a / 64 * 64 + a % 64;
  }

  lemma FourUnits(cp: int)
    requires 0x1_0000 <= cp < 0x11_0000
    ensures DecodeUnits(CodeUnits(cp)) == cp
  {
    var a := cp / 64;
    var b := a / 64;
    assert cp == a * 64 + cp % 64;
    assert a == b * 64 + a % 64;
    assert b == b / 64 * 64 + b % 64;
  }

  /** Encoding distributes over concatenation. */
  lemma {:induction false} EncodeAppend(s: string, t: string)
    ensures Encode(s + t) == Encode(s) + Encode(t)
  {
    if s == [] {
      assert s + t == t;
    } else {
      assert (s + t)[1..] == s[1..] + t;
      EncodeAppend(s[1..], t);
    }
  }

  predicate IsAscii(s: string)
  {
    forall i :: 0 <= i < |s| ==> (s[i] as int) < 0x80
  }

  lemma AsciiCons(s: string)
    requires s != []
    ensures IsAscii(s) <==> (s[0] as int) < 0x80 && IsAscii(s[1..])
  {
    if (s[0] as int) < 0x80 && IsAscii(s[1..]) {
      forall i | 1 <= i < |s|
        ensures (s[i] as int) < 0x80
      {
        assert s[i] == s[1..][i - 1];
      }
    }
  }

  /** An ASCII string has one byte per character, the character's own code. */
  lemma {:induction false} AsciiEncoding(s: string)
    requires IsAscii(s)
    ensures |Encode(s)| == |s|
    ensures forall i :: 0 <= i < |s| ==> Encode(s)[i] == ToByte(s[i] as int)
  {
    if s != [] {
      var t := s[1..];
      AsciiEncoding(t);
      var e := Encode(s);
      assert e == [ToByte(s[0] as int)] + Encode(t);
      forall i | 1 <= i < |s|
        ensures e[i] == ToByte(s[i] as int)
      {
        assert e[i] == Encode(t)[i - 1] && s[i] == t[i - 1];
      }
    }
  }
}
