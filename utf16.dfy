/** UTF-16 as section 2.1 of RFC 2781 defines it: the conversion the host applies
    (`utf16.Encode`) before writing a name into guest memory, and its inverse. */
module Utf16 {
  import opened Wire

  const HighSurrogateStart: int := 0xD800
  const LowSurrogateStart: int := 0xDC00
  const SurrogateEnd: int := 0xE000
  const SupplementaryStart: int := 0x1_0000
  const ReplacementChar: char := '\U{FFFD}'

  predicate IsHighSurrogate(u: uint16) { HighSurrogateStart <= u < LowSurrogateStart }
  predicate IsLowSurrogate(u: uint16) { LowSurrogateStart <= u < SurrogateEnd }

  /** The code units of one character: itself when it lies in the Basic
      Multilingual Plane, otherwise a high surrogate carrying the top ten bits
      of `c - 0x10000` followed by a low surrogate carrying the bottom ten. */
  function EncodeChar(c: char): (units: seq<uint16>)
    ensures c as int < SupplementaryStart ==> units == [c as int]
    ensures SupplementaryStart <= c as int ==>
              |units| == 2 && IsHighSurrogate(units[0]) && IsLowSurrogate(units[1])
  {
    var v := c as int;
    if v < SupplementaryStart then [v]
    else
      var r := v - SupplementaryStart;
      [HighSurrogateStart + r / 0x400, LowSurrogateStart + r % 0x400]
  }

  /** The UTF-16 encoding of a text (a sequence of Unicode scalar values). Each
      character takes one or two units. */
  function Encode(s: string): (r: seq<uint16>)
    ensures |s| <= |r| <= 2 * |s|
  {
    if s == [] then [] else EncodeChar(s[0]) + Encode(s[1..])
  }

  /** The character a surrogate pair stands for. */
  function Combine(hi: uint16, lo: uint16): char
    requires IsHighSurrogate(hi) && IsLowSurrogate(lo)
  {
    (SupplementaryStart + (hi - HighSurrogateStart) * 0x400 + (lo - LowSurrogateStart)) as char
  }

  /** UTF-16 decoding: a surrogate pair becomes one character, a lone
      surrogate becomes U+FFFD, any other unit is its own character. */
  function Decode(units: seq<uint16>): string {
    if units == [] then []
    else if IsHighSurrogate(units[0]) && |units| >= 2 && IsLowSurrogate(units[1]) then
      [Combine(units[0], units[1])] + Decode(units[2..])
    else if HighSurrogateStart <= units[0] < SurrogateEnd then
      [ReplacementChar] + Decode(units[1..])
    else
      [units[0] as char] + Decode(units[1..])
  }

  /** Decoding undoes the encoding of one character in front of any rest. */
  lemma DecodeEncodeChar(c: char, rest: seq<uint16>)
    ensures Decode(EncodeChar(c) + rest) == [c] + Decode(rest)
  {
    var units := EncodeChar(c) + rest;
    if c as int < SupplementaryStart {
      assert units[1..] == rest;
    } else {
      var r := c as int - SupplementaryStart;
      assert r / 0x400 * 0x400 + r % 0x400 == r;
      assert Combine(units[0], units[1]) == c;
      assert units[2..] == rest;
    }
  }

  /** Round trip: decoding the encoding of any text gives the text back. */
  lemma {:induction false} DecodeEncode(s: string)
    ensures Decode(Encode(s)) == s
  {
    if s != [] {
      DecodeEncodeChar(s[0], Encode(s[1..]));
      DecodeEncode(s[1..]);
    }
  }

  /** Encoding distributes over concatenation. */
  lemma {:induction false} EncodeAppend(a: string, b: string)
    ensures Encode(a + b) == Encode(a) + Encode(b)
  {
    if a != [] {
      assert (a + b)[1..] == a[1..] + b;
      EncodeAppend(a[1..], b);
    } else {
      assert a + b == b;
    }
  }

  /** Text in the Basic Multilingual Plane needs no surrogates: it encodes to one
      unit per character, the unit being the character's code point. */
  lemma {:induction false} EncodeBmp(s: string)
    requires forall k :: 0 <= k < |s| ==> s[k] as int < SupplementaryStart
    ensures |Encode(s)| == |s|
    ensures forall k :: 0 <= k < |s| ==> Encode(s)[k] == s[k] as int
  {
    if s != [] {
      EncodeBmp(s[1..]);
    }
  }

  /** Text in the Basic Multilingual Plane encodes to exactly its code points. */
  lemma EncodeCodePoints(s: string, units: seq<uint16>)
    requires |units| == |s|
    requires forall k :: 0 <= k < |s| ==> units[k] == s[k] as int
    ensures units == Encode(s)
  {
    EncodeBmp(s);
  }
}
