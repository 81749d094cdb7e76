/**
  UTF-8 as Python's `str.encode('utf-8')` and strict `bytes.decode('utf-8')`
  apply it (RFC 3629): the decoder refuses overlong forms, surrogate code
  points, values above U+10FFFF, stray continuation bytes and truncated
  sequences.
 */
module Utf8 {
  import opened Errors
  import opened Codec

  predicate IsAscii(s: string) {
    forall i :: 0 <= i < |s| ==> s[i] as int < 0x80
  }

  predicate IsContinuation(x: byte) {
    0x80 <= x < 0xC0
  }

  /** The bytes of one scalar value, 6 payload bits per continuation byte. */
  function EncodeChar(c: char): (r: bytes)
    ensures 1 <= |r| <= 4
    ensures |r| == 1 <==> c as int < 0x80
  {
    var n := c as int;
    var q1 := n / 64;
    var q2 := q1 / 64;
    var q3 := q2 / 64;
    if n < 0x80 then [n]
    else if n < 0x800 then [0xC0 + q1, 0x80 + n % 64]
    else if n < 0x1_0000 then [0xE0 + q2, 0x80 + q1 % 64, 0x80 + n % 64]
    else [0xF0 + q3, 0x80 + q2 % 64, 0x80 + q1 % 64, 0x80 + n % 64]
  }

  /** `str.encode('utf-8')`. */
  function Encode(s: string): (r: bytes)
    ensures |r| >= |s|
  {
    if |s| == 0 then [] else EncodeChar(s[0]) + Encode(s[1..])
  }

  /** The first scalar value of a non-empty byte string and the number of
      bytes it occupies, or None when the string does not start with a
      well-formed UTF-8 sequence. */
  function DecodeFirst(b: bytes): (r: Option<(char, nat)>)
    requires |b| > 0
    ensures r.Some? ==> 1 <= r.value.1 <= |b|
  {
    var b0, b1, b2, b3 := b[0] as int, Get(b, 1), Get(b, 2), Get(b, 3);
    if b0 < 0x80 then Some((b0 as char, 1))
    else if 0xC2 <= b0 < 0xE0 then
      if |b| < 2 || !IsContinuation(b[1]) then None
      else Some((((b0 - 0xC0) * 64 + (b1 - 0x80)) as char, 2))
    else if 0xE0 <= b0 < 0xF0 then
      if |b| < 3 || !IsContinuation(b[1]) || !IsContinuation(b[2]) then None
      else
        var cp := ((b0 - 0xE0) * 64 + (b1 - 0x80)) * 64 + (b2 - 0x80);
        if cp < 0x800 || 0xD800 <= cp < 0xE000 then None
        else Some((cp as char, 3))
    else if 0xF0 <= b0 < 0xF5 then
      if |b| < 4 || !IsContinuation(b[1]) || !IsContinuation(b[2]) || !IsContinuation(b[3]) then None
      else
        var cp := (((b0 - 0xF0) * 64 + (b1 - 0x80)) * 64 + (b2 - 0x80)) * 64 + (b3 - 0x80);
        if cp < 0x1_0000 || cp >= 0x11_0000 then None
        else Some((cp as char, 4))
    else None
  }

  /** The byte at position i as an integer, 0 past the end. */
  function Get(b: bytes, i: nat): int {
    if i < |b| then b[i] else 0
  }

  /** Strict `bytes.decode('utf-8')`; None stands for UnicodeDecodeError. */
  function Decode(b: bytes): Option<string>
    decreases |b|
  {
    if |b| == 0 then Some([])
    else
      var first :- DecodeFirst(b);
      var rest :- Decode(b[first.1..]);
      Some([first.0] + rest)
  }

  /** The decode as the Python code sees it: a failure is an exception. */
  function DecodeOrRaise(b: bytes): (r: Result<string>)
    ensures r.Err? ==> r.error == UnicodeDecodeError
  {
    match Decode(b)
    case None => Err(UnicodeDecodeError)
    case Some(s) => Ok(s)
  }

  // ---------------------------------------------------------------------
  // Lemmas
  // ---------------------------------------------------------------------

  lemma DecodeFirstOfEncodeChar(c: char, rest: bytes)
    ensures DecodeFirst(EncodeChar(c) + rest) == Some((c, |EncodeChar(c)|))
  {
    var n := c as int;
    var b := EncodeChar(c) + rest;
    if n < 0x80 {
    } else if n < 0x800 {
      assert (b[0] as int - 0xC0) * 64 + (b[1] as int - 0x80) == n;
    } else if n < 0x1_0000 {
      assert ((b[0] as int - 0xE0) * 64 + (b[1] as int - 0x80)) * 64 + (b[2] as int - 0x80) == n;
    } else {
      assert (((b[0] as int - 0xF0) * 64 + (b[1] as int - 0x80)) * 64 + (b[2] as int - 0x80)) * 64 + (b[3] as int - 0x80) == n;
    }
  }

  /** Decoding undoes encoding, for every string. */
  lemma {:induction false} DecodeEncode(s: string)
    ensures Decode(Encode(s)) == Some(s)
  {
    if |s| > 0 {
      var e := EncodeChar(s[0]);
      DecodeFirstOfEncodeChar(s[0], Encode(s[1..]));
      assert (e + Encode(s[1..]))[|e|..] == Encode(s[1..]);
      DecodeEncode(s[1..]);
      assert [s[0]] + s[1..] == s;
    }
  }

  lemma DecodeOrRaiseEncode(s: string)
    ensures DecodeOrRaise(Encode(s)) == Ok(s)
  {
    DecodeEncode(s);
  }

  /** Encoding is injective: distinct strings have distinct encodings. */
  lemma EncodeInjective(s: string, t: string)
    requires Encode(s) == Encode(t)
    ensures s == t
  {
    DecodeEncode(s);
    DecodeEncode(t);
  }

  lemma {:induction false} EncodeAppend(s: string, t: string)
    ensures Encode(s + t) == Encode(s) + Encode(t)
  {
    if |s| > 0 {
      assert (s + t)[1..] == s[1..] + t;
      EncodeAppend(s[1..], t);
    } else {
      assert s + t == t;
    }
  }

  /** The byte length equals the character count exactly for ASCII text,
      and an ASCII string encodes to its own code points. */
  lemma {:induction false} EncodeAscii(s: string)
    ensures |Encode(s)| == |s| <==> IsAscii(s)
    ensures IsAscii(s) ==> forall i :: 0 <= i < |s| ==> Encode(s)[i] == s[i] as int
  {
    if |s| > 0 {
      EncodeAscii(s[1..]);
      assert IsAscii(s) <==> s[0] as int < 0x80 && IsAscii(s[1..]) by {
        assert forall i :: 1 <= i < |s| ==> s[1..][i - 1] == s[i];
      }
    }
  }

  /** A NUL character encodes as a zero byte, so k NULs are k zero bytes. */
  lemma {:induction false} EncodeNuls(k: nat)
    ensures Encode(seq(k, _ => '\0')) == Zeros(k)
  {
    if k > 0 {
      var s := seq(k, _ => '\0');
      assert s[1..] == seq(k - 1, _ => '\0');
      EncodeNuls(k - 1);
      assert Zeros(k) == [0] + Zeros(k - 1);
    }
  }

  /** `b'\xc3'` (the first byte of "é") alone is not well-formed. */
  lemma LoneLeadByteRejected()
    ensures Decode([0xC3]) == None
  {
  }
}
