/**
  Integer/byte conversions that every fixed-width field of the on-disk
  format goes through: `hex_to_bytes`, `num_to_bytes`, `bytes_to_num` and
  `bytes_fixlen` of utils.py, together with the Python slicing and hex-string
  behaviour they rely on.
 */
module Codec {
  import opened Errors

  type byte = b: int | 0 <= b < 256
  type bytes = seq<byte>

  function Min(a: int, b: int): int {
    if a < b then a else b
  }

  function Zeros(k: nat): (r: bytes)
    ensures |r| == k
    ensures forall i :: 0 <= i < k ==> r[i] == 0
  {
    seq(k, _ => 0)
  }

  function Pow256(k: nat): (p: nat)
    ensures p >= 1
  {
    if k == 0 then 1 else 256 * Pow256(k - 1)
  }

  // ---------------------------------------------------------------------
  // Python slicing: bounds are clamped to the sequence, never an error.
  // ---------------------------------------------------------------------

  /** `s[lo:hi]` for non-negative bounds. */
  function Slice<T>(s: seq<T>, lo: nat, hi: nat): (r: seq<T>)
    ensures |r| == if lo < hi && lo < |s| then Min(hi, |s|) - lo else 0
    ensures forall k :: 0 <= k < |r| ==> r[k] == s[lo + k]
  {
    if lo < hi && lo < |s| then s[lo..Min(hi, |s|)] else []
  }

  /** `s[lo:]` for a non-negative bound. */
  function From<T>(s: seq<T>, lo: nat): (r: seq<T>)
    ensures |r| == if lo < |s| then |s| - lo else 0
    ensures forall k :: 0 <= k < |r| ==> r[k] == s[lo + k]
  {
    if lo < |s| then s[lo..] else []
  }

  // ---------------------------------------------------------------------
  // Hexadecimal strings
  // ---------------------------------------------------------------------

  const HexAlphabet: string := "0123456789abcdef"

  /** The lower-case digit Python's `hex` and `bytes.hex` print for `d`. */
  function HexDigit(d: nat): (c: char)
    requires d < 16
  {
    if d < 10 then ('0' as int + d) as char else ('a' as int + d - 10) as char
  }

  /** The value `int(c, 16)` gives a single character, in either case. */
  function DigitValue(c: char): (r: Option<nat>)
    ensures r.Some? ==> r.value < 16
  {
    if '0' <= c <= '9' then Some(c as int - '0' as int)
    else if 'a' <= c <= 'f' then Some(c as int - 'a' as int + 10)
    else if 'A' <= c <= 'F' then Some(c as int - 'A' as int + 10)
    else None
  }

  lemma DigitValueOfHexDigit(d: nat)
    requires d < 16
    ensures DigitValue(HexDigit(d)) == Some(d)
  {
  }

  /** `hex(n)[2:]` for a non-negative n: the shortest lower-case digit string. */
  function Hex(n: nat): (h: string)
    ensures |h| >= 1
  {
    if n < 16 then [HexDigit(n)] else Hex(n / 16) + [HexDigit(n % 16)]
  }

  /** `hex(n)[2:]` for any integer: for a negative n Python prints `-0x…`,
      so the slice starts with the letter `x`. */
  function PyHexDigits(n: int): string {
    if n >= 0 then Hex(n) else "x" + Hex(-n)
  }

  /** Value of a digit string read most-significant first; None if some
      character is not a hexadecimal digit. */
  function DigitsValue(s: string): Option<nat> {
    if |s| == 0 then Some(0)
    else
      var hi :- DigitsValue(s[..|s| - 1]);
      var lo :- DigitValue(s[|s| - 1]);
      Some(hi * 16 + lo)
  }

  /** `int(s, 16)` on strings made of hexadecimal digits: the empty string
      and any other character raise ValueError. */
  function IntBase16(s: string): (r: Result<nat>)
    ensures |s| == 0 ==> r == Err(ValueError)
    ensures r.Err? ==> r.error == ValueError
  {
    if |s| == 0 then Err(ValueError)
    else match DigitsValue(s)
      case None => Err(ValueError)
      case Some(v) => Ok(v)
  }

  /** `bytes.fromhex(h)` on strings without whitespace: digit pairs, either case. */
  function FromHex(h: string): (r: Result<bytes>)
    ensures r.Err? ==> r.error == ValueError
    ensures r.Ok? ==> 2 * |r.value| == |h|
  {
    if |h| == 0 then Ok([])
    else if |h| == 1 then Err(ValueError)
    else match (DigitValue(h[0]), DigitValue(h[1]))
      case (Some(a), Some(b)) =>
        var rest :- FromHex(h[2..]);
        Ok([a * 16 + b] + rest)
      case _ => Err(ValueError)
  }

  /** Two lower-case digits of one byte, as `bytes.hex` prints them. */
  function ByteHex(x: byte): string {
    [HexDigit(x / 16), HexDigit(x % 16)]
  }

  /** `bytes_to_hex` (`bytes.hex()`). */
  function BytesToHex(b: bytes): (h: string)
    ensures |h| == 2 * |b|
  {
    if |b| == 0 then [] else ByteHex(b[0]) + BytesToHex(b[1..])
  }

  function EvenPad(h: string): string {
    if |h| % 2 == 1 then "0" + h else h
  }

  /** Python's `h in a` for two strings. */
  predicate IsSubstringOf(h: string, a: string) {
    exists i | 0 <= i <= |a| - |h| :: OccursAt(h, a, i)
  }

  predicate OccursAt(h: string, a: string, i: int) {
    0 <= i <= |a| - |h| && a[i..i + |h|] == h
  }

  // ---------------------------------------------------------------------
  // Numbers and bytes
  // ---------------------------------------------------------------------

  /** Unsigned big-endian value of a byte sequence. */
  function BigEndian(b: bytes): nat {
    if |b| == 0 then 0 else BigEndian(b[..|b| - 1]) * 256 + b[|b| - 1]
  }

  /** The shortest big-endian encoding with at least one byte. */
  function MinimalBytes(n: nat): (r: bytes)
    ensures |r| >= 1
    ensures BigEndian(r) == n
    ensures |r| == 1 || r[0] != 0
  {
    if n < 256 then [n]
    else
      var r := MinimalBytes(n / 256) + [n % 256];
      assert r[..|r| - 1] == MinimalBytes(n / 256);
      r
  }

  /** `hex_to_bytes`: pads the digit string to even length, then decodes it
      with `bytes.fromhex` unless it occurs inside `'0123456789abcdef'`, in
      which case it takes `bytes([int(h, 16)])`, which only accepts one byte. */
  function HexToBytes(hexstr: string): (r: Result<bytes>)
    ensures r.Err? ==> r.error == ValueError
    ensures r.Ok? && IsSubstringOf(EvenPad(hexstr), HexAlphabet) ==> |r.value| == 1
  {
    var h := EvenPad(hexstr);
    if !IsSubstringOf(h, HexAlphabet) then FromHex(h)
    else
      var v :- IntBase16(h);
      if v < 256 then Ok([v]) else Err(ValueError)
  }

  /** `num_to_bytes`, as written. */
  function NumToBytes(n: int): (r: Result<bytes>)
    ensures r.Err? ==> r.error == ValueError
    ensures n < 0 ==> r == Err(ValueError)
  {
    NegativeHexRejected(n);
    HexToBytes(PyHexDigits(n))
  }

  /** The inputs on which `hex_to_bytes` takes its single-byte branch with a
      value that does not fit: the even-padded digits are a run of the
      alphabet longer than one byte (0x123, 0x1234, 0x2345, ...). */
  predicate IsDigitRun(n: nat) {
    var h := EvenPad(Hex(n));
    |h| > 2 && IsSubstringOf(h, HexAlphabet)
  }

  /** `num_to_bytes` as its callers need it: the shortest big-endian encoding
      of a non-negative number, ValueError for a negative one. */
  function NumToBytesIntended(n: int): (r: Result<bytes>)
    ensures n < 0 <==> r.Err?
    ensures r.Ok? ==> |r.value| >= 1 && BigEndian(r.value) == n
    ensures r.Ok? ==> |r.value| == 1 || r.value[0] != 0
  {
    if n < 0 then Err(ValueError) else Ok(MinimalBytes(n))
  }

  /** `bytes_to_num`: `int(bytes_to_hex(b), 16)`. */
  function BytesToNum(b: bytes): (r: Result<nat>)
    ensures |b| == 0 <==> r.Err?
    ensures |b| > 0 ==> r == Ok(BigEndian(b))
  {
    if |b| == 0 then IntBase16(BytesToHex(b))
    else
      DigitsOfBytesHex(b);
      IntBase16(BytesToHex(b))
  }

  /** `bytes_fixlen`: zero-pads on the left to `length`, or keeps only the
      first `length` bytes of a longer input. */
  function FixLen(b: bytes, length: nat): (r: bytes)
    ensures |r| == length
    ensures |b| <= length ==> r[length - |b|..] == b
    ensures |b| <= length ==> forall i :: 0 <= i < length - |b| ==> r[i] == 0
    ensures |b| > length ==> b[..length] == r
  {
    if |b| > length then b[..length] else Zeros(length - |b|) + b
  }

  /** `bytes_fixlen(num_to_bytes(n), width)` with the corrected encoder, for
      a number that may be negative. */
  function Field(n: int, width: nat): (r: Result<bytes>)
    ensures r.Err? <==> n < 0
    ensures r.Ok? ==> |r.value| == width
  {
    var b :- NumToBytesIntended(n);
    Ok(FixLen(b, width))
  }

  /** The same for a number that cannot be negative, which never raises. */
  function NatField(n: nat, width: nat): (r: bytes)
    ensures |r| == width
  {
    FixLen(MinimalBytes(n), width)
  }

  // ---------------------------------------------------------------------
  // Lemmas
  // ---------------------------------------------------------------------

  lemma {:induction false} DigitsValueOfHex(n: nat)
    ensures DigitsValue(Hex(n)) == Some(n)
  {
    DigitValueOfHexDigit(n % 16);
    if n >= 16 {
      DigitsValueOfHex(n / 16);
      var h := Hex(n);
      assert h[..|h| - 1] == Hex(n / 16);
    }
  }

  lemma {:induction false} DigitsValueLeadingZero(h: string)
    ensures DigitsValue("0" + h) == DigitsValue(h)
  {
    if |h| > 0 {
      var z := "0" + h;
      assert z[..|z| - 1] == "0" + h[..|h| - 1];
      DigitsValueLeadingZero(h[..|h| - 1]);
    } else {
      assert ("0" + h)[..0] == "";
    }
  }

  lemma {:induction false} BytesToHexAppend(b: bytes, x: byte)
    ensures BytesToHex(b + [x]) == BytesToHex(b) + ByteHex(x)
  {
    if |b| > 0 {
      assert (b + [x])[1..] == b[1..] + [x];
      BytesToHexAppend(b[1..], x);
    } else {
      assert b + [x] == [x];
    }
  }

  /** `bytes.hex` followed by `int(…, 16)` reads the big-endian value. */
  lemma {:induction false} DigitsOfBytesHex(b: bytes)
    ensures DigitsValue(BytesToHex(b)) == Some(BigEndian(b))
  {
    if |b| > 0 {
      var p, x := b[..|b| - 1], b[|b| - 1];
      assert b == p + [x];
      BytesToHexAppend(p, x);
      DigitsOfBytesHex(p);
      var h := BytesToHex(b);
      var ph := BytesToHex(p);
      assert h == ph + [HexDigit(x / 16), HexDigit(x % 16)];
      assert h[..|h| - 1] == ph + [HexDigit(x / 16)];
      assert h[..|h| - 1][..|h| - 2] == ph;
      DigitValueOfHexDigit(x / 16);
      DigitValueOfHexDigit(x % 16);
    }
  }

  lemma {:induction false} FromHexOfBytesHex(b: bytes)
    ensures FromHex(BytesToHex(b)) == Ok(b)
  {
    if |b| > 0 {
      FromHexOfBytesHex(b[1..]);
      DigitValueOfHexDigit(b[0] / 16);
      DigitValueOfHexDigit(b[0] % 16);
      var h := BytesToHex(b);
      assert h[2..] == BytesToHex(b[1..]);
      assert [b[0]] + b[1..] == b;
    }
  }

  lemma DivideBy16Twice(n: nat)
    requires n >= 256
    ensures n / 16 >= 16
    ensures (n / 16) / 16 == n / 256
    ensures (n / 16) % 16 == (n % 256) / 16
    ensures n % 16 == (n % 256) % 16
  {
    var q, r := n / 256, n % 256;
    assert n == 256 * q + r;
    assert n / 16 == 16 * q + r / 16;
  }

  /** From 256 on, `hex` prints the digits of n / 256 and then the two
      digits of the last byte. */
  lemma HexLastByte(n: nat)
    requires n >= 256
    ensures Hex(n) == Hex(n / 256) + ByteHex(n % 256)
  {
    DivideBy16Twice(n);
    assert Hex(n / 16) == Hex(n / 256) + [HexDigit((n / 16) % 16)];
  }

  lemma EvenPadAppendPair(h: string, t: string)
    requires |t| == 2
    ensures EvenPad(h + t) == EvenPad(h) + t
  {
    if |h| % 2 == 1 {
      assert "0" + (h + t) == ("0" + h) + t;
    }
  }

  /** The even-padded `hex(n)[2:]` is exactly the hex text of the shortest
      big-endian encoding of n. */
  lemma {:induction false} EvenPadHexIsBytesHex(n: nat)
    ensures EvenPad(Hex(n)) == BytesToHex(MinimalBytes(n))
  {
    if n < 256 {
      assert BytesToHex([n]) == ByteHex(n);
    } else {
      HexLastByte(n);
      EvenPadAppendPair(Hex(n / 256), ByteHex(n % 256));
      EvenPadHexIsBytesHex(n / 256);
      BytesToHexAppend(MinimalBytes(n / 256), n % 256);
    }
  }

  lemma MinimalBytesSingle(n: nat)
    ensures |MinimalBytes(n)| == 1 <==> n < 256
  {
  }

  /** `num_to_bytes`, as written, is the shortest big-endian encoding except
      on negative numbers and on the digit runs, where it raises ValueError. */
  lemma NumToBytesTable(n: int)
    ensures n < 0 ==> NumToBytes(n) == Err(ValueError)
    ensures n >= 0 && IsDigitRun(n) ==> NumToBytes(n) == Err(ValueError)
    ensures n >= 0 && !IsDigitRun(n) ==> NumToBytes(n) == Ok(MinimalBytes(n))
  {
    if n >= 0 {
      var h := EvenPad(Hex(n));
      EvenPadHexIsBytesHex(n);
      FromHexOfBytesHex(MinimalBytes(n));
      DigitsValueOfHex(n);
      if |Hex(n)| % 2 == 1 {
        DigitsValueLeadingZero(Hex(n));
      }
      assert DigitsValue(h) == Some(n);
      MinimalBytesSingle(n);
      if |h| == 2 {
        assert MinimalBytes(n) == [n];
      }
    }
  }

  /** The digits of a negative number start with `x` (`hex(-5)[2:]` is
      "x5"), which neither decoder accepts. */
  lemma NegativeHexRejected(n: int)
    ensures n < 0 ==> HexToBytes(PyHexDigits(n)) == Err(ValueError)
  {
    if n < 0 {
      var h := EvenPad(PyHexDigits(n));
      assert h[0] == 'x' || h[1] == 'x';
      XDigitsHaveNoValue(h);
    }
  }

  /** A string with an `x` among its first two characters is rejected both by
      `bytes.fromhex` and by `int(…, 16)`. */
  lemma XDigitsHaveNoValue(h: string)
    requires |h| >= 2 && (h[0] == 'x' || h[1] == 'x')
    ensures FromHex(h) == Err(ValueError)
    ensures IntBase16(h) == Err(ValueError)
  {
    DigitsValueNoneOnBadChar(h, if h[0] == 'x' then 0 else 1);
  }

  lemma {:induction false} DigitsValueNoneOnBadChar(s: string, i: nat)
    requires i < |s| && DigitValue(s[i]).None?
    ensures DigitsValue(s).None?
  {
    if i < |s| - 1 {
      DigitsValueNoneOnBadChar(s[..|s| - 1], i);
    }
  }

  /** The corrected encoder agrees with `num_to_bytes` wherever the latter
      does not raise. */
  lemma NumToBytesAgreesWithIntended(n: int)
    ensures NumToBytes(n).Ok? ==> NumToBytes(n) == NumToBytesIntended(n)
    ensures n >= 0 && !IsDigitRun(n) ==> NumToBytes(n) == NumToBytesIntended(n)
  {
    NumToBytesTable(n);
  }

  /** Whenever `num_to_bytes` succeeds, `bytes_to_num` reads its output
      back as the number. */
  lemma NumToBytesRoundTrip(n: int)
    ensures NumToBytes(n).Ok? ==> n >= 0 && BytesToNum(NumToBytes(n).value) == Ok(n)
  {
    NumToBytesTable(n);
  }

  /** 291 = 0x123 pads to "0123", a run of the alphabet: `num_to_bytes` raises
      although the corrected encoder gives [0x01, 0x23]. */
  lemma NumToBytesRejects291()
    ensures NumToBytes(0x123) == Err(ValueError)
    ensures NumToBytesIntended(0x123) == Ok([0x01, 0x23])
  {
    assert Hex(1) == "1";
    assert Hex(0x12) == "12";
    assert Hex(0x123) == "123";
    assert EvenPad(Hex(0x123)) == "0123";
    assert OccursAt("0123", HexAlphabet, 0);
    assert IsDigitRun(0x123);
    NumToBytesTable(0x123);
    assert MinimalBytes(1) == [1];
    assert MinimalBytes(0x123) == MinimalBytes(1) + [0x23] == [0x01, 0x23];
  }

  /** A value fits a field of k >= 1 bytes exactly when its shortest
      encoding is at most k bytes long. */
  lemma {:induction false} MinimalBytesFits(n: nat, k: nat)
    requires k >= 1
    ensures |MinimalBytes(n)| <= k <==> n < Pow256(k)
  {
    if n >= 256 && k >= 2 {
      MinimalBytesFits(n / 256, k - 1);
    }
  }

  lemma {:induction false} BigEndianLeadingZeros(k: nat, b: bytes)
    ensures BigEndian(Zeros(k) + b) == BigEndian(b)
  {
    if |b| == 0 {
      assert Zeros(k) + b == Zeros(k);
      BigEndianZeros(k);
    } else {
      var z := Zeros(k) + b;
      assert z[..|z| - 1] == Zeros(k) + b[..|b| - 1];
      BigEndianLeadingZeros(k, b[..|b| - 1]);
    }
  }

  lemma {:induction false} BigEndianZeros(k: nat)
    ensures BigEndian(Zeros(k)) == 0
  {
    if k > 0 {
      assert Zeros(k)[..k - 1] == Zeros(k - 1);
      BigEndianZeros(k - 1);
    }
  }

  /** Short input: `bytes_fixlen` keeps the value. */
  lemma FixLenKeepsValue(b: bytes, length: nat)
    requires |b| <= length
    ensures BigEndian(FixLen(b, length)) == BigEndian(b)
  {
    BigEndianLeadingZeros(length - |b|, b);
  }

  /** A number below 256^k written into a k-byte field reads back unchanged. */
  lemma FieldRoundTrip(n: nat, k: nat)
    requires k >= 1 && n < Pow256(k)
    ensures BytesToNum(NatField(n, k)) == Ok(n)
  {
    MinimalBytesFits(n, k);
    FixLenKeepsValue(MinimalBytes(n), k);
  }
}
