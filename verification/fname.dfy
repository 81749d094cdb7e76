/**
  `Account.sanitize_fname`: the username becomes a file name by replacing
  each of the characters `\ / : * ? " < > |` and `%` with `%` and the
  upper-case hexadecimal digits of its code point.
 */
module Fname {
  import opened Errors
  import opened Codec

  /** The nine characters a path may not contain: `\ / : * ? " < > |`. */
  predicate IsPathChar(c: char) {
    c == '\\' || c == '/' || c == ':' || c == '*' || c == '?' || c == '"' || c == '<' || c == '>' || c == '|'
  }

  /** `c in FILTEREDCHARS`: a path character or the escape character itself. */
  predicate IsFiltered(c: char) {
    IsPathChar(c) || c == '%'
  }

  /** The output has no path character. */
  predicate PathSafe(s: string) {
    forall i :: 0 <= i < |s| ==> !IsPathChar(s[i])
  }

  /** `str.upper` on one character, as it acts on hexadecimal digits. */
  function ToUpper(c: char): char {
    if 'a' <= c <= 'z' then (c as int - 32) as char else c
  }

  function UpperAll(s: string): (r: string)
    ensures |r| == |s|
  {
    if |s| == 0 then [] else [ToUpper(s[0])] + UpperAll(s[1..])
  }

  /** `f'%{hex(ord(c))[2:].upper()}'`. */
  function Escape(c: char): string {
    "%" + UpperAll(Hex(c as int))
  }

  function SanitizeChar(c: char): string {
    if IsFiltered(c) then Escape(c) else [c]
  }

  /** `Account.sanitize_fname`. */
  function Sanitize(name: string): (r: string)
    ensures |r| >= |name|
    ensures (forall i :: 0 <= i < |name| ==> !IsFiltered(name[i])) ==> r == name
  {
    if |name| == 0 then [] else SanitizeChar(name[0]) + Sanitize(name[1..])
  }

  /** Reads escapes back: `%` and two hexadecimal digits stand for the
      character with that code point; anything else stands for itself. */
  function Unsanitize(s: string): string
    decreases |s|
  {
    if |s| == 0 then []
    else if s[0] == '%' && |s| >= 3 && DigitValue(s[1]).Some? && DigitValue(s[2]).Some? then
      [(DigitValue(s[1]).value * 16 + DigitValue(s[2]).value) as char] + Unsanitize(s[3..])
    else [s[0]] + Unsanitize(s[1..])
  }

  // ---------------------------------------------------------------------
  // Lemmas
  // ---------------------------------------------------------------------

  /** A number from 16 to 255 prints as exactly two digits. */
  lemma HexTwoDigits(n: nat)
    requires 16 <= n < 256
    ensures Hex(n) == [HexDigit(n / 16), HexDigit(n % 16)]
  {
  }

  /** Every filtered character lies between U+0020 and U+007F. */
  lemma FilteredRange(c: char)
    requires IsFiltered(c)
    ensures 16 <= c as int < 128
  {
  }

  /** An escape is `%` followed by the two upper-case digits of the code
      point, none of them a filtered character. */
  lemma EscapeShape(c: char)
    requires IsFiltered(c)
    ensures var e := Escape(c);
            && |e| == 3 && e[0] == '%'
            && DigitValue(e[1]) == Some(c as int / 16) && DigitValue(e[2]) == Some(c as int % 16)
            && ('0' <= e[1] <= '9' || 'A' <= e[1] <= 'F')
            && ('0' <= e[2] <= '9' || 'A' <= e[2] <= 'F')
  {
    FilteredRange(c);
    HexTwoDigits(c as int);
    var h := Hex(c as int);
    assert UpperAll(h) == [ToUpper(h[0]), ToUpper(h[1])];
  }

  /** An upper-case hexadecimal digit is not a path character. */
  lemma DigitIsNotPathChar(c: char)
    requires '0' <= c <= '9' || 'A' <= c <= 'F'
    ensures !IsFiltered(c)
  {
  }

  lemma PathSafeAppend(s: string, t: string)
    requires PathSafe(s) && PathSafe(t)
    ensures PathSafe(s + t)
  {
    assert forall i :: |s| <= i < |s + t| ==> (s + t)[i] == t[i - |s|];
  }

  /** The output contains none of the nine path characters. */
  lemma {:induction false} SanitizeHasNoPathChars(name: string)
    ensures PathSafe(Sanitize(name))
  {
    if |name| > 0 {
      SanitizeHasNoPathChars(name[1..]);
      var piece := SanitizeChar(name[0]);
      if IsFiltered(name[0]) {
        EscapeShape(name[0]);
        DigitIsNotPathChar(piece[1]);
        DigitIsNotPathChar(piece[2]);
        assert piece == [piece[0], piece[1], piece[2]];
      }
      assert PathSafe(piece);
      PathSafeAppend(piece, Sanitize(name[1..]));
    }
  }

  /** Unsanitizing the output gives the name back. */
  lemma {:induction false} UnsanitizeSanitize(name: string)
    ensures Unsanitize(Sanitize(name)) == name
  {
    if |name| > 0 {
      var c := name[0];
      var rest := Sanitize(name[1..]);
      var s := SanitizeChar(c) + rest;
      assert Sanitize(name) == s;
      UnsanitizeSanitize(name[1..]);
      if IsFiltered(c) {
        EscapeShape(c);
        assert s[0] == '%' && s[1] == Escape(c)[1] && s[2] == Escape(c)[2];
        assert s[3..] == rest;
        assert (c as int / 16) * 16 + c as int % 16 == c as int;
      } else {
        assert c != '%';
        assert s[1..] == rest;
      }
      assert [c] + name[1..] == name;
    }
  }

  /** Distinct names map to distinct file names. */
  lemma SanitizeInjective(a: string, b: string)
    requires Sanitize(a) == Sanitize(b)
    ensures a == b
  {
    UnsanitizeSanitize(a);
    UnsanitizeSanitize(b);
  }

  /** The escapes of the slash and of the escape character itself. */
  lemma SlashAndPercentEscapes()
    ensures SanitizeChar('/') == "%2F" && SanitizeChar('%') == "%25"
  {
    HexTwoDigits('/' as int);
    HexTwoDigits('%' as int);
    assert UpperAll("2f") == "2F" by {
      assert "2f"[1..] == "f";
    }
    assert UpperAll("25") == "25" by {
      assert "25"[1..] == "5";
    }
  }

  /** A slash and a percent sign are escaped; other characters are kept. */
  lemma SanitizeExample()
    ensures Sanitize("a/b%") == "a%2Fb%25"
  {
    SlashAndPercentEscapes();
    assert SanitizeChar('a') == "a" && SanitizeChar('b') == "b";
    assert Sanitize("%") == "%25";
    assert Sanitize("b%") == "b%25" by {
      assert "b%"[1..] == "%";
    }
    assert Sanitize("/b%") == "%2Fb%25" by {
      assert "/b%"[1..] == "b%";
    }
    assert "a/b%"[1..] == "/b%";
  }
}
