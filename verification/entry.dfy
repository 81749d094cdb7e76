/**
  One diary entry and its wire format (`Entry` in backend.py):

    [1] title length   [n] title (UTF-8)   [4] entry number
    [8] time created   [8] time of last update   [rest] body (UTF-8)

  All numbers are big-endian and pass through `num_to_bytes` and
  `bytes_fixlen`. The body is not length-prefixed: it runs to the end of the
  slice the caller hands to `Loads`.
 */
module Entries {
  import opened Errors
  import opened Codec
  import Utf8

  datatype Entry = Entry(
    title: string,
    body: string,
    entryNum: int,
    timeCreated: nat,
    timeLastUpdate: nat)

  /** Bytes before the body besides the title itself. */
  const HeaderSize: nat := 1 + 4 + 8 + 8

  /** An entry whose fields all fit their widths. */
  predicate Encodable(e: Entry) {
    && |Utf8.Encode(e.title)| < Pow256(1)
    && 0 <= e.entryNum < Pow256(4)
    && e.timeCreated < Pow256(8)
    && e.timeLastUpdate < Pow256(8)
  }

  /** `Entry.dumps` with the title length counted in bytes and the corrected
      number encoder. Only a negative entry number raises. */
  function Dumps(e: Entry): (r: Result<bytes>)
    ensures r.Err? <==> e.entryNum < 0
    ensures r.Err? ==> r.error == ValueError
    ensures r.Ok? ==> |r.value| == HeaderSize + |Utf8.Encode(e.title)| + |Utf8.Encode(e.body)|
  {
    var title := Utf8.Encode(e.title);
    var num :- Field(e.entryNum, 4);
    Ok(NatField(|title|, 1) + title + num + NatField(e.timeCreated, 8)
       + NatField(e.timeLastUpdate, 8) + Utf8.Encode(e.body))
  }

  /** `Entry.dumps` as written: the title length field holds `len(title)`, a
      character count, and every number goes through `num_to_bytes`. */
  function DumpsAsWritten(e: Entry): (r: Result<bytes>)
    ensures r.Err? ==> r.error == ValueError
    ensures e.entryNum < 0 ==> r == Err(ValueError)
    ensures r.Ok? ==> |r.value| == HeaderSize + |Utf8.Encode(e.title)| + |Utf8.Encode(e.body)|
    ensures r.Ok? && |e.title| < 256 ==> r.value[0] == |e.title|
  {
    var titleLen :- NumToBytes(|e.title|);
    assert |e.title| < 256 ==> titleLen == [|e.title|] by {
      if |e.title| < 256 {
        SmallNumberToBytes(|e.title|);
      }
    }
    var title := Utf8.Encode(e.title);
    var num :- NumToBytes(e.entryNum);
    var created :- NumToBytes(e.timeCreated);
    var updated :- NumToBytes(e.timeLastUpdate);
    Ok(FixLen(titleLen, 1) + title + FixLen(num, 4) + FixLen(created, 8)
       + FixLen(updated, 8) + Utf8.Encode(e.body))
  }

  /** `Entry.loads`. Slices never fail; an empty numeric slice raises
      ValueError and a malformed text slice UnicodeDecodeError. A numeric
      field cut short by the end of the input is read from what is there, so
      success only needs one byte of each. */
  function Loads(d: bytes): (r: Result<Entry>)
    ensures |d| == 0 ==> r == Err(ValueError)
    ensures r.Err? ==> r.error == ValueError || r.error == UnicodeDecodeError
    ensures r.Ok? ==> |d| >= 14
  {
    var titleLen :- BytesToNum(Slice(d, 0, 1));
    var title :- Utf8.DecodeOrRaise(Slice(d, 1, 1 + titleLen));
    var at := 1 + titleLen;
    var num :- BytesToNum(Slice(d, at, at + 4));
    var created :- BytesToNum(Slice(d, at + 4, at + 12));
    var updated :- BytesToNum(Slice(d, at + 12, at + 20));
    var body :- Utf8.DecodeOrRaise(From(d, at + 20));
    Ok(Entry(title, body, num, created, updated))
  }

  /** `Entry.update`: new text, new update time; the number and the creation
      time stay. */
  function Update(e: Entry, title: string, body: string, now: nat): (r: Entry)
    ensures r.title == title && r.body == body && r.timeLastUpdate == now
    ensures r.entryNum == e.entryNum && r.timeCreated == e.timeCreated
  {
    e.(title := title, body := body, timeLastUpdate := now)
  }

  // ---------------------------------------------------------------------
  // Lemmas
  // ---------------------------------------------------------------------

  /** Loading a byte string laid out field by field gives back the fields. */
  lemma LoadsOfLayout(tl: bytes, title: bytes, num: bytes, created: bytes, updated: bytes, body: bytes,
                      e: Entry)
    requires |tl| == 1 && |num| == 4 && |created| == 8 && |updated| == 8
    requires BytesToNum(tl) == Ok(|title|)
    requires Utf8.DecodeOrRaise(title) == Ok(e.title)
    requires BytesToNum(num) == Ok(e.entryNum)
    requires BytesToNum(created) == Ok(e.timeCreated)
    requires BytesToNum(updated) == Ok(e.timeLastUpdate)
    requires Utf8.DecodeOrRaise(body) == Ok(e.body)
    ensures Loads(tl + title + num + created + updated + body) == Ok(e)
  {
    var d := tl + title + num + created + updated + body;
    var at := 1 + |title|;
    assert Slice(d, 0, 1) == tl by {
      assert d[..1] == tl;
    }
    assert Slice(d, 1, at) == title by {
      assert d[1..at] == title;
    }
    assert Slice(d, at, at + 4) == num by {
      assert d[at..at + 4] == num;
    }
    assert Slice(d, at + 4, at + 12) == created by {
      assert d[at + 4..at + 12] == created;
    }
    assert Slice(d, at + 12, at + 20) == updated by {
      assert d[at + 12..at + 20] == updated;
    }
    assert From(d, at + 20) == body by {
      assert d[at + 20..] == body;
    }
  }

  /** Every entry whose fields fit their widths survives a dump and a load. */
  lemma RoundTrip(e: Entry)
    requires Encodable(e)
    ensures Dumps(e).Ok? && Loads(Dumps(e).value) == Ok(e)
  {
    var title := Utf8.Encode(e.title);
    var body := Utf8.Encode(e.body);
    var tl, num, created, updated :=
      NatField(|title|, 1), NatField(e.entryNum, 4), NatField(e.timeCreated, 8), NatField(e.timeLastUpdate, 8);
    assert Dumps(e) == Ok(tl + title + num + created + updated + body);
    FieldRoundTrip(|title|, 1);
    FieldRoundTrip(e.entryNum, 4);
    FieldRoundTrip(e.timeCreated, 8);
    FieldRoundTrip(e.timeLastUpdate, 8);
    Utf8.DecodeOrRaiseEncode(e.title);
    Utf8.DecodeOrRaiseEncode(e.body);
    LoadsOfLayout(tl, title, num, created, updated, body, e);
  }

  /** A number below 256 passes `num_to_bytes` as written as its single byte. */
  lemma SmallNumberToBytes(n: nat)
    requires n < 256
    ensures NumToBytes(n) == Ok([n])
  {
    NumToBytesTable(n);
    assert |Hex(n)| <= 2;
  }

  /** For an ASCII title the character count is the byte count, so the
      as-written dump is the corrected one whenever the numbers avoid the
      digit runs `num_to_bytes` rejects. */
  lemma AsWrittenAgreesOnAscii(e: Entry)
    requires Utf8.IsAscii(e.title)
    ensures DumpsAsWritten(e).Ok? ==> DumpsAsWritten(e) == Dumps(e)
    ensures |e.title| < 256 && e.entryNum >= 0 && !IsDigitRun(e.entryNum)
            && !IsDigitRun(e.timeCreated) && !IsDigitRun(e.timeLastUpdate)
            ==> DumpsAsWritten(e) == Dumps(e)
  {
    Utf8.EncodeAscii(e.title);
    NumToBytesAgreesWithIntended(|e.title|);
    NumToBytesAgreesWithIntended(e.entryNum);
    NumToBytesAgreesWithIntended(e.timeCreated);
    NumToBytesAgreesWithIntended(e.timeLastUpdate);
    if |e.title| < 256 {
      SmallNumberToBytes(|e.title|);
    }
  }

  /** The round trip of the code as written: it holds for an ASCII title of
      at most 255 characters, an entry number below 2^32 and timestamps below
      2^64, whenever the dump does not raise. */
  lemma RoundTripAsWritten(e: Entry)
    requires Utf8.IsAscii(e.title) && |e.title| < 256
    requires 0 <= e.entryNum < Pow256(4)
    requires e.timeCreated < Pow256(8) && e.timeLastUpdate < Pow256(8)
    requires DumpsAsWritten(e).Ok?
    ensures Loads(DumpsAsWritten(e).value) == Ok(e)
  {
    AsWrittenAgreesOnAscii(e);
    Utf8.EncodeAscii(e.title);
    RoundTrip(e);
  }

  /** The UTF-8 encodings of the example texts. */
  lemma ExampleEncodings()
    ensures Utf8.Encode("é") == [0xC3, 0xA9]
    ensures Utf8.Encode("éa") == [0xC3, 0xA9] + [0x61]
    ensures Utf8.Encode("\0") == Zeros(1)
    ensures Utf8.Encode("") == []
  {
    assert "éa"[1..] == "a";
  }

  lemma ZerosCut(a: nat, b: nat, c: nat, d: nat)
    ensures Zeros(a + b + c + d) == Zeros(a) + Zeros(b) + Zeros(c) + Zeros(d)
  {
  }

  /** The as-written dump of an entry numbered 0, with times 0 and an empty
      body: the title's character count, its bytes, then 20 zero bytes. */
  lemma DumpOfUntimed(title: string)
    requires |title| < 256
    ensures DumpsAsWritten(Entry(title, "", 0, 0, 0)) == Ok([|title|] + Utf8.Encode(title) + Zeros(20))
  {
    var e := Entry(title, "", 0, 0, 0);
    SmallNumberToBytes(|title|);
    SmallNumberToBytes(0);
    assert Utf8.Encode("") == [];
    var t, z4, z8 := Utf8.Encode(title), FixLen([0], 4), FixLen([0], 8);
    assert DumpsAsWritten(e) == Ok(FixLen([|title|], 1) + t + z4 + z8 + z8 + []);
    ZeroFields();
    assert FixLen([|title|], 1) == [|title|];
    Regroup(FixLen([|title|], 1), t, z4, z8, z8);
  }

  /** Zero in the three number fields of an entry is 20 zero bytes. */
  lemma ZeroFields()
    ensures FixLen([0], 4) + FixLen([0], 8) + FixLen([0], 8) == Zeros(20)
  {
  }

  lemma Regroup(a: bytes, b: bytes, c: bytes, d: bytes, e: bytes)
    ensures a + b + c + d + e + [] == a + b + (c + d + e)
  {
  }

  /** The title "é" is one character but two bytes: the as-written dump
      records length 1, so loading cuts the title inside its only character
      and raises, while the corrected dump reads back. */
  lemma NonAsciiTitleBreaksLoad()
    ensures var e := Entry("é", "", 0, 0, 0);
            && DumpsAsWritten(e).Ok?
            && Loads(DumpsAsWritten(e).value) == Err(UnicodeDecodeError)
            && Dumps(e).Ok?
            && Loads(Dumps(e).value) == Ok(e)
  {
    var e := Entry("é", "", 0, 0, 0);
    ExampleEncodings();
    assert |e.title| == 1;
    DumpOfUntimed(e.title);
    CutTitleRaises([0xC3, 0xA9], Zeros(20));
    RoundTrip(e);
  }

  /** A title length of 1 in front of a two-byte character: the title slice
      is the lone lead byte. */
  lemma CutTitleRaises(title: bytes, rest: bytes)
    requires title == [0xC3, 0xA9]
    ensures Loads([1] + title + rest) == Err(UnicodeDecodeError)
  {
    var d := [1] + title + rest;
    assert Slice(d, 0, 1) == [1] by {
      assert d[..1] == [1];
    }
    assert BytesToNum([1]) == Ok(1) by {
      assert BigEndian([1]) == 1;
    }
    assert Slice(d, 1, 2) == [0xC3] by {
      assert d[1..2] == [0xC3];
    }
    assert Utf8.DecodeOrRaise([0xC3]) == Err(UnicodeDecodeError) by {
      Utf8.LoneLeadByteRejected();
    }
  }

  /** The top byte 0x61 of a 4-byte field. */
  lemma TopByteValue()
    ensures BytesToNum([0x61] + Zeros(3)) == Ok(0x6100_0000)
  {
    var b1: bytes, b2: bytes, b3: bytes, b4: bytes := [0x61], [0x61, 0], [0x61, 0, 0], [0x61, 0, 0, 0];
    assert b4 == [0x61] + Zeros(3);
    assert b1[..0] == [] && b2[..1] == b1 && b3[..2] == b2 && b4[..3] == b3;
    assert BigEndian(b1) == 0x61;
    assert BigEndian(b2) == 0x6100;
    assert BigEndian(b3) == 0x61_0000;
    assert BigEndian(b4) == 0x6100_0000;
  }

  lemma Recut(n: byte, t: bytes, x: bytes, z20: bytes, z3: bytes, z8: bytes, z1: bytes)
    requires z20 == z3 + z8 + z8 + z1
    ensures [n] + (t + x) + z20 == [n] + t + (x + z3) + z8 + z8 + z1
  {
  }

  /** The as-written dump of an entry titled "éa", with everything else
      zero or empty, cut where `Loads` will cut it. */
  lemma DumpOfEa()
    ensures DumpsAsWritten(Entry("éa", "", 0, 0, 0))
            == Ok([2] + [0xC3, 0xA9] + ([0x61] + Zeros(3)) + Zeros(8) + Zeros(8) + Zeros(1))
  {
    assert Utf8.Encode("éa") == [0xC3, 0xA9] + [0x61] && |"éa"| == 2 by {
      ExampleEncodings();
    }
    DumpOfUntimedSplit(Entry("éa", "", 0, 0, 0), [0xC3, 0xA9], [0x61]);
  }

  /** `DumpOfUntimed` with the title's bytes split in two and the 20 zero
      bytes cut as 3, 8, 8 and 1. */
  lemma DumpOfUntimedSplit(e: Entry, t: bytes, x: bytes)
    requires e == Entry(e.title, "", 0, 0, 0)
    requires |e.title| < 256 && Utf8.Encode(e.title) == t + x
    ensures DumpsAsWritten(e) == Ok([|e.title|] + t + (x + Zeros(3)) + Zeros(8) + Zeros(8) + Zeros(1))
  {
    var z20, z3, z8, z1 := Zeros(20), Zeros(3), Zeros(8), Zeros(1);
    assert z20 == z3 + z8 + z8 + z1 by {
      ZerosCut(3, 8, 8, 1);
    }
    assert DumpsAsWritten(e) == Ok([|e.title|] + (t + x) + z20) by {
      DumpOfUntimed(e.title);
    }
    Recut(|e.title|, t, x, z20, z3, z8, z1);
  }

  /** The two text slices of the shifted layout decode. */
  lemma ShiftedTextDecodes()
    ensures Utf8.DecodeOrRaise([0xC3, 0xA9]) == Ok("é")
    ensures Utf8.DecodeOrRaise(Zeros(1)) == Ok("\0")
  {
    ExampleEncodings();
    Utf8.DecodeOrRaiseEncode("é");
    Utf8.DecodeOrRaiseEncode("\0");
  }

  /** The title "éa" is two characters but three bytes: the as-written dump
      records length 2, and loading it raises nothing but cuts the title
      after "é", reads the "a" as the top byte of the entry number, and
      leaves the last zero byte of the update time as the body. */
  lemma NonAsciiTitleShiftsFields()
    ensures var d := DumpsAsWritten(Entry("éa", "", 0, 0, 0));
            && d.Ok?
            && Loads(d.value) == Ok(Entry("é", "\0", 0x6100_0000, 0, 0))
  {
    DumpOfEa();
    ShiftedLayoutLoads();
  }

  /** Loading the cut layout of `DumpOfEa`. */
  lemma ShiftedLayoutLoads()
    ensures Loads([2] + [0xC3, 0xA9] + ([0x61] + Zeros(3)) + Zeros(8) + Zeros(8) + Zeros(1))
            == Ok(Entry("é", "\0", 0x6100_0000, 0, 0))
  {
    var tl: bytes, title: bytes := [2], [0xC3, 0xA9];
    assert BytesToNum(tl) == Ok(|title|) by {
      assert BigEndian(tl) == 2;
    }
    ShiftedTextDecodes();
    TopByteValue();
    BigEndianZeros(8);
    LoadsOfLayout(tl, title, [0x61] + Zeros(3), Zeros(8), Zeros(8), Zeros(1), Entry("é", "\0", 0x6100_0000, 0, 0));
  }
}
