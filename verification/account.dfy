/**
  The account file (`Account` in backend.py).

  Plaintext body:
    [32] username, UTF-8, zero bytes on the LEFT (`bytes_fixlen`)
    [32] the derived key
    [8]  time created
    [2]  number of entries
    per entry: [3] size, then the entry's own wire format

  File: [32] salt || IV || AES-CBC(key, IV, padded body), where
  key = SHA-256(PEPPER || password || salt). A file authenticates nobody by
  itself: the right password is the one under which decryption and parsing
  go through; the key stored in the body is skipped, never compared.
 */
module Accounts {
  import opened Errors
  import opened Codec
  import opened Cipher
  import Utf8
  import opened Entries

  /** The application-wide 256-bit pepper. */
  const Pepper: bytes := [
    0x8e, 0xa5, 0x48, 0x0d, 0x60, 0x1d, 0x44, 0xda, 0x6d, 0xa0, 0xb2, 0x5b, 0x3f, 0x8e, 0xb0, 0xfe,
    0xb6, 0xa6, 0xa5, 0x4a, 0xb6, 0x6c, 0xc1, 0x50, 0x29, 0xdb, 0xda, 0x04, 0x7c, 0x3d, 0x52, 0x42]

  const SaltSize: nat := 32
  const UsernameWidth: nat := 32
  /** 32 + 32 + 8 + 2: the smallest body `loads` will parse. */
  const MinBodySize: nat := 74

  datatype Account = Account(
    username: string,
    password: Bytes32,   // the derived key, not the password itself
    salt: Bytes32,
    timeCreated: nat,
    entries: seq<Entry>)

  /** What is hashed into a key: the pepper, the UTF-8 password, the salt. */
  function KeyMaterial(rawPassword: string, salt: bytes): (m: bytes)
    ensures |m| == |Pepper| + |Utf8.Encode(rawPassword)| + |salt|
    ensures m[..|Pepper|] == Pepper && m[|m| - |salt|..] == salt
    ensures m[|Pepper|..|m| - |salt|] == Utf8.Encode(rawPassword)
  {
    var m := Pepper + Utf8.Encode(rawPassword) + salt;
    assert m[|Pepper|..|m| - |salt|] == Utf8.Encode(rawPassword);
    m
  }

  /** `sha256(PEPPER + raw_password.encode('utf-8') + salt).digest()`. */
  function DeriveKey(prims: Primitives, rawPassword: string, salt: bytes): Bytes32 {
    prims.sha256(KeyMaterial(rawPassword, salt))
  }

  // ---------------------------------------------------------------------
  // Serialisation
  // ---------------------------------------------------------------------

  /** One entry as the body stores it: its size in 3 bytes, then its dump. */
  function Frame(e: Entry): (r: Result<bytes>)
    ensures r.Err? <==> e.entryNum < 0
    ensures r.Err? ==> r.error == ValueError
  {
    var d :- Entries.Dumps(e);
    Ok(NatField(|d|, 3) + d)
  }

  function Frames(es: seq<Entry>): (r: Result<bytes>)
    ensures r.Err? <==> exists i :: 0 <= i < |es| && es[i].entryNum < 0
    ensures r.Err? ==> r.error == ValueError
  {
    if |es| == 0 then Ok([])
    else
      var f :- Frame(es[0]);
      var rest :- Frames(es[1..]);
      assert forall i :: 1 <= i < |es| ==> es[i] == es[1..][i - 1];
      Ok(f + rest)
  }

  /** The plaintext `Account.dumps` encrypts. */
  function Body(a: Account): (r: Result<bytes>)
    ensures r.Err? <==> exists i :: 0 <= i < |a.entries| && a.entries[i].entryNum < 0
    ensures r.Err? ==> r.error == ValueError
    ensures r.Ok? ==> |r.value| >= MinBodySize && r.value[32..64] == a.password
  {
    var frames :- Frames(a.entries);
    Ok(FixLen(Utf8.Encode(a.username), UsernameWidth) + a.password
       + NatField(a.timeCreated, 8) + NatField(|a.entries|, 2) + frames)
  }

  /** The end of `Account.dumps`: the stored salt in clear, then the body
      encrypted under the stored key with the IV the cipher draws. */
  function Seal(prims: Primitives, a: Account, iv: Iv, raw: bytes): (r: bytes)
    ensures |r| >= SaltSize + BlockSize && r[..SaltSize] == a.salt
    ensures r[SaltSize..SaltSize + BlockSize] == iv
  {
    a.salt + Encrypt(prims, a.password, iv, raw)
  }

  /** `Account.dumps`, built from the corrected entry dump and number
      encoder. */
  function Dumps(prims: Primitives, a: Account, iv: Iv): (r: Result<bytes>)
    ensures r.Err? <==> Body(a).Err?
    ensures r.Ok? ==> |r.value| >= SaltSize + BlockSize && r.value[..SaltSize] == a.salt
    ensures r.Ok? ==> r.value[SaltSize..SaltSize + BlockSize] == iv
    ensures r.Err? ==> r.error == ValueError
  {
    var raw :- Body(a);
    Ok(Seal(prims, a, iv, raw))
  }

  // ---------------------------------------------------------------------
  // Serialisation as written
  // ---------------------------------------------------------------------

  /** One entry framed as `Account.dumps` as written frames it: `e.dumps()`
      as written, behind `bytes_fixlen(num_to_bytes(len(raw_e)), 3)`. The
      source dumps every entry before it sizes any; as every error here is a
      ValueError, that order does not change the outcome. */
  function FrameAsWritten(e: Entry): (r: Result<bytes>)
    ensures r.Err? ==> r.error == ValueError
    ensures r.Ok? ==> |r.value| == 3 + HeaderSize + |Utf8.Encode(e.title)| + |Utf8.Encode(e.body)|
  {
    var d :- Entries.DumpsAsWritten(e);
    var size :- NumToBytes(|d|);
    Ok(FixLen(size, 3) + d)
  }

  function FramesAsWritten(es: seq<Entry>): (r: Result<bytes>)
    ensures r.Err? ==> r.error == ValueError
    ensures (exists i :: 0 <= i < |es| && es[i].entryNum < 0) ==> r.Err?
  {
    if |es| == 0 then Ok([])
    else
      var f :- FrameAsWritten(es[0]);
      var rest :- FramesAsWritten(es[1..]);
      assert forall i :: 1 <= i < |es| ==> es[i] == es[1..][i - 1];
      Ok(f + rest)
  }

  /** The plaintext `Account.dumps` as written encrypts. */
  function BodyAsWritten(a: Account): (r: Result<bytes>)
    ensures r.Err? ==> r.error == ValueError
    ensures r.Ok? ==> |r.value| >= MinBodySize && r.value[32..64] == a.password
  {
    var created :- NumToBytes(a.timeCreated);
    var count :- NumToBytes(|a.entries|);
    var frames :- FramesAsWritten(a.entries);
    var user, time, size := FixLen(Utf8.Encode(a.username), UsernameWidth), FixLen(created, 8), FixLen(count, 2);
    BodySlices(user, a.password, time, size, frames);
    Ok(user + a.password + time + size + frames)
  }

  /** `Account.dumps` as written. */
  function DumpsAsWritten(prims: Primitives, a: Account, iv: Iv): (r: Result<bytes>)
    ensures r.Err? <==> BodyAsWritten(a).Err?
    ensures r.Err? ==> r.error == ValueError
    ensures r.Ok? ==> |r.value| >= SaltSize + BlockSize && r.value[..SaltSize] == a.salt
  {
    var raw :- BodyAsWritten(a);
    Ok(Seal(prims, a, iv, raw))
  }

  // ---------------------------------------------------------------------
  // Deserialisation
  // ---------------------------------------------------------------------

  /** `Account.checks_auth`: None when no password is given or when decryption
      yields nothing, the empty string for an empty file, else the decrypted
      body. Errors of the cipher layer escape. */
  function ChecksAuth(prims: Primitives, encrypted: bytes, rawPassword: Option<string>): (r: Result<Option<bytes>>)
    ensures rawPassword.None? ==> r == Ok(None)
    ensures rawPassword.Some? && |encrypted| == 0 ==> r == Ok(Some([]))
    ensures |encrypted| > 0 && r.Ok? && r.value.Some? ==> |r.value.value| > 0
    ensures r.Err? ==> r.error == ValueError || r.error == TypeError
  {
    if rawPassword.None? then Ok(None)
    else if |encrypted| == 0 then Ok(Some([]))
    else
      var salt := Slice(encrypted, 0, SaltSize);
      var key := DeriveKey(prims, rawPassword.value, salt);
      Decrypt(prims, key, From(encrypted, SaltSize))
  }

  /** Every character of s is NUL. */
  predicate AllNul(s: string) {
    forall k :: 0 <= k < |s| ==> s[k] == '\0'
  }

  /** r is the part of s from position i on, and only NULs surround it. */
  predicate StripsTo(s: string, i: int, r: string) {
    0 <= i <= |s| - |r| && r == s[i..i + |r|] && AllNul(s[..i]) && AllNul(s[i + |r|..])
  }

  /** Python's `s.strip('\x00')`: NULs removed from both ends. */
  function StripNul(s: string): (r: string)
    ensures |r| == 0 || (r[0] != '\0' && r[|r| - 1] != '\0')
    ensures exists i :: StripsTo(s, i, r)
  {
    var t := StripLeadingNul(s);
    var r := StripTrailingNul(t);
    var i := |s| - |t|;
    assert StripsTo(s, i, r) by {
      assert r == s[i..][..|r|] == s[i..i + |r|];
      assert s[i + |r|..] == t[|r|..];
    }
    r
  }

  function StripLeadingNul(s: string): (r: string)
    ensures |r| == 0 || r[0] != '\0'
    ensures |r| <= |s| && r == s[|s| - |r|..] && AllNul(s[..|s| - |r|])
  {
    if |s| > 0 && s[0] == '\0' then
      var r := StripLeadingNul(s[1..]);
      assert s[1..][|s| - 1 - |r|..] == s[|s| - |r|..];
      assert forall k :: 1 <= k < |s| - |r| ==> s[k] == s[1..][..|s| - 1 - |r|][k - 1];
      r
    else s
  }

  function StripTrailingNul(s: string): (r: string)
    ensures |r| == 0 || r[|r| - 1] != '\0'
    ensures |r| <= |s| && r == s[..|r|] && AllNul(s[|r|..])
  {
    if |s| > 0 && s[|s| - 1] == '\0' then
      var r := StripTrailingNul(s[..|s| - 1]);
      assert s[..|s| - 1][..|r|] == s[..|r|];
      assert forall k :: |r| <= k < |s| - 1 ==> s[k] == s[..|s| - 1][|r|..][k - |r|];
      r
    else s
  }

  /** The entry loop of `Account.loads`: `count` times, a 3-byte size and an
      entry of that size. Slices past the end are silently short; an empty
      size field raises ValueError. */
  function ParseEntries(data: bytes, count: nat): (r: Result<seq<Entry>>)
    ensures r.Ok? ==> |r.value| == count
    ensures r.Err? ==> r.error == ValueError || r.error == UnicodeDecodeError
    decreases count
  {
    if count == 0 then Ok([])
    else
      var size :- BytesToNum(Slice(data, 0, 3));
      var e :- Entries.Loads(Slice(data, 3, 3 + size));
      var rest :- ParseEntries(From(data, 3 + size), count - 1);
      Ok([e] + rest)
  }

  /** The body of the `try` in `Account.loads`: username, creation time and
      entries; bytes 32 to 64 (the stored key) are skipped. */
  function ParseBody(raw: bytes): (r: Result<(string, nat, seq<Entry>)>)
    requires |raw| >= MinBodySize
    ensures r.Err? ==> r.error == ValueError || r.error == UnicodeDecodeError
  {
    var name :- Utf8.DecodeOrRaise(raw[..32]);
    var created := BytesToNum(raw[64..72]).value;
    var count := BytesToNum(raw[72..74]).value;
    var entries :- ParseEntries(raw[74..], count);
    Ok((StripNul(name), created, entries))
  }

  /** `Account.loads`, with the fresh salt passed in. The outcomes are an
      account under a key re-derived with the new salt, InvalidCredentials,
      InvalidAccountFormat, or a ValueError/TypeError nothing catches. */
  function Loads(prims: Primitives, encrypted: bytes, rawPassword: Option<string>, newSalt: Bytes32)
    : (r: Result<Account>)
    ensures r.Err? ==> r.error in {InvalidCredentials, InvalidAccountFormat, ValueError, TypeError}
    ensures rawPassword.None? ==> r == Err(InvalidCredentials)
    ensures rawPassword.Some? && |encrypted| == 0 ==> r == Err(InvalidAccountFormat)
    ensures r.Ok? ==> rawPassword.Some? && r.value.salt == newSalt
                      && r.value.password == DeriveKey(prims, rawPassword.value, newSalt)
  {
    var auth :- ChecksAuth(prims, encrypted, rawPassword);
    if auth.None? then Err(InvalidCredentials)
    else if |auth.value| < MinBodySize then Err(InvalidAccountFormat)
    else
      var key := DeriveKey(prims, rawPassword.value, newSalt);
      var parsed :- ParseBody(auth.value).Translate(UnicodeDecodeError, InvalidAccountFormat);
      Ok(Account(parsed.0, key, newSalt, parsed.1, parsed.2))
  }

  // ---------------------------------------------------------------------
  // Construction
  // ---------------------------------------------------------------------

  /** What `Account.__init__` leaves behind: a full account, or an object
      without any of the account attributes. */
  datatype Construction = Initialised(account: Account) | Bare

  /** `Account.__init__` as written, without the file probing: its body runs
      only when `username is raw_password is not None`, that is, when both
      arguments are the very same object and not None. */
  function InitAsWritten(prims: Primitives, username: Option<string>, rawPassword: Option<string>,
                         sameObject: bool, salt: Bytes32, now: nat): (r: Result<Construction>)
    requires sameObject ==> username == rawPassword
    ensures !sameObject || rawPassword.None? ==> r == Ok(Bare)
    ensures sameObject && rawPassword.Some? ==>
              r == match Create(prims, username.value, rawPassword.value, salt, now)
                   case Ok(a) => Ok(Initialised(a))
                   case Err(e) => Err(e)
  {
    if sameObject && rawPassword.Some? then
      var name := username.value;
      if |Utf8.Encode(name)| > UsernameWidth then Err(InvalidUsername)
      else Ok(Initialised(Account(name, DeriveKey(prims, rawPassword.value, salt), salt, now, [])))
    else Ok(Bare)
  }

  /** `Account.create_account` as written: construct, then dump with
      `Account.dumps` as written. Dumping an object that never got its
      attributes raises AttributeError. */
  function CreateAccountAsWritten(prims: Primitives, username: string, rawPassword: string,
                                  sameObject: bool, salt: Bytes32, now: nat, iv: Iv): (r: Result<bytes>)
    requires sameObject ==> username == rawPassword
    ensures !sameObject ==> r == Err(AttributeError)
    ensures sameObject && |Utf8.Encode(username)| > UsernameWidth ==> r == Err(InvalidUsername)
    ensures sameObject && |Utf8.Encode(username)| <= UsernameWidth ==>
              r == DumpsAsWritten(prims, Create(prims, username, rawPassword, salt, now).value, iv)
  {
    var c :- InitAsWritten(prims, Some(username), Some(rawPassword), sameObject, salt, now);
    match c
    case Bare => Err(AttributeError)
    case Initialised(a) => DumpsAsWritten(prims, a, iv)
  }

  /** Account construction as intended: whenever a username and a password
      are given, check the username's length and derive the key. */
  function Create(prims: Primitives, username: string, rawPassword: string, salt: Bytes32, now: nat)
    : (r: Result<Account>)
    ensures r.Err? <==> |Utf8.Encode(username)| > UsernameWidth
    ensures r.Err? ==> r.error == InvalidUsername
    ensures r.Ok? ==> r.value.username == username && r.value.entries == []
                      && r.value.salt == salt && r.value.timeCreated == now
                      && r.value.password == DeriveKey(prims, rawPassword, salt)
  {
    if |Utf8.Encode(username)| > UsernameWidth then Err(InvalidUsername)
    else Ok(Account(username, DeriveKey(prims, rawPassword, salt), salt, now, []))
  }

  // ---------------------------------------------------------------------
  // Lemmas
  // ---------------------------------------------------------------------

  /** An entry whose dump fits the 3-byte size field. */
  predicate FrameFits(e: Entry) {
    HeaderSize + |Utf8.Encode(e.title)| + |Utf8.Encode(e.body)| < Pow256(3)
  }

  predicate NoEdgeNul(s: string) {
    |s| == 0 || (s[0] != '\0' && s[|s| - 1] != '\0')
  }

  /** An account every field of which fits its width, with a username that
      `strip('\x00')` leaves alone. */
  predicate Storable(a: Account) {
    && |Utf8.Encode(a.username)| <= UsernameWidth
    && NoEdgeNul(a.username)
    && a.timeCreated < Pow256(8)
    && |a.entries| < Pow256(2)
    && EntriesFit(a.entries)
  }

  lemma {:induction false} StripLeadingNuls(k: nat, s: string)
    requires |s| == 0 || s[0] != '\0'
    ensures StripLeadingNul(seq(k, _ => '\0') + s) == s
  {
    if k > 0 {
      assert (seq(k, _ => '\0') + s)[1..] == seq(k - 1, _ => '\0') + s;
      StripLeadingNuls(k - 1, s);
    } else {
      assert seq(k, _ => '\0') + s == s;
    }
  }

  /** The zero padding in front of a short username is removed on load. */
  lemma StripNulPadding(k: nat, s: string)
    requires NoEdgeNul(s)
    ensures StripNul(seq(k, _ => '\0') + s) == s
  {
    StripLeadingNuls(k, s);
  }

  /** The username field decodes to the username. */
  lemma UsernameFieldRoundTrip(name: string)
    requires |Utf8.Encode(name)| <= UsernameWidth && NoEdgeNul(name)
    ensures Utf8.DecodeOrRaise(FixLen(Utf8.Encode(name), UsernameWidth)).Ok?
    ensures StripNul(Utf8.DecodeOrRaise(FixLen(Utf8.Encode(name), UsernameWidth)).value) == name
  {
    var k := UsernameWidth - |Utf8.Encode(name)|;
    var nuls := seq(k, _ => '\0');
    Utf8.EncodeNuls(k);
    Utf8.EncodeAppend(nuls, name);
    assert FixLen(Utf8.Encode(name), UsernameWidth) == Utf8.Encode(nuls + name);
    Utf8.DecodeOrRaiseEncode(nuls + name);
    StripNulPadding(k, name);
  }

  /** All entries fit their fields and their frames. */
  predicate EntriesFit(es: seq<Entry>) {
    forall i :: 0 <= i < |es| ==> Encodable(es[i]) && FrameFits(es[i])
  }

  lemma AppendAssoc(a: bytes, b: bytes, c: bytes, t: bytes)
    ensures a + b + c + t == a + b + (c + t)
  {
  }

  /** One step of the entry loop over a frame laid out in front of the rest. */
  lemma ParseEntriesStep(size: bytes, d: bytes, rest: bytes, count: nat, e: Entry)
    requires |size| == 3 && count > 0
    requires BytesToNum(size) == Ok(|d|)
    requires Entries.Loads(d) == Ok(e)
    requires ParseEntries(rest, count - 1).Ok?
    ensures ParseEntries(size + d + rest, count) == Ok([e] + ParseEntries(rest, count - 1).value)
  {
    var data := size + d + rest;
    assert Slice(data, 0, 3) == size by {
      assert data[..3] == size;
    }
    assert Slice(data, 3, 3 + |d|) == d by {
      assert data[3..3 + |d|] == d;
    }
    assert From(data, 3 + |d|) == rest by {
      assert data[3 + |d|..] == rest;
    }
  }

  /** The frames of a non-empty list: the first entry's frame, then the rest. */
  lemma FramesCons(e: Entry, es: seq<Entry>)
    requires e.entryNum >= 0 && Frames(es).Ok?
    ensures Frames([e] + es).Ok?
    ensures var d := Entries.Dumps(e).value;
            Frames([e] + es).value == NatField(|d|, 3) + d + Frames(es).value
  {
    assert ([e] + es)[1..] == es;
  }

  /** Putting one more frame in front keeps the entry section readable. */
  lemma FramesConsRoundTrip(e: Entry, es: seq<Entry>, tail: bytes)
    requires Encodable(e) && FrameFits(e)
    requires Frames(es).Ok? && ParseEntries(Frames(es).value + tail, |es|) == Ok(es)
    ensures Frames([e] + es).Ok?
    ensures ParseEntries(Frames([e] + es).value + tail, |es| + 1) == Ok([e] + es)
  {
    RoundTrip(e);
    var d := Entries.Dumps(e).value;
    FieldRoundTrip(|d|, 3);
    var size := NatField(|d|, 3);
    var rest := Frames(es).value;
    FramesCons(e, es);
    AppendAssoc(size, d, rest, tail);
    ParseEntriesStep(size, d, rest + tail, |es| + 1, e);
  }

  /** The entry section reads back, whatever follows it. */
  lemma {:induction false} FramesRoundTrip(es: seq<Entry>, tail: bytes)
    requires EntriesFit(es)
    ensures Frames(es).Ok?
    ensures ParseEntries(Frames(es).value + tail, |es|) == Ok(es)
  {
    if |es| > 0 {
      assert EntriesFit(es[1..]) by {
        assert forall i :: 1 <= i < |es| ==> es[1..][i - 1] == es[i];
      }
      FramesRoundTrip(es[1..], tail);
      assert Encodable(es[0]) && FrameFits(es[0]);
      FramesConsRoundTrip(es[0], es[1..], tail);
      assert [es[0]] + es[1..] == es;
    }
  }

  /** Where the fields of a body lie. */
  lemma BodySlices(user: bytes, key: bytes, time: bytes, count: bytes, frames: bytes)
    requires |user| == 32 && |key| == 32 && |time| == 8 && |count| == 2
    ensures var raw := user + key + time + count + frames;
            && |raw| >= MinBodySize
            && raw[..32] == user && raw[32..64] == key
            && raw[64..72] == time && raw[72..74] == count && raw[74..] == frames
  {
    var raw := user + key + time + count + frames;
    assert raw[..32] == user;
    assert raw[32..64] == key;
    assert raw[64..72] == time;
    assert raw[72..74] == count;
    assert raw[74..] == frames;
  }

  /** Parsing a body whose fields decode gives back those fields. */
  lemma ParseBodyOfFields(raw: bytes, name: string, created: nat, es: seq<Entry>)
    requires |raw| >= MinBodySize
    requires Utf8.DecodeOrRaise(raw[..32]).Ok? && StripNul(Utf8.DecodeOrRaise(raw[..32]).value) == name
    requires BytesToNum(raw[64..72]) == Ok(created)
    requires BytesToNum(raw[72..74]) == Ok(|es|)
    requires ParseEntries(raw[74..], |es|) == Ok(es)
    ensures ParseBody(raw) == Ok((name, created, es))
  {
  }

  /** The plaintext body reads back: username, creation time and entries in
      order. */
  lemma BodyRoundTrip(a: Account)
    requires Storable(a)
    ensures Body(a).Ok?
    ensures ParseBody(Body(a).value) == Ok((a.username, a.timeCreated, a.entries))
  {
    FramesRoundTrip(a.entries, []);
    var frames := Frames(a.entries).value;
    assert frames + [] == frames;
    var user := FixLen(Utf8.Encode(a.username), UsernameWidth);
    var time, count := NatField(a.timeCreated, 8), NatField(|a.entries|, 2);
    var raw := user + a.password + time + count + frames;
    assert Body(a) == Ok(raw);
    BodySlices(user, a.password, time, count, frames);
    UsernameFieldRoundTrip(a.username);
    FieldRoundTrip(a.timeCreated, 8);
    FieldRoundTrip(|a.entries|, 2);
    ParseBodyOfFields(raw, a.username, a.timeCreated, a.entries);
  }

  /** `checks_auth` on a dump, with the password the stored key was derived
      from, re-derives that key from the salt in front and decrypts the body. */
  lemma ChecksAuthOfDumps(prims: Primitives, a: Account, rawPassword: string, iv: Iv)
    requires IsBlockCipher(prims)
    requires a.password == DeriveKey(prims, rawPassword, a.salt)
    requires Dumps(prims, a, iv).Ok?
    ensures ChecksAuth(prims, Dumps(prims, a, iv).value, Some(rawPassword)) == Ok(Some(Body(a).value))
  {
    var raw := Body(a).value;
    var sealed := Encrypt(prims, a.password, iv, raw);
    var file := a.salt + sealed;
    assert Slice(file, 0, SaltSize) == a.salt;
    assert From(file, SaltSize) == sealed;
    DecryptEncrypt(prims, a.password, iv, raw);
  }

  /** The account round trip: a dump loads back under the same password with
      the same username, creation time and entries, and a key re-derived
      under the new salt. */
  lemma DumpsLoads(prims: Primitives, a: Account, rawPassword: string, iv: Iv, newSalt: Bytes32)
    requires IsBlockCipher(prims)
    requires a.password == DeriveKey(prims, rawPassword, a.salt)
    requires Storable(a)
    ensures Dumps(prims, a, iv).Ok?
    ensures Loads(prims, Dumps(prims, a, iv).value, Some(rawPassword), newSalt)
            == Ok(Account(a.username, DeriveKey(prims, rawPassword, newSalt), newSalt, a.timeCreated, a.entries))
  {
    BodyRoundTrip(a);
    ChecksAuthOfDumps(prims, a, rawPassword, iv);
  }

  // ---------------------------------------------------------------------
  // The dump as written
  // ---------------------------------------------------------------------

  predicate AsciiTitles(es: seq<Entry>) {
    forall i :: 0 <= i < |es| ==> Utf8.IsAscii(es[i].title)
  }

  /** An entry on which `Entry.dumps` and its framing as written meet no
      digit run and count the title correctly. */
  predicate EntryAvoidsRuns(e: Entry) {
    && Utf8.IsAscii(e.title) && |e.title| < 256
    && e.entryNum >= 0 && !IsDigitRun(e.entryNum)
    && !IsDigitRun(e.timeCreated) && !IsDigitRun(e.timeLastUpdate)
    && !IsDigitRun(HeaderSize + |e.title| + |Utf8.Encode(e.body)|)
  }

  /** An account on which `Account.dumps` as written meets no digit run. */
  predicate AvoidsRuns(a: Account) {
    && !IsDigitRun(a.timeCreated) && !IsDigitRun(|a.entries|)
    && forall i :: 0 <= i < |a.entries| ==> EntryAvoidsRuns(a.entries[i])
  }

  /** For an ASCII title a frame as written is the corrected frame whenever
      it succeeds, and it succeeds when no digit run is met. */
  lemma FrameAsWrittenAgrees(e: Entry)
    requires Utf8.IsAscii(e.title)
    ensures FrameAsWritten(e).Ok? ==> FrameAsWritten(e) == Frame(e)
    ensures EntryAvoidsRuns(e) ==> FrameAsWritten(e) == Frame(e)
  {
    var dw := Entries.DumpsAsWritten(e);
    AsWrittenAgreesOnAscii(e);
    if dw.Ok? {
      var d := dw.value;
      assert |d| == HeaderSize + |e.title| + |Utf8.Encode(e.body)| by {
        Utf8.EncodeAscii(e.title);
      }
      FrameOfSameDump(e, d);
    }
  }

  /** Framing a dump both ways, once the two entry dumps coincide: the
      frames agree unless the size is a digit run. */
  lemma FrameOfSameDump(e: Entry, d: bytes)
    requires Entries.DumpsAsWritten(e) == Ok(d) && Entries.Dumps(e) == Ok(d)
    ensures FrameAsWritten(e).Ok? ==> FrameAsWritten(e) == Frame(e)
    ensures !IsDigitRun(|d|) ==> FrameAsWritten(e) == Frame(e)
  {
    NumToBytesAgreesWithIntended(|d|);
  }

  lemma {:induction false} FramesAsWrittenAgrees(es: seq<Entry>)
    requires AsciiTitles(es)
    ensures FramesAsWritten(es).Ok? ==> FramesAsWritten(es) == Frames(es)
    ensures (forall i :: 0 <= i < |es| ==> EntryAvoidsRuns(es[i])) ==> FramesAsWritten(es) == Frames(es)
  {
    if |es| > 0 {
      assert forall i :: 1 <= i < |es| ==> es[1..][i - 1] == es[i];
      assert Utf8.IsAscii(es[0].title);
      FrameAsWrittenAgrees(es[0]);
      FramesAsWrittenAgrees(es[1..]);
    }
  }

  /** For ASCII titles the body as written is the corrected body whenever it
      succeeds, and it succeeds when no digit run is met. */
  lemma BodyAsWrittenAgrees(a: Account)
    requires AsciiTitles(a.entries)
    ensures BodyAsWritten(a).Ok? ==> BodyAsWritten(a) == Body(a)
    ensures AvoidsRuns(a) ==> BodyAsWritten(a) == Body(a)
  {
    FramesAsWrittenAgrees(a.entries);
    NumToBytesAgreesWithIntended(a.timeCreated);
    NumToBytesAgreesWithIntended(|a.entries|);
  }

  /** The account round trip of the code as written: with ASCII titles, a
      dump that does not raise loads back as the corrected one does, and the
      dump does not raise when no digit run is met. */
  lemma DumpsLoadsAsWritten(prims: Primitives, a: Account, rawPassword: string, iv: Iv, newSalt: Bytes32)
    requires IsBlockCipher(prims)
    requires a.password == DeriveKey(prims, rawPassword, a.salt)
    requires Storable(a) && AsciiTitles(a.entries)
    ensures AvoidsRuns(a) ==> DumpsAsWritten(prims, a, iv).Ok?
    ensures DumpsAsWritten(prims, a, iv).Ok? ==>
              Loads(prims, DumpsAsWritten(prims, a, iv).value, Some(rawPassword), newSalt)
              == Ok(Account(a.username, DeriveKey(prims, rawPassword, newSalt), newSalt, a.timeCreated, a.entries))
  {
    BodyAsWrittenAgrees(a);
    DumpsLoads(prims, a, rawPassword, iv, newSalt);
  }

  /** An entry with an empty title and a 270-character body dumps to
      21 + 270 = 291 = 0x123 bytes, a digit run: `num_to_bytes` raises on its
      size, so the account cannot be written, although the corrected dump
      of the same account succeeds. */
  lemma Entry291BlocksDump(prims: Primitives, iv: Iv)
    ensures var a := Account("", Zeros(32), Zeros(32), 0, [Entry("", seq(270, _ => 'a'), 0, 0, 0)]);
            && DumpsAsWritten(prims, a, iv) == Err(ValueError)
            && Dumps(prims, a, iv).Ok?
  {
    var e := Entry("", seq(270, _ => 'a'), 0, 0, 0);
    var a := Account("", Zeros(32), Zeros(32), 0, [e]);
    assert Utf8.IsAscii(e.body);
    Utf8.EncodeAscii(e.body);
    assert Utf8.Encode(e.title) == [];
    assert !IsDigitRun(0) by {
      assert Hex(0) == "0";
    }
    AsWrittenAgreesOnAscii(e);
    assert |Entries.DumpsAsWritten(e).value| == 291;
    NumToBytesRejects291();
    assert FrameAsWritten(e) == Err(ValueError);
    assert FramesAsWritten([e]) == Err(ValueError);
    SmallNumberToBytes(0);
    SmallNumberToBytes(1);
  }

  /** Two different passwords never feed the same bytes to SHA-256 under one
      salt, so the key depends on the whole password. */
  lemma KeyMaterialInjective(p: string, q: string, salt: bytes)
    requires KeyMaterial(p, salt) == KeyMaterial(q, salt)
    ensures p == q
  {
    Utf8.EncodeInjective(p, q);
  }

  /** The stored key field plays no part in loading. */
  lemma KeyFieldIgnored(raw: bytes, key: bytes)
    requires |raw| >= MinBodySize && |key| == 32
    ensures ParseBody(raw[..32] + key + raw[64..]) == ParseBody(raw)
  {
    var other := raw[..32] + key + raw[64..];
    assert other[..32] == raw[..32];
    assert other[64..72] == raw[64..72];
    assert other[72..74] == raw[72..74];
    assert other[74..] == raw[74..];
  }

  /** A decrypted body shorter than the fixed header is InvalidAccountFormat,
      however little is missing. */
  lemma ShortBodyIsInvalidFormat(prims: Primitives, encrypted: bytes, rawPassword: string, newSalt: Bytes32)
    requires ChecksAuth(prims, encrypted, Some(rawPassword)).Ok?
    requires ChecksAuth(prims, encrypted, Some(rawPassword)).value.Some?
    requires |ChecksAuth(prims, encrypted, Some(rawPassword)).value.value| < MinBodySize
    ensures Loads(prims, encrypted, Some(rawPassword), newSalt) == Err(InvalidAccountFormat)
  {
  }

  /** A declared entry whose size field is cut off entirely reaches
      `bytes_to_num(b'')`: the ValueError escapes `loads` uncaught. */
  lemma MissingSizeFieldEscapes(data: bytes, count: nat)
    requires count > 0 && |data| == 0
    ensures ParseEntries(data, count) == Err(ValueError)
  {
  }

  /** A body of exactly the fixed fields whose count field declares at
      least one entry: the entry loop reads `bytes_to_num(b'')`, and the
      ValueError escapes `loads`, caught by neither `except`. */
  lemma MissingSizeFieldEscapesLoads(prims: Primitives, encrypted: bytes, rawPassword: string, newSalt: Bytes32)
    requires ChecksAuth(prims, encrypted, Some(rawPassword)).Ok?
    requires ChecksAuth(prims, encrypted, Some(rawPassword)).value.Some?
    requires var raw := ChecksAuth(prims, encrypted, Some(rawPassword)).value.value;
             |raw| == MinBodySize && Utf8.Decode(raw[..32]).Some? && BigEndian(raw[72..74]) > 0
    ensures Loads(prims, encrypted, Some(rawPassword), newSalt) == Err(ValueError)
  {
    var raw := ChecksAuth(prims, encrypted, Some(rawPassword)).value.value;
    MissingSizeFieldEscapes(raw[74..], BigEndian(raw[72..74]));
  }

  /** A decryption that yields nothing is InvalidCredentials. */
  lemma EmptyDecryptionIsInvalidCredentials(prims: Primitives, encrypted: bytes, rawPassword: string,
                                            newSalt: Bytes32)
    requires ChecksAuth(prims, encrypted, Some(rawPassword)) == Ok(None)
    ensures Loads(prims, encrypted, Some(rawPassword), newSalt) == Err(InvalidCredentials)
  {
  }

  /** A body whose username field is not UTF-8 is InvalidAccountFormat. */
  lemma BadUsernameIsInvalidFormat(prims: Primitives, encrypted: bytes, rawPassword: string, newSalt: Bytes32)
    requires ChecksAuth(prims, encrypted, Some(rawPassword)).Ok?
    requires ChecksAuth(prims, encrypted, Some(rawPassword)).value.Some?
    requires |ChecksAuth(prims, encrypted, Some(rawPassword)).value.value| >= MinBodySize
    requires Utf8.Decode(ChecksAuth(prims, encrypted, Some(rawPassword)).value.value[..32]).None?
    ensures Loads(prims, encrypted, Some(rawPassword), newSalt) == Err(InvalidAccountFormat)
  {
  }

  /** Sign-up with a username and a password that are different strings
      never initialises the account, so `create_account` raises. */
  lemma DistinctCredentialsSkipInit(prims: Primitives, username: string, rawPassword: string,
                                    salt: Bytes32, now: nat, iv: Iv)
    requires username != rawPassword
    ensures CreateAccountAsWritten(prims, username, rawPassword, false, salt, now, iv) == Err(AttributeError)
  {
  }

  /** A freshly created account dumps and loads back under its password. */
  lemma CreateDumpsLoads(prims: Primitives, username: string, rawPassword: string, salt: Bytes32,
                         now: nat, iv: Iv, newSalt: Bytes32)
    requires IsBlockCipher(prims)
    requires |Utf8.Encode(username)| <= UsernameWidth && NoEdgeNul(username) && now < Pow256(8)
    ensures Create(prims, username, rawPassword, salt, now).Ok?
    ensures var a := Create(prims, username, rawPassword, salt, now).value;
            && Dumps(prims, a, iv).Ok?
            && Loads(prims, Dumps(prims, a, iv).value, Some(rawPassword), newSalt)
               == Ok(Account(username, DeriveKey(prims, rawPassword, newSalt), newSalt, now, []))
  {
    var a := Create(prims, username, rawPassword, salt, now).value;
    DumpsLoads(prims, a, rawPassword, iv, newSalt);
  }
}
