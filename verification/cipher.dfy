/**
  The `AESEncrypt` envelope of utils.py: PKCS #7 block padding (section 6.3
  of RFC 5652), `IV || AES-CBC(key, IV, padded)` on encryption, and the
  result rule of `decrypt` (an empty unpadded result comes back as None).

  AES-256 in CBC mode and SHA-256 are library calls; they are the
  function-valued fields of `Primitives`, and `IsBlockCipher` states the only
  facts about them the proofs use.
 */
module Cipher {
  import opened Errors
  import opened Codec

  const BlockSize: nat := 16

  type Bytes32 = s: bytes | |s| == 32 witness Zeros(32)
  type Iv = s: bytes | |s| == 16 witness Zeros(16)

  datatype Primitives = Primitives(
    sha256: bytes -> Bytes32,
    cbcEncrypt: (Bytes32, Iv, bytes) -> bytes,
    cbcDecrypt: (Bytes32, Iv, bytes) -> bytes)

  /** CBC under one key and IV maps whole blocks to as many bytes, and
      decryption undoes encryption. */
  ghost predicate IsBlockCipher(p: Primitives) {
    && (forall k: Bytes32, iv: Iv, m: bytes | |m| % BlockSize == 0 ::
          |p.cbcEncrypt(k, iv, m)| == |m| && p.cbcDecrypt(k, iv, p.cbcEncrypt(k, iv, m)) == m)
    && (forall k: Bytes32, iv: Iv, c: bytes | |c| % BlockSize == 0 ::
          |p.cbcDecrypt(k, iv, c)| == |c|)
  }

  /** Number of pad bytes `__pad` appends to a message of n bytes. */
  function PadCount(n: nat): (p: nat)
    ensures 1 <= p <= BlockSize
    ensures (n + p) % BlockSize == 0
  {
    BlockSize - n % BlockSize
  }

  /** `__pad`: p copies of the byte p, where p tops the message up to the next
      block boundary (a whole block when it is already aligned). */
  function Pad(msg: bytes): (r: bytes)
    ensures |r| % BlockSize == 0
    ensures |msg| < |r| <= |msg| + BlockSize
    ensures r[..|msg|] == msg
    ensures forall i :: |msg| <= i < |r| ==> r[i] == |r| - |msg|
  {
    var p := PadCount(|msg|);
    msg + seq(p, _ => p)
  }

  /** `__unpad`: `msg[:-ord(msg[-1:])]`. The last byte alone is the pad count;
      a count of 0 or one at least the length leaves nothing, and an empty
      message makes `ord` raise TypeError. */
  function Unpad(msg: bytes): (r: Result<bytes>)
    ensures |msg| == 0 <==> r.Err?
    ensures r.Err? ==> r.error == TypeError
    ensures r.Ok? ==> var p := msg[|msg| - 1];
                      |r.value| == if 0 < p < |msg| then |msg| - p else 0
    ensures r.Ok? ==> r.value == msg[..|r.value|]
  {
    if |msg| == 0 then Err(TypeError)
    else
      var p := msg[|msg| - 1];
      if p == 0 || p >= |msg| then Ok([]) else Ok(msg[..|msg| - p])
  }

  /** `AESEncrypt.encrypt` with the IV drawn by the caller: the IV in clear,
      then as many whole blocks as the padded message fills. */
  function Encrypt(prims: Primitives, key: Bytes32, iv: Iv, plain: bytes): (r: bytes)
    ensures |r| >= BlockSize && r[..BlockSize] == iv
    ensures IsBlockCipher(prims) ==> |r| == BlockSize + |Pad(plain)|
    ensures IsBlockCipher(prims) ==> |plain| < |r| - BlockSize <= |plain| + BlockSize
  {
    iv + prims.cbcEncrypt(key, iv, Pad(plain))
  }

  /** `AESEncrypt.decrypt`. The cipher library raises ValueError for an IV
      that is not 16 bytes and for a ciphertext that is not whole blocks;
      otherwise the plaintext is unpadded and an empty result reads as None. */
  function Decrypt(prims: Primitives, key: Bytes32, encrypted: bytes): (r: Result<Option<bytes>>)
    ensures |encrypted| < BlockSize || (|encrypted| - BlockSize) % BlockSize != 0 <==> r == Err(ValueError)
    ensures r.Ok? && r.value.Some? ==> |r.value.value| > 0
  {
    var iv := Slice(encrypted, 0, BlockSize);
    if |iv| != BlockSize then Err(ValueError)
    else
      var body := From(encrypted, BlockSize);
      if |body| % BlockSize != 0 then Err(ValueError)
      else
        var padded := prims.cbcDecrypt(key, iv, body);
        var result :- Unpad(padded);
        if |result| == 0 then Ok(None) else Ok(Some(result))
  }

  // ---------------------------------------------------------------------
  // Lemmas
  // ---------------------------------------------------------------------

  /** Unpadding undoes padding for every message. */
  lemma UnpadPad(m: bytes)
    ensures Unpad(Pad(m)) == Ok(m)
  {
    var r := Pad(m);
    assert r[|r| - 1] == |r| - |m|;
  }

  /** Only the last byte is read: whatever the other p - 1 pad bytes hold,
      the message in front of them comes back. */
  lemma UnpadIgnoresPadContents(m: bytes, junk: bytes, p: byte)
    requires p >= 1 && |junk| == p - 1
    ensures Unpad(m + junk + [p]) == Ok(m)
  {
    var msg := m + junk + [p];
    assert msg[..|msg| - p] == m;
  }

  /** When `decrypt` answers None: the unpadded plaintext is empty, which is
      the case for a last byte of 0, for a pad count at least the length, and
      for a genuinely empty message. */
  lemma DecryptNoneCases(prims: Primitives, key: Bytes32, encrypted: bytes)
    requires |encrypted| > BlockSize && (|encrypted| - BlockSize) % BlockSize == 0
    ensures var padded := prims.cbcDecrypt(key, encrypted[..BlockSize], encrypted[BlockSize..]);
            |padded| > 0 ==>
              (Decrypt(prims, key, encrypted) == Ok(None) <==>
                 (padded[|padded| - 1] == 0 || padded[|padded| - 1] >= |padded|))
  {
  }

  /** An IV with no ciphertext after it decrypts to nothing, and unpadding
      nothing raises TypeError. */
  lemma DecryptIvOnly(prims: Primitives, key: Bytes32, encrypted: bytes)
    requires IsBlockCipher(prims) && |encrypted| == BlockSize
    ensures Decrypt(prims, key, encrypted) == Err(TypeError)
  {
    var iv: Iv := encrypted;
    assert |prims.cbcDecrypt(key, iv, [])| == 0;
    assert From(encrypted, BlockSize) == [];
  }

  /** The envelope round trip: decrypting an encryption under the same key
      gives the message back, except that an empty message reads as None. */
  lemma DecryptEncrypt(prims: Primitives, key: Bytes32, iv: Iv, m: bytes)
    requires IsBlockCipher(prims)
    ensures Decrypt(prims, key, Encrypt(prims, key, iv, m)) == if |m| == 0 then Ok(None) else Ok(Some(m))
  {
    var e := Encrypt(prims, key, iv, m);
    var padded := Pad(m);
    var c := prims.cbcEncrypt(key, iv, padded);
    assert |c| == |padded|;
    assert Slice(e, 0, BlockSize) == iv;
    assert From(e, BlockSize) == c;
    UnpadPad(m);
  }
}
