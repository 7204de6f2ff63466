/** The envelope helpers of encrypt.go: `encrypt` and `decrypt` chain Base64
    decoding of the key and nonce, construction of the AES-GCM cipher,
    sealing or opening, and Base64 coding of the payload; `newKey` draws a
    fresh key and nonce and returns them Base64-encoded. Errors are returned,
    never partial results. */
module Envelope {
  import opened Types
  import opened Base64
  import opened Gcm

  /** The errors the chains return. */
  datatype Error =
    | CorruptInput    // base64.CorruptInputError from DecodeString
    | KeySize(n: nat) // aes.KeySizeError from aes.NewCipher
    | AuthFailed      // "cipher: message authentication failed" from Open
    | RandFailed      // a read error from crypto/rand

  /** Go's GCM panics on a nonce of the wrong length. The chains reach Seal
      or Open only when key and nonce decode and the key has a valid size;
      this says the nonce then has the standard size. */
  predicate NonceFits(keyB64: seq<byte>, nonceB64: seq<byte>) {
    match (Decode(keyB64), Decode(nonceB64))
    case (Some(key), Some(nonce)) => KeySizeOk(|key|) ==> |nonce| == NonceSize
    case _ => true
  }

  /** The result of `encrypt`: when it succeeds, it is valid padded Base64
      of length 4 * ceil((|payload| + 16) / 3). */
  function Encrypted(a: Aead, keyB64: seq<byte>, nonceB64: seq<byte>, payload: seq<byte>): (r: Result<seq<byte>, Error>)
    requires Lawful(a) && NonceFits(keyB64, nonceB64)
    ensures r.Ok? ==> IsEncoded(r.value) && |r.value| == EncodedLen(|payload| + TagSize)
  {
    match Decode(keyB64)
    case None => Err(CorruptInput)
    case Some(key) =>
      match Decode(nonceB64)
      case None => Err(CorruptInput)
      case Some(nonce) =>
        if !KeySizeOk(|key|) then Err(KeySize(|key|))
        else
          var sealed := Seal(a, key, nonce, payload);
          EncodeIsEncoded(sealed);
          Ok(Encode(sealed))
  }

  /** `encrypt`: decodes key and nonce, builds the cipher, seals the payload,
      and Base64-encodes the sealed message into a buffer allocated at its
      encoded length. */
  method Encrypt(a: Aead, keyB64: seq<byte>, nonceB64: seq<byte>, payload: seq<byte>) returns (r: Result<seq<byte>, Error>)
    requires Lawful(a) && NonceFits(keyB64, nonceB64)
    ensures r == Encrypted(a, keyB64, nonceB64, payload)
  {
    var key := Decode(keyB64);
    if key.None? {
      return Err(CorruptInput);
    }
    var nonce := Decode(nonceB64);
    if nonce.None? {
      return Err(CorruptInput);
    }
    if !KeySizeOk(|key.value|) {
      return Err(KeySize(|key.value|));
    }
    var sealed := Seal(a, key.value, nonce.value, payload);
    var result := new byte[EncodedLen(|sealed|)];
    EncodeInto(result, sealed);
    return Ok(result[..]);
  }

  /** `decrypt`: decodes key, nonce and payload, builds the cipher and opens
      the payload. A plaintext is returned only when the payload decodes to
      exactly the seal of that plaintext. A nonce of the wrong length would
      panic in Open, which the model excludes. */
  function Decrypt(a: Aead, keyB64: seq<byte>, nonceB64: seq<byte>, payloadB64: seq<byte>): (r: Result<seq<byte>, Error>)
    requires Lawful(a)
    requires IsEncoded(payloadB64) ==> NonceFits(keyB64, nonceB64)
    ensures r.Ok? ==> IsEncoded(payloadB64) && |r.value| + TagSize == |Decode(payloadB64).value|
  {
    match Decode(keyB64)
    case None => Err(CorruptInput)
    case Some(key) =>
      match Decode(nonceB64)
      case None => Err(CorruptInput)
      case Some(nonce) =>
        match Decode(payloadB64)
        case None => Err(CorruptInput)
        case Some(payload) =>
          if !KeySizeOk(|key|) then Err(KeySize(|key|))
          else
            match Open(a, key, nonce, payload)
            case None => Err(AuthFailed)
            case Some(plain) => Ok(plain)
  }

  /** Round trip: whatever `encrypt` produces, `decrypt` with the same key
      and nonce turns back into the original payload. */
  lemma DecryptEncrypted(a: Aead, keyB64: seq<byte>, nonceB64: seq<byte>, payload: seq<byte>)
    requires Lawful(a) && NonceFits(keyB64, nonceB64)
    requires Encrypted(a, keyB64, nonceB64, payload).Ok?
    ensures Decrypt(a, keyB64, nonceB64, Encrypted(a, keyB64, nonceB64, payload).value) == Ok(payload)
  {
    var key, nonce := Decode(keyB64).value, Decode(nonceB64).value;
    DecodeEncode(Seal(a, key, nonce, payload));
  }

  /** `encrypt` fails exactly when the key or the nonce is not Base64 or the
      key has no AES size; it never looks at the payload. */
  lemma EncryptedFailsIff(a: Aead, keyB64: seq<byte>, nonceB64: seq<byte>, payload: seq<byte>)
    requires Lawful(a) && NonceFits(keyB64, nonceB64)
    ensures Encrypted(a, keyB64, nonceB64, payload).Err? <==>
      !IsEncoded(keyB64) || !IsEncoded(nonceB64) || !KeySizeOk(|Decode(keyB64).value|)
  {
  }

  /** A key and nonce that decode to an AES key and a standard nonce can
      encrypt any payload. */
  predicate Usable(keyB64: seq<byte>, nonceB64: seq<byte>) {
    match (Decode(keyB64), Decode(nonceB64))
    case (Some(key), Some(nonce)) => KeySizeOk(|key|) && |nonce| == NonceSize
    case _ => false
  }

  lemma UsableEncrypts(a: Aead, keyB64: seq<byte>, nonceB64: seq<byte>, payload: seq<byte>)
    requires Lawful(a) && Usable(keyB64, nonceB64)
    ensures NonceFits(keyB64, nonceB64) && Encrypted(a, keyB64, nonceB64, payload).Ok?
  {
  }

  /** `decrypt` returns a decoding error and no plaintext when the key, the
      nonce or the payload is not Base64. */
  lemma DecryptRejectsBadInput(a: Aead, keyB64: seq<byte>, nonceB64: seq<byte>, payloadB64: seq<byte>)
    requires Lawful(a) && (IsEncoded(payloadB64) ==> NonceFits(keyB64, nonceB64))
    requires !IsEncoded(keyB64) || !IsEncoded(nonceB64) || !IsEncoded(payloadB64)
    ensures Decrypt(a, keyB64, nonceB64, payloadB64) == Err(CorruptInput)
  {
  }

  /** Authenticity: a plaintext comes out of `decrypt` only if the payload
      decodes to exactly its seal under the given key and nonce. */
  lemma DecryptAuthentic(a: Aead, keyB64: seq<byte>, nonceB64: seq<byte>, payloadB64: seq<byte>, plain: seq<byte>)
    requires Lawful(a) && (IsEncoded(payloadB64) ==> NonceFits(keyB64, nonceB64))
    requires Decrypt(a, keyB64, nonceB64, payloadB64) == Ok(plain)
    ensures Usable(keyB64, nonceB64)
    ensures Decode(payloadB64) == Some(Seal(a, Decode(keyB64).value, Decode(nonceB64).value, plain))
  {
  }

  /** Tampering: a payload whose decoded bytes differ from those of an
      encryption of `plain` never decrypts to `plain`. */
  lemma TamperedNeverYieldsOriginal(a: Aead, keyB64: seq<byte>, nonceB64: seq<byte>, plain: seq<byte>, tampered: seq<byte>)
    requires Lawful(a) && NonceFits(keyB64, nonceB64)
    requires Encrypted(a, keyB64, nonceB64, plain).Ok?
    requires Decode(tampered) != Decode(Encrypted(a, keyB64, nonceB64, plain).value)
    ensures Decrypt(a, keyB64, nonceB64, tampered) != Ok(plain)
  {
    DecryptEncrypted(a, keyB64, nonceB64, plain);
    if Decrypt(a, keyB64, nonceB64, tampered) == Ok(plain) {
      DecryptAuthentic(a, keyB64, nonceB64, tampered, plain);
      DecryptAuthentic(a, keyB64, nonceB64, Encrypted(a, keyB64, nonceB64, plain).value, plain);
    }
  }

  /** What `newKey` returns for a successful draw: the encodings of a
      32-byte key and a 12-byte nonce are 44 and 16 symbols long, decode back
      to the drawn bytes, and can encrypt. */
  lemma DrawEncodes(key: seq<byte>, nonce: seq<byte>)
    requires |key| == KeyBytes && |nonce| == NonceSize
    ensures |Encode(key)| == 44 && |Encode(nonce)| == 16
    ensures Decode(Encode(key)) == Some(key) && Decode(Encode(nonce)) == Some(nonce)
    ensures Usable(Encode(key), Encode(nonce))
  {
    assert EncodedLen(KeyBytes) == 44 && EncodedLen(NonceSize) == 16;
    DecodeEncode(key);
    DecodeEncode(nonce);
  }

  /** Tamper detection holds for the decoded bytes, not for the text: the
      decoder skips line breaks, so a line break added to the output of
      `encrypt` still decrypts to the original payload. */
  lemma NewlineKeepsPlaintext(a: Aead, keyB64: seq<byte>, nonceB64: seq<byte>, payload: seq<byte>)
    requires Lawful(a) && NonceFits(keyB64, nonceB64)
    requires Encrypted(a, keyB64, nonceB64, payload).Ok?
    ensures var text := Encrypted(a, keyB64, nonceB64, payload).value;
      text + [LF] != text && Decrypt(a, keyB64, nonceB64, text + [LF]) == Ok(payload)
  {
    var text := Encrypted(a, keyB64, nonceB64, payload).value;
    TrailingNewline(text);
    DecryptEncrypted(a, keyB64, nonceB64, payload);
  }

  /** The key length `newKey` draws: AES-256. */
  const KeyBytes: nat := 32

  /** Usable key material exists: the preconditions that ask for it can be
      met, for instance by what `newKey` returns for an all-zero draw. */
  lemma UsableExists()
    ensures exists keyB64, nonceB64 :: Usable(keyB64, nonceB64)
  {
    var key: seq<byte>, nonce: seq<byte> := seq(KeyBytes, _ => 0), seq(NonceSize, _ => 0);
    DrawEncodes(key, nonce);
    assert Usable(Encode(key), Encode(nonce));
  }

  /** `newKey`: fills a 32-byte key and a 12-byte nonce from `crypto/rand`
      and returns both Base64-encoded. The random source is a parameter:
      `None` is a read error, `Some(bytes)` the bytes a successful read
      delivers (a successful read fills the whole buffer). */
  method NewKey(keyDraw: Option<seq<byte>>, nonceDraw: Option<seq<byte>>) returns (r: Result<(seq<byte>, seq<byte>), Error>)
    requires keyDraw.Some? ==> |keyDraw.value| == KeyBytes
    requires nonceDraw.Some? ==> |nonceDraw.value| == NonceSize
    ensures r.Ok? <==> keyDraw.Some? && nonceDraw.Some?
    ensures r.Err? ==> r.error == RandFailed
    ensures r.Ok? ==> |r.value.0| == 44 && |r.value.1| == 16
    ensures r.Ok? ==> Decode(r.value.0) == keyDraw && Decode(r.value.1) == nonceDraw
    ensures r.Ok? ==> Usable(r.value.0, r.value.1)
  {
    var key := new byte[KeyBytes];
    if keyDraw.None? {
      return Err(RandFailed);
    }
    forall i | 0 <= i < KeyBytes {
      key[i] := keyDraw.value[i];
    }
    var nonce := new byte[NonceSize];
    if nonceDraw.None? {
      return Err(RandFailed);
    }
    forall i | 0 <= i < NonceSize {
      nonce[i] := nonceDraw.value[i];
    }
    assert key[..] == keyDraw.value && nonce[..] == nonceDraw.value;
    DrawEncodes(key[..], nonce[..]);
    return Ok((Encode(key[..]), Encode(nonce[..])));
  }
}
