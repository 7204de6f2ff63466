/** AES in Galois/Counter Mode as `crypto/aes` and `crypto/cipher` offer it
    to the envelope code. The block cipher and the mode's internals are not
    modelled: an `Aead` is any pair of seal and open functions, and `Lawful`
    states the laws the envelope code relies on. Every operation that uses a
    cipher takes it as a parameter and requires it to be lawful. */
module Gcm {
  import opened Types

  /** `gcmStandardNonceSize`: the nonce length `cipher.NewGCM` fixes. */
  const NonceSize: nat := 12
  /** `gcmTagSize`: the length of the authentication tag appended by Seal. */
  const TagSize: nat := 16

  /** `aes.NewCipher` accepts AES-128, AES-192 and AES-256 keys and returns
      a `KeySizeError` for any other length. */
  predicate KeySizeOk(n: int) {
    n == 16 || n == 24 || n == 32
  }

  /** The two operations of an AEAD built from a key, with no additional
      authenticated data: `seal(key, nonce, plaintext)` and
      `open(key, nonce, ciphertext)`; `None` from `open` stands for the
      authentication failure `Open` reports. */
  datatype Aead = Aead(
    seal: (seq<byte>, seq<byte>, seq<byte>) -> seq<byte>,
    open: (seq<byte>, seq<byte>, seq<byte>) -> Option<seq<byte>>)

  /** The laws of AES-GCM, for every valid key and standard-size nonce:
      a sealed message is the plaintext plus a 16-byte tag; opening a sealed
      message gives back the plaintext; and opening succeeds only on a
      message that is exactly the seal of what it returns (the tag is a
      function of key, nonce and ciphertext, so any other input fails). */
  ghost predicate Lawful(a: Aead) {
    (forall key, nonce, plain ::
      KeySizeOk(|key|) && |nonce| == NonceSize ==>
        |a.seal(key, nonce, plain)| == |plain| + TagSize &&
        a.open(key, nonce, a.seal(key, nonce, plain)) == Some(plain)) &&
    (forall key, nonce, sealed ::
      KeySizeOk(|key|) && |nonce| == NonceSize && a.open(key, nonce, sealed).Some? ==>
        a.seal(key, nonce, a.open(key, nonce, sealed).value) == sealed)
  }

  /** `aesgcm.Seal(nil, nonce, plaintext, nil)`. A nonce of the wrong length
      makes Go's `Seal` panic, so it is excluded here. */
  function Seal(a: Aead, key: seq<byte>, nonce: seq<byte>, plain: seq<byte>): (sealed: seq<byte>)
    requires Lawful(a) && KeySizeOk(|key|) && |nonce| == NonceSize
    ensures |sealed| == |plain| + TagSize
    ensures Open(a, key, nonce, sealed) == Some(plain)
  {
    a.seal(key, nonce, plain)
  }

  /** `aesgcm.Open(nil, nonce, ciphertext, nil)`: either the whole plaintext
      or a failure, never part of one. A nonce of the wrong length makes Go's
      `Open` panic, so it is excluded here. */
  function Open(a: Aead, key: seq<byte>, nonce: seq<byte>, sealed: seq<byte>): (plain: Option<seq<byte>>)
    requires Lawful(a) && KeySizeOk(|key|) && |nonce| == NonceSize
    ensures plain.Some? ==> a.seal(key, nonce, plain.value) == sealed
    ensures plain.Some? ==> |plain.value| + TagSize == |sealed|
  {
    a.open(key, nonce, sealed)
  }

  /** A message shorter than a tag never opens. */
  lemma ShortNeverOpens(a: Aead, key: seq<byte>, nonce: seq<byte>, sealed: seq<byte>)
    requires Lawful(a) && KeySizeOk(|key|) && |nonce| == NonceSize
    requires |sealed| < TagSize
    ensures Open(a, key, nonce, sealed) == None
  {
  }

  /** Opening is the exact inverse of sealing: it succeeds on a message
      precisely when that message is the seal of the plaintext returned. */
  lemma OpenIff(a: Aead, key: seq<byte>, nonce: seq<byte>, sealed: seq<byte>, plain: seq<byte>)
    requires Lawful(a) && KeySizeOk(|key|) && |nonce| == NonceSize
    ensures Open(a, key, nonce, sealed) == Some(plain) <==> Seal(a, key, nonce, plain) == sealed
  {
  }

  /** The laws can be met: appending sixteen zero bytes as the "tag" and
      checking them on open is a lawful (if insecure) AEAD, so requiring
      `Lawful` excludes nothing the envelope code needs. */
  lemma LawsAreSatisfiable()
    ensures exists a :: Lawful(a)
  {
    var tag: seq<byte> := seq(TagSize, _ => 0);
    var a := Aead(
      (key: seq<byte>, nonce: seq<byte>, plain: seq<byte>) => plain + tag,
      (key: seq<byte>, nonce: seq<byte>, sealed: seq<byte>) =>
        if |sealed| >= TagSize && sealed[|sealed| - TagSize..] == tag
        then Some(sealed[..|sealed| - TagSize]) else None);
    forall key, nonce, plain
      ensures |a.seal(key, nonce, plain)| == |plain| + TagSize
      ensures a.open(key, nonce, a.seal(key, nonce, plain)) == Some(plain)
    {
      var sealed := plain + tag;
      assert sealed[|sealed| - TagSize..] == tag && sealed[..|sealed| - TagSize] == plain;
    }
    forall key, nonce, sealed | a.open(key, nonce, sealed).Some?
      ensures a.seal(key, nonce, a.open(key, nonce, sealed).value) == sealed
    {
      assert sealed == sealed[..|sealed| - TagSize] + sealed[|sealed| - TagSize..];
    }
    assert Lawful(a);
  }
}
