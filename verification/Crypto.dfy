/** The key and object envelopes of internal/storage/crypto.go. SHA-256 and AES-GCM are
    function values; what the code needs of them is the hypothesis `Sound`. Random keys and
    nonces are inputs. */
module Crypto {
  import opened Prelude

  const NONCE_SIZE := 12
  const DEK_SIZE := 32
  const HASH_SIZE := 32

  /** An AES key has 16, 24 or 32 bytes; newGCM fails on any other. */
  predicate ValidKey(key: bytes) {
    |key| == 16 || |key| == 24 || |key| == 32
  }

  datatype Primitives = Primitives(
    sha256: bytes -> bytes,
    // seal(key, nonce, plaintext, aad) and open(key, nonce, sealed, aad)
    seal: (bytes, bytes, bytes, bytes) -> bytes,
    open: (bytes, bytes, bytes, bytes) -> Option<bytes>
  ) {
    /** Digests have 32 bytes and an authenticated decryption undoes the encryption. Nothing is
        asked of `open` on any other input. */
    ghost predicate Sound() {
      && (forall m: bytes :: |sha256(m)| == HASH_SIZE)
      && (forall k: bytes, n: bytes, m: bytes, a: bytes ::
            ValidKey(k) && |n| == NONCE_SIZE ==> open(k, n, seal(k, n, m, a), a) == Some(m))
    }

    /** What was sealed opens under its own key, nonce and associated data only. */
    ghost predicate Authentic() {
      forall k: bytes, n: bytes, m: bytes, a: bytes, k': bytes, n': bytes, a': bytes ::
        open(k', n', seal(k, n, m, a), a').Some? ==> k' == k && n' == n && a' == a
    }
  }

  /** Layout: nonce, then ciphertext with its tag. */
  function WrapDek(p: Primitives, kek: bytes, dek: bytes, aad: bytes, nonce: bytes): Option<bytes> {
    if !ValidKey(kek) then None else Some(nonce + p.seal(kek, nonce, dek, aad))
  }

  function UnwrapDek(p: Primitives, kek: bytes, wrapped: bytes, aad: bytes): Option<bytes> {
    if !ValidKey(kek) || |wrapped| < NONCE_SIZE then None
    else p.open(kek, wrapped[..NONCE_SIZE], wrapped[NONCE_SIZE..], aad)
  }

  /** The nonce is returned beside the ciphertext, for the object header. */
  function Encrypt(p: Primitives, dek: bytes, plaintext: bytes, aad: bytes, nonce: bytes): Option<(bytes, bytes)> {
    if !ValidKey(dek) then None else Some((nonce, p.seal(dek, nonce, plaintext, aad)))
  }

  function Decrypt(p: Primitives, dek: bytes, nonce: bytes, sealed: bytes, aad: bytes): Option<bytes> {
    if !ValidKey(dek) then None else p.open(dek, nonce, sealed, aad)
  }

  lemma UnwrapUndoesWrap(p: Primitives, kek: bytes, dek: bytes, aad: bytes, nonce: bytes)
    requires p.Sound() && ValidKey(kek) && |nonce| == NONCE_SIZE
    ensures WrapDek(p, kek, dek, aad, nonce).Some?
    ensures UnwrapDek(p, kek, WrapDek(p, kek, dek, aad, nonce).value, aad) == Some(dek)
  {
    var sealed := p.seal(kek, nonce, dek, aad);
    assert (nonce + sealed)[..NONCE_SIZE] == nonce;
    assert (nonce + sealed)[NONCE_SIZE..] == sealed;
  }

  /** A wrapped key is bound to its content and to the master key: it unwraps for no other. */
  lemma WrappedKeyIsBound(p: Primitives, kek: bytes, dek: bytes, aad: bytes, nonce: bytes, kek': bytes, aad': bytes)
    requires p.Authentic() && ValidKey(kek) && |nonce| == NONCE_SIZE && (kek' != kek || aad' != aad)
    ensures UnwrapDek(p, kek', WrapDek(p, kek, dek, aad, nonce).value, aad') == None
  {
    var sealed := p.seal(kek, nonce, dek, aad);
    assert (nonce + sealed)[..NONCE_SIZE] == nonce;
    assert (nonce + sealed)[NONCE_SIZE..] == sealed;
  }
}
