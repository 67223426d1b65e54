/** The AES-GCM primitive, seen only through its interface. */
module Gcm {
  import opened Types

  /** gcm.NonceSize() for the standard AES-GCM construction. */
  const NONCE_SIZE: nat := 12
  /** gcm.Overhead(): the length of the authentication tag. */
  const OVERHEAD: nat := 16

  type Nonce = s: seq<byte> | |s| == NONCE_SIZE witness [0, 0, 0, 0, 0, 0, 0, 0, 0, 0, 0, 0]

  /** The key lengths aes.NewCipher accepts (AES-128, AES-192, AES-256). */
  predicate ValidKeyLength(n: int) {
    n == 16 || n == 24 || n == 32
  }

  /** An AEAD as a pair of functions `seal(key, nonce, plaintext)` and
      `open(key, nonce, ciphertext)`; `open` yields None when authentication fails. */
  datatype Aead = Aead(
    seal: (seq<byte>, seq<byte>, seq<byte>) -> seq<byte>,
    open: (seq<byte>, seq<byte>, seq<byte>) -> Option<seq<byte>>)

  /** Sealing adds exactly OVERHEAD bytes. */
  ghost predicate SealLength(a: Aead) {
    forall key, nonce, p :: |a.seal(key, nonce, p)| == |p| + OVERHEAD
  }

  /** Opening what was sealed under the same key and nonce gives the plaintext back. */
  ghost predicate OpenInvertsSeal(a: Aead) {
    forall key, nonce, p :: a.open(key, nonce, a.seal(key, nonce, p)) == Some(p)
  }

  /** The two facts about AES-GCM that the pipeline relies on. */
  ghost predicate Sound(a: Aead) {
    SealLength(a) && OpenInvertsSeal(a)
  }

  /** A stand-in cipher (plaintext followed by a constant tag), used only to show
      that `Sound` can be met, so no precondition built on it is vacuous. */
  function ToyAead(): Aead {
    var tag := seq(OVERHEAD, _ => 0);
    Aead(
      (key, nonce, p) => p + tag,
      (key, nonce, c) =>
        if |c| >= OVERHEAD && c[|c| - OVERHEAD..] == tag then Some(c[..|c| - OVERHEAD]) else None)
  }

  lemma ToyAeadIsSound()
    ensures Sound(ToyAead())
  {
    var a := ToyAead();
    forall key, nonce, p
      ensures a.open(key, nonce, a.seal(key, nonce, p)) == Some(p)
    {
      var c := a.seal(key, nonce, p);
      assert c[|c| - OVERHEAD..] == seq(OVERHEAD, _ => 0);
      assert c[..|c| - OVERHEAD] == p;
    }
  }
}
