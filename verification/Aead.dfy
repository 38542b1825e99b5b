/** The authenticated cipher, as the functions the codec calls. AES-GCM and ChaCha20-Poly1305 are foreign code:
    a codec holds a value of this type and the theorems say which of the properties below they use. */
module AeadModel {
  import opened Bytes

  const TAG_SIZE: nat := 16

  /** Seal(nonce, additional data, plaintext) and Open(nonce, additional data, ciphertext), the key bound. */
  datatype Aead = Aead(
    seal: (Bytes, Bytes, Bytes) -> Bytes,
    open: (Bytes, Bytes, Bytes) -> Option<Bytes>)

  /** Open accepts exactly what Seal produces; both ciphers are deterministic, so this holds of them literally. */
  ghost predicate Correct(a: Aead) {
    && (forall n: Bytes, ad: Bytes, p: Bytes :: |a.seal(n, ad, p)| == |p| + TAG_SIZE)
    && (forall n: Bytes, ad: Bytes, c: Bytes, p: Bytes {:trigger a.open(n, ad, c), a.seal(n, ad, p)} ::
          a.open(n, ad, c) == Some(p) <==> c == a.seal(n, ad, p))
  }

  /** A ciphertext opens under one 12-byte nonce only: the idealised part. */
  ghost predicate NonceBound(a: Aead) {
    forall n: Bytes, m: Bytes, ad: Bytes, c: Bytes {:trigger a.open(n, ad, c), a.open(m, ad, c)} ::
      |n| == 12 && |m| == 12 && a.open(n, ad, c).Some? && a.open(m, ad, c).Some? ==> n == m
  }

  function ToySeal(n: Bytes, ad: Bytes, p: Bytes): Bytes {
    p + if |n| == 12 then n + [0, 0, 0, 0] else seq(TAG_SIZE, _ => 0)
  }

  function ToyOpen(n: Bytes, ad: Bytes, c: Bytes): Option<Bytes> {
    if |c| >= TAG_SIZE && c == ToySeal(n, ad, c[..|c| - TAG_SIZE]) then Some(c[..|c| - TAG_SIZE]) else None
  }

  /** The assumptions are consistent: a cipher with both properties exists. */
  lemma IdealAeadExists() returns (a: Aead)
    ensures Correct(a) && NonceBound(a)
  {
    a := Aead(ToySeal, ToyOpen);
    forall n: Bytes, ad: Bytes, c: Bytes, p: Bytes
      ensures a.open(n, ad, c) == Some(p) <==> c == a.seal(n, ad, p)
    {
      if c == ToySeal(n, ad, p) {
        assert c[..|c| - TAG_SIZE] == p;
      }
    }
    forall n: Bytes, m: Bytes, ad: Bytes, c: Bytes
      | |n| == 12 && |m| == 12 && a.open(n, ad, c).Some? && a.open(m, ad, c).Some?
      ensures n == m
    {
      var k := |c| - TAG_SIZE;
      assert n == c[k..k + 12] && m == c[k..k + 12];
    }
  }
}
