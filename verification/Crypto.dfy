/**
 * The primitives the crate builds on, as a record of functions, and the constructions of crypto.rs
 * over them. Nothing is assumed of a primitive but what `Ideal` says.
 */
module Crypto {
  import opened Bytes
  import opened Entries

  const CHUNK_SIZE: nat := 1024 * 1024
  const KEY_LEN: nat := 32
  const NONCE_LEN: nat := 12
  const TAG_LEN: nat := 16
  const WRAPPED_KEY_LEN: nat := 60
  /** An ephemeral public key and a wrapped key. */
  const MASTER_WRAP_LEN: nat := 32 + WRAPPED_KEY_LEN
  const MANIFEST_SEQ: u64 := U64_MAX

  datatype KdfParams = KdfParams(mCostKib: u32, tCost: u32, lanes: u32) {
    predicate Validate() {
      1024 <= mCostKib <= 1024 * 1024 && 1 <= tCost <= 16 && 1 <= lanes <= 16
    }
  }

  datatype Primitives = Primitives(
    /** AES-256-GCM, with the interface of sections 2.1 and 2.2 of RFC 5116:
        key, nonce, associated data, and plaintext or ciphertext with its tag. */
    seal: (bytes, bytes, bytes, bytes) -> bytes,
    open: (bytes, bytes, bytes, bytes) -> Option<bytes>,
    /** HMAC-SHA256: key, message. */
    mac: (bytes, bytes) -> bytes,
    sha256: bytes -> bytes,
    /** Argon2id on validated parameters: password, salt, parameters. */
    argon2: (bytes, bytes, KdfParams) -> bytes,
    /** X25519: the public key of a secret, and the shared secret of a secret and a public key. */
    public: bytes -> bytes,
    agree: (bytes, bytes) -> bytes,
    /** bincode on the manifest. */
    serialize: seq<Entry> -> bytes,
    deserialize: bytes -> Option<seq<Entry>>
  ) {
    /** Opening inverts sealing and strips a 16-byte tag. */
    ghost predicate IdealAead() {
      && (forall k, n, a, p :: |seal(k, n, a, p)| == |p| + TAG_LEN)
      && (forall k, n, a, p :: open(k, n, a, seal(k, n, a, p)) == Some(p))
      && (forall k, n, a, b :: open(k, n, a, b).Some? ==> |b| == |open(k, n, a, b).value| + TAG_LEN)
    }

    ghost predicate IdealHashes() {
      && (forall k, m :: |mac(k, m)| == 32)
      && (forall m :: |sha256(m)| == 32)
      && (forall p, s, q :: |argon2(p, s, q)| == KEY_LEN)
    }

    /** Both parties of an exchange reach one shared secret (section 6.1 of RFC 7748). */
    ghost predicate IdealExchange() {
      && (forall s :: |public(s)| == 32)
      && (forall s, t :: agree(s, public(t)) == agree(t, public(s)))
    }

    ghost predicate IdealBincode() {
      forall es :: deserialize(serialize(es)) == Some(es)
    }

    /** What was sealed opens to its own plaintext or not at all, whichever key is tried. */
    ghost predicate Binding() {
      forall k, k', n, a, p :: open(k', n, a, seal(k, n, a, p)).Some? ==> open(k', n, a, seal(k, n, a, p)) == Some(p)
    }

    ghost predicate Ideal() {
      IdealAead() && IdealHashes() && IdealExchange() && IdealBincode()
    }
  }

  function DeriveKek(c: Primitives, password: bytes, salt: bytes, p: KdfParams): Result<bytes> {
    if p.Validate() then Ok(c.argon2(password, salt, p)) else Err(Tampered)
  }

  /** nonce | ciphertext | tag */
  function WrapKey(c: Primitives, kek: bytes, nonce: bytes, dk: bytes): bytes {
    nonce + c.seal(kek, nonce, [], dk)
  }

  function UnwrapKey(c: Primitives, kek: bytes, wrapped: bytes): Option<bytes>
    requires |wrapped| == WRAPPED_KEY_LEN
  {
    c.open(kek, wrapped[..NONCE_LEN], [], wrapped[NONCE_LEN..])
  }

  lemma UnwrapInvertsWrap(c: Primitives, kek: bytes, nonce: bytes, dk: bytes)
    requires c.IdealAead() && |nonce| == NONCE_LEN && |dk| == KEY_LEN
    ensures |WrapKey(c, kek, nonce, dk)| == WRAPPED_KEY_LEN
    ensures UnwrapKey(c, kek, WrapKey(c, kek, nonce, dk)) == Some(dk)
  {
  }

  /** The associated data of a chunk: the container and the chunk's global sequence number. */
  function Aad(uuid: bytes, s: u64): bytes {
    uuid + LE(s, 8)
  }

  lemma AadInjective(u1: bytes, s1: u64, u2: bytes, s2: u64)
    requires |u1| == |u2| && Aad(u1, s1) == Aad(u2, s2)
    ensures u1 == u2 && s1 == s2
  {
    assert u1 == Aad(u1, s1)[..|u1|] == u2;
    assert LE(s1, 8) == Aad(u1, s1)[|u1|..] == LE(s2, 8);
    U64RoundTrip(s1);
    U64RoundTrip(s2);
  }
}
