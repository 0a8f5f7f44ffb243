/**
  The cryptographic primitives the validators are built on: HMAC-SHA2 for
  the HS family and RSASSA-PKCS1-v1_5 with SHA-2 for the RS family. They are
  calls into OpenSSL, so the model does not compute them: they are fields of
  a `Primitives` record, and what the validators rely on is stated as
  explicit hypotheses about that record.
 */
module Crypto {
  import opened Wrappers

  newtype uint8 = x: int | 0 <= x < 256

  type Bytes = seq<uint8>

  /** Digest width that tells the three instances of a family apart. */
  datatype Width = W256 | W384 | W512

  /** Output length in bytes of SHA-256, SHA-384 and SHA-512 (FIPS 180-4), and so of their HMAC. */
  function HashLength(w: Width): (n: nat)
    ensures 32 <= n <= 64
  {
    match w
    case W256 => 32
    case W384 => 48
    case W512 => 64
  }

  /** Largest RSA signature in bytes: OpenSSL refuses moduli above 16384 bits. */
  const MaxRsaSignatureBytes: nat := 2048

  /**
    The primitive operations, uninterpreted:
    - `hmac(w, secret, data)` is the keyed digest of `data`;
    - `rsaSign(w, privateKey, data)` is the PKCS #1 v1.5 signature of `data`;
    - `rsaVerify(w, publicKey, data, signature)` checks such a signature.
   */
  datatype Primitives = Primitives(
    hmac: (Width, Bytes, Bytes) -> Bytes,
    rsaSign: (Width, Bytes, Bytes) -> Bytes,
    rsaVerify: (Width, Bytes, Bytes, Bytes) -> bool)

  /**
    What every use of the primitives may rely on: an HMAC is exactly as long
    as its hash, an RSA signature is non-empty and no longer than the largest
    modulus, and no public key accepts the empty signature.
   */
  ghost predicate Sound(p: Primitives) {
    && (forall w, k, d :: |p.hmac(w, k, d)| == HashLength(w))
    && (forall w, k, d :: 0 < |p.rsaSign(w, k, d)| <= MaxRsaSignatureBytes)
    && (forall w, k, d :: !p.rsaVerify(w, k, d, []))
  }

  /**
    `pub` and `priv` are the two halves of one RSA key: the public key accepts
    what the private key signs, and, PKCS #1 v1.5 signatures being
    deterministic, nothing else.
   */
  ghost predicate RsaKeyPair(p: Primitives, pub: Bytes, priv: Bytes) {
    && (forall w, d :: p.rsaVerify(w, pub, d, p.rsaSign(w, priv, d)))
    && (forall w, d, s :: p.rsaVerify(w, pub, d, s) ==> s == p.rsaSign(w, priv, d))
  }

  /** A trivial instance of the primitives, used only to show the hypotheses can hold together. */
  function TrivialPrimitives(): Primitives {
    Primitives(
      (w: Width, k: Bytes, d: Bytes) => seq(HashLength(w), _ => 0 as uint8),
      (w: Width, k: Bytes, d: Bytes) => [1 as uint8],
      (w: Width, k: Bytes, d: Bytes, s: Bytes) => s == [1 as uint8])
  }

  /** The hypotheses are consistent: some primitives meet all of them, for some key pair. */
  lemma HypothesesSatisfiable()
    ensures Sound(TrivialPrimitives())
    ensures RsaKeyPair(TrivialPrimitives(), [], [])
  {
  }

  /** The bytes of an ASCII (or Latin-1) string, one byte per character. */
  function Ascii(s: string): (r: Bytes)
    requires forall i :: 0 <= i < |s| ==> s[i] as int < 256
    ensures |r| == |s|
    ensures forall i :: 0 <= i < |s| ==> r[i] as int == s[i] as int
  {
    if s == [] then [] else [s[0] as int as uint8] + Ascii(s[1..])
  }
}
