/**
  Properties of the HS and RS signers and of the NoneValidator: what they
  accept, what they reject, and how signing and verifying fit together.
 */
module Signers {
  import opened Wrappers
  import opened Json
  import opened Crypto
  import opened Validators

  /**
    The collision hypothesis for two messages: the signer's signatures of
    `m` and `m'` differ. Real digests have collisions, so this cannot be a
    law about all messages; it is assumed for the messages at hand.
   */
  predicate NoCollision(p: Primitives, v: Validator, m: Bytes, m': Bytes)
    requires v.IsSigner()
  {
    Signature(p, v, m) != Signature(p, v, m')
  }

  /** A leaf accepts exactly its own signature of the data: the signature a signer produces is the only one. */
  lemma LeafAcceptsOwnSignature(p: Primitives, v: Validator, data: Bytes, sig: Bytes)
    requires v.IsSigner() && v.CanSign() && Keyed(p, v)
    ensures LeafAccepts(p, v, data, sig) <==> sig == Signature(p, v, data).value
  {
  }

  /** A signer accepts the digest it has just produced, whatever the header (the header is ignored). */
  lemma SignThenValidate(p: Primitives, v: Validator, hdr: Option<Header>, m: Bytes)
    requires Sound(p) && v.IsSigner() && v.CanSign() && Keyed(p, v)
    ensures Digest(p, v, m).Some?
    ensures Validate(p, v, hdr, m, Digest(p, v, m).value)
  {
  }

  /** No HS or RS validator accepts the empty signature, even one built from a public key only. */
  lemma EmptySignatureRejected(p: Primitives, v: Validator, hdr: Option<Header>, m: Bytes)
    requires Sound(p) && v.IsSigner()
    ensures !Validate(p, v, hdr, m, [])
  {
  }

  /** The digest of `m` does not validate a different message `m'`, given no collision between the two. */
  lemma TamperDetected(p: Primitives, v: Validator, hdr: Option<Header>, m: Bytes, m': Bytes)
    requires Sound(p) && v.IsSigner() && v.CanSign() && Keyed(p, v)
    requires NoCollision(p, v, m, m')
    ensures Digest(p, v, m).Some?
    ensures !Validate(p, v, hdr, m', Digest(p, v, m).value)
  {
  }

  /**
    Signing the first `k` bytes into a buffer of at least the largest
    signature size succeeds, reports a length within the buffer, and
    verifying the same `k` bytes against the buffer and that length succeeds.
   */
  lemma SignRangeThenVerify(p: Primitives, v: Validator, hdr: Option<Header>,
                                               m: Bytes, k: nat, out: Bytes)
    requires Sound(p) && v.IsSigner() && v.CanSign() && Keyed(p, v)
    requires k <= |m| && |out| >= MaxSignatureBytes
    ensures Sign(p, v, m, k, out).Some?
    ensures Sign(p, v, m, k, out).value.length <= |out|
    ensures Verify(p, v, hdr, m, k, Sign(p, v, m, k, out).value.buffer, Sign(p, v, m, k, out).value.length)
  {
  }

  /**
    A range signature binds the range: verifying it over another range `m'[..k']`
    whose bytes differ fails, given no collision between the two ranges.
   */
  lemma SignRangeRejectsOtherRange(p: Primitives, v: Validator, hdr: Option<Header>,
                                                      m: Bytes, k: nat, m': Bytes, k': nat, out: Bytes)
    requires Sound(p) && v.IsSigner() && v.CanSign() && Keyed(p, v)
    requires k <= |m| && k' <= |m'| && |out| >= MaxSignatureBytes
    requires NoCollision(p, v, m[..k], m'[..k'])
    ensures Sign(p, v, m, k, out).Some?
    ensures !Verify(p, v, hdr, m', k', Sign(p, v, m, k, out).value.buffer, Sign(p, v, m, k, out).value.length)
  {
  }
}
