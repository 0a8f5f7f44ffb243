/**
  The validator abstraction: one datatype with a variant per concrete
  validator class, and the operations every validator or signer offers.

  `Verify` over an explicit byte range is the primitive check and
  `Validate` over whole strings is the convenience built on it; likewise
  `Sign` into a caller-supplied buffer is the primitive signing operation
  and `Digest` is built on it.
 */
module Validators {
  import opened Wrappers
  import opened Json
  import opened Crypto

  /** Header field a KidValidator dispatches on. */
  const KidField: string := "kid"

  /** Header field a SetValidator dispatches on. */
  const AlgField: string := "alg"

  /**
    A validator:
    - `HS` holds an HMAC secret (HS256Validator, HS384Validator, HS512Validator);
    - `RS` holds a public key and, for a signer, a private key (RS256Validator ...);
    - `NoneAlg` is the NoneValidator, for unsigned tokens;
    - `Kid` is a KidValidator: validators of one algorithm, `pinned`, keyed by key id;
    - `Set` is a SetValidator: validators keyed by their algorithm name.
   */
  datatype Validator =
    | HS(width: Width, secret: Bytes)
    | RS(width: Width, pubkey: Bytes, privkey: Option<Bytes>)
    | NoneAlg
    | Kid(pinned: string, registry: map<string, Validator>)
    | Set(members: map<string, Validator>)
  {
    /** The validators that are also signers (MessageSigner). */
    predicate IsSigner() {
      HS? || RS?
    }

    /** A signer that holds the key it needs to sign; an RS validator built from a public key alone cannot. */
    predicate CanSign() {
      HS? || (RS? && privkey.Some?)
    }
  }

  function WidthName(w: Width): string {
    match w
    case W256 => "256"
    case W384 => "384"
    case W512 => "512"
  }

  /**
    The algorithm name a validator reports, as it would appear in a header's
    "alg" field. A KidValidator reports the algorithm its entries share (the
    empty string before the first registration); a SetValidator has no single
    algorithm and reports the empty string.
   */
  function Algorithm(v: Validator): (name: string)
    ensures v.IsSigner() ==> |name| == 5 && name[0] == (if v.HS? then 'H' else 'R') && name[1] == 'S'
    ensures v.IsSigner() ==> name[2..] == WidthName(v.width)
    ensures v.Kid? ==> name == v.pinned
  {
    match v
    case HS(w, _) => "HS" + WidthName(w)
    case RS(w, _, _) => "RS" + WidthName(w)
    case NoneAlg => "none"
    case Kid(pinned, _) => pinned
    case Set(_) => ""
  }

  /** The six leaf names are pairwise distinct: the name determines family and width. */
  lemma LeafAlgorithmsDistinct(v: Validator, u: Validator)
    requires v.IsSigner() && u.IsSigner()
    ensures Algorithm(v) == Algorithm(u) <==> v.HS? == u.HS? && v.width == u.width
  {
  }

  /**
    The signature a signer produces for `data`, straight from the primitives;
    `None` when it holds no private key.
   */
  function Signature(p: Primitives, v: Validator, data: Bytes): (r: Option<Bytes>)
    requires v.IsSigner()
    ensures r.Some? <==> v.CanSign()
    ensures Sound(p) && r.Some? ==> 0 < |r.value| <= MaxSignatureBytes
  {
    match v
    case HS(w, secret) => Some(p.hmac(w, secret, data))
    case RS(w, _, priv) =>
      match priv
      case None => None
      case Some(k) => Some(p.rsaSign(w, k, data))
  }

  /** Size of the scratch buffer `Digest` signs into: large enough for any HMAC or RSA signature. */
  const MaxSignatureBytes: nat := MaxRsaSignatureBytes

  /** The leaf check: does `sig` sign `data` under this leaf's algorithm and key? */
  function LeafAccepts(p: Primitives, v: Validator, data: Bytes, sig: Bytes): bool
    requires v.IsSigner() || v.NoneAlg?
  {
    match v
    case HS(w, secret) => sig == p.hmac(w, secret, data)
    case RS(w, pub, _) => p.rsaVerify(w, pub, data, sig)
    case NoneAlg => sig == []
  }

  /**
    Checks that `sig[..sigLength]` is a signature of `data[..length]`.
    A leaf checks it against its own key; the NoneValidator accepts only an
    empty signature; a composite looks up its dispatch field in the header and
    hands the check to the validator registered under that value. A composite
    fails closed: without a header, without the field, with a non-string
    field, or with a value nothing is registered under, it answers false.
   */
  function Verify(p: Primitives, v: Validator, hdr: Option<Header>,
                  data: Bytes, length: nat, sig: Bytes, sigLength: nat): (r: bool)
    requires length <= |data| && sigLength <= |sig|
    ensures v.HS? ==> (r <==> sig[..sigLength] == p.hmac(v.width, v.secret, data[..length]))
    ensures v.RS? ==> (r <==> p.rsaVerify(v.width, v.pubkey, data[..length], sig[..sigLength]))
    ensures v.NoneAlg? ==> (r <==> sigLength == 0)
    ensures v.Kid? && r ==>
              GetString(hdr, KidField).Some? && GetString(hdr, KidField).value in v.registry
    ensures v.Set? && r ==>
              GetString(hdr, AlgField).Some? && GetString(hdr, AlgField).value in v.members
    decreases v
  {
    match v
    case Kid(_, registry) =>
      var id := GetString(hdr, KidField);
      id.Some? && id.value in registry
      && Verify(p, registry[id.value], hdr, data, length, sig, sigLength)
    case Set(members) =>
      var alg := GetString(hdr, AlgField);
      alg.Some? && alg.value in members
      && Verify(p, members[alg.value], hdr, data, length, sig, sigLength)
    case _ => LeafAccepts(p, v, data[..length], sig[..sigLength])
  }

  /**
    Checks that `sig` signs the whole of `msg`: `Verify` over the full
    lengths of both. For a leaf this is the plain check against its key.
   */
  function Validate(p: Primitives, v: Validator, hdr: Option<Header>, msg: Bytes, sig: Bytes): (r: bool)
    ensures v.HS? ==> (r <==> sig == p.hmac(v.width, v.secret, msg))
    ensures v.RS? ==> (r <==> p.rsaVerify(v.width, v.pubkey, msg, sig))
    ensures v.NoneAlg? ==> (r <==> sig == [])
  {
    assert msg[..|msg|] == msg && sig[..|sig|] == sig;
    Verify(p, v, hdr, msg, |msg|, sig, |sig|)
  }

  /** What `Sign` leaves in the caller's buffer: the buffer and the signature length written into it. */
  datatype SignOutput = SignOutput(buffer: Bytes, length: nat)

  /**
    Signs `data[..length]` into the caller's buffer `out`, whose length is the
    capacity passed in. On success the signature occupies the first `length`
    bytes of the returned buffer and the rest of the buffer is untouched; the
    call fails when the signature does not fit or the signer has no private key.
   */
  function Sign(p: Primitives, v: Validator, data: Bytes, length: nat, out: Bytes): (r: Option<SignOutput>)
    requires v.IsSigner() && length <= |data|
    ensures r.Some? <==> v.CanSign() && |Signature(p, v, data[..length]).value| <= |out|
    ensures r.Some? ==> r.value.length == |Signature(p, v, data[..length]).value| <= |out|
    ensures r.Some? ==> r.value.buffer == Signature(p, v, data[..length]).value + out[r.value.length..]
  {
    match Signature(p, v, data[..length])
    case None => None
    case Some(s) =>
      if |s| <= |out| then Some(SignOutput(s + out[|s|..], |s|)) else None
  }

  /**
    The signature of the whole of `msg`, obtained by signing it into a
    scratch buffer large enough for any signature.
   */
  function Digest(p: Primitives, v: Validator, msg: Bytes): (r: Option<Bytes>)
    requires v.IsSigner()
    ensures r.Some? ==> r == Signature(p, v, msg)
    ensures Sound(p) ==> (r.Some? <==> v.CanSign())
  {
    assert msg[..|msg|] == msg;
    match Sign(p, v, msg, |msg|, seq(MaxSignatureBytes, _ => 0 as uint8))
    case None => None
    case Some(o) => Some(o.buffer[..o.length])
  }

  /**
    The hypotheses a validator's keys must meet: each RS signer's two keys
    belong together, and so do those of every validator inside a composite.
   */
  ghost predicate Keyed(p: Primitives, v: Validator)
    decreases v
  {
    match v
    case RS(_, pub, priv) => priv.Some? ==> RsaKeyPair(p, pub, priv.value)
    case Kid(_, registry) => forall id :: id in registry ==> Keyed(p, registry[id])
    case Set(members) => forall a :: a in members ==> Keyed(p, members[a])
    case _ => true
  }
}
