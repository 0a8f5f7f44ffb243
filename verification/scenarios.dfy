/**
  The library's validator tests, each stated as a lemma about the model:
  the fixture's six signers, the NoneValidator, registration and dispatch
  of a KidValidator, and dispatch of a SetValidator. The RSA key pair of the
  fixture is a parameter, and what it must satisfy is a hypothesis.
 */
module Scenarios {
  import opened Wrappers
  import opened Json
  import opened Crypto
  import opened Validators
  import Signers
  import KidValidator
  import SetValidator

  /** The message the fixture signs, "Hello World!". */
  const Message: Bytes := [72, 101, 108, 108, 111, 32, 87, 111, 114, 108, 100, 33]

  /** The fixture's secrets, "secret1", "secret2" and "secret3". */
  const Secret1: Bytes := [115, 101, 99, 114, 101, 116, 49]
  const Secret2: Bytes := [115, 101, 99, 114, 101, 116, 50]
  const Secret3: Bytes := [115, 101, 99, 114, 101, 116, 51]

  /** The message constant is the ASCII text "Hello World!". */
  lemma MessageText()
    ensures Message == Ascii("Hello World!")
  {
    AsciiBytes(Message, "Hello World!");
  }

  /** The first secret is the ASCII text "secret1". */
  lemma Secret1Text()
    ensures Secret1 == Ascii("secret1")
  {
    AsciiBytes(Secret1, "secret1");
  }

  /** The second secret is the ASCII text "secret2". */
  lemma Secret2Text()
    ensures Secret2 == Ascii("secret2")
  {
    AsciiBytes(Secret2, "secret2");
  }

  /** The third secret is the ASCII text "secret3". */
  lemma Secret3Text()
    ensures Secret3 == Ascii("secret3")
  {
    AsciiBytes(Secret3, "secret3");
  }

  /** Bytes equal the ASCII bytes of a text when they agree position by position. */
  lemma AsciiBytes(b: Bytes, t: string)
    requires |b| == |t| && forall i :: 0 <= i < |t| ==> t[i] as int < 256 && b[i] as int == t[i] as int
    ensures b == Ascii(t)
  {
    var a := Ascii(t);
    forall i | 0 <= i < |t| ensures a[i] == b[i] {
      assert a[i] as int == t[i] as int;
    }
  }

  /** The three HMAC signers of the fixture, with secrets "secret1", "secret2", "secret3". */
  function HsList(): (vs: seq<Validator>)
    ensures |vs| == 3 && forall i :: 0 <= i < 3 ==> vs[i].HS?
  {
    [HS(W256, Secret1), HS(W384, Secret2), HS(W512, Secret3)]
  }

  /** The three RSA signers of the fixture, all on one key pair. */
  function RsList(pub: Bytes, priv: Bytes): (vs: seq<Validator>)
    ensures |vs| == 3 && forall i :: 0 <= i < 3 ==> vs[i].RS? && vs[i].CanSign()
  {
    [RS(W256, pub, Some(priv)), RS(W384, pub, Some(priv)), RS(W512, pub, Some(priv))]
  }

  /** Any one of the fixture's six signers. */
  function FixtureSigner(pub: Bytes, priv: Bytes, i: nat): (v: Validator)
    requires i < 6
    ensures v.IsSigner() && v.CanSign()
  {
    (HsList() + RsList(pub, priv))[i]
  }

  /**
    Each fixture signer accepts its digest of the message, rejects the empty signature, and signs the
    first 6 bytes into a 4096-byte buffer so that verifying those 6 bytes
    succeeds.
   */
  lemma FixtureSignersBehave(p: Primitives, pub: Bytes, priv: Bytes, i: nat)
    requires Sound(p) && RsaKeyPair(p, pub, priv) && i < 6
    ensures Digest(p, FixtureSigner(pub, priv, i), Message).Some?
    ensures Validate(p, FixtureSigner(pub, priv, i), None, Message,
                     Digest(p, FixtureSigner(pub, priv, i), Message).value)
    ensures !Validate(p, FixtureSigner(pub, priv, i), None, Message, [])
    ensures Sign(p, FixtureSigner(pub, priv, i), Message, 6, seq(4096, _ => 0 as uint8)).Some?
    ensures var o := Sign(p, FixtureSigner(pub, priv, i), Message, 6, seq(4096, _ => 0 as uint8)).value;
            o.length <= 4096 && Verify(p, FixtureSigner(pub, priv, i), None, Message, 6, o.buffer, o.length)
  {
  }

  /**
    The fixture's message after `j` appends of "x". The tamper test appends
    to the fixture's message in place and runs once per signer of a list, so
    the j-th signer of each list signs `Appended(j)` and is checked against
    `Appended(j + 1)`.
   */
  function Appended(j: nat): (m: Bytes)
    ensures |m| == |Message| + j && m[..|Message|] == Message
    ensures forall k :: |Message| <= k < |m| ==> m[k] == 120
  {
    Message + seq(j, _ => 120 as uint8)
  }

  /**
    Each fixture signer, the j-th of its list, rejects its digest of the
    message with j copies of "x" appended once one more "x" is appended,
    given no collision between the two.
   */
  lemma FixtureSignersTamperResistant(p: Primitives, pub: Bytes, priv: Bytes, i: nat)
    requires Sound(p) && RsaKeyPair(p, pub, priv) && i < 6
    requires Signers.NoCollision(p, FixtureSigner(pub, priv, i), Appended(i % 3), Appended(i % 3 + 1))
    ensures Digest(p, FixtureSigner(pub, priv, i), Appended(i % 3)).Some?
    ensures !Validate(p, FixtureSigner(pub, priv, i), None, Appended(i % 3 + 1),
                      Digest(p, FixtureSigner(pub, priv, i), Appended(i % 3)).value)
  {
    var v := FixtureSigner(pub, priv, i);
    assert Keyed(p, v);
    Signers.TamperDetected(p, v, None, Appended(i % 3), Appended(i % 3 + 1));
  }

  /** The NoneValidator rejects "bar" as a signature of "foo" and accepts "" as one of "hello". */
  lemma NoneValidatorTests(p: Primitives)
    ensures !Validate(p, NoneAlg, None, Ascii("foo"), Ascii("bar"))
    ensures Validate(p, NoneAlg, None, Ascii("hello"), [])
  {
  }

  /** After an HS256 validator is registered, registering an HS384 one is refused. */
  lemma KidSameAlgs()
    ensures KidValidator.Register(KidValidator.EmptyKid(), "kid1", HS(W256, Secret1)).Success?
    ensures KidValidator.Register(
              KidValidator.Register(KidValidator.EmptyKid(), "kid1", HS(W256, Secret1)).value,
              "kid2", HS(W384, Secret2)).Failure?
  {
    Validators.LeafAlgorithmsDistinct(HS(W256, Secret1), HS(W384, Secret2));
  }

  /**
    An empty KidValidator rejects a header whose "kid" is an unregistered
    string, one whose "kid" is the number 15, and one with no "kid" field.
   */
  lemma NoKid(p: Primitives)
    ensures !Validate(p, KidValidator.EmptyKid(), Some(Single("kid", JString("kid1"))), [], [])
    ensures !Validate(p, KidValidator.EmptyKid(), Some(Single("kid", JInteger(15))), [], [])
    ensures !Validate(p, KidValidator.EmptyKid(), Some(Single("nokid", JInteger(15))), [], [])
  {
  }

  /** The KidValidator of the registration test: two HS256 validators, under "kid1" and "kid2". */
  function TwoKeys(): (r: Result<Validator, KidValidator.RegisterError>)
    ensures r.Success? && r.value.Kid?
    ensures r.value.registry == map["kid1" := HS(W256, Secret1), "kid2" := HS(W256, Secret2)]
    ensures KidValidator.OneAlgorithm(r.value)
  {
    var first := KidValidator.Register(KidValidator.EmptyKid(), "kid1", HS(W256, Secret1));
    KidValidator.Register(first.value, "kid2", HS(W256, Secret2))
  }

  /**
    Two HS256 validators with different secrets register under "kid1" and
    "kid2"; with "kid" set to "kid1" the first key's signature is accepted and
    the second key's is rejected, given that the two keys' digests of the
    message differ.
   */
  lemma CanRegisterKid(p: Primitives)
    requires Sound(p)
    requires p.hmac(W256, Secret1, Message) != p.hmac(W256, Secret2, Message)
    ensures Validate(p, TwoKeys().value, Some(Single("kid", JString("kid1"))), Message,
                     Digest(p, HS(W256, Secret1), Message).value)
    ensures !Validate(p, TwoKeys().value, Some(Single("kid", JString("kid1"))), Message,
                      Digest(p, HS(W256, Secret2), Message).value)
  {
  }

  /** The fixture's three HMAC signers report three different algorithms. */
  lemma HsListDistinct()
    ensures SetValidator.DistinctAlgorithms(HsList())
  {
    var vs := HsList();
    forall i, j | 0 <= i < j < |vs| ensures Algorithm(vs[i]) != Algorithm(vs[j]) {
      Validators.LeafAlgorithmsDistinct(vs[i], vs[j]);
    }
  }

  /** The SetValidator of the dispatch tests, built from the three HMAC signers. */
  function HsSet(): (s: Validator)
    ensures s.Set?
    ensures forall i :: 0 <= i < 3 ==> Algorithm(HsList()[i]) in s.members
                                       && s.members[Algorithm(HsList()[i])] == HsList()[i]
    // Every key starts with 'H', which is what rules out "RS256" in `WrongAlgo`.
    ensures forall a :: a in s.members ==> |a| == 5 && a[0] == 'H'
  {
    HsListDistinct();
    SetValidator.MakeSet(HsList())
  }

  /** A set of the three HMAC signers rejects a header whose "alg" is "RS256", and one with "foo" instead of "alg". */
  lemma WrongAlgo(p: Primitives)
    ensures !Validate(p, HsSet(), Some(Single("alg", JString("RS256"))), [], [])
    ensures !Validate(p, HsSet(), Some(Single("foo", JString("HS512"))), [], [])
  {
  }

  /** A set of the three HMAC signers, given the HS256 signer's digest of the message, accepts it under "alg": "HS256". */
  lemma PicksAlgoAccepts(p: Primitives)
    requires Sound(p)
    ensures Validate(p, HsSet(), Some(Single("alg", JString("HS256"))),
                     Message, Digest(p, HsList()[0], Message).value)
  {
    var hdr := Some(Single("alg", JString("HS256")));
    HsListDistinct();
    assert Algorithm(HsList()[0]) == "HS256";
    assert GetString(hdr, AlgField) == Some("HS256");
    SetValidator.MakeSetPicks(p, HsList(), 0, hdr, Message, Digest(p, HsList()[0], Message).value);
    Signers.SignThenValidate(p, HsList()[0], hdr, Message);
  }

  /** The same set rejects the HS256 signer's digest under "alg": "HS512": the HS512 member checks it and it has the wrong length. */
  lemma PicksAlgoRejects(p: Primitives)
    requires Sound(p)
    ensures !Validate(p, HsSet(), Some(Single("alg", JString("HS512"))),
                      Message, Digest(p, HsList()[0], Message).value)
  {
    var hdr := Some(Single("alg", JString("HS512")));
    var sig := Digest(p, HsList()[0], Message).value;
    HsListDistinct();
    assert Algorithm(HsList()[2]) == "HS512";
    assert GetString(hdr, AlgField) == Some("HS512");
    SetValidator.MakeSetPicks(p, HsList(), 2, hdr, Message, sig);
    assert |sig| == 32 && |p.hmac(W512, Secret3, Message)| == 64;
  }
}
