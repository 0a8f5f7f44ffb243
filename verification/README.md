# Signature-validation dispatch of a JWT library, in Dafny

This project models the layer of the jwt-cpp library that decides whether a
token's signature is valid. It covers:

- the HMAC signers `HS256Validator`, `HS384Validator` and `HS512Validator`;
- the RSA signers `RS256Validator`, `RS384Validator` and `RS512Validator`;
- the `NoneValidator`, which accepts only unsigned tokens;
- the `KidValidator`, which picks a key by the header's `"kid"` field and
  pins a single algorithm for all of its keys;
- the `SetValidator`, which picks a validator by the header's `"alg"` field.

The composite validators are the library's defence against algorithm
confusion. An attacker who writes the header can choose among the keys the
operator registered. The attacker cannot make a key be checked under an
algorithm the operator did not pair with it. Every composite fails closed.

The library headers `jwt/jwt_all.h` and `jwt/setvalidator.h` are not part of
this model. The behaviour is reconstructed from the assertions of
`test/validators/validators_test.cpp`. Most contracts restate one of those
assertions for all inputs. Some go beyond what the assertions fix, and
"## Left out" names each of them:

- the untouched tail of the buffer `Sign` writes into;
- the 2048-byte bound on a signature;
- the two algorithm-confusion lemmas, `KidChecksOnlyPinnedAlgorithm` and
  `SetChecksHeaderAlgorithm`, which state the security argument behind the
  dispatch tests rather than a single assertion.

Layout, one module per file:

- `wrappers.dfy` (`Wrappers`): `Option` and `Result`.
- `json.dfy` (`Json`): the parsed header, a map from field name to a JSON value.
  The test's `{ss}` and `{si}` headers differ only in whether the field holds a
  string.
- `crypto.dfy` (`Crypto`): bytes, digest widths, and the primitives. HMAC, RSA
  sign and RSA verify are uninterpreted fields of a `Primitives` record.
  - `Sound` states the hypotheses every use relies on: HMAC length, RSA
    signature size, and that RSA never accepts the empty signature.
  - `RsaKeyPair` states that two keys belong together.
  - `HypothesesSatisfiable` exhibits primitives that meet all of them.
- `validators.dfy` (`Validators`): the `Validator` datatype, with variants `HS`,
  `RS`, `NoneAlg`, `Kid` and `Set`. It also defines `Algorithm` and the
  operations `Verify` (byte-range check), `Validate` (whole-message check),
  `Sign` (into a caller buffer) and `Digest`.
- `signers.dfy` (`Signers`): properties of the leaf validators.
- `kid.dfy` (`KidValidator`): registration and dispatch by key id.
- `set.dfy` (`SetValidator`): construction and dispatch by algorithm name.
- `scenarios.dfy` (`Scenarios`): each test of the test file, restated as a
  lemma about the fixture's validators. The two double-validate tests have no
  lemma of their own; "## Left out" says why.

Tamper resistance of a real digest is a computational property. A fixed-length
digest has collisions, so injectivity cannot be assumed for all messages.
Lemmas that need it take an explicit hypothesis that the two messages at hand
do not collide (`Signers.NoCollision`).

## Model

| member | source | states |
|---|---|---|
| Json.GetString | test/validators/validators_test.cpp:138-148 | The header lookup gives a string exactly when the header exists and the field is present and holds a string. A missing header, a missing field and a number all give nothing. |
| Json.GetStringOfSingle | test/validators/validators_test.cpp:140-146 | A `{ss}` header yields its string under its own name. A `{si}` header yields nothing, and any other name yields nothing. |
| Validators.Algorithm | test/validators/validators_test.cpp:128-135 | A leaf's name is five characters: "HS" or "RS" by family, followed by its digest width. A KidValidator reports its pinned algorithm. |
| Validators.LeafAlgorithmsDistinct | test/validators/validators_test.cpp:128-135 | Two leaf signers report the same algorithm name iff they have the same family and the same digest width. So HS256 and HS384 differ. |
| Validators.Signature | test/validators/validators_test.cpp:16-17 | A signer produces a signature iff it holds signing key material. Under the hypotheses that signature is non-empty and fits the largest buffer. |
| Validators.Verify | test/validators/validators_test.cpp:27-32 | Over a byte range: an HS validator accepts iff the signature range equals its HMAC of the data range, and an RS validator accepts iff its public key verifies the signature range over the data range. The none validator accepts iff the signature range is empty. A Kid or Set validator accepts only when its dispatch field is a string naming a registered entry. |
| Validators.Validate | test/validators/validators_test.cpp:12-25 | Whole-message validation means: an HS validator accepts exactly its HMAC of the message, an RS validator accepts what its public key verifies, and none accepts only the empty signature. |
| Validators.Sign | test/validators/validators_test.cpp:27-31 | Signing a prefix succeeds iff the signer holds a key and the signature fits the buffer. On success the reported length is within capacity, the buffer starts with the signature of exactly that prefix, and the rest of the buffer is unchanged. |
| Validators.Digest | test/validators/validators_test.cpp:16-17 | The digest of a whole message is that message's signature. Under the hypotheses it exists iff the signer holds a signing key. |
| Signers.LeafAcceptsOwnSignature | test/validators/validators_test.cpp:16-25 | A signer with matching keys accepts a signature of some data iff that signature is its own signature of the data. |
| Signers.SignThenValidate | test/validators/validators_test.cpp:16-19 | Every HS or RS signer accepts its own digest of any message, under any header including none. |
| Signers.EmptySignatureRejected | test/validators/validators_test.cpp:12-14 | No HS or RS validator accepts the empty signature, whatever the message. This includes a verify-only RS validator. |
| Signers.TamperDetected | test/validators/validators_test.cpp:21-25 | The digest of a message does not validate a different message whose signature differs from it. |
| Signers.SignRangeThenVerify | test/validators/validators_test.cpp:27-32 | Signing the first k bytes into a large enough buffer succeeds with a length within capacity. Verifying the same k bytes with that buffer and length then succeeds. |
| Signers.SignRangeRejectsOtherRange | test/validators/validators_test.cpp:27-32 | A range signature does not verify over another range whose signature differs. The range can differ by length or by prefix. |
| KidValidator.EmptyKid | test/validators/validators_test.cpp:131 | A fresh KidValidator has an empty registry and so meets the one-algorithm invariant. |
| KidValidator.Register | test/validators/validators_test.cpp:128-135 | Registration is refused, with an algorithm-mismatch error, iff the registry is non-empty and the new validator's algorithm differs from the pinned one. On success it adds exactly the new entry, leaves the other entries unchanged and keeps every entry on the pinned algorithm. |
| KidValidator.RegisterAll | test/validators/validators_test.cpp:150-155 | A series of registrations that succeeds registers exactly the listed ids on top of the existing ones. It keeps the one-algorithm invariant, so every KidValidator built from an empty one meets it. |
| KidValidator.RegisterAllContents | test/validators/validators_test.cpp:150-166 | After a successful series of registrations, an entry that no later entry overrides is found under its id with its own validator, and an id no entry names keeps the validator it had. |
| KidValidator.RegisterAllIntoPinned | test/validators/validators_test.cpp:150-155 | A series of registrations into a non-empty KidValidator succeeds iff every validator has the pinned algorithm, and the pinned algorithm stays as it was. |
| KidValidator.RegisterAllSucceedsIffOneAlgorithm | test/validators/validators_test.cpp:128-155 | Setting up a KidValidator from scratch succeeds iff all validators share the first one's algorithm, which then becomes the pinned one. |
| KidValidator.KidDelegates | test/validators/validators_test.cpp:156-166 | When "kid" names a registered entry, the KidValidator's answer equals that entry's answer. |
| KidValidator.KidChecksOnlyPinnedAlgorithm | test/validators/validators_test.cpp:128-166 | If a KidValidator keeps its invariant and accepts a signature, some registered validator of the pinned algorithm accepts that signature. |
| KidValidator.KidFailsClosed | test/validators/validators_test.cpp:138-148 | With no header, no "kid", a non-string "kid" or an unregistered "kid", validation fails. |
| SetValidator.MakeSet | test/validators/validators_test.cpp:170-171 | Building a set from validators with distinct algorithms files each validator under its own algorithm name. The keys are exactly those names. |
| SetValidator.MakeSetFiledByAlgorithm | test/validators/validators_test.cpp:181-182 | A built set files every member under the algorithm that member reports, and every member is one of the given validators. |
| SetValidator.SetDelegates | test/validators/validators_test.cpp:183-191 | When "alg" names a member, the set's answer equals that member's answer. |
| SetValidator.SetChecksHeaderAlgorithm | test/validators/validators_test.cpp:169-192 | If a set keeps its invariant and accepts a signature, the member that accepted it reports exactly the algorithm the header's "alg" names. |
| SetValidator.MakeSetPicks | test/validators/validators_test.cpp:180-192 | A set built from a list answers, for "alg" equal to the i-th validator's algorithm, exactly as the i-th validator does. |
| SetValidator.SetFailsClosed | test/validators/validators_test.cpp:169-178 | With no header, no "alg", a non-string "alg" or an "alg" no member reports, validation fails. This covers a field under another name such as "foo". |
| Scenarios.MessageText | test/validators/validators_test.cpp:46 | The message constant is the ASCII bytes of "Hello World!". |
| Scenarios.Secret1Text | test/validators/validators_test.cpp:47 | The first secret is the ASCII bytes of "secret1". |
| Scenarios.Secret2Text | test/validators/validators_test.cpp:48 | The second secret is the ASCII bytes of "secret2". |
| Scenarios.Secret3Text | test/validators/validators_test.cpp:49 | The third secret is the ASCII bytes of "secret3". |
| Scenarios.FixtureSignersBehave | test/validators/validators_test.cpp:12-38 | Each of the six fixture signers accepts its digest of the message and rejects the empty signature. Each signs the first 6 bytes into a 4096-byte buffer with a length at most 4096, and verifying those 6 bytes then succeeds. |
| Scenarios.FixtureSignersTamperResistant | test/validators/validators_test.cpp:21-25 | The test appends "x" to the fixture's message in place, once per signer of a list. So the j-th signer of each list rejects its digest of the message with j copies of "x" appended, once one more "x" is appended. |
| Scenarios.NoneValidatorTests | test/validators/validators_test.cpp:118-126 | The none validator rejects "bar" for "foo" and accepts "" for "hello". |
| Scenarios.KidSameAlgs | test/validators/validators_test.cpp:128-135 | Registering HS256 under "kid1" succeeds. Registering HS384 under "kid2" afterwards is refused. |
| Scenarios.NoKid | test/validators/validators_test.cpp:138-148 | An empty KidValidator rejects three headers: `{kid: "kid1"}`, `{kid: 15}` and `{nokid: 15}`. |
| Scenarios.TwoKeys | test/validators/validators_test.cpp:150-155 | Registering two HS256 validators with different secrets under "kid1" and "kid2" succeeds. The registry then holds exactly those two entries and meets the one-algorithm invariant. |
| Scenarios.CanRegisterKid | test/validators/validators_test.cpp:156-166 | With "kid" = "kid1", the secret1 signature is accepted and the secret2 signature is rejected. |
| Scenarios.HsListDistinct | test/validators/validators_test.cpp:47-49 | The three HMAC signers of the fixture report three different algorithms, so a set can be built from them. |
| Scenarios.HsSet | test/validators/validators_test.cpp:180-182 | The set of the three HMAC signers holds each of them under its own name, and every name starts with 'H'. |
| Scenarios.WrongAlgo | test/validators/validators_test.cpp:169-178 | The HMAC set rejects `{alg: "RS256"}` and `{foo: "HS512"}`. |
| Scenarios.PicksAlgoAccepts | test/validators/validators_test.cpp:183-190 | The HMAC set accepts the HS256 signer's digest under `{alg: "HS256"}`. |
| Scenarios.PicksAlgoRejects | test/validators/validators_test.cpp:184-191 | The HMAC set rejects the HS256 signer's digest under `{alg: "HS512"}`. |

## Left out

- HMAC-SHA2 and RSA PKCS #1 v1.5: these are OpenSSL calls. They are uninterpreted fields of `Crypto.Primitives`, and their properties are explicit hypotheses (`Crypto.Sound`, `Crypto.RsaKeyPair`).
- Signers.TamperDetected: stated under the hypothesis that the two messages' signatures differ (`Signers.NoCollision`). Digests of fixed length have collisions, so unconditional tamper resistance is false as a mathematical statement.
- Signers.SignRangeRejectsOtherRange: stated under the same no-collision hypothesis for the two ranges.
- Scenarios.FixtureSignersTamperResistant: stated under the no-collision hypothesis for the message with j and with j + 1 copies of "x" appended.
- Scenarios.CanRegisterKid: assumes the HS256 digests of the message under "secret1" and "secret2" differ. Nothing in the model can derive this.
- Idempotence of `Validate` (two identical calls give the same answer, the double-validate tests): it has no lemma. Every operation here is a pure function, so two calls with equal arguments are equal by definition.
- Validators.Sign: the promise that bytes of the buffer past the signature are left as they were is a modelling choice. No assertion of the test file fixes it.
- Validators.Signature: the 2048-byte upper bound comes from OpenSSL's largest RSA modulus, not from an assertion of the test file.
- KidValidator.KidChecksOnlyPinnedAlgorithm and SetValidator.SetChecksHeaderAlgorithm: these state the algorithm-confusion defence for all inputs. The tests check it only for the headers and keys they use.
- Constant-time comparison of HMAC signatures: a timing property that Dafny cannot express. Comparison is plain sequence equality.
- The RSA key pair of the fixture: `constants.h` is not part of this model. The keys are parameters constrained by `Crypto.RsaKeyPair`.
- The size of the scratch buffer `Digest` signs into: the library headers are not part of this model. The model uses 2048 bytes, the largest RSA signature OpenSSL allows.
- Algorithm names of composite validators (`algorithm()` of KidValidator and SetValidator): the headers are not part of this model.
  - A KidValidator reports its pinned algorithm, which is the empty string before the first registration.
  - A SetValidator reports the empty string.
- Re-registering an id that is already in a KidValidator: no test fixes it. The model replaces the entry, as a map insertion would.
- A SetValidator built from two validators with one algorithm name: no test fixes it. `SetValidator.MakeSet` requires the names to be distinct.
- JSON parsing, `json_pack` and `json_ptr`: the header is a Dafny map to a small JSON-value datatype.
- Token framing and base64 are outside this layer.
- Raw-pointer ownership, the test fixture's set-up and tear-down, and gtest plumbing have no counterpart in a value model.
- Thread safety of `Register` against concurrent `Validate`: the model has no concurrency.
