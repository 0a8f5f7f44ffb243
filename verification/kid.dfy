/**
  KidValidator: validators of ONE algorithm, selected by the header's "kid"
  field. Registration refuses a validator whose algorithm differs from the
  one already registered, so an attacker who controls "kid" can choose a key
  but never an algorithm.
 */
module KidValidator {
  import opened Wrappers
  import opened Json
  import opened Crypto
  import opened Validators

  /** The error `Register` reports; the library throws `std::logic_error`. */
  datatype RegisterError = AlgorithmMismatch(expected: string, actual: string)

  /** A freshly constructed KidValidator: nothing registered, no algorithm yet. */
  function EmptyKid(): (v: Validator)
    ensures v.Kid? && v.registry == map[]
    ensures OneAlgorithm(v)
  {
    Kid("", map[])
  }

  /** The registry's invariant: every entry's algorithm is the pinned one. */
  ghost predicate OneAlgorithm(v: Validator) {
    v.Kid? && forall id :: id in v.registry ==> Algorithm(v.registry[id]) == v.pinned
  }

  /**
    Adds `validator` under `id`. The first registration pins the algorithm;
    a later one whose algorithm differs from the pinned one is refused and
    leaves the KidValidator as it was. Registering under an id already in use
    replaces its entry.
   */
  function Register(kid: Validator, id: string, validator: Validator): (r: Result<Validator, RegisterError>)
    requires kid.Kid?
    ensures r.Failure? <==> |kid.registry| > 0 && Algorithm(validator) != kid.pinned
    ensures r.Failure? ==> r.error == AlgorithmMismatch(kid.pinned, Algorithm(validator))
    ensures r.Success? ==>
              && r.value.Kid?
              && r.value.pinned == Algorithm(validator)
              && r.value.registry.Keys == kid.registry.Keys + {id}
              && r.value.registry[id] == validator
              && forall other :: other in kid.registry && other != id ==>
                   r.value.registry[other] == kid.registry[other]
    ensures OneAlgorithm(kid) && r.Success? ==> OneAlgorithm(r.value)
  {
    if |kid.registry| == 0 then
      Success(Kid(Algorithm(validator), map[id := validator]))
    else if Algorithm(validator) != kid.pinned then
      Failure(AlgorithmMismatch(kid.pinned, Algorithm(validator)))
    else
      Success(Kid(kid.pinned, kid.registry[id := validator]))
  }

  /** The ids of a list of registrations. */
  function Ids(entries: seq<(string, Validator)>): set<string> {
    if entries == [] then {} else {entries[0].0} + Ids(entries[1..])
  }

  /** Registers `entries` in order, stopping at the first refusal. */
  function RegisterAll(kid: Validator, entries: seq<(string, Validator)>): (r: Result<Validator, RegisterError>)
    requires kid.Kid?
    ensures r.Success? ==> r.value.Kid?
    ensures r.Success? ==> r.value.registry.Keys == kid.registry.Keys + Ids(entries)
    ensures OneAlgorithm(kid) && r.Success? ==> OneAlgorithm(r.value)
    decreases |entries|
  {
    if entries == [] then Success(kid)
    else
      match Register(kid, entries[0].0, entries[0].1)
      case Failure(e) => Failure(e)
      case Success(next) => RegisterAll(next, entries[1..])
  }

  /** An id is among the listed ones exactly when some entry carries it. */
  lemma {:induction false} IdsListed(entries: seq<(string, Validator)>, id: string)
    ensures id in Ids(entries) <==> exists j :: 0 <= j < |entries| && entries[j].0 == id
    decreases |entries|
  {
    if entries != [] {
      IdsListed(entries[1..], id);
      if id in Ids(entries[1..]) {
        var j :| 0 <= j < |entries[1..]| && entries[1..][j].0 == id;
        assert entries[j + 1].0 == id;
      }
      if exists j :: 0 <= j < |entries| && entries[j].0 == id {
        var j :| 0 <= j < |entries| && entries[j].0 == id;
        if j > 0 {
          assert entries[1..][j - 1].0 == id;
        }
      }
    }
  }

  /**
    What a successful series of registrations files under each id: an entry
    that no later entry overrides is found under its id, and an id no entry
    names keeps the validator it had.
   */
  lemma {:induction false} RegisterAllContents(kid: Validator, entries: seq<(string, Validator)>)
    requires kid.Kid? && RegisterAll(kid, entries).Success?
    ensures forall i :: 0 <= i < |entries| && (forall j :: i < j < |entries| ==> entries[j].0 != entries[i].0) ==>
              entries[i].0 in RegisterAll(kid, entries).value.registry
              && RegisterAll(kid, entries).value.registry[entries[i].0] == entries[i].1
    ensures forall id :: id in kid.registry && id !in Ids(entries) ==>
              RegisterAll(kid, entries).value.registry[id] == kid.registry[id]
    decreases |entries|
  {
    if entries != [] {
      var next := Register(kid, entries[0].0, entries[0].1).value;
      var rest := entries[1..];
      var r := RegisterAll(kid, entries).value;
      assert r == RegisterAll(next, rest).value;
      RegisterAllContents(next, rest);
      forall i | 0 <= i < |entries| && (forall j :: i < j < |entries| ==> entries[j].0 != entries[i].0)
        ensures entries[i].0 in r.registry && r.registry[entries[i].0] == entries[i].1
      {
        if i == 0 {
          IdsListed(rest, entries[0].0);
        } else {
          assert rest[i - 1] == entries[i];
          forall j | i - 1 < j < |rest| ensures rest[j].0 != rest[i - 1].0 {
            assert rest[j] == entries[j + 1];
          }
        }
      }
    }
  }

  /** All entries share the algorithm `alg`. */
  ghost predicate AllNamed(entries: seq<(string, Validator)>, alg: string) {
    forall i :: 0 <= i < |entries| ==> Algorithm(entries[i].1) == alg
  }

  /** Registering into a non-empty KidValidator succeeds exactly when every entry has its pinned algorithm. */
  lemma {:induction false} RegisterAllIntoPinned(kid: Validator, entries: seq<(string, Validator)>)
    requires kid.Kid? && |kid.registry| > 0
    ensures RegisterAll(kid, entries).Success? <==> AllNamed(entries, kid.pinned)
    ensures RegisterAll(kid, entries).Success? ==> RegisterAll(kid, entries).value.pinned == kid.pinned
    decreases |entries|
  {
    if entries != [] {
      var r := Register(kid, entries[0].0, entries[0].1);
      if r.Success? {
        RegisterAllIntoPinned(r.value, entries[1..]);
        assert AllNamed(entries, kid.pinned) <==> AllNamed(entries[1..], kid.pinned) by {
          forall i | 0 <= i < |entries[1..]| ensures entries[1..][i] == entries[i + 1] { }
        }
      }
    }
  }

  /**
    Setting up a KidValidator by a series of registrations succeeds exactly
    when all the validators share one algorithm, which is then the pinned one.
   */
  lemma RegisterAllSucceedsIffOneAlgorithm(entries: seq<(string, Validator)>)
    requires |entries| > 0
    ensures RegisterAll(EmptyKid(), entries).Success? <==> AllNamed(entries, Algorithm(entries[0].1))
    ensures RegisterAll(EmptyKid(), entries).Success? ==>
              RegisterAll(EmptyKid(), entries).value.pinned == Algorithm(entries[0].1)
  {
    var first := Register(EmptyKid(), entries[0].0, entries[0].1).value;
    RegisterAllIntoPinned(first, entries[1..]);
    var alg := Algorithm(entries[0].1);
    assert AllNamed(entries, alg) <==> AllNamed(entries[1..], alg) by {
      forall i | 0 <= i < |entries[1..]| ensures entries[1..][i] == entries[i + 1] { }
    }
  }

  /** When the header's "kid" names a registered entry, the KidValidator answers exactly as that entry does. */
  lemma KidDelegates(p: Primitives, kid: Validator, hdr: Option<Header>,
                     data: Bytes, length: nat, sig: Bytes, sigLength: nat)
    requires kid.Kid? && length <= |data| && sigLength <= |sig|
    requires GetString(hdr, KidField).Some? && GetString(hdr, KidField).value in kid.registry
    ensures Verify(p, kid, hdr, data, length, sig, sigLength)
              == Verify(p, kid.registry[GetString(hdr, KidField).value], hdr, data, length, sig, sigLength)
  {
  }

  /**
    The algorithm-confusion defence: whatever the header says, a KidValidator
    keeping its invariant accepts a signature only when some registered
    validator of the pinned algorithm accepts it.
   */
  lemma KidChecksOnlyPinnedAlgorithm(p: Primitives, kid: Validator, hdr: Option<Header>,
                                                        data: Bytes, length: nat, sig: Bytes, sigLength: nat)
    requires OneAlgorithm(kid) && length <= |data| && sigLength <= |sig|
    requires Verify(p, kid, hdr, data, length, sig, sigLength)
    ensures exists id :: id in kid.registry
              && Algorithm(kid.registry[id]) == kid.pinned
              && Verify(p, kid.registry[id], hdr, data, length, sig, sigLength)
  {
  }

  /** A KidValidator fails closed: no header, no "kid", a non-string "kid" or an unregistered one gives false. */
  lemma KidFailsClosed(p: Primitives, kid: Validator, hdr: Option<Header>, m: Bytes, sig: Bytes)
    requires kid.Kid?
    requires hdr.None? || KidField !in hdr.value || !hdr.value[KidField].JString?
             || hdr.value[KidField].text !in kid.registry
    ensures !Validate(p, kid, hdr, m, sig)
  {
  }
}
