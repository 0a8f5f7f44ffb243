/**
  SetValidator: validators of possibly different algorithms, selected by the
  header's "alg" field. Each member is filed under the algorithm it reports,
  so the header can pick among the members but can never make a member
  check a signature under an algorithm other than its own.
 */
module SetValidator {
  import opened Wrappers
  import opened Json
  import opened Crypto
  import opened Validators

  /** No two validators report the same algorithm. */
  ghost predicate DistinctAlgorithms(vs: seq<Validator>) {
    forall i, j :: 0 <= i < j < |vs| ==> Algorithm(vs[i]) != Algorithm(vs[j])
  }

  /** The algorithms a list of validators report. */
  ghost function Algorithms(vs: seq<Validator>): set<string> {
    set i | 0 <= i < |vs| :: Algorithm(vs[i])
  }

  /**
    Builds a SetValidator from a list of validators, filing each under its
    algorithm name. Two validators reporting one name are excluded by the
    precondition: which of them the lookup would find is not part of the
    contract.
   */
  function MakeSet(vs: seq<Validator>): (r: Validator)
    requires DistinctAlgorithms(vs)
    ensures r.Set?
    ensures r.members.Keys == Algorithms(vs)
    ensures forall i :: 0 <= i < |vs| ==> r.members[Algorithm(vs[i])] == vs[i]
  {
    if vs == [] then Set(map[])
    else
      var front := vs[..|vs| - 1];
      var last := vs[|vs| - 1];
      assert forall i :: 0 <= i < |front| ==> front[i] == vs[i];
      assert DistinctAlgorithms(front);
      assert Algorithms(vs) == Algorithms(front) + {Algorithm(last)};
      var prev := MakeSet(front).members;
      assert forall i :: 0 <= i < |front| ==> Algorithm(front[i]) != Algorithm(last) && prev[Algorithm(front[i])] == front[i];
      Set(prev[Algorithm(last) := last])
  }

  /** A set's invariant: every member is filed under the algorithm it reports. */
  ghost predicate FiledByAlgorithm(v: Validator) {
    v.Set? && forall a :: a in v.members ==> Algorithm(v.members[a]) == a
  }

  /** A set built by `MakeSet` keeps the invariant, and its members are exactly the given validators. */
  lemma MakeSetFiledByAlgorithm(vs: seq<Validator>)
    requires DistinctAlgorithms(vs)
    ensures FiledByAlgorithm(MakeSet(vs))
    ensures forall a :: a in MakeSet(vs).members ==> exists i :: 0 <= i < |vs| && MakeSet(vs).members[a] == vs[i]
  {
  }

  /** When the header's "alg" names a member, the set answers exactly as that member does. */
  lemma SetDelegates(p: Primitives, sv: Validator, hdr: Option<Header>,
                     data: Bytes, length: nat, sig: Bytes, sigLength: nat)
    requires sv.Set? && length <= |data| && sigLength <= |sig|
    requires GetString(hdr, AlgField).Some? && GetString(hdr, AlgField).value in sv.members
    ensures Verify(p, sv, hdr, data, length, sig, sigLength)
              == Verify(p, sv.members[GetString(hdr, AlgField).value], hdr, data, length, sig, sigLength)
  {
  }

  /**
    The header decides only which member checks the signature: a set keeping
    its invariant accepts only when the member whose algorithm is the
    header's "alg" accepts.
   */
  lemma SetChecksHeaderAlgorithm(p: Primitives, sv: Validator, hdr: Option<Header>,
                                                    data: Bytes, length: nat, sig: Bytes, sigLength: nat)
    requires FiledByAlgorithm(sv) && length <= |data| && sigLength <= |sig|
    requires Verify(p, sv, hdr, data, length, sig, sigLength)
    ensures exists a :: GetString(hdr, AlgField) == Some(a) && a in sv.members
              && Algorithm(sv.members[a]) == a
              && Verify(p, sv.members[a], hdr, data, length, sig, sigLength)
  {
  }

  /**
    A set built from `vs` answers, for a header whose "alg" is the algorithm
    of `vs[i]`, exactly as `vs[i]` does.
   */
  lemma MakeSetPicks(p: Primitives, vs: seq<Validator>, i: nat,
                                        hdr: Option<Header>, m: Bytes, sig: Bytes)
    requires DistinctAlgorithms(vs) && i < |vs|
    requires GetString(hdr, AlgField) == Some(Algorithm(vs[i]))
    ensures Validate(p, MakeSet(vs), hdr, m, sig) == Validate(p, vs[i], hdr, m, sig)
  {
  }

  /** A set fails closed: no header, no "alg", a non-string "alg" or one no member reports gives false. */
  lemma SetFailsClosed(p: Primitives, sv: Validator, hdr: Option<Header>, m: Bytes, sig: Bytes)
    requires sv.Set?
    requires hdr.None? || AlgField !in hdr.value || !hdr.value[AlgField].JString?
             || hdr.value[AlgField].text !in sv.members
    ensures !Validate(p, sv, hdr, m, sig)
  {
  }
}
