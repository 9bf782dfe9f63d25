/*
 * Tracing parameters (the PotraceParam class of potracelib.h.cs).
 *
 * The doubles AlphaMax and OptTolerance are modelled as reals and the
 * nullable `uint?` QuantizeUnit as an Option of a natural number (the
 * 32-bit bound of `uint` is not enforced).
 */
module Params {

  datatype Option<T> = None | Some(value: T)

  const TurnPolicyBlack: int := 0
  const TurnPolicyWhite: int := 1
  const TurnPolicyLeft: int := 2
  const TurnPolicyRight: int := 3
  const TurnPolicyMinority: int := 4
  const TurnPolicyMajority: int := 5
  const TurnPolicyRandom: int := 6

  /** The seven turn policies, in the order of their constants. */
  function TurnPolicies(): (ps: seq<int>)
    ensures |ps| == 7
    ensures forall i :: 0 <= i < |ps| ==> ps[i] == i
  {
    [TurnPolicyBlack, TurnPolicyWhite, TurnPolicyLeft, TurnPolicyRight,
     TurnPolicyMinority, TurnPolicyMajority, TurnPolicyRandom]
  }

  /** The seven turn-policy constants are pairwise distinct and are exactly 0..6. */
  lemma TurnPoliciesDistinct()
    ensures forall i, j :: 0 <= i < j < |TurnPolicies()| ==> TurnPolicies()[i] != TurnPolicies()[j]
    ensures forall p :: p in TurnPolicies() <==> 0 <= p <= 6
  {
    var ps := TurnPolicies();
    forall p | 0 <= p <= 6
      ensures p in ps
    {
      assert ps[p] == p;
    }
  }

  class PotraceParam {
    var turdSize: int
    var turnPolicy: int
    var alphaMax: real
    var optiCurve: bool
    var optTolerance: real
    var quantizeUnit: Option<nat>

    /** A parameter record with the library defaults. */
    constructor ()
      ensures turdSize == 2 && turnPolicy == TurnPolicyMinority && turnPolicy == 4
      ensures alphaMax == 1.0 && optiCurve && optTolerance == 0.2
      ensures quantizeUnit == None
    {
      turdSize := 2;
      turnPolicy := TurnPolicyMinority;
      alphaMax := 1.0;
      optiCurve := true;
      optTolerance := 0.2;
      quantizeUnit := None;
    }
  }
}
