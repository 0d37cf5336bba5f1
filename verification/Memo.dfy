/** A value kept from one call to the next and rebuilt only when a fingerprint of the input changes:
    the consistent-hash ring (fingerprint: a 32-bit hash of the list) and the pool index (fingerprint:
    the length of the pool) are both kept this way. */
module Memo {
  import opened Base

  /** The input the kept value was built from, after a call with input x. */
  function Next<X, K(==)>(kept: Option<X>, x: X, fingerprint: X -> K): Option<X> {
    if kept.Some? && fingerprint(kept.value) == fingerprint(x) then kept else Some(x)
  }

  function Kept<X, K(==)>(inputs: seq<X>, fingerprint: X -> K): Option<X> {
    if inputs == [] then None
    else Next(Kept(inputs[..|inputs| - 1], fingerprint), inputs[|inputs| - 1], fingerprint)
  }

  ghost predicate CallIsFresh<X, K>(inputs: seq<X>, k: nat, fingerprint: X -> K)
    requires k < |inputs|
  {
    Kept(inputs[..k + 1], fingerprint) == Some(inputs[k])
  }

  ghost predicate StepSeparates<X, K>(inputs: seq<X>, k: nat, fingerprint: X -> K)
    requires k + 1 < |inputs|
  {
    fingerprint(inputs[k]) == fingerprint(inputs[k + 1]) ==> inputs[k] == inputs[k + 1]
  }

  /** Every call of a run is served from its own input if and only if the fingerprint tells apart every
      two consecutive inputs that differ. */
  lemma {:induction false} FreshIffSeparated<X, K>(inputs: seq<X>, fingerprint: X -> K)
    ensures (forall k :: 0 <= k < |inputs| ==> CallIsFresh(inputs, k, fingerprint))
      <==> (forall k :: 0 <= k < |inputs| - 1 ==> StepSeparates(inputs, k, fingerprint))
  {
    if forall k :: 0 <= k < |inputs| ==> CallIsFresh(inputs, k, fingerprint) {
      forall k | 0 <= k < |inputs| - 1 ensures StepSeparates(inputs, k, fingerprint) {
        assert CallIsFresh(inputs, k, fingerprint) && CallIsFresh(inputs, k + 1, fingerprint);
        assert inputs[..k + 2][..k + 1] == inputs[..k + 1];
      }
    }
    if forall k :: 0 <= k < |inputs| - 1 ==> StepSeparates(inputs, k, fingerprint) {
      forall k | 0 <= k < |inputs| ensures CallIsFresh(inputs, k, fingerprint) {
        SeparatedRunIsFresh(inputs, fingerprint, k);
      }
    }
  }

  lemma {:induction false} SeparatedRunIsFresh<X, K>(inputs: seq<X>, fingerprint: X -> K, k: nat)
    requires k < |inputs|
    requires forall j :: 0 <= j < |inputs| - 1 ==> StepSeparates(inputs, j, fingerprint)
    ensures CallIsFresh(inputs, k, fingerprint)
  {
    assert inputs[..k + 1][..k] == inputs[..k];
    if k > 0 {
      SeparatedRunIsFresh(inputs, fingerprint, k - 1);
      assert StepSeparates(inputs, k - 1, fingerprint);
    }
  }
}
