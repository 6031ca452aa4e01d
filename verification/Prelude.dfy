/** Types shared by every module of the model. */
module Prelude {

  datatype Option<+T> = None | Some(value: T) {

    predicate IsFailure() {
      None?
    }

    function PropagateFailure<U>(): Option<U>
      requires None?
    {
      None
    }

    function Extract(): T
      requires Some?
    {
      value
    }
  }

  datatype Result<+T, +E> = Ok(value: T) | Err(error: E)

  type byte = b: int | 0 <= b < 256

  /** The range of the 64-bit unsigned integers: `u64` arithmetic wraps or overflows here. */
  const U64_RANGE: nat := 0x1_0000_0000_0000_0000

  type u64 = n: int | 0 <= n < U64_RANGE

  /** Histories that grow at each step: each is a prefix of all later ones. */
  lemma {:induction false} PrefixesGrow<T>(hs: seq<seq<T>>, j: nat, k: nat)
    requires forall i :: 0 <= i < |hs| - 1 ==> hs[i] <= hs[i + 1]
    requires j <= k < |hs|
    ensures hs[j] <= hs[k]
  {
    if j < k {
      PrefixesGrow(hs, j, k - 1);
      assert hs[k - 1] <= hs[k - 1 + 1];
    }
  }
}
