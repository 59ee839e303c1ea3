/** Bit vectors as sequences of booleans, one bit per table row: the part of
    the `bitarray` type the index uses. */
module BitVectors {
  import opened Sequences

  type BitVector = seq<bool>

  /** A fresh vector of `n` cleared bits (`bitarray(n)`, taken as zero-filled). */
  function Zeros(n: nat): (r: BitVector)
    ensures |r| == n && forall i :: 0 <= i < n ==> !r[i]
  {
    seq(n, _ => false)
  }

  /** `bitarray(n)` followed by `setall(1)`. */
  function Ones(n: nat): (r: BitVector)
    ensures |r| == n && forall i :: 0 <= i < n ==> r[i]
  {
    seq(n, _ => true)
  }

  /** Bitwise AND of two vectors of equal length (`a &= b`). */
  function And(a: BitVector, b: BitVector): (r: BitVector)
    requires |a| == |b|
    ensures |r| == |a|
    ensures forall i :: 0 <= i < |r| ==> (r[i] <==> a[i] && b[i])
  {
    seq(|a|, i requires 0 <= i < |a| => a[i] && b[i])
  }

  /** The positions of the set bits, as `enumerate` collects them: ascending,
      and exactly the positions whose bit is 1. */
  function Positions(a: BitVector): (r: seq<nat>)
    ensures StrictlyIncreasing(r)
    ensures forall i: int :: i in r <==> 0 <= i < |a| && a[i]
  {
    if |a| == 0 then []
    else
      var front := Positions(a[..|a| - 1]);
      assert forall i :: 0 <= i < |front| ==> front[i] in front;
      front + (if a[|a| - 1] then [|a| - 1] else [])
  }
}
