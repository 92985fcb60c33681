/** Integer helpers shared by the partitioner model. */
module Arith {

  /** Largest value of a signed 32-bit integer (`std::numeric_limits<int32_t>::max()`). */
  const INT32_MAX: nat := 0x7fff_ffff

  /**
   * The round-up division the source writes as `x / d + !!(x % d)`:
   * used for the number of work units of a node and the byte size of a bit vector.
   * It is the least `r` with `x <= r * d`.
   */
  function DivRoundUp(x: nat, d: nat): (r: nat)
    requires d > 0
    ensures x <= r * d
    ensures r > 0 ==> (r - 1) * d < x
    ensures x == 0 <==> r == 0
  {
    var q, m := x / d, x % d;
    assert x == q * d + m;
    if m != 0 then
      assert (q + 1) * d == q * d + d;
      q + 1
    else
      q
  }

  /** DivRoundUp(x, d) is the smallest number of d-sized blocks that holds x items. */
  lemma DivRoundUpIsLeast(x: nat, d: nat, t: nat)
    requires d > 0
    requires x <= t * d
    ensures DivRoundUp(x, d) <= t
  {
    var r := DivRoundUp(x, d);
    if r > t {
      MulMonotone(t, r - 1, d);
      assert false;
    }
  }

  /** a <= b implies a * d <= b * d. */
  lemma MulMonotone(a: nat, b: nat, d: nat)
    requires a <= b
    ensures a * d <= b * d
  {
    assert b * d == a * d + (b - a) * d;
  }
}
