/** Fixed-width integers of the target, and the option type used for C's NULL results. */
module Machine {

  type Byte = b: int | 0 <= b < 0x100
  type U16 = x: int | 0 <= x < 0x1_0000
  type U32 = x: int | 0 <= x < 0x1_0000_0000

  datatype Option<+T> = None | Some(value: T)

  /** Whether a call returned; a failed LWIP_ASSERT loops forever on this port. */
  datatype Outcome = Returned | Halted

  /** Pieces of a packet laid end to end. */
  function Concat(parts: seq<seq<Byte>>): seq<Byte> {
    if parts == [] then [] else parts[0] + Concat(parts[1..])
  }

  /** Rows of `k` cells do not overlap. */
  lemma {:induction false} RowsApart(a: nat, b: nat, k: nat)
    requires a < b
    ensures a * k + k <= b * k
  {
    if a + 1 < b { RowsApart(a, b - 1, k); }
    assert b * k == (b - 1) * k + k;
  }
}
