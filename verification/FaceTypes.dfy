/** What FACE::String and FACE::Sequence share: UnsignedLong, return codes, and growth by doubling. */
module FaceTypes {

  newtype UnsignedLong = x: int | 0 <= x < 0x1_0000_0000

  /** The bound of an unbounded buffer. */
  const UNBOUNDED: UnsignedLong := 0xFFFF_FFFF

  datatype ReturnCode = NoError | InsufficientBound | InsufficientMemory | PreconditionViolated

  function Min(a: int, b: int): int { if a < b then a else b }

  /** Doubling in UnsignedLong, from `initial` on, capped at the bound. */
  function Grown(capacity: UnsignedLong, bound: UnsignedLong, initial: UnsignedLong): UnsignedLong {
    var doubled := if capacity == 0 then initial else ((capacity as int * 2) % 0x1_0000_0000) as UnsignedLong;
    if bound != UNBOUNDED && doubled > bound then bound else doubled
  }

  /** A full buffer below its bound grows exactly when its capacity is below 2^31; beyond, doubling wraps. */
  lemma GrowthIff(capacity: UnsignedLong, bound: UnsignedLong, initial: UnsignedLong)
    requires capacity < bound && initial > 0
    ensures Grown(capacity, bound, initial) > capacity <==> capacity < 0x8000_0000
    ensures capacity < 0x8000_0000 ==> Grown(capacity, bound, initial) as int <= bound as int
  {
  }

  /** How much of a length the bound lets in. */
  function Fits(length: nat, bound: UnsignedLong): nat {
    if bound == UNBOUNDED then length else Min(length, bound as int)
  }

  /** Where doubling ends: at the bound, or at a capacity from which the next doubling would wrap. */
  function Reach(capacity: UnsignedLong, bound: UnsignedLong, initial: UnsignedLong): (r: UnsignedLong)
    requires capacity <= bound && initial > 0
    ensures capacity <= r <= bound && (r == bound || r >= 0x8000_0000)
    decreases bound as int - capacity as int
  {
    if capacity < bound && capacity < 0x8000_0000 then
      GrowthIff(capacity, bound, initial);
      Reach(Grown(capacity, bound, initial), bound, initial)
    else
      capacity
  }
}
