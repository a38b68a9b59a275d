/** The half-open unsigned range [start, stop) that selects columns and rows. */
module Ranges {
  import opened Common

  datatype Range = Range(start: uint64, stop: uint64)

  /** A range as the program builds it: start never exceeds stop. */
  predicate WellFormed(r: Range) { r.start <= r.stop }

  /** The range used when no flag is given: every index a uint64 can name. */
  function DefaultRange(): (r: Range)
    ensures r.start == 0 && r.stop == UINT64_MAX
    ensures forall i: uint64 :: i < UINT64_MAX ==> Includes(r, i)
  {
    Range(0, UINT64_MAX)
  }

  /** stop - start in uint64 arithmetic, wrapping when start > stop. */
  function Size(r: Range): (n: uint64)
    ensures (n + r.start) % UINT64_MODULUS == r.stop
    ensures WellFormed(r) ==> n + r.start == r.stop
  {
    (r.stop - r.start) % UINT64_MODULUS
  }

  /** Both ends limited to `max`. */
  function Clip(r: Range, max: uint64): (c: Range)
    ensures c.start <= max && c.stop <= max
    ensures r.start <= max ==> c.start == r.start
    ensures r.stop <= max ==> c.stop == r.stop
    ensures c.start <= r.start && c.stop <= r.stop
    ensures WellFormed(r) ==> WellFormed(c)
  {
    Range(if r.start < max then r.start else max, if r.stop < max then r.stop else max)
  }

  predicate Includes(r: Range, i: uint64) { i >= r.start && i < r.stop }

  /** A well-formed range includes exactly Size(r) consecutive indices from start. */
  lemma {:induction false} IncludesMatchesSize(r: Range, i: uint64)
    requires WellFormed(r)
    ensures Includes(r, i) <==> r.start <= i < r.start + Size(r)
  {
  }

  /** Clipping a second time to the same bound changes nothing. */
  lemma {:induction false} ClipIdempotent(r: Range, max: uint64)
    ensures Clip(Clip(r, max), max) == Clip(r, max)
  {
  }

  /** An index is in the clipped range exactly when it is in the range and below the bound. */
  lemma {:induction false} ClipIncludes(r: Range, max: uint64, i: uint64)
    ensures Includes(Clip(r, max), i) <==> Includes(r, i) && i < max
  {
  }

  /** Clipping the default range to a file's size selects the whole file. */
  lemma {:induction false} DefaultClip(max: uint64)
    ensures Clip(DefaultRange(), max) == Range(0, max)
    ensures Size(Clip(DefaultRange(), max)) == max
  {
  }
}
