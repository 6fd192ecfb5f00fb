/** What the `-workers` flag of a worker pool meets in Go: the range and the
    wrap-around of a 64-bit int, the size limit on a channel's buffer, and the
    clamp to at least one worker. */
module Pools {

  // ---------------------------------------------------------------------------
  // Go's int on a 64-bit platform

  const MinInt: int := -0x8000_0000_0000_0000
  const MaxInt: int := 0x7fff_ffff_ffff_ffff
  const Modulus: int := 0x1_0000_0000_0000_0000

  /** The values an int, and so a flag.Int, can hold. */
  predicate IsInt(x: int) {
    MinInt <= x <= MaxInt
  }

  /** The int an arithmetic result wraps around to: the one value in range that
      differs from it by a multiple of 2^64. */
  function Wrap(x: int): (r: int)
    ensures IsInt(r)
    decreases if x > MaxInt then x - MaxInt else MinInt - x
  {
    if IsInt(x) then x
    else if x > MaxInt then Wrap(x - Modulus)
    else Wrap(x + Modulus)
  }

  /** A result in range does not wrap. */
  lemma WrapInRange(x: int)
    requires IsInt(x)
    ensures Wrap(x) == x
  {
  }

  /** Results that differ by 2^64 wrap alike. With WrapInRange this pins Wrap down:
      it is the in-range value reached from `x` in steps of 2^64. */
  lemma WrapPeriodic(x: int)
    ensures Wrap(x + Modulus) == Wrap(x)
    ensures Wrap(x - Modulus) == Wrap(x)
  {
  }

  /** Doubling an int wraps exactly when it leaves the range: from 2^62 up it turns
      negative, and below -2^62 it turns non-negative (MinInt doubles to 0). */
  lemma DoubleWrap(w: int)
    requires IsInt(w)
    ensures Wrap(w * 2) ==
              if w < -0x4000_0000_0000_0000 then w * 2 + Modulus
              else if w >= 0x4000_0000_0000_0000 then w * 2 - Modulus
              else w * 2
  {
    if w < -0x4000_0000_0000_0000 {
      WrapPeriodic(w * 2);
    } else if w >= 0x4000_0000_0000_0000 {
      WrapPeriodic(w * 2);
    } else {
      WrapInRange(w * 2);
    }
  }

  // ---------------------------------------------------------------------------
  // make(chan job, size)

  /** make(chan job, size) panics when the size is negative or the buffer would
      exceed the largest allocation. `maxBuffer` is the largest buffer of jobs the
      platform allows: (maxAlloc - the channel header) / 16 for the 16-byte job
      structs, a little under 2^44 on 64-bit Linux. */
  predicate MakeChanPanics(size: int, maxBuffer: nat) {
    size < 0 || size > maxBuffer
  }

  /** Every 64-bit platform's buffer limit lies far below 2^62, since no allocation
      exceeds 2^48 bytes. */
  predicate PlatformLimit(maxBuffer: nat) {
    maxBuffer < 0x4000_0000_0000_0000
  }

  /** A channel sized `workers*2` panics for a negative count from -2^62 up and for
      a count whose double exceeds the limit. Below -2^62 the double wraps to
      2 * (workers - MinInt), so a count just above MinInt gets a small buffer and
      MinInt itself an unbuffered channel. */
  lemma DoubledChanPanics(workers: int, maxBuffer: nat)
    requires IsInt(workers) && PlatformLimit(maxBuffer)
    ensures MakeChanPanics(Wrap(workers * 2), maxBuffer) <==>
              if workers < -0x4000_0000_0000_0000 then (workers - MinInt) * 2 > maxBuffer
              else workers < 0 || workers * 2 > maxBuffer
  {
    DoubleWrap(workers);
  }

  /** MinInt doubles to 0. */
  lemma DoubleMinInt()
    ensures Wrap(MinInt * 2) == 0
  {
    DoubleWrap(MinInt);
  }

  // ---------------------------------------------------------------------------
  // The clamp

  /** The worker count after the clamp: at least one. */
  function EffectiveWorkers(w: int): (n: nat)
    ensures n >= 1
    ensures w >= 1 ==> n == w
  {
    if w < 1 then 1 else w
  }
}
