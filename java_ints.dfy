/** Java `int` arithmetic: 32-bit two's complement, wrapping on overflow. */
module JavaInts {

  const TwoTo31: int := 0x8000_0000
  const TwoTo32: int := 0x1_0000_0000

  predicate IsInt32(x: int) {
    -TwoTo31 <= x < TwoTo31
  }

  /** The `int` that Java stores for the mathematical value `x`. */
  function Wrap32(x: int): (r: int)
    ensures IsInt32(r)
    ensures (x - r) % TwoTo32 == 0
    ensures IsInt32(x) ==> r == x
  {
    (x + TwoTo31) % TwoTo32 - TwoTo31
  }

  /** Wrapping after every addition is the same as wrapping once at the end. */
  lemma Wrap32Add(a: int, b: int)
    ensures Wrap32(Wrap32(a) + b) == Wrap32(a + b)
  {
  }
}

