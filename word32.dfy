/** C `unsigned int` arithmetic: 32-bit values that wrap around modulo 2^32. */
module Word32 {

  const Modulus: int := 0x1_0000_0000

  type u32 = x: int | 0 <= x < Modulus

  /** `a + b` on two `unsigned int`s. */
  function Add(a: u32, b: u32): u32
  {
    (a + b) % Modulus
  }

  /** `a - b` on two `unsigned int`s; a negative difference wraps to the top of the range. */
  function Sub(a: u32, b: u32): u32
  {
    (a - b) % Modulus
  }

  /** The 32-bit image of an unbounded tick count. */
  function Wrap(n: nat): u32
  {
    n % Modulus
  }

  /**
   * Subtracting two wrapped readings of a clock gives the exact number of
   * ticks between them, provided fewer than 2^32 ticks passed.
   */
  lemma SubRecoversElapsed(start: nat, end: nat)
    requires start <= end < start + Modulus
    ensures Sub(Wrap(end), Wrap(start)) == end - start
  {
  }

  /** Incrementing a wrapped clock reading is the wrapped reading of the next tick. */
  lemma AddOneTracksClock(n: nat)
    ensures Add(Wrap(n), 1) == Wrap(n + 1)
  {
  }
}
