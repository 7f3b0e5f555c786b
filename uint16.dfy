/** The source's uint16_t arithmetic: a value assigned to a uint16_t keeps its remainder modulo 65536. */
module UInt16 {

  /** The range of uint16_t: arguments of that type are taken modulo U16. */
  const U16: nat := 0x10000

  /**
   * The value a uint16_t holds after an assignment of `n`: `n` brought into
   * [0, U16) by whole multiples of U16 (the same as `n % U16`, see Low16IsMod).
   */
  function Low16(n: int): (r: nat)
    ensures r < U16
    ensures 0 <= n < U16 ==> r == n
    ensures n < 0 && 0 <= n + U16 ==> r == n + U16
    decreases if n < 0 then U16 - n else n
  {
    if n < 0 then Low16(n + U16) else if n < U16 then n else Low16(n - U16)
  }

  /** Low16 is the remainder modulo U16. */
  lemma {:induction false} Low16IsMod(n: int)
    ensures Low16(n) == n % U16
    decreases if n < 0 then U16 - n else n
  {
    if n < 0 {
      Low16IsMod(n + U16);
      assert (n + U16) % U16 == n % U16;
    } else if n >= U16 {
      Low16IsMod(n - U16);
      assert (n - U16) % U16 == n % U16;
    }
  }
}
