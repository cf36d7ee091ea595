/** Unsigned 32-bit words. Every header field and every slot's refcount and
    link in a fastpub segment is a `uint32_t`; the only arithmetic the pool
    does on them is `++` and `--`, which wrap around modulo 2^32. */
module Word {

  const LIMIT: nat := 0x1_0000_0000

  /** Increment of a uint32_t: the largest word wraps to zero. */
  function Inc(x: nat): (r: nat)
    requires x < LIMIT
    ensures r < LIMIT
    ensures x < LIMIT - 1 ==> r == x + 1
    ensures x == LIMIT - 1 ==> r == 0
  {
    (x + 1) % LIMIT
  }

  /** Pre-decrement of a uint32_t: zero wraps to the largest word. */
  function Dec(x: nat): (r: nat)
    requires x < LIMIT
    ensures r < LIMIT
    ensures (r + 1) % LIMIT == x
    ensures r == 0 <==> x == 1
  {
    if x == 0 then LIMIT - 1 else x - 1
  }

  /** Increment agrees with addition modulo 2^32. */
  lemma IncMod(a: int)
    ensures Inc(a % LIMIT) == (a + 1) % LIMIT
  {
  }

  /** Decrement agrees with subtraction modulo 2^32. */
  lemma DecMod(a: int)
    ensures Dec(a % LIMIT) == (a - 1) % LIMIT
  {
  }

  /** A decrement undoes an increment, wrap-around included. */
  lemma DecInc(x: nat)
    requires x < LIMIT
    ensures Dec(Inc(x)) == x
  {
  }
}
