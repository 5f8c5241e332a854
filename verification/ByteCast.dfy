/** Integers as bytes. The two nibbles are converted apart, because the solver
    relates small integers to bit-vectors much more readily than large ones. */
module ByteCast {
  /** n mod 256. */
  function ByteOf(n: int): bv8 { JoinNibbles((n % 256 / 16) as bv8, (n % 256 % 16) as bv8) }

  function JoinNibbles(high: bv8, low: bv8): bv8 { (high << 4) | low }

  lemma CastNibble(m: nat)
    requires m < 16
    ensures (m as bv8) as int == m && m as bv8 < 16
  {
  }

  lemma NibblesJoin(high: bv8, low: bv8)
    requires high < 16 && low < 16
    ensures JoinNibbles(high, low) as int == 16 * (high as int) + (low as int)
  {
  }

  lemma ByteValue(n: int)
    ensures ByteOf(n) as int == n % 256
  {
    hide JoinNibbles;
    CastNibble(n % 256 / 16);
    CastNibble(n % 256 % 16);
    NibblesJoin((n % 256 / 16) as bv8, (n % 256 % 16) as bv8);
  }
}
