/** How numbers are written. */
module Decimals {
  /** A natural number in decimal. */
  function Decimal(k: nat): (s: string)
    ensures s != "" && '0' <= s[0] <= '9'
  {
    if k < 10 then ["0123456789"[k]] else Decimal(k / 10) + ["0123456789"[k % 10]]
  }

  lemma DigitIs(d: nat)
    requires d < 10
    ensures "0123456789"[d] as int == '0' as int + d
  {
  }
}
