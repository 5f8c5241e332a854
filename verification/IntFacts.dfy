/** Facts about integers in base 256. */
module IntFacts {
  function Pow2(n: nat): (p: nat)
    ensures p > 0
  {
    if n == 0 then 1 else 2 * Pow2(n - 1)
  }

  lemma MultipleSize(k: int, d: int)
    requires k > 0
    ensures d >= 1 ==> k * d >= k
    ensures d <= -1 ==> k * d <= -k
  {
    if d >= 1 {
      assert k * d == k * (d - 1) + k;
    } else if d <= -1 {
      assert k * d == k * (d + 1) - k;
    }
  }

  lemma Quotient(n: int, k: int, q: int, r: int)
    requires k > 0 && n == k * q + r && 0 <= r < k
    ensures n / k == q && n % k == r
  {
    var d := n / k - q;
    assert k * d == r - n % k;
    MultipleSize(k, d);
  }

  /** Dividing by 256 over and over is dividing by the powers of 256. */
  lemma Quotients(n: int)
    ensures n / 0x1_0000 == n / 0x100 / 0x100
    ensures n / 0x100_0000 == n / 0x100 / 0x100 / 0x100
    ensures n / 0x1_0000_0000 == n / 0x100 / 0x100 / 0x100 / 0x100
  {
    var a := n / 0x100;
    var b := a / 0x100;
    var c := b / 0x100;
    var d := c / 0x100;
    Quotient(n, 0x1_0000, b, n % 0x100 + 0x100 * (a % 0x100));
    Quotient(n, 0x100_0000, c, n % 0x100 + 0x100 * (a % 0x100) + 0x1_0000 * (b % 0x100));
    Quotient(n, 0x1_0000_0000, d, n % 0x100 + 0x100 * (a % 0x100) + 0x1_0000 * (b % 0x100) + 0x100_0000 * (c % 0x100));
  }

  lemma Digits4(n: int)
    ensures n % 0x100 + 0x100 * ((n / 0x100) % 0x100) + 0x1_0000 * ((n / 0x1_0000) % 0x100)
      + 0x100_0000 * ((n / 0x100_0000) % 0x100) == n % 0x1_0000_0000
  {
    Quotients(n);
  }
}
