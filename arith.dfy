/** Integer remainders as the reducer computes them. */
module Arith {

  /** JavaScript's `%` operator on integers: division truncates toward zero, so the
      remainder carries the sign of the dividend (`-1 % 3` is `-1`). */
  function JsRem(n: int, d: int): (r: int)
    requires d > 0
    ensures -d < r < d
    ensures n >= 0 ==> r == n % d
    ensures n < 0 ==> r <= 0
    ensures (n - r) % d == 0
  {
    if n >= 0 then
      DivMod(n - n % d, d, n / d, 0);
      n % d
    else
      DivMod(n + (-n) % d, d, -((-n) / d), 0);
      -((-n) % d)
  }

  /** The reducer's `mod(n, m)`. For a positive divisor Dafny's `%` is already the
      non-negative remainder; `ModIsJsMod` shows that it equals the reducer's
      `((n % m) + m) % m` computed with JavaScript's `%`. */
  function Mod(n: int, d: int): (r: int)
    requires d > 0
    ensures 0 <= r < d
    ensures 0 <= n < d ==> r == n
  {
    if 0 <= n < d then DivMod(n, d, 0, n); n % d else n % d
  }

  /** The reducer's own formula, `((n % d) + d) % d` with truncating `%`. */
  function JsMod(n: int, d: int): (r: int)
    requires d > 0
    ensures 0 <= r < d
  {
    JsRem(JsRem(n, d) + d, d)
  }

  /** The two definitions of `mod` agree on every integer: adding the divisor to a
      truncated remainder and taking the remainder again gives the non-negative one. */
  lemma ModIsJsMod(n: int, d: int)
    requires d > 0
    ensures JsMod(n, d) == Mod(n, d)
  {
    if n >= 0 {
      var r := n % d;
      DivMod(n, d, n / d, r);
      DivMod(r + d, d, 1, r);
    } else {
      var q := (-n) / d;
      var s := (-n) % d;
      DivMod(-n, d, q, s);
      if s == 0 {
        DivMod(d, d, 1, 0);
        DivMod(n, d, -q, 0);
      } else {
        DivMod(d - s, d, 0, d - s);
        DivMod(n, d, -q - 1, d - s);
      }
    }
  }

  /** The quotient and remainder of a division by a positive divisor are unique. */
  lemma DivMod(n: int, d: int, q: int, r: int)
    requires d > 0 && 0 <= r < d && n == q * d + r
    ensures n % d == r && n / d == q
  {
    var q', r' := n / d, n % d;
    assert n == q' * d + r';
    assert (q - q') * d == r' - r;
    if q > q' {
      MulAtLeast(q - q', d);
    } else if q < q' {
      MulAtLeast(q' - q, d);
    }
  }

  lemma MulAtLeast(k: int, d: int)
    requires k >= 1 && d > 0
    ensures k * d >= d
  {
    assert k * d == (k - 1) * d + d;
  }

  /** Mirroring commutes with the remainder: `mod(d - 1 - x, d) == d - 1 - mod(x, d)`. */
  lemma ModMirror(x: int, d: int)
    requires d > 0
    ensures Mod(d - 1 - x, d) == d - 1 - Mod(x, d)
  {
    var q, r := x / d, x % d;
    assert x == q * d + r;
    DivMod(d - 1 - x, d, -q, d - 1 - r);
  }
}
