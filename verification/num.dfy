/** Integer arithmetic shared by the pair and the router: the 112-bit reserve
    bound, `min`, and the integer square root used for the first deposit.
 */
module Num {

  /** Reserves are stored as uint112. */
  const MAX_UINT112: nat := 0xffff_ffff_ffff_ffff_ffff_ffff_ffff

  function Min(a: nat, b: nat): (m: nat)
    ensures m <= a && m <= b
    ensures m == a || m == b
  {
    if a < b then a else b
  }

  /** `r` is the integer square root of `n`: the largest `r` with `r * r <= n`. */
  ghost predicate IsRoot(n: nat, r: nat) {
    r * r <= n < (r + 1) * (r + 1)
  }

  lemma SquareMonotone(a: nat, b: nat)
    requires a <= b
    ensures a * a <= b * b
  {
    assert a * a <= a * b by {
      assert a * (b - a) >= 0;
    }
    assert a * b <= b * b by {
      assert (b - a) * b >= 0;
    }
  }

  /** From the root `h` of `n / 4`, `2 * h` is within one of the root of `n`. */
  lemma RootStep(n: nat, h: nat)
    requires IsRoot(n / 4, h)
    ensures (2 * h) * (2 * h) <= n < (2 * h + 2) * (2 * h + 2)
  {
    var q := n / 4;
    assert n == 4 * q + n % 4;
    assert (2 * h) * (2 * h) == 4 * (h * h);
    assert (2 * h + 2) * (2 * h + 2) == 4 * ((h + 1) * (h + 1));
  }

  /** The integer square root, computed from the root of `n / 4`. */
  function Isqrt(n: nat): (r: nat)
    ensures IsRoot(n, r)
    decreases n
  {
    if n < 2 then
      n
    else
      var h := Isqrt(n / 4);
      RootStep(n, h);
      var s := 2 * h;
      if (s + 1) * (s + 1) <= n then s + 1 else s
  }

  /** At most one number is the integer square root of `n`. */
  lemma {:induction false} RootUnique(n: nat, r: nat, s: nat)
    requires IsRoot(n, r) && IsRoot(n, s)
    ensures r == s
  {
    if r < s {
      SquareMonotone(r + 1, s);
    } else if s < r {
      SquareMonotone(s + 1, r);
    }
  }

  /** A witness `r` with `r * r <= n < (r + 1) * (r + 1)` pins down `Isqrt(n)`. */
  lemma IsqrtIs(n: nat, r: nat)
    requires IsRoot(n, r)
    ensures Isqrt(n) == r
  {
    RootUnique(n, Isqrt(n), r);
  }
}
