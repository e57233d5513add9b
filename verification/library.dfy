/** The router's pricing formulas for one pool.

    `Quote` is the fee-less price used to balance a liquidity deposit;
    `GetAmountOut` and `GetAmountIn` price a trade against reserves after the
    0.3% input fee (997/1000 of the input counts), rounding so that the pool
    never loses: the output is rounded down and the input is rounded up by
    adding one.
 */
module Library {
  import opened Outcomes

  /** A one-way trade that adds `amountIn` to the input reserve and removes
      `amountOut` from the output reserve keeps the constant product once the
      0.3% fee is taken off the input: the fee-adjusted input balance times the
      output balance left is at least the product of the old reserves (all
      scaled by 1000). */
  predicate KeepsProduct(reserveIn: nat, reserveOut: nat, amountIn: nat, amountOut: nat) {
    && amountOut <= reserveOut
    && (reserveIn * 1000 + amountIn * 997) * (reserveOut - amountOut) >= reserveIn * 1000 * reserveOut
  }

  lemma FloorDiv(n: nat, d: nat)
    requires d > 0
    ensures (n / d) * d <= n < (n / d + 1) * d
  {
  }

  /** The rounded-down quotient is positive exactly when `n` reaches `d`. */
  lemma FloorPositive(n: nat, d: nat)
    requires d > 0
    ensures n / d > 0 <==> n >= d
  {
    FloorDiv(n, d);
    if n >= d {
      MulCancel(1, n / d + 1, d);
    }
  }

  /** The rounded-down quotient reaches `m` exactly when `n` reaches `m * d`. */
  lemma FloorAtLeast(n: nat, d: nat, m: nat)
    requires d > 0
    ensures n / d >= m <==> n >= m * d
  {
    FloorDiv(n, d);
    if n / d >= m {
      MulMonotone(m, n / d, d);
    } else {
      MulMonotone(n / d + 1, m, d);
    }
  }

  lemma MulMonotone(a: nat, b: nat, c: nat)
    requires a <= b
    ensures a * c <= b * c
  {
  }

  lemma MulCompare(a: nat, b: nat, c: nat)
    requires c > 0
    ensures a * c >= b * c <==> a >= b
  {
    if a >= b {
      MulMonotone(b, a, c);
    } else {
      MulMonotone(a + 1, b, c);
    }
  }

  lemma MulCancel(a: nat, b: nat, c: nat)
    requires c > 0 && a * c <= b * c
    ensures a <= b
  {
    if a > b {
      MulMonotone(b + 1, a, c);
    }
  }

  /** `(c + m) * (R - o) >= c * R` is `(c + m) * o <= m * R`, multiplied out. */
  lemma ProductOut(c: nat, m: nat, big: nat, o: nat)
    requires o <= big
    ensures (c + m) * (big - o) >= c * big <==> (c + m) * o <= m * big
  {
    assert (c + m) * (big - o) == (c + m) * big - (c + m) * o;
    assert (c + m) * big == c * big + m * big;
  }

  /** `(c + m) * (R - o) >= c * R` is `m * (R - o) >= c * o`, multiplied out. */
  lemma ProductIn(c: nat, m: nat, big: nat, o: nat)
    requires o <= big
    ensures (c + m) * (big - o) >= c * big <==> m * (big - o) >= c * o
  {
    assert (c + m) * (big - o) == c * (big - o) + m * (big - o);
    assert c * (big - o) == c * big - c * o;
  }

  /** For a fixed input, the product is kept exactly by the outputs `o` with
      `(reserveIn * 1000 + amountIn * 997) * o <= amountIn * 997 * reserveOut`. */
  lemma KeepsProductOut(reserveIn: nat, reserveOut: nat, amountIn: nat, amountOut: nat)
    requires amountOut <= reserveOut
    ensures KeepsProduct(reserveIn, reserveOut, amountIn, amountOut)
        <==> (reserveIn * 1000 + amountIn * 997) * amountOut <= amountIn * 997 * reserveOut
  {
    ProductOut(reserveIn * 1000, amountIn * 997, reserveOut, amountOut);
  }

  /** For a fixed output, the product is kept exactly by the inputs `x` with
      `x * ((reserveOut - amountOut) * 997) >= reserveIn * amountOut * 1000`. */
  lemma KeepsProductIn(reserveIn: nat, reserveOut: nat, amountIn: nat, amountOut: nat)
    requires amountOut <= reserveOut
    ensures KeepsProduct(reserveIn, reserveOut, amountIn, amountOut)
        <==> amountIn * ((reserveOut - amountOut) * 997) >= reserveIn * amountOut * 1000
  {
    ProductIn(reserveIn * 1000, amountIn * 997, reserveOut, amountOut);
  }

  /** Fee-less proportional quote: the largest amount of B worth no more than
      `amountA` of A at the pool's current price `reserveB / reserveA`. */
  function Quote(amountA: nat, reserveA: nat, reserveB: nat): (r: Result<nat>)
    ensures amountA == 0 ==> r == Err(InsufficientAmount)
    ensures amountA > 0 && (reserveA == 0 || reserveB == 0) ==> r == Err(InsufficientLiquidity)
    ensures r.Ok? <==> amountA > 0 && reserveA > 0 && reserveB > 0
    ensures r.Ok? ==> r.value * reserveA <= amountA * reserveB < (r.value + 1) * reserveA
  {
    if amountA == 0 then Err(InsufficientAmount)
    else if reserveA == 0 || reserveB == 0 then Err(InsufficientLiquidity)
    else
      FloorDiv(amountA * reserveB, reserveA);
      Ok(amountA * reserveB / reserveA)
  }

  /** The output of `GetAmountOut` is the largest one that keeps the product. */
  lemma AmountOutIsLargest(amountIn: nat, reserveIn: nat, reserveOut: nat, out: int)
    requires amountIn > 0 && reserveIn > 0 && reserveOut > 0
    requires out == amountIn * 997 * reserveOut / (reserveIn * 1000 + amountIn * 997)
    ensures 0 <= out < reserveOut
    ensures KeepsProduct(reserveIn, reserveOut, amountIn, out)
    ensures !KeepsProduct(reserveIn, reserveOut, amountIn, out + 1)
  {
    FloorOfShare(reserveIn * 1000, amountIn * 997, reserveOut, out);
    KeepsProductOut(reserveIn, reserveOut, amountIn, out);
    KeepsProductOut(reserveIn, reserveOut, amountIn, out + 1);
  }

  /** `b * r / (a + b)` is the largest `x` with `(a + b) * x <= b * r`, and it
      is below `r` when `a` is positive. */
  lemma FloorOfShare(a: nat, b: nat, r: nat, x: int)
    requires a > 0 && r > 0 && x == b * r / (a + b)
    ensures 0 <= x < r
    ensures (a + b) * x <= b * r < (a + b) * (x + 1)
  {
    FloorDiv(b * r, a + b);
    if x >= r {
      MulMonotone(r, x, a + b);
      MulMonotone(1, a, r);
      assert false;
    }
  }

  /** The output a trade of `amountIn` buys: the largest output that keeps the
      fee-adjusted product, which is always less than the whole output reserve. */
  function GetAmountOut(amountIn: nat, reserveIn: nat, reserveOut: nat): (r: Result<nat>)
    ensures amountIn == 0 ==> r == Err(InsufficientInputAmount)
    ensures amountIn > 0 && (reserveIn == 0 || reserveOut == 0) ==> r == Err(InsufficientLiquidity)
    ensures r.Ok? <==> amountIn > 0 && reserveIn > 0 && reserveOut > 0
    ensures r.Ok? ==> r.value < reserveOut
    ensures r.Ok? ==> KeepsProduct(reserveIn, reserveOut, amountIn, r.value)
    ensures r.Ok? ==> !KeepsProduct(reserveIn, reserveOut, amountIn, r.value + 1)
  {
    if amountIn == 0 then Err(InsufficientInputAmount) else
    :- Need(reserveIn > 0 && reserveOut > 0, InsufficientLiquidity);
    var amountInWithFee := amountIn * 997;
    var numerator := amountInWithFee * reserveOut;
    var denominator := reserveIn * 1000 + amountInWithFee;
    AmountOutIsLargest(amountIn, reserveIn, reserveOut, numerator / denominator);
    Ok(numerator / denominator)
  }

  /** The input of `GetAmountIn` keeps the product; two units less does not. */
  lemma AmountInSuffices(amountOut: nat, reserveIn: nat, reserveOut: nat, a: nat)
    requires amountOut > 0 && reserveIn > 0 && amountOut < reserveOut
    requires a == reserveIn * amountOut * 1000 / ((reserveOut - amountOut) * 997) + 1
    ensures a > 0 && KeepsProduct(reserveIn, reserveOut, a, amountOut)
    ensures a >= 2 ==> !KeepsProduct(reserveIn, reserveOut, a - 2, amountOut)
  {
    var n := reserveIn * amountOut * 1000;
    var d := (reserveOut - amountOut) * 997;
    var q := a - 1;
    FloorDiv(n, d);
    KeepsProductIn(reserveIn, reserveOut, a, amountOut);
    if q >= 1 {
      KeepsProductIn(reserveIn, reserveOut, q - 1, amountOut);
      assert (q - 1) * d == q * d - d;
    }
  }

  /** The input a trade needs to buy `amountOut`: enough to keep the
      fee-adjusted product, and at most one unit more than the least such input
      (two units less never suffice). */
  function GetAmountIn(amountOut: nat, reserveIn: nat, reserveOut: nat): (r: Result<nat>)
    ensures amountOut == 0 ==> r == Err(InsufficientOutputAmount)
    ensures amountOut > 0 && (reserveIn == 0 || reserveOut == 0) ==> r == Err(InsufficientLiquidity)
    ensures r.Ok? <==> amountOut > 0 && reserveIn > 0 && amountOut < reserveOut
    ensures r.Ok? ==> r.value > 0 && KeepsProduct(reserveIn, reserveOut, r.value, amountOut)
    ensures r.Ok? && r.value >= 2 ==> !KeepsProduct(reserveIn, reserveOut, r.value - 2, amountOut)
  {
    if amountOut == 0 then Err(InsufficientOutputAmount)
    else if reserveIn == 0 || reserveOut == 0 then Err(InsufficientLiquidity)
    else if amountOut > reserveOut then Err(Underflow)
    else if amountOut == reserveOut then Err(DivisionByZero)
    else
      var numerator := reserveIn * amountOut * 1000;
      var denominator := (reserveOut - amountOut) * 997;
      var amountIn := numerator / denominator + 1;
      AmountInSuffices(amountOut, reserveIn, reserveOut, amountIn);
      Ok(amountIn)
  }

  /** Taking less output never breaks the product check. */
  lemma KeepsProductLessOut(reserveIn: nat, reserveOut: nat, amountIn: nat, amountOut: nat, less: nat)
    requires KeepsProduct(reserveIn, reserveOut, amountIn, amountOut) && less <= amountOut
    ensures KeepsProduct(reserveIn, reserveOut, amountIn, less)
  {
    MulMonotone(reserveOut - amountOut, reserveOut - less, reserveIn * 1000 + amountIn * 997);
  }

  /** Paying more input never breaks the product check. */
  lemma KeepsProductMoreIn(reserveIn: nat, reserveOut: nat, amountIn: nat, amountOut: nat, more: nat)
    requires KeepsProduct(reserveIn, reserveOut, amountIn, amountOut) && amountIn <= more
    ensures KeepsProduct(reserveIn, reserveOut, more, amountOut)
  {
    MulMonotone(reserveIn * 1000 + amountIn * 997, reserveIn * 1000 + more * 997, reserveOut - amountOut);
  }

  /** Both directions: a trade of `amountIn` keeps the product for exactly the
      outputs up to the quoted one. */
  lemma AmountOutExactlyKept(amountIn: nat, reserveIn: nat, reserveOut: nat)
    requires GetAmountOut(amountIn, reserveIn, reserveOut).Ok?
    ensures var out := GetAmountOut(amountIn, reserveIn, reserveOut).value;
      forall o: nat :: KeepsProduct(reserveIn, reserveOut, amountIn, o) <==> o <= out
  {
    var out := GetAmountOut(amountIn, reserveIn, reserveOut).value;
    forall o: nat
      ensures KeepsProduct(reserveIn, reserveOut, amountIn, o) <==> o <= out
    {
      if o <= out {
        KeepsProductLessOut(reserveIn, reserveOut, amountIn, out, o);
      } else if KeepsProduct(reserveIn, reserveOut, amountIn, o) {
        KeepsProductLessOut(reserveIn, reserveOut, amountIn, o, out + 1);
      }
    }
  }

  /** The quoted input for `amountOut` and every larger input keep the
      product; every input at least two below the quote breaks it. */
  lemma AmountInBounds(amountOut: nat, reserveIn: nat, reserveOut: nat)
    requires GetAmountIn(amountOut, reserveIn, reserveOut).Ok?
    ensures var need := GetAmountIn(amountOut, reserveIn, reserveOut).value;
      forall x: nat ::
        && (x >= need ==> KeepsProduct(reserveIn, reserveOut, x, amountOut))
        && (x + 2 <= need ==> !KeepsProduct(reserveIn, reserveOut, x, amountOut))
  {
    var need := GetAmountIn(amountOut, reserveIn, reserveOut).value;
    forall x: nat
      ensures x >= need ==> KeepsProduct(reserveIn, reserveOut, x, amountOut)
      ensures x + 2 <= need ==> !KeepsProduct(reserveIn, reserveOut, x, amountOut)
    {
      if x >= need {
        KeepsProductMoreIn(reserveIn, reserveOut, need, amountOut, x);
      } else if x + 2 <= need && KeepsProduct(reserveIn, reserveOut, x, amountOut) {
        KeepsProductMoreIn(reserveIn, reserveOut, x, amountOut, need - 2);
      }
    }
  }

  /** Paying the quoted input for `amountOut` buys at least `amountOut`. */
  lemma AmountInBuysAmountOut(amountOut: nat, reserveIn: nat, reserveOut: nat)
    requires GetAmountIn(amountOut, reserveIn, reserveOut).Ok?
    ensures var need := GetAmountIn(amountOut, reserveIn, reserveOut).value;
      && GetAmountOut(need, reserveIn, reserveOut).Ok?
      && GetAmountOut(need, reserveIn, reserveOut).value >= amountOut
  {
    var need := GetAmountIn(amountOut, reserveIn, reserveOut).value;
    AmountOutExactlyKept(need, reserveIn, reserveOut);
  }

  /** Quoting back the input for a quoted output asks for at most one unit
      more than was paid. */
  lemma AmountOutCostsAtMostOneMore(amountIn: nat, reserveIn: nat, reserveOut: nat)
    requires GetAmountOut(amountIn, reserveIn, reserveOut).Ok?
    requires GetAmountOut(amountIn, reserveIn, reserveOut).value > 0
    ensures var out := GetAmountOut(amountIn, reserveIn, reserveOut).value;
      && GetAmountIn(out, reserveIn, reserveOut).Ok?
      && GetAmountIn(out, reserveIn, reserveOut).value <= amountIn + 1
  {
    var out := GetAmountOut(amountIn, reserveIn, reserveOut).value;
    AmountInBounds(out, reserveIn, reserveOut);
  }

  /** The two quotes are not inverse: 100 units into reserves (1, 10) buy 9,
      and 9 can be bought back quoted at only 10. */
  lemma AmountInOfAmountOutCanBeFarLess()
    ensures GetAmountOut(100, 1, 10) == Ok(9)
    ensures GetAmountIn(9, 1, 10) == Ok(10)
  {
  }

  /** Adding one after the floor overcharges by one unit when the division is
      exact: buying 1 out of reserves (997, 2) is quoted at 1001, yet 1000
      already keeps the product. */
  lemma AmountInOvershootsWhenExact()
    ensures GetAmountIn(1, 997, 2) == Ok(1001)
    ensures KeepsProduct(997, 2, 1000, 1)
  {
  }
}
