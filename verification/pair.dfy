/** One pair contract: a pool of two tokens with liquidity shares.

    The pair uses optimistic settlement. Callers first transfer tokens to the
    pair, which raises the pair's held balances; `Mint`, `Burn` and `Swap` then
    measure the difference between the held balances and the reserves recorded
    at the last synchronisation, and finally record the held balances as the new
    reserves. Measuring instead of trusting the amount a caller names is what
    makes fee-on-transfer tokens work: the pair only counts what arrived.
 */
module Pairs {
  import opened Outcomes
  import opened Num
  import opened Tokens
  import Library

  /** Shares minted to the zero address on the first deposit and never redeemable. */
  const MINIMUM_LIQUIDITY: nat := 1000

  /** The pair's tokens in canonical order, the reserves recorded at the last
      synchronisation, the balances it holds now, and the total supply of its
      liquidity shares (the locked minimum included). */
  datatype Pair = Pair(
    token0: Token,
    token1: Token,
    reserve0: nat,
    reserve1: nat,
    balance0: nat,
    balance1: nat,
    totalSupply: nat)

  /** A freshly deployed pair: no reserves, no balances, no shares. */
  function Init(token0: Token, token1: Token): (p: Pair)
    ensures p.token0 == token0 && p.token1 == token1
    ensures p.reserve0 == 0 && p.reserve1 == 0 && p.totalSupply == 0
    ensures Synced(p)
  {
    Pair(token0, token1, 0, 0, 0, 0, 0)
  }

  /** The reserves equal the held balances, as after every completed operation. */
  predicate Synced(p: Pair) {
    p.reserve0 == p.balance0 && p.reserve1 == p.balance1
  }

  /** Tokens `t` arriving at the pair raise its held balance of `t`; a token the
      pair does not hold leaves it unchanged. */
  function Credit(p: Pair, t: Token, amount: nat): (q: Pair)
    ensures q.reserve0 == p.reserve0 && q.reserve1 == p.reserve1 && q.totalSupply == p.totalSupply
    ensures q.token0 == p.token0 && q.token1 == p.token1
    ensures q.balance0 == p.balance0 + (if t == p.token0 then amount else 0)
    ensures q.balance1 == p.balance1 + (if t == p.token1 && t != p.token0 then amount else 0)
  {
    if t == p.token0 then p.(balance0 := p.balance0 + amount)
    else if t == p.token1 then p.(balance1 := p.balance1 + amount)
    else p
  }

  /** Records the given balances as held balances and reserves; reverts with
      `Overflow` when either does not fit in 112 bits. */
  function Update(p: Pair, balance0: nat, balance1: nat): (r: Result<Pair>)
    ensures r.Ok? <==> balance0 <= MAX_UINT112 && balance1 <= MAX_UINT112
    ensures r.Err? ==> r.error == Overflow
    ensures r.Ok? ==> Synced(r.value) && r.value.reserve0 == balance0 && r.value.reserve1 == balance1
    ensures r.Ok? ==> r.value.token0 == p.token0 && r.value.token1 == p.token1 && r.value.totalSupply == p.totalSupply
  {
    if balance0 > MAX_UINT112 || balance1 > MAX_UINT112 then Err(Overflow) else
    Ok(p.(reserve0 := balance0, reserve1 := balance1, balance0 := balance0, balance1 := balance1))
  }

  // ---------------------------------------------------------------- mint

  datatype Minted = Minted(pair: Pair, liquidity: nat)

  /** The largest share amount `l` that neither deposit side undercuts: `l`
      shares of `supply` are worth no more than `amount0` of `reserve0` and no
      more than `amount1` of `reserve1`. */
  predicate IsProRataShares(l: nat, amount0: nat, amount1: nat, reserve0: nat, reserve1: nat, supply: nat) {
    && l * reserve0 <= amount0 * supply
    && l * reserve1 <= amount1 * supply
    && ((l + 1) * reserve0 > amount0 * supply || (l + 1) * reserve1 > amount1 * supply)
  }

  lemma MinOfFloorsIsProRata(amount0: nat, amount1: nat, reserve0: nat, reserve1: nat, supply: nat)
    requires reserve0 > 0 && reserve1 > 0
    ensures IsProRataShares(Min(amount0 * supply / reserve0, amount1 * supply / reserve1),
                            amount0, amount1, reserve0, reserve1, supply)
  {
    var q0 := amount0 * supply / reserve0;
    var q1 := amount1 * supply / reserve1;
    var l := Min(q0, q1);
    Library.FloorDiv(amount0 * supply, reserve0);
    Library.FloorDiv(amount1 * supply, reserve1);
    Library.MulMonotone(l, q0, reserve0);
    Library.MulMonotone(l, q1, reserve1);
  }

  /** The first deposit: the integer square root of the product of the two
      amounts, less the `MINIMUM_LIQUIDITY` locked away forever. */
  function FirstShares(amount0: nat, amount1: nat): (r: Result<nat>)
    ensures r.Ok? <==> (amount0 * amount1 > MINIMUM_LIQUIDITY * MINIMUM_LIQUIDITY) && (Isqrt(amount0 * amount1) > MINIMUM_LIQUIDITY)
    ensures r.Ok? ==> r.value > 0 && IsRoot(amount0 * amount1, r.value + MINIMUM_LIQUIDITY)
    ensures Isqrt(amount0 * amount1) < MINIMUM_LIQUIDITY ==> r == Err(Underflow)
    ensures Isqrt(amount0 * amount1) == MINIMUM_LIQUIDITY ==> r == Err(InsufficientLiquidityMinted)
  {
    var root := Isqrt(amount0 * amount1);
    :- Need(root >= MINIMUM_LIQUIDITY, Underflow);
    :- Need(root > MINIMUM_LIQUIDITY, InsufficientLiquidityMinted);
    Ok(root - MINIMUM_LIQUIDITY)
  }

  /** A later deposit: the smaller of the two pro-rata share counts, so the
      side deposited in excess is donated to the pool. */
  function LaterShares(amount0: nat, amount1: nat, reserve0: nat, reserve1: nat, supply: nat): (r: Result<nat>)
    ensures reserve0 == 0 || reserve1 == 0 ==> r == Err(DivisionByZero)
    ensures r.Ok? ==> r.value > 0 && IsProRataShares(r.value, amount0, amount1, reserve0, reserve1, supply)
    ensures r.Err? && reserve0 > 0 && reserve1 > 0 ==> r == Err(InsufficientLiquidityMinted)
  {
    if reserve0 == 0 || reserve1 == 0 then Err(DivisionByZero) else
    var liquidity := Min(amount0 * supply / reserve0, amount1 * supply / reserve1);
    MinOfFloorsIsProRata(amount0, amount1, reserve0, reserve1, supply);
    :- Need(liquidity > 0, InsufficientLiquidityMinted);
    Ok(liquidity)
  }

  /** A later deposit mints shares exactly when each side is worth at least
      one share of the supply; otherwise it reverts, with `DivisionByZero`
      against an empty reserve and `InsufficientLiquidityMinted` else. */
  lemma LaterSharesOutcome(amount0: nat, amount1: nat, reserve0: nat, reserve1: nat, supply: nat)
    ensures LaterShares(amount0, amount1, reserve0, reserve1, supply).Ok?
        <==> reserve0 > 0 && reserve1 > 0 && amount0 * supply >= reserve0 && amount1 * supply >= reserve1
  {
    if reserve0 > 0 && reserve1 > 0 {
      Library.FloorPositive(amount0 * supply, reserve0);
      Library.FloorPositive(amount1 * supply, reserve1);
    }
  }

  /** `mint` into an empty pool: the first shares, with the locked minimum
      added to the supply. */
  function MintFirst(p: Pair): (r: Result<Minted>)
    requires p.balance0 >= p.reserve0 && p.balance1 >= p.reserve1 && p.totalSupply == 0
    ensures r.Ok? ==> r.value.liquidity > 0 && Synced(r.value.pair)
    ensures r.Ok? ==> r.value.pair.reserve0 == p.balance0 && r.value.pair.reserve1 == p.balance1
    ensures r.Ok? ==> r.value.pair.token0 == p.token0 && r.value.pair.token1 == p.token1
    ensures r.Ok? ==>
      && IsRoot((p.balance0 - p.reserve0) * (p.balance1 - p.reserve1), r.value.liquidity + MINIMUM_LIQUIDITY)
      && r.value.pair.totalSupply == r.value.liquidity + MINIMUM_LIQUIDITY
  {
    var liquidity :- FirstShares(p.balance0 - p.reserve0, p.balance1 - p.reserve1);
    var q :- Update(p.(totalSupply := liquidity + MINIMUM_LIQUIDITY), p.balance0, p.balance1);
    Ok(Minted(q, liquidity))
  }

  /** `mint` into a pool that holds shares: the pro-rata shares, added to
      the supply. */
  function MintLater(p: Pair): (r: Result<Minted>)
    requires p.balance0 >= p.reserve0 && p.balance1 >= p.reserve1 && p.totalSupply > 0
    ensures r.Ok? ==> r.value.liquidity > 0 && Synced(r.value.pair)
    ensures r.Ok? ==> r.value.pair.reserve0 == p.balance0 && r.value.pair.reserve1 == p.balance1
    ensures r.Ok? ==> r.value.pair.token0 == p.token0 && r.value.pair.token1 == p.token1
    ensures r.Ok? ==>
      && IsProRataShares(r.value.liquidity, p.balance0 - p.reserve0, p.balance1 - p.reserve1,
                         p.reserve0, p.reserve1, p.totalSupply)
      && r.value.pair.totalSupply == p.totalSupply + r.value.liquidity
  {
    var liquidity :- LaterShares(p.balance0 - p.reserve0, p.balance1 - p.reserve1, p.reserve0, p.reserve1, p.totalSupply);
    var q :- Update(p.(totalSupply := p.totalSupply + liquidity), p.balance0, p.balance1);
    Ok(Minted(q, liquidity))
  }

  /** `mint`: shares for the tokens that arrived since the last
      synchronisation (`FirstShares` into an empty pool, `LaterShares`
      otherwise), added to the total supply together with the locked minimum on
      the first deposit. */
  function Mint(p: Pair): (r: Result<Minted>)
    ensures p.balance0 < p.reserve0 || p.balance1 < p.reserve1 ==> r == Err(Underflow)
    ensures r.Ok? ==> r.value.liquidity > 0
    ensures r.Ok? ==> Synced(r.value.pair)
    ensures r.Ok? ==> r.value.pair.reserve0 == p.balance0 && r.value.pair.reserve1 == p.balance1
    ensures r.Ok? ==> r.value.pair.token0 == p.token0 && r.value.pair.token1 == p.token1
    ensures r.Ok? && p.totalSupply == 0 ==>
      && IsRoot((p.balance0 - p.reserve0) * (p.balance1 - p.reserve1), r.value.liquidity + MINIMUM_LIQUIDITY)
      && r.value.pair.totalSupply == r.value.liquidity + MINIMUM_LIQUIDITY
    ensures r.Ok? && p.totalSupply > 0 ==>
      && IsProRataShares(r.value.liquidity, p.balance0 - p.reserve0, p.balance1 - p.reserve1,
                         p.reserve0, p.reserve1, p.totalSupply)
      && r.value.pair.totalSupply == p.totalSupply + r.value.liquidity
  {
    if p.balance0 < p.reserve0 || p.balance1 < p.reserve1 then Err(Underflow)
    else if p.totalSupply == 0 then MintFirst(p)
    else MintLater(p)
  }

  /** When `mint` succeeds and why it reverts: with tokens arrived on both
      sides, the first deposit succeeds exactly when the root of the product
      exceeds the locked minimum, and a later one exactly when each side is
      worth at least one share; in both cases the new balances must also fit
      in 112 bits. A later deposit worth no share on some side reverts with
      `InsufficientLiquidityMinted`; a first deposit whose root is the
      minimum, too. */
  lemma MintOutcome(p: Pair)
    requires p.balance0 >= p.reserve0 && p.balance1 >= p.reserve1
    ensures var (amount0, amount1) := (p.balance0 - p.reserve0, p.balance1 - p.reserve1);
      && (p.totalSupply == 0 ==>
            (Mint(p).Ok? <==> Isqrt(amount0 * amount1) > MINIMUM_LIQUIDITY
                              && p.balance0 <= MAX_UINT112 && p.balance1 <= MAX_UINT112))
      && (p.totalSupply == 0 && Isqrt(amount0 * amount1) == MINIMUM_LIQUIDITY ==>
            Mint(p) == Err(InsufficientLiquidityMinted))
      && (p.totalSupply > 0 ==>
            (Mint(p).Ok? <==> && p.reserve0 > 0 && p.reserve1 > 0
                              && amount0 * p.totalSupply >= p.reserve0 && amount1 * p.totalSupply >= p.reserve1
                              && p.balance0 <= MAX_UINT112 && p.balance1 <= MAX_UINT112))
      && (p.totalSupply > 0 && p.reserve0 > 0 && p.reserve1 > 0
          && (amount0 * p.totalSupply < p.reserve0 || amount1 * p.totalSupply < p.reserve1) ==>
            Mint(p) == Err(InsufficientLiquidityMinted))
  {
    var (amount0, amount1) := (p.balance0 - p.reserve0, p.balance1 - p.reserve1);
    if p.totalSupply == 0 {
      var f := FirstShares(amount0, amount1);
      if Isqrt(amount0 * amount1) > MINIMUM_LIQUIDITY {
        SquareMonotone(MINIMUM_LIQUIDITY + 1, Isqrt(amount0 * amount1));
      }
    } else {
      LaterSharesOutcome(amount0, amount1, p.reserve0, p.reserve1, p.totalSupply);
    }
  }

  /** The first deposit into a fresh pair of two distinct tokens, credited
      in either order: the shares are the root of the product of the two
      arrivals less the locked minimum, and the reserves are the arrivals. */
  lemma FirstMintOfFreshPair(funded: Pair, tokenA: Token, tokenB: Token, amountA: nat, amountB: nat)
    requires tokenA != tokenB
    requires funded == Credit(Credit(Init(Sort(tokenA, tokenB).0, Sort(tokenA, tokenB).1), tokenA, amountA), tokenB, amountB)
    requires Mint(funded).Ok?
    ensures var m := Mint(funded).value;
      && m.liquidity + MINIMUM_LIQUIDITY == Isqrt(amountA * amountB)
      && m.pair.totalSupply == m.liquidity + MINIMUM_LIQUIDITY
      && (if tokenA == m.pair.token0 then (m.pair.reserve0, m.pair.reserve1) else (m.pair.reserve1, m.pair.reserve0))
         == (amountA, amountB)
  {
    assert funded.reserve0 == 0 && funded.reserve1 == 0 && funded.totalSupply == 0;
    var root := Mint(funded).value.liquidity + MINIMUM_LIQUIDITY;
    assert IsRoot(funded.balance0 * funded.balance1, root);
    if tokenA < tokenB {
      assert (funded.balance0, funded.balance1) == (amountA, amountB);
    } else {
      assert (funded.balance0, funded.balance1) == (amountB, amountA);
      assert funded.balance0 * funded.balance1 == amountA * amountB;
    }
    IsqrtIs(amountA * amountB, root);
  }

  /** A deposit credited to a synced pair that holds exactly the two tokens:
      the reserves, read in the depositor's order, grow by the two arrivals,
      and once the pool holds shares the depositor gets the largest share
      count that neither arrival undercuts at the old reserves and supply. */
  lemma MintOfCredited(p: Pair, tokenA: Token, tokenB: Token, arrivedA: nat, arrivedB: nat)
    requires Synced(p) && tokenA != tokenB && {p.token0, p.token1} == {tokenA, tokenB}
    requires Mint(Credit(Credit(p, tokenA, arrivedA), tokenB, arrivedB)).Ok?
    ensures var m := Mint(Credit(Credit(p, tokenA, arrivedA), tokenB, arrivedB)).value;
      var (reserveA, reserveB) := if tokenA == p.token0 then (p.reserve0, p.reserve1) else (p.reserve1, p.reserve0);
      && (if tokenA == m.pair.token0 then (m.pair.reserve0, m.pair.reserve1) else (m.pair.reserve1, m.pair.reserve0))
         == (reserveA + arrivedA, reserveB + arrivedB)
      && (p.totalSupply > 0 ==>
            && IsProRataShares(m.liquidity, arrivedA, arrivedB, reserveA, reserveB, p.totalSupply)
            && m.pair.totalSupply == p.totalSupply + m.liquidity)
  {
    var funded := Credit(Credit(p, tokenA, arrivedA), tokenB, arrivedB);
    if tokenA == p.token0 {
      assert (funded.balance0, funded.balance1) == (p.balance0 + arrivedA, p.balance1 + arrivedB);
    } else {
      assert (funded.balance0, funded.balance1) == (p.balance0 + arrivedB, p.balance1 + arrivedA);
    }
  }

  // ---------------------------------------------------------------- burn

  datatype Burned = Burned(pair: Pair, amount0: nat, amount1: nat)

  /** `amount` is `share / supply` of `balance`, rounded down. */
  predicate IsProRataAmount(amount: nat, share: nat, balance: nat, supply: nat) {
    amount * supply <= share * balance < (amount + 1) * supply
  }

  /** `burn`: redeems `liquidity` shares (already sent to the pair) for the
      same fraction of each held balance, rounded down in the pool's favour.
      The pair's balances fall by the full amounts paid out, whatever a
      fee-on-transfer token then delivers to the recipient. */
  function Burn(p: Pair, liquidity: nat): (r: Result<Burned>)
    ensures p.totalSupply == 0 ==> r == Err(DivisionByZero)
    ensures r.Ok? ==> liquidity <= p.totalSupply && r.value.amount0 > 0 && r.value.amount1 > 0
    ensures r.Ok? ==> IsProRataAmount(r.value.amount0, liquidity, p.balance0, p.totalSupply)
    ensures r.Ok? ==> IsProRataAmount(r.value.amount1, liquidity, p.balance1, p.totalSupply)
    ensures r.Ok? ==> Synced(r.value.pair)
    ensures r.Ok? ==> r.value.pair.reserve0 == p.balance0 - r.value.amount0
    ensures r.Ok? ==> r.value.pair.reserve1 == p.balance1 - r.value.amount1
    ensures r.Ok? ==> r.value.pair.totalSupply == p.totalSupply - liquidity
    ensures r.Ok? ==> r.value.pair.token0 == p.token0 && r.value.pair.token1 == p.token1
    ensures p.totalSupply > 0 && (liquidity * p.balance0 < p.totalSupply || liquidity * p.balance1 < p.totalSupply)
      ==> r == Err(InsufficientLiquidityBurned)
    ensures p.totalSupply > 0 && liquidity * p.balance0 >= p.totalSupply && liquidity * p.balance1 >= p.totalSupply
            && liquidity > p.totalSupply
      ==> r == Err(Underflow)
    ensures r.Ok? <==> && 0 < p.totalSupply && liquidity <= p.totalSupply
                       && liquidity * p.balance0 >= p.totalSupply && liquidity * p.balance1 >= p.totalSupply
                       && p.balance0 - liquidity * p.balance0 / p.totalSupply <= MAX_UINT112
                       && p.balance1 - liquidity * p.balance1 / p.totalSupply <= MAX_UINT112
    ensures r.Err? && 0 < p.totalSupply && liquidity <= p.totalSupply
            && liquidity * p.balance0 >= p.totalSupply && liquidity * p.balance1 >= p.totalSupply
      ==> r == Err(Overflow)
  {
    if p.totalSupply == 0 then Err(DivisionByZero) else
    var amount0 := liquidity * p.balance0 / p.totalSupply;
    var amount1 := liquidity * p.balance1 / p.totalSupply;
    ProRataPayout(liquidity, p.balance0, p.totalSupply);
    ProRataPayout(liquidity, p.balance1, p.totalSupply);
    Library.FloorPositive(liquidity * p.balance0, p.totalSupply);
    Library.FloorPositive(liquidity * p.balance1, p.totalSupply);
    :- Need(amount0 > 0 && amount1 > 0, InsufficientLiquidityBurned);
    :- Need(liquidity <= p.totalSupply, Underflow);
    var q :- Update(p.(totalSupply := p.totalSupply - liquidity), p.balance0 - amount0, p.balance1 - amount1);
    Ok(Burned(q, amount0, amount1))
  }

  /** The truncated payout for `share` of `supply` shares is the pro-rata
      amount, and no more than the balance while the share is within the
      supply. */
  lemma ProRataPayout(share: nat, balance: nat, supply: nat)
    requires supply > 0
    ensures IsProRataAmount(share * balance / supply, share, balance, supply)
    ensures share <= supply ==> share * balance / supply <= balance
  {
    Library.FloorDiv(share * balance, supply);
    if share <= supply {
      ShareOfBalance(share, balance, supply);
    }
  }

  lemma ShareOfBalance(share: nat, balance: nat, supply: nat)
    requires 0 < supply && share <= supply
    ensures share * balance / supply <= balance
  {
    Library.FloorDiv(share * balance, supply);
    Library.MulMonotone(share, supply, balance);
    if share * balance / supply > balance {
      Library.MulMonotone(balance + 1, share * balance / supply, supply);
    }
  }

  // ---------------------------------------------------------------- swap

  /** The pair's constant-product check after a swap: with 0.3% of each input
      taken off its balance, the product of the adjusted balances is at least
      the product of the reserves before the swap (all scaled by 1000). */
  predicate AdjustedProductHolds(balance0: nat, balance1: nat, amount0In: nat, amount1In: nat,
                                 reserve0: nat, reserve1: nat) {
    (balance0 * 1000 - amount0In * 3) * (balance1 * 1000 - amount1In * 3) >= reserve0 * reserve1 * 1000000
  }

  /** What arrived on one side: the held balance above what the reserve keeps
      after the output left. */
  function AmountIn(balance: nat, reserve: nat, amountOut: nat): (r: nat)
    requires amountOut <= reserve
    ensures r <= balance
    ensures balance + amountOut == reserve + r || (r == 0 && balance + amountOut <= reserve)
  {
    if balance > reserve - amountOut then balance - (reserve - amountOut) else 0
  }

  /** `swap`: sends the requested outputs first (to `to`), lets `paid0` and
      `paid1` arrive during the swap (a flash-swap repayment, or the pair's own
      output coming back to it), then measures what came in and accepts the
      swap only if the fee-adjusted product did not fall. */
  function Swap(p: Pair, amount0Out: nat, amount1Out: nat, to: Recipient, paid0: nat, paid1: nat): (r: Result<Pair>)
    ensures amount0Out == 0 && amount1Out == 0 ==> r == Err(InsufficientOutputAmount)
    ensures r.Ok? ==> amount0Out < p.reserve0 && amount1Out < p.reserve1
    ensures r.Ok? ==> !(to.Account? && (to.addr == p.token0 || to.addr == p.token1))
    ensures r.Ok? ==> Synced(r.value) && r.value.totalSupply == p.totalSupply
    ensures r.Ok? ==> r.value.token0 == p.token0 && r.value.token1 == p.token1
    ensures r.Ok? ==> r.value.reserve0 + amount0Out == p.balance0 + paid0
    ensures r.Ok? ==> r.value.reserve1 + amount1Out == p.balance1 + paid1
    ensures r.Ok? ==> r.value.reserve0 + amount0Out > p.reserve0 || r.value.reserve1 + amount1Out > p.reserve1
    ensures r.Ok? ==> AdjustedProductHolds(r.value.reserve0, r.value.reserve1,
                                            AmountIn(r.value.reserve0, p.reserve0, amount0Out),
                                            AmountIn(r.value.reserve1, p.reserve1, amount1Out),
                                            p.reserve0, p.reserve1)
  {
    if amount0Out == 0 && amount1Out == 0 then Err(InsufficientOutputAmount) else
    :- Need(amount0Out < p.reserve0 && amount1Out < p.reserve1, InsufficientLiquidity);
    :- Need(!(to.Account? && (to.addr == p.token0 || to.addr == p.token1)), InvalidTo);
    :- Need(amount0Out <= p.balance0 && amount1Out <= p.balance1, TransferFailed);
    var balance0 := p.balance0 - amount0Out + paid0;
    var balance1 := p.balance1 - amount1Out + paid1;
    var amount0In := AmountIn(balance0, p.reserve0, amount0Out);
    var amount1In := AmountIn(balance1, p.reserve1, amount1Out);
    :- Need(amount0In > 0 || amount1In > 0, InsufficientInputAmount);
    :- Need(AdjustedProductHolds(balance0, balance1, amount0In, amount1In, p.reserve0, p.reserve1), K);
    Update(p, balance0, balance1)
  }

  /** A completed swap never lowers the product of the reserves. */
  lemma SwapKeepsReserveProduct(p: Pair, amount0Out: nat, amount1Out: nat, to: Recipient, paid0: nat, paid1: nat)
    requires Swap(p, amount0Out, amount1Out, to, paid0, paid1).Ok?
    ensures var q := Swap(p, amount0Out, amount1Out, to, paid0, paid1).value;
      q.reserve0 * q.reserve1 >= p.reserve0 * p.reserve1
  {
    var q := Swap(p, amount0Out, amount1Out, to, paid0, paid1).value;
    AdjustedProductBoundsProduct(q.reserve0, q.reserve1, AmountIn(q.reserve0, p.reserve0, amount0Out),
                                 AmountIn(q.reserve1, p.reserve1, amount1Out), p.reserve0, p.reserve1);
  }

  /** Taking the fee off the inputs only lowers the balances, so a product
      check that passes on the adjusted balances passes on the plain ones. */
  lemma AdjustedProductBoundsProduct(balance0: nat, balance1: nat, amount0In: nat, amount1In: nat,
                                     reserve0: nat, reserve1: nat)
    requires amount0In <= balance0 && amount1In <= balance1
    requires AdjustedProductHolds(balance0, balance1, amount0In, amount1In, reserve0, reserve1)
    ensures balance0 * balance1 >= reserve0 * reserve1
  {
    var adj0 := balance0 * 1000 - amount0In * 3;
    var adj1 := balance1 * 1000 - amount1In * 3;
    Library.MulMonotone(adj0, balance0 * 1000, adj1);
    Library.MulMonotone(adj1, balance1 * 1000, balance0 * 1000);
    assert (balance0 * 1000) * (balance1 * 1000) == balance0 * balance1 * 1000000;
    assert reserve0 * reserve1 * 1000000 <= balance0 * balance1 * 1000000;
  }

  // ---------------------------------------------------------------- flash swaps

  /** The fee a flash borrower adds when repaying in the borrowed token:
      `amount * 3 / 997`, rounded down, plus one. It is the least fee whose
      997/1000 share covers 0.3% of the loan with something to spare:
      `fee * 997 > amount * 3`, while one unit less does not satisfy that. */
  function FlashFee(amount: nat): (fee: nat)
    ensures fee * 997 > amount * 3
    ensures (fee - 1) * 997 <= amount * 3
  {
    Library.FloorDiv(amount * 3, 997);
    amount * 3 / 997 + 1
  }

  /** A flash borrow of `amount` of token0 repaid with `repaid` of the same
      token: the pair refuses with `K` exactly when the repayment, less its
      0.3% fee, falls short of the loan (`repaid * 997 < amount * 1000`), and
      otherwise accepts unless the new reserve overflows. */
  lemma FlashRepaymentRule(p: Pair, amount: nat, to: Recipient, repaid: nat)
    requires Synced(p) && 0 < amount < p.reserve0 && 0 < p.reserve1 && 0 < repaid
    requires !(to.Account? && (to.addr == p.token0 || to.addr == p.token1))
    ensures var r := Swap(p, amount, 0, to, repaid, 0);
      && (repaid * 997 < amount * 1000 <==> r == Err(K))
      && (r.Ok? <==> repaid * 997 >= amount * 1000 && p.reserve0 - amount + repaid <= MAX_UINT112
                     && p.reserve1 <= MAX_UINT112)
      && (r.Ok? ==> r.value.reserve0 == p.reserve0 - amount + repaid && r.value.reserve1 == p.reserve1)
  {
    var balance0 := p.balance0 - amount + repaid;
    assert AmountIn(balance0, p.reserve0, amount) == repaid;
    assert AmountIn(p.balance1, p.reserve1, 0) == 0;
    FlashProductCheck(p.reserve0, p.reserve1, amount, repaid);
  }

  /** The product check of a same-token flash repayment reduces to
      `repaid * 997 >= amount * 1000`. */
  lemma FlashProductCheck(reserve0: nat, reserve1: nat, amount: nat, repaid: nat)
    requires amount <= reserve0 && reserve1 > 0
    ensures AdjustedProductHolds(reserve0 - amount + repaid, reserve1, repaid, 0, reserve0, reserve1)
        <==> repaid * 997 >= amount * 1000
  {
    var adj0 := (reserve0 - amount + repaid) * 1000 - repaid * 3;
    assert adj0 == reserve0 * 1000 + repaid * 997 - amount * 1000;
    assert (reserve0 * 1000) * (reserve1 * 1000) == reserve0 * reserve1 * 1000000;
    Library.MulCompare(adj0, reserve0 * 1000, reserve1 * 1000);
  }

  /** Borrowing `amount` of token0 and paying back `amount + FlashFee(amount)`
      of the same token is accepted, and the pair ends up holding the old
      reserve plus the fee. */
  lemma FlashRepaymentAccepted(p: Pair, amount: nat, to: Recipient)
    requires Synced(p) && p.balance0 + FlashFee(amount) <= MAX_UINT112 && p.balance1 <= MAX_UINT112
    requires 0 < amount < p.reserve0 && 0 < p.reserve1
    requires !(to.Account? && (to.addr == p.token0 || to.addr == p.token1))
    ensures var r := Swap(p, amount, 0, to, amount + FlashFee(amount), 0);
      && r.Ok?
      && r.value.reserve0 == p.reserve0 + FlashFee(amount)
      && r.value.reserve1 == p.reserve1
  {
    Library.FloorDiv(amount * 3, 997);
    FlashRepaymentRule(p, amount, to, amount + FlashFee(amount));
  }

  /** When `3 * amount` is not a multiple of 997 the fee is the least that
      works: repaying one unit less fails the product check. */
  lemma FlashRepaymentOneLessRejected(p: Pair, amount: nat, to: Recipient)
    requires Synced(p) && (amount * 3) % 997 != 0
    requires 0 < amount < p.reserve0 && 0 < p.reserve1
    requires !(to.Account? && (to.addr == p.token0 || to.addr == p.token1))
    ensures Swap(p, amount, 0, to, amount + FlashFee(amount) - 1, 0) == Err(K)
  {
    assert amount * 3 == (amount * 3 / 997) * 997 + (amount * 3) % 997;
    FlashRepaymentRule(p, amount, to, amount + FlashFee(amount) - 1);
  }

  // ---------------------------------------------------------------- pricing and the pair

  /** The one-less rule needs `amount * 3` not to be a multiple of 997: when
      it is, the fee overshoots by one. Borrowing 997 costs a fee of 4, yet
      paying back 997 + 3 already satisfies the product check. */
  lemma FlashFeeOvershootsOnExactMultiple()
    ensures FlashFee(997) == 4
    ensures Swap(Pair(1, 2, 2000, 2000, 2000, 2000, 1000), 997, 0, Account(3), 997 + FlashFee(997) - 1, 0).Ok?
  {
    FlashRepaymentRule(Pair(1, 2, 2000, 2000, 2000, 2000, 1000), 997, Account(3), 1000);
  }

  /** For a one-way trade of `amountIn` for `amountOut` against synced
      reserves, the pair's fee-adjusted check is the pricing formulas'
      `KeepsProduct`. */
  lemma AdjustedProductIsKeepsProduct(reserveIn: nat, reserveOut: nat, amountIn: nat, amountOut: nat)
    requires amountOut <= reserveOut
    ensures AdjustedProductHolds(reserveIn + amountIn, reserveOut - amountOut, amountIn, 0, reserveIn, reserveOut)
        <==> Library.KeepsProduct(reserveIn, reserveOut, amountIn, amountOut)
  {
    var x := reserveIn * 1000 + amountIn * 997;
    var y := reserveOut - amountOut;
    assert (reserveIn + amountIn) * 1000 - amountIn * 3 == x;
    assert (reserveOut - amountOut) * 1000 - 0 * 3 == y * 1000;
    assert x * (y * 1000) == (x * y) * 1000;
    assert reserveIn * reserveOut * 1000000 == (reserveIn * 1000 * reserveOut) * 1000;
  }

  /** The same pair seen with its two sides exchanged. */
  function Flip(p: Pair): (q: Pair)
    ensures q.token0 == p.token1 && q.token1 == p.token0 && q.totalSupply == p.totalSupply
    ensures q.reserve0 == p.reserve1 && q.reserve1 == p.reserve0
    ensures q.balance0 == p.balance1 && q.balance1 == p.balance0
  {
    Pair(p.token1, p.token0, p.reserve1, p.reserve0, p.balance1, p.balance0, p.totalSupply)
  }

  /** `Swap` treats its two sides alike: swapping on the flipped pair with the
      amounts exchanged gives the flipped outcome. */
  lemma SwapSymmetric(p: Pair, amount0Out: nat, amount1Out: nat, to: Recipient, paid0: nat, paid1: nat)
    ensures var r := Swap(p, amount0Out, amount1Out, to, paid0, paid1);
      var s := Swap(Flip(p), amount1Out, amount0Out, to, paid1, paid0);
      (r.Ok? <==> s.Ok?) && (r.Ok? ==> s.value == Flip(r.value)) && (r.Err? ==> s.error == r.error)
  {
    var b0 := p.balance0 - amount0Out + paid0;
    var b1 := p.balance1 - amount1Out + paid1;
    if amount0Out <= p.balance0 && amount1Out <= p.balance1 && amount0Out < p.reserve0 && amount1Out < p.reserve1 {
      var i0 := AmountIn(b0, p.reserve0, amount0Out);
      var i1 := AmountIn(b1, p.reserve1, amount1Out);
      assert AdjustedProductHolds(b0, b1, i0, i1, p.reserve0, p.reserve1)
         <==> AdjustedProductHolds(b1, b0, i1, i0, p.reserve1, p.reserve0) by {
        assert (b0 * 1000 - i0 * 3) * (b1 * 1000 - i1 * 3) == (b1 * 1000 - i1 * 3) * (b0 * 1000 - i0 * 3);
        assert p.reserve0 * p.reserve1 * 1000000 == p.reserve1 * p.reserve0 * 1000000;
      }
    }
  }

  /** The first half of `SwapAcceptsExactlyKeptTrades`: after `amountIn` of
      token0 has arrived, a swap for `amountOut` of token1 fails only for want
      of input or on the product check, and otherwise stores the reserves
      moved by the two amounts. */
  lemma SwapOfArrival(p: Pair, amountIn: nat, amountOut: nat, to: Recipient)
    requires Synced(p) && p.reserve0 > 0 && 0 < amountOut < p.reserve1
    requires p.balance0 + amountIn <= MAX_UINT112 && p.balance1 <= MAX_UINT112
    requires !(to.Account? && (to.addr == p.token0 || to.addr == p.token1))
    ensures var r := Swap(p.(balance0 := p.balance0 + amountIn), 0, amountOut, to, 0, 0);
      var holds := AdjustedProductHolds(p.reserve0 + amountIn, p.reserve1 - amountOut, amountIn, 0, p.reserve0, p.reserve1);
      && (amountIn == 0 ==> r == Err(InsufficientInputAmount))
      && (amountIn > 0 && !holds ==> r == Err(K))
      && (amountIn > 0 && holds ==> r.Ok? && r.value.reserve0 == p.reserve0 + amountIn
                                          && r.value.reserve1 == p.reserve1 - amountOut)
  {
    var b0 := p.reserve0 + amountIn;
    var b1 := p.reserve1 - amountOut;
    assert AmountIn(b0, p.reserve0, 0) == amountIn;
    assert AmountIn(b1, p.reserve1, amountOut) == 0;
  }

  /** After `amountIn` of token0 has arrived at a synced pair, a swap for
      `amountOut` of token1 succeeds exactly when the trade keeps the product,
      and it leaves the reserves moved by exactly the two amounts. */
  lemma SwapAcceptsExactlyKeptTrades(p: Pair, amountIn: nat, amountOut: nat, to: Recipient)
    requires Synced(p) && p.reserve0 > 0 && 0 < amountOut < p.reserve1
    requires p.balance0 + amountIn <= MAX_UINT112 && p.balance1 <= MAX_UINT112
    requires !(to.Account? && (to.addr == p.token0 || to.addr == p.token1))
    ensures var r := Swap(p.(balance0 := p.balance0 + amountIn), 0, amountOut, to, 0, 0);
      && (r.Ok? <==> Library.KeepsProduct(p.reserve0, p.reserve1, amountIn, amountOut))
      && (r.Ok? ==> r.value.reserve0 == p.reserve0 + amountIn && r.value.reserve1 == p.reserve1 - amountOut)
      && (r.Err? && amountIn > 0 ==> r.error == K)
  {
    SwapOfArrival(p, amountIn, amountOut, to);
    AdjustedProductIsKeepsProduct(p.reserve0, p.reserve1, amountIn, amountOut);
    if amountIn == 0 {
      Library.KeepsProductOut(p.reserve0, p.reserve1, 0, amountOut);
      assert p.reserve0 * 1000 * amountOut > 0;
    }
  }

  /** The pair pays out up to `GetAmountOut` for a deposit and no more: any
      larger output is refused. */
  lemma SwapAcceptsUpToAmountOut(p: Pair, amountIn: nat, amountOut: nat, to: Recipient)
    requires Synced(p) && p.reserve0 > 0 && 0 < amountOut < p.reserve1 && amountIn > 0
    requires p.balance0 + amountIn <= MAX_UINT112 && p.balance1 <= MAX_UINT112
    requires !(to.Account? && (to.addr == p.token0 || to.addr == p.token1))
    ensures var quoted := Library.GetAmountOut(amountIn, p.reserve0, p.reserve1).value;
      var r := Swap(p.(balance0 := p.balance0 + amountIn), 0, amountOut, to, 0, 0);
      (r.Ok? <==> amountOut <= quoted) && (r.Err? ==> r.error == K)
  {
    SwapAcceptsExactlyKeptTrades(p, amountIn, amountOut, to);
    Library.AmountOutExactlyKept(amountIn, p.reserve0, p.reserve1);
  }

  // ---------------------------------------------------------------- mint then burn

  /** Minting and at once burning the new shares never returns more of either
      token than was deposited. On an empty pool this holds outright (the
      locked minimum keeps a share of the deposit back); on a funded pool it
      is the pro-rata rounding of `LaterShares`. */
  lemma MintThenBurnReturnsAtMostDeposit(p: Pair)
    requires Mint(p).Ok?
    requires p.totalSupply > 0 || (p.reserve0 == 0 && p.reserve1 == 0)
    requires Burn(Mint(p).value.pair, Mint(p).value.liquidity).Ok?
    ensures var b := Burn(Mint(p).value.pair, Mint(p).value.liquidity).value;
      b.amount0 <= p.balance0 - p.reserve0 && b.amount1 <= p.balance1 - p.reserve1
  {
    var m := Mint(p).value;
    var b := Burn(m.pair, m.liquidity).value;
    var a0 := p.balance0 - p.reserve0;
    var a1 := p.balance1 - p.reserve1;
    var l := m.liquidity;
    var ts := m.pair.totalSupply;
    if p.totalSupply == 0 {
      assert ts == l + MINIMUM_LIQUIDITY;
      BurnOfFreshSharesBounded(b.amount0, l, p.reserve0, a0, MINIMUM_LIQUIDITY, ts);
      BurnOfFreshSharesBounded(b.amount1, l, p.reserve1, a1, MINIMUM_LIQUIDITY, ts);
    } else {
      assert ts == p.totalSupply + l;
      BurnOfFreshSharesBounded(b.amount0, l, p.reserve0, a0, p.totalSupply, ts);
      BurnOfFreshSharesBounded(b.amount1, l, p.reserve1, a1, p.totalSupply, ts);
    }
  }

  /** While any shares remain outstanding, a burn cannot empty either side
      of the pool. The minimum locked at the first deposit is never redeemed,
      so every burn a provider can make is of this kind. */
  lemma BurnShortOfSupplyLeavesReserves(p: Pair, liquidity: nat)
    requires Burn(p, liquidity).Ok? && liquidity < p.totalSupply
    ensures Burn(p, liquidity).value.pair.reserve0 > 0 && Burn(p, liquidity).value.pair.reserve1 > 0
  {
    var b := Burn(p, liquidity).value;
    ShareBelowSupplyPaysLess(b.amount0, liquidity, p.balance0, p.totalSupply);
    ShareBelowSupplyPaysLess(b.amount1, liquidity, p.balance1, p.totalSupply);
  }

  /** A positive pro-rata payout for fewer shares than the supply is less
      than the whole balance. */
  lemma ShareBelowSupplyPaysLess(amount: nat, share: nat, balance: nat, supply: nat)
    requires IsProRataAmount(amount, share, balance, supply) && amount > 0 && share < supply
    ensures amount < balance
  {
    Library.MulMonotone(share + 1, supply, balance);
    Library.MulMonotone(1, amount, supply);
    if balance <= amount {
      Library.MulMonotone(balance, amount, supply);
      assert false;
    }
  }

  /** One side of `MintThenBurnReturnsAtMostDeposit`: `l` fresh shares, worth
      at most `amount` of `reserve` against the old `supply`, redeem at most
      `amount` from the pool holding `reserve + amount` with `supply + l` shares. */
  lemma BurnOfFreshSharesBounded(out: nat, l: nat, reserve: nat, amount: nat, supply: nat, total: nat)
    requires total == supply + l && total > 0
    requires l * reserve <= amount * supply
    requires out * total <= l * (reserve + amount)
    ensures out <= amount
  {
    assert l * (reserve + amount) == l * reserve + l * amount;
    assert amount * total == amount * supply + amount * l;
    Library.MulCancel(out, amount, total);
  }
}
