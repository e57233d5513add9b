/** The flash-swap scenarios: a borrower takes tokens out of a pool first and
    pays back the same token, the loan plus `FlashFee`, before the pair's
    product check. */
module FlashVectors {
  import opened Outcomes
  import opened Tokens
  import opened Fixtures
  import Num
  import Pairs
  import Factory
  import Paths
  import Router

  const TOKEN_POOL: Pairs.Pair :=
    Pairs.Pair(TokenOne, TokenTwo, 1_000_000 * E18, 100_000 * E18, 1_000_000 * E18, 100_000 * E18,
               316227766016837933199889)
  const WETH_POOL: Pairs.Pair :=
    Pairs.Pair(WETH, TokenOne, 2000 * E18, 500_000 * E18, 2000 * E18, 500_000 * E18,
               31622776601683793319988)

  /** The two pools the flash scenarios borrow from. */
  function FlashPools(): Factory.Registry {
    Factory.Registry(ZERO_ADDRESS, Owner, [TOKEN_POOL, WETH_POOL],
      map[(TokenOne, TokenTwo) := 0, (TokenTwo, TokenOne) := 0, (WETH, TokenOne) := 1, (TokenOne, WETH) := 1])
  }

  /** The registry after the first pool alone. */
  function TokenPoolOnly(): Factory.Registry {
    Factory.Registry(ZERO_ADDRESS, Owner, [TOKEN_POOL], map[(TokenOne, TokenTwo) := 0, (TokenTwo, TokenOne) := 0])
  }

  /** `Owner` creates the TokenOne/TokenTwo pool. */
  lemma TokenPoolIsBuilt()
    ensures var r := Router.AddLiquidity(Factory.New(Owner), {}, TokenOne, TokenTwo, 1_000_000 * E18, 100_000 * E18, 0, 0);
      && r.Ok? && r.value.liquidity == 316227766016837933198889 && r.value.reg == TokenPoolOnly()
  {
    Num.IsqrtIs(1_000_000 * E18 * (100_000 * E18), 316227766016837933199889);
    var reg0 := Factory.CreatePair(Factory.New(Owner), TokenOne, TokenTwo).value.0;
    assert Paths.PairId(reg0, TokenOne, TokenTwo) == Ok(0);
    assert Paths.GetReserves(reg0, TokenOne, TokenTwo) == Ok((0, 0));
    var funded := Pairs.Pair(TokenOne, TokenTwo, 0, 0, 1_000_000 * E18, 100_000 * E18, 0);
    assert Pairs.Credit(Pairs.Credit(reg0.pairs[0], TokenOne, 1_000_000 * E18), TokenTwo, 100_000 * E18) == funded;
    assert Pairs.Mint(funded) == Ok(Pairs.Minted(TOKEN_POOL, 316227766016837933198889));
  }

  /** `Owner` then creates the WETH/TokenOne pool. */
  lemma WethPoolIsBuilt()
    ensures var r := Router.AddLiquidity(TokenPoolOnly(), {}, TokenOne, WETH, 500_000 * E18, 2000 * E18, 0, 0);
      && r.Ok? && r.value.liquidity == 31622776601683793318988 && r.value.reg == FlashPools()
  {
    Num.IsqrtIs(500_000 * E18 * (2000 * E18), 31622776601683793319988);
    var reg2 := Factory.CreatePair(TokenPoolOnly(), TokenOne, WETH).value.0;
    assert Paths.PairId(reg2, TokenOne, WETH) == Ok(1);
    assert Paths.GetReserves(reg2, TokenOne, WETH) == Ok((0, 0));
    var funded := Pairs.Pair(WETH, TokenOne, 0, 0, 2000 * E18, 500_000 * E18, 0);
    assert Pairs.Credit(Pairs.Credit(reg2.pairs[1], TokenOne, 500_000 * E18), WETH, 2000 * E18) == funded;
    assert Pairs.Mint(funded) == Ok(Pairs.Minted(WETH_POOL, 31622776601683793318988));
  }

  /** The fees the borrower pre-funds: about 0.3% of the loan, rounded down,
      plus one. */
  lemma FeeValues()
    ensures Pairs.FlashFee(1800 * E18) == 5416248746238716149
    ensures Pairs.FlashFee(990123 * E18) == 2979306920762286860582
  {
  }

  /** Borrowing 1800 WETH and repaying 1800 plus the fee leaves the pool with
      2000 plus the fee; one unit less is refused. */
  lemma FlashSwapWethPool()
    ensures var r := Pairs.Swap(WETH_POOL, 1800 * E18, 0, Account(Borrower), 1800 * E18 + 5416248746238716149, 0);
      && r.Ok? && r.value.reserve0 == 2005_416248746238716149 && r.value.reserve1 == 500_000 * E18
    ensures Pairs.Swap(WETH_POOL, 1800 * E18, 0, Account(Borrower), 1800 * E18 + 5416248746238716148, 0) == Err(K)
  {
    Pairs.FlashRepaymentAccepted(WETH_POOL, 1800 * E18, Account(Borrower));
    Pairs.FlashRepaymentOneLessRejected(WETH_POOL, 1800 * E18, Account(Borrower));
  }

  /** Borrowing 990123 TokenOne and repaying it with the fee leaves the pool
      with 1000000 plus the fee; one unit less is refused. */
  lemma FlashSwapTokenPool()
    ensures var r := Pairs.Swap(TOKEN_POOL, 990123 * E18, 0, Account(Borrower), 990123 * E18 + 2979306920762286860582, 0);
      && r.Ok? && r.value.reserve0 == 1002979_306920762286860582 && r.value.reserve1 == 100_000 * E18
    ensures Pairs.Swap(TOKEN_POOL, 990123 * E18, 0, Account(Borrower), 990123 * E18 + 2979306920762286860581, 0) == Err(K)
  {
    Pairs.FlashRepaymentAccepted(TOKEN_POOL, 990123 * E18, Account(Borrower));
    Pairs.FlashRepaymentOneLessRejected(TOKEN_POOL, 990123 * E18, Account(Borrower));
  }
}
