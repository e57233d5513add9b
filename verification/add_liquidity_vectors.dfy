/** Adding liquidity with the two unusual tokens: one that keeps 0.3% of
    every transfer, and one with 6 decimals. */
module AddLiquidityVectors {
  import opened Outcomes
  import opened Tokens
  import opened Fixtures
  import Num
  import Pairs
  import Factory
  import Paths
  import Router

  /** Only 99.7 of the 100 TokenWithFee reach the new pair, and the shares are
      the root of what arrived, not of what was sent. */
  lemma AddWithFeeToken()
    ensures var r := Router.AddLiquidity(Factory.New(Owner), FeeTokens, TokenOne, TokenWithFee,
                                         20 * E18, 100 * E18, E18, E18);
      && r.Ok? && r.value.amountA == 20 * E18 && r.value.amountB == 100 * E18
      && r.value.liquidity == 44654227123532212252
      && r.value.reg.pairs[0].token1 == TokenWithFee
      && r.value.reg.pairs[0].balance1 == 99_700000000000000000
  {
    Num.IsqrtIs(20 * E18 * 99_700000000000000000, 44654227123532213252);
    var reg := Factory.CreatePair(Factory.New(Owner), TokenOne, TokenWithFee).value.0;
    assert Paths.GetReserves(reg, TokenOne, TokenWithFee) == Ok((0, 0));
  }

  /** 20 TokenTwo (18 decimals) against 200 TokenWith6Decimals: the shares
      follow the base units, whatever the decimals. */
  lemma AddWithSixDecimalToken()
    ensures var r := Router.AddLiquidity(Factory.New(Owner), FeeTokens, TokenTwo, TokenWith6Decimals,
                                         20 * E18, 200_000000, 0, 0);
      && r.Ok? && r.value.liquidity == 63245553202367
  {
    Num.IsqrtIs(20 * E18 * 200_000000, 63245553203367);
    var reg := Factory.CreatePair(Factory.New(Owner), TokenTwo, TokenWith6Decimals).value.0;
    assert Paths.GetReserves(reg, TokenTwo, TokenWith6Decimals) == Ok((0, 0));
  }
}
