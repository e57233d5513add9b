/** The removal scenarios beyond the router ones: a 6-decimal pool, a
    fee-on-transfer token paid out through the router, a removal after a swap
    moved the price, and the removal of a whole position. */
module RemoveLiquidityVectors {
  import opened Outcomes
  import opened Tokens
  import opened Fixtures
  import Num
  import Library
  import Pairs
  import Factory
  import Paths
  import Router
  import PeripheryVectors
  import SwapVectors

  /** The router pools plus the WETH/TokenWithFee pool. */
  function RemovalFeeEthPool(): Factory.Registry {
    var seeded := PeripheryVectors.Seeded();
    seeded.(pairs := seeded.pairs + [SwapVectors.WETH_TWF_POOL],
            index := seeded.index[(TokenWithFee, WETH) := 2][(WETH, TokenWithFee) := 2])
  }

  /** ... plus the TokenTwo/TokenWith6Decimals pool: the four pools of the
      removal scenarios. */
  function RemovalPools(): Factory.Registry {
    var reg := RemovalFeeEthPool();
    reg.(pairs := reg.pairs + [SwapVectors.TW6_POOL],
         index := reg.index[(TokenTwo, TokenWith6Decimals) := 3][(TokenWith6Decimals, TokenTwo) := 3])
  }

  /** The deposit that adds the WETH/TokenWithFee pool to the router pools. */
  lemma FeeTokenEthPoolIsBuilt()
    ensures var r := Router.AddLiquidity(PeripheryVectors.Seeded(), FeeTokens, TokenWithFee, WETH, 500 * E18, 5 * E18, 0, 0);
      r.Ok? && r.value.reg == RemovalFeeEthPool()
  {
    Num.IsqrtIs(5 * E18 * 498_500000000000000000, 49924943665466463899);
    var reg := Factory.CreatePair(PeripheryVectors.Seeded(), TokenWithFee, WETH).value.0;
    assert Paths.GetReserves(reg, TokenWithFee, WETH) == Ok((0, 0));
  }

  /** The deposit that then adds the TokenTwo/TokenWith6Decimals pool. */
  lemma SixDecimalPoolIsBuilt()
    ensures var r := Router.AddLiquidity(RemovalFeeEthPool(), FeeTokens, TokenTwo, TokenWith6Decimals, 20 * E18, 200_000000, 0, 0);
      r.Ok? && r.value.reg == RemovalPools()
  {
    Num.IsqrtIs(20 * E18 * 200_000000, 63245553203367);
    var reg := Factory.CreatePair(RemovalFeeEthPool(), TokenTwo, TokenWith6Decimals).value.0;
    assert Paths.GetReserves(reg, TokenTwo, TokenWith6Decimals) == Ok((0, 0));
  }

  /** A quarter of the 6-decimal pool's shares: both payouts round down, the
      6-decimal side to 49.999999. */
  lemma RemoveSixDecimal()
    ensures var r := Router.RemoveLiquidity(RemovalPools(), FeeTokens, TokenTwo, TokenWith6Decimals,
                                            15811388300591, 4 * E18, 40_000000);
      && r.Ok? && r.value.amountA == 4999999999920705887 && r.value.amountB == 49_999999
      && r.value.reg.pairs[3].reserve0 == 15000000000079294113
      && r.value.reg.pairs[3].reserve1 == 150_000001
  {
    assert Paths.PairId(RemovalPools(), TokenTwo, TokenWith6Decimals) == Ok(3);
  }

  /** Removing from the WETH/TokenWithFee pool through the router: the pair
      pays 9.2355… TokenWithFee, and the token's fee is charged on the way to
      the router and again on the way to the recipient. */
  lemma RemoveFeeTokenThroughRouter()
    ensures var r := Router.RemoveLiquidityThroughRouter(RemovalPools(), FeeTokens, TokenWithFee, WETH,
                                                         924943665466462899, 0, 0);
      && r.Ok? && r.value.amountA == 9235552078428643801 && r.value.amountB == 92633421047428724
      && r.value.receivedA == 9180221885926777795 && r.value.receivedB == 92633421047428724
      && r.value.reg.pairs[2].reserve0 == 4907366578952571276
      && r.value.reg.pairs[2].reserve1 == 489264447921571356199
  {
    assert Paths.PairId(RemovalPools(), TokenWithFee, WETH) == Ok(2);
  }

  /** The TokenOne/TokenTwo pool after 21 TokenOne were bought for 136.29…
      TokenTwo. */
  function AfterSwap(): Factory.Registry {
    var reg := RemovalPools();
    reg.(pairs := reg.pairs[0 := Pairs.Pair(TokenOne, TokenTwo, 34 * E18, 356291226621039589357,
                                            34 * E18, 356291226621039589357, 110 * E18)])
  }

  /** `UserTwo` buys exactly 21 TokenOne with TokenTwo, leaving the pool as
      in `AfterSwap`. */
  lemma SwapBeforeRemove()
    ensures var s := Router.SwapTokensForExactTokens(RemovalPools(), {}, 21 * E18, 150 * E18, [TokenTwo, TokenOne], UserTwo);
      && s.Ok? && s.value.amounts == [136291226621039589357, 21 * E18] && s.value.reg == AfterSwap()
  {
    var reg := RemovalPools();
    assert Paths.PairId(reg, TokenTwo, TokenOne) == Ok(0);
    assert Paths.GetReserves(reg, TokenTwo, TokenOne) == Ok((220 * E18, 55 * E18));
    assert Library.GetAmountIn(21 * E18, 220 * E18, 55 * E18) == Ok(136291226621039589357);
    assert Paths.GetAmountsIn(reg, 21 * E18, [TokenTwo, TokenOne]) == Ok([136291226621039589357, 21 * E18]);
  }

  /** After the swap, 20 of the 110 shares redeem at the new balances. */
  lemma RemoveAfterSwap()
    ensures var r := Router.RemoveLiquidity(AfterSwap(), {}, TokenOne, TokenTwo, 20 * E18, 0, 0);
      && r.Ok? && r.value.amountA == 6181818181818181818 && r.value.amountB == 64780223022007198064
      && r.value.reg.pairs[0].reserve0 == 27818181818181818182
      && r.value.reg.pairs[0].reserve1 == 291511003599032391293
  {
    assert Paths.PairId(AfterSwap(), TokenOne, TokenTwo) == Ok(0);
  }

  /** `UserTwo` redeems all its 100 shares and takes back exactly its deposit. */
  lemma RemoveWholePosition()
    ensures var r := Router.RemoveLiquidity(RemovalPools(), {}, TokenOne, TokenTwo, 100 * E18, 0, 0);
      && r.Ok? && r.value.amountA == 50 * E18 && r.value.amountB == 200 * E18
      && r.value.reg.pairs[0].reserve0 == 5 * E18 && r.value.reg.pairs[0].reserve1 == 20 * E18
  {
    assert Paths.PairId(RemovalPools(), TokenOne, TokenTwo) == Ok(0);
  }
}
