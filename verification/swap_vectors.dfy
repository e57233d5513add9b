/** The swap scenarios that go beyond the router scenarios: a token with 6
    decimals and a fee-on-transfer token, on five pools. */
module SwapVectors {
  import opened Outcomes
  import opened Tokens
  import opened Fixtures
  import Num
  import Library
  import Pairs
  import Factory
  import Paths
  import Router
  import PeripheryVectors

  const TWF_POOL: Pairs.Pair :=
    Pairs.Pair(TokenTwo, TokenWithFee, 100 * E18, 498_500000000000000000, 100 * E18, 498_500000000000000000,
               223271135617661066260)
  const WETH_TWF_POOL: Pairs.Pair :=
    Pairs.Pair(WETH, TokenWithFee, 5 * E18, 498_500000000000000000, 5 * E18, 498_500000000000000000,
               49924943665466463899)
  const TW6_POOL: Pairs.Pair :=
    Pairs.Pair(TokenTwo, TokenWith6Decimals, 20 * E18, 200_000000, 20 * E18, 200_000000, 63245553203367)

  /** The router pools plus the TokenWithFee/TokenTwo pool. */
  function WithFeePool(): Factory.Registry {
    var seeded := PeripheryVectors.Seeded();
    seeded.(pairs := seeded.pairs + [TWF_POOL],
            index := seeded.index[(TokenWithFee, TokenTwo) := 2][(TokenTwo, TokenWithFee) := 2])
  }

  /** ... plus the TokenWithFee/WETH pool. */
  function WithFeeEthPool(): Factory.Registry {
    var reg := WithFeePool();
    reg.(pairs := reg.pairs + [WETH_TWF_POOL],
         index := reg.index[(TokenWithFee, WETH) := 3][(WETH, TokenWithFee) := 3])
  }

  /** ... plus the TokenTwo/TokenWith6Decimals pool: all five pools. */
  function Pools(): Factory.Registry {
    var reg := WithFeeEthPool();
    reg.(pairs := reg.pairs + [TW6_POOL],
         index := reg.index[(TokenTwo, TokenWith6Decimals) := 4][(TokenWith6Decimals, TokenTwo) := 4])
  }

  // ---------------------------------------------------------------- building the pools

  /** Depositing 500 TokenWithFee delivers 498.5 to the new pair, and the
      shares are the root of what arrived. */
  lemma AddFeeTokenPool()
    ensures var r := Router.AddLiquidity(PeripheryVectors.Seeded(), FeeTokens, TokenWithFee, TokenTwo,
                                         500 * E18, 100 * E18, 0, 0);
      && r.Ok? && r.value.liquidity == 223271135617661065260
      && r.value.reg == WithFeePool()
  {
    Num.IsqrtIs(100 * E18 * 498_500000000000000000, 223271135617661066260);
    var reg := Factory.CreatePair(PeripheryVectors.Seeded(), TokenWithFee, TokenTwo).value.0;
    assert Paths.GetReserves(reg, TokenWithFee, TokenTwo) == Ok((0, 0));
  }

  lemma AddFeeTokenEthPool()
    ensures var r := Router.AddLiquidity(WithFeePool(), FeeTokens, TokenWithFee, WETH, 500 * E18, 5 * E18, 0, 0);
      && r.Ok? && r.value.liquidity == 49924943665466462899
      && r.value.reg == WithFeeEthPool()
  {
    Num.IsqrtIs(5 * E18 * 498_500000000000000000, 49924943665466463899);
    var reg := Factory.CreatePair(WithFeePool(), TokenWithFee, WETH).value.0;
    assert Paths.GetReserves(reg, TokenWithFee, WETH) == Ok((0, 0));
  }

  lemma AddSixDecimalPool()
    ensures var r := Router.AddLiquidity(WithFeeEthPool(), FeeTokens, TokenTwo, TokenWith6Decimals,
                                         20 * E18, 200_000000, 0, 0);
      && r.Ok? && r.value.liquidity == 63245553202367
      && r.value.reg == Pools()
  {
    Num.IsqrtIs(20 * E18 * 200_000000, 63245553203367);
    var reg := Factory.CreatePair(WithFeeEthPool(), TokenTwo, TokenWith6Decimals).value.0;
    assert Paths.GetReserves(reg, TokenTwo, TokenWith6Decimals) == Ok((0, 0));
  }

  // ---------------------------------------------------------------- swaps

  /** 34 units (6 decimals) out of the TokenWith6Decimals pool cost 4.108…
      TokenTwo (18 decimals): the formula is indifferent to decimals. */
  lemma SwapTokenTwoForExactSixDecimal()
    ensures var r := Router.SwapTokensForExactTokens(Pools(), FeeTokens, 34_000000, 5 * E18,
                                                     [TokenTwo, TokenWith6Decimals], UserOne);
      && r.Ok? && r.value.amounts == [4108711677200275526, 34_000000]
      && r.value.reg.pairs[4].reserve0 == 24108711677200275526
      && r.value.reg.pairs[4].reserve1 == 166_000000
  {
    var reg := Pools();
    assert Paths.PairId(reg, TokenTwo, TokenWith6Decimals) == Ok(4);
    assert Paths.GetReserves(reg, TokenTwo, TokenWith6Decimals) == Ok((20 * E18, 200_000000));
    assert Library.GetAmountIn(34_000000, 20 * E18, 200_000000) == Ok(4108711677200275526);
    assert Paths.GetAmountsIn(reg, 34_000000, [TokenTwo, TokenWith6Decimals]) == Ok([4108711677200275526, 34_000000]);
  }

  /** 67 TokenTwo into the fee-token pool: the pair pays out 199.637…
      TokenWithFee, of which the recipient receives 99.7%. */
  lemma SwapExactTokenTwoForFeeToken()
    ensures var r := Router.SwapExactTokensForTokensSupportingFee(Pools(), FeeTokens, 67 * E18, 0,
                                                                  [TokenTwo, TokenWithFee], UserOne);
      && r.Ok? && r.value.delivered == 199038385095234383898
      && r.value.reg.pairs[2].reserve0 == 167 * E18
      && r.value.reg.pairs[2].reserve1 == 298862703013807037213
  {
    var reg := Pools();
    assert Paths.PairId(reg, TokenTwo, TokenWithFee) == Ok(2);
    var funded := Router.PayIn(reg, FeeTokens, TokenTwo, TokenWithFee, 67 * E18);
    assert funded.Ok? && funded.value.pairs[2].balance0 == 167 * E18;
    assert Router.Measure(funded.value.pairs[2], TokenTwo) == Ok((67 * E18, 100 * E18, 498_500000000000000000));
    assert Library.GetAmountOut(67 * E18, 100 * E18, 498_500000000000000000) == Ok(199637296986192962787);
  }

  /** 2.3333 ether into the WETH/TokenWithFee pool. */
  lemma SwapExactEthForFeeToken()
    ensures var r := Router.SwapExactTokensForTokensSupportingFee(Pools(), FeeTokens, 2_333300000000000000, 0,
                                                                  [WETH, TokenWithFee], UserOne);
      && r.Ok? && r.value.delivered == 157812484101006181823
      && r.value.reg.pairs[3].reserve0 == 7_333300000000000000
      && r.value.reg.pairs[3].reserve1 == 340212653860575544811
  {
    var reg := Pools();
    assert Paths.PairId(reg, WETH, TokenWithFee) == Ok(3);
    var funded := Router.PayIn(reg, FeeTokens, WETH, TokenWithFee, 2_333300000000000000);
    assert funded.Ok? && funded.value.pairs[3].balance0 == 7_333300000000000000;
    assert Router.Measure(funded.value.pairs[3], WETH) == Ok((2_333300000000000000, 5 * E18, 498_500000000000000000));
    assert Library.GetAmountOut(2_333300000000000000, 5 * E18, 498_500000000000000000) == Ok(158287346139424455189);
  }

  // ---------------------------------------------------------------- the router swaps on all five pools

  /** 0.2 ether in buys 90.66… TokenOne from the WETH pool, whatever other
      pools the factory holds. */
  lemma SwapExactEthForTokenOneAmongFivePools()
    ensures var r := Router.SwapExactTokensForTokens(Pools(), {}, 200000000000000000, 85 * E18, [WETH, TokenOne], UserOne);
      && r.Ok? && r.value.amounts == [200000000000000000, 90661089388014913158]
      && r.value.reg.pairs[1].reserve0 == 2_200000000000000000
      && r.value.reg.pairs[1].reserve1 == 909338910611985086842
  {
    var reg := Pools();
    assert Paths.PairId(reg, WETH, TokenOne) == Ok(1);
    assert Paths.GetReserves(reg, WETH, TokenOne) == Ok((2 * E18, 1000 * E18));
    assert Library.GetAmountOut(200000000000000000, 2 * E18, 1000 * E18) == Ok(90661089388014913158);
    assert Paths.GetAmountsOut(reg, 200000000000000000, [WETH, TokenOne]) == Ok([200000000000000000, 90661089388014913158]);
  }

  /** The three-token forward quote chains `GetAmountOut` hop by hop: 105
      TokenTwo buy 17.73… TokenOne, which buy 0.0347… ether. */
  lemma QuoteExactTokenTwoForEthAmongFivePools()
    ensures Paths.GetAmountsOut(Pools(), 105 * E18, [TokenTwo, TokenOne, WETH])
         == Ok([105 * E18, 17733110553305511495, 34745524652092692])
  {
    var reg := Pools();
    assert Paths.PairId(reg, TokenTwo, TokenOne) == Ok(0);
    assert Paths.PairId(reg, TokenOne, WETH) == Ok(1);
    assert Paths.GetReserves(reg, TokenTwo, TokenOne) == Ok((220 * E18, 55 * E18));
    assert Paths.GetReserves(reg, TokenOne, WETH) == Ok((1000 * E18, 2 * E18));
    assert Library.GetAmountOut(105 * E18, 220 * E18, 55 * E18) == Ok(17733110553305511495);
    assert Library.GetAmountOut(17733110553305511495, 1000 * E18, 2 * E18) == Ok(34745524652092692);
    var path, amounts := [TokenTwo, TokenOne, WETH], [105 * E18, 17733110553305511495, 34745524652092692];
    assert Paths.OutHop(reg, path, amounts, 0);
    assert Paths.OutHop(reg, path, amounts, 1);
    assert Paths.IsAmountsOut(reg, 105 * E18, path, amounts) by {
      forall i: nat | i + 1 < |path| ensures Paths.OutHop(reg, path, amounts, i) {
        assert i == 0 || i == 1;
      }
    }
    Paths.GetAmountsOutChains(reg, 105 * E18, path, amounts);
  }
}
