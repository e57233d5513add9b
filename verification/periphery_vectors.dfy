/** The router scenarios: adding liquidity (creating the pair on first use),
    removing it, and the six swap entry points, on the pools the scenarios
    build up. The ETH entry points trade through the WETH pair; wrapping and
    unwrapping the ether itself happens outside the pairs. */
module PeripheryVectors {
  import opened Outcomes
  import opened Tokens
  import opened Fixtures
  import Num
  import Library
  import Pairs
  import Factory
  import Paths
  import Router

  /** After `UserOne` creates the TokenOne/TokenTwo pool with 5 and 20. */
  function FirstPool(): Factory.Registry {
    Factory.Registry(ZERO_ADDRESS, Owner,
      [Pairs.Pair(TokenOne, TokenTwo, 5 * E18, 20 * E18, 5 * E18, 20 * E18, 10 * E18)],
      map[(TokenOne, TokenTwo) := 0, (TokenTwo, TokenOne) := 0])
  }

  /** After `UserTwo` adds 200 TokenTwo and 50 TokenOne to it. */
  function SecondPool(): Factory.Registry {
    Factory.Registry(ZERO_ADDRESS, Owner,
      [Pairs.Pair(TokenOne, TokenTwo, 55 * E18, 220 * E18, 55 * E18, 220 * E18, 110 * E18)],
      map[(TokenOne, TokenTwo) := 0, (TokenTwo, TokenOne) := 0])
  }

  /** After `UserOne` also creates the WETH/TokenOne pool with 1000 TokenOne
      and 2 ether: the starting point of the removal and swap scenarios. */
  function Seeded(): Factory.Registry {
    Factory.Registry(ZERO_ADDRESS, Owner,
      [Pairs.Pair(TokenOne, TokenTwo, 55 * E18, 220 * E18, 55 * E18, 220 * E18, 110 * E18),
       Pairs.Pair(WETH, TokenOne, 2 * E18, 1000 * E18, 2 * E18, 1000 * E18, 44721359549995793928)],
      map[(TokenOne, TokenTwo) := 0, (TokenTwo, TokenOne) := 0,
          (WETH, TokenOne) := 1, (TokenOne, WETH) := 1])
  }

  // ---------------------------------------------------------------- adding liquidity

  /** The first deposit creates the pair, takes both desired amounts and mints
      `sqrt(5e18 * 20e18) - 1000` shares. */
  lemma AddWithCreation()
    ensures var r := Router.AddLiquidity(Factory.New(Owner), {}, TokenOne, TokenTwo, 5 * E18, 20 * E18, E18, E18);
      && r.Ok? && r.value.liquidity == 9_999999999999999000
      && r.value.amountA == 5 * E18 && r.value.amountB == 20 * E18
      && r.value.reg == FirstPool()
  {
    Num.IsqrtIs(100 * E18 * E18, 10 * E18);
    var reg := Factory.CreatePair(Factory.New(Owner), TokenOne, TokenTwo).value.0;
    assert Paths.GetReserves(reg, TokenOne, TokenTwo) == Ok((0, 0));
  }

  /** A deposit at the pool's ratio, named in the opposite token order, mints
      the pro-rata 100 shares. */
  lemma AddToExisting()
    ensures var r := Router.AddLiquidity(FirstPool(), {}, TokenTwo, TokenOne, 200 * E18, 50 * E18, 0, 0);
      && r.Ok? && r.value.liquidity == 100 * E18
      && r.value.amountA == 200 * E18 && r.value.amountB == 50 * E18
      && r.value.reg == SecondPool()
  {
    assert Paths.GetReserves(FirstPool(), TokenTwo, TokenOne) == Ok((20 * E18, 5 * E18));
    assert Router.AddLiquidityAmounts(20 * E18, 5 * E18, 200 * E18, 50 * E18, 0, 0) == Ok((200 * E18, 50 * E18));
  }

  /** A lopsided offer of 60 TokenTwo and 50 TokenOne: the router takes only
      the 15 TokenOne that match 60 TokenTwo, and 30 shares are minted. */
  lemma AddUnequal()
    ensures var r := Router.AddLiquidity(SecondPool(), {}, TokenTwo, TokenOne, 60 * E18, 50 * E18, 0, 0);
      && r.Ok? && r.value.liquidity == 30 * E18
      && r.value.amountA == 60 * E18 && r.value.amountB == 15 * E18
  {
    assert Paths.GetReserves(SecondPool(), TokenTwo, TokenOne) == Ok((220 * E18, 55 * E18));
    assert Router.AddLiquidityAmounts(220 * E18, 55 * E18, 60 * E18, 50 * E18, 0, 0) == Ok((60 * E18, 15 * E18));
  }

  /** Creating the WETH pool with 1000 TokenOne and 2 ether mints
      `sqrt(1000e18 * 2e18) - 1000` shares. */
  lemma AddWithEth()
    ensures var r := Router.AddLiquidity(SecondPool(), {}, TokenOne, WETH, 1000 * E18, 2 * E18, 0, 0);
      && r.Ok? && r.value.liquidity == 44721359549995792928
      && r.value.reg == Seeded()
  {
    Num.IsqrtIs(2000 * E18 * E18, 44721359549995793928);
    var (reg, id) := Factory.CreatePair(SecondPool(), TokenOne, WETH).value;
    assert Paths.PairId(reg, TokenOne, WETH) == Ok(id);
    assert Paths.GetReserves(reg, TokenOne, WETH) == Ok((0, 0));
    var funded := Pairs.Credit(Pairs.Credit(reg.pairs[id], TokenOne, 1000 * E18), WETH, 2 * E18);
    assert Pairs.Mint(funded).Ok? && Pairs.Mint(funded).value.liquidity == 44721359549995792928;
  }

  // ---------------------------------------------------------------- removing liquidity

  /** Burning 5 of the 110 shares pays 2.5 TokenOne and 10 TokenTwo. */
  lemma RemoveTokens()
    ensures var r := Router.RemoveLiquidity(Seeded(), {}, TokenOne, TokenTwo, 5 * E18, 2_300000000000000000, 9_500000000000000000);
      && r.Ok? && r.value.amountA == 2_500000000000000000 && r.value.amountB == 10 * E18
      && r.value.reg.pairs[0].reserve0 == 52_500000000000000000
      && r.value.reg.pairs[0].reserve1 == 210 * E18
  {
    assert Paths.PairId(Seeded(), TokenOne, TokenTwo) == Ok(0);
  }

  /** Burning half the WETH pool's shares pays exactly half of each side. */
  lemma RemoveWithEth()
    ensures var r := Router.RemoveLiquidity(Seeded(), {}, TokenOne, WETH, 22360679774997896964, 200 * E18, 600000000000000000);
      && r.Ok? && r.value.amountA == 500 * E18 && r.value.amountB == E18
      && r.value.reg.pairs[1].reserve0 == E18 && r.value.reg.pairs[1].reserve1 == 500 * E18
  {
    assert Paths.PairId(Seeded(), TokenOne, WETH) == Ok(1);
  }

  /** `UserTwo` burns its 86 shares. */
  lemma RemoveTokensWithPermit()
    ensures var r := Router.RemoveLiquidity(Seeded(), {}, TokenOne, TokenTwo, 86 * E18, 0, 0);
      && r.Ok? && r.value.amountA == 43 * E18 && r.value.amountB == 172 * E18
      && r.value.reg.pairs[0].reserve0 == 12 * E18 && r.value.reg.pairs[0].reserve1 == 48 * E18
  {
    assert Paths.PairId(Seeded(), TokenOne, TokenTwo) == Ok(0);
  }

  /** Burning 12 shares of the WETH pool rounds both payouts down. */
  lemma RemoveEthWithPermit()
    ensures var r := Router.RemoveLiquidity(Seeded(), {}, TokenOne, WETH, 12 * E18, 0, 0);
      && r.Ok? && r.value.amountA == 268328157299974763570 && r.value.amountB == 536656314599949527
      && r.value.reg.pairs[1].reserve0 == 1463343685400050473
      && r.value.reg.pairs[1].reserve1 == 731671842700025236430
  {
    assert Paths.PairId(Seeded(), TokenOne, WETH) == Ok(1);
  }

  // ---------------------------------------------------------------- swaps

  /** 40 TokenOne in buys 92.47… TokenTwo. */
  lemma SwapExactTokenOneForTokenTwo()
    ensures var r := Router.SwapExactTokensForTokens(Seeded(), {}, 40 * E18, 80 * E18, [TokenOne, TokenTwo], UserOne);
      && r.Ok? && r.value.amounts == [40 * E18, 92470489038785834738]
      && r.value.received == 92470489038785834738
      && r.value.reg.pairs[0].reserve0 == 95 * E18
      && r.value.reg.pairs[0].reserve1 == 127529510961214165262
  {
    var reg := Seeded();
    assert Paths.PairId(reg, TokenOne, TokenTwo) == Ok(0);
    assert Paths.GetReserves(reg, TokenOne, TokenTwo) == Ok((55 * E18, 220 * E18));
    assert Library.GetAmountOut(40 * E18, 55 * E18, 220 * E18) == Ok(92470489038785834738);
    assert Paths.GetAmountsOut(reg, 40 * E18, [TokenOne, TokenTwo]) == Ok([40 * E18, 92470489038785834738]);
  }

  /** 21 TokenOne out costs 136.29… TokenTwo. */
  lemma SwapTokenTwoForExactTokenOne()
    ensures var r := Router.SwapTokensForExactTokens(Seeded(), {}, 21 * E18, 150 * E18, [TokenTwo, TokenOne], UserTwo);
      && r.Ok? && r.value.amounts == [136291226621039589357, 21 * E18]
      && r.value.received == 21 * E18
      && r.value.reg.pairs[0].reserve0 == 34 * E18
      && r.value.reg.pairs[0].reserve1 == 356291226621039589357
  {
    var reg := Seeded();
    assert Paths.PairId(reg, TokenTwo, TokenOne) == Ok(0);
    assert Paths.GetReserves(reg, TokenTwo, TokenOne) == Ok((220 * E18, 55 * E18));
    assert Library.GetAmountIn(21 * E18, 220 * E18, 55 * E18) == Ok(136291226621039589357);
    assert Paths.GetAmountsIn(reg, 21 * E18, [TokenTwo, TokenOne]) == Ok([136291226621039589357, 21 * E18]);
  }

  /** 0.2 ether in buys 90.66… TokenOne from the WETH pool. */
  lemma SwapExactEthForTokenOne()
    ensures var r := Router.SwapExactTokensForTokens(Seeded(), {}, 200000000000000000, 85 * E18, [WETH, TokenOne], UserOne);
      && r.Ok? && r.value.amounts == [200000000000000000, 90661089388014913158]
      && r.value.reg.pairs[1].reserve0 == 2_200000000000000000
      && r.value.reg.pairs[1].reserve1 == 909338910611985086842
  {
    var reg := Seeded();
    assert Paths.PairId(reg, WETH, TokenOne) == Ok(1);
    assert Paths.GetReserves(reg, WETH, TokenOne) == Ok((2 * E18, 1000 * E18));
    assert Library.GetAmountOut(200000000000000000, 2 * E18, 1000 * E18) == Ok(90661089388014913158);
    assert Paths.GetAmountsOut(reg, 200000000000000000, [WETH, TokenOne]) == Ok([200000000000000000, 90661089388014913158]);
  }

  /** 0.01 ether out through TokenOne costs 22.26… TokenTwo; the backward
      sweep prices the WETH hop first. */
  lemma SwapTokenTwoForExactEth()
    ensures var r := Router.SwapTokensForExactTokens(Seeded(), {}, 10000000000000000, 30 * E18, [TokenTwo, TokenOne, WETH], UserTwo);
      && r.Ok? && r.value.amounts == [22261734541129371930, 5040246367242430811, 10000000000000000]
      && r.value.received == 10000000000000000
      && r.value.reg.pairs[0].reserve1 == 242261734541129371930
  {
    QuoteTokenTwoForExactEth();
    TokenTwoForExactEthHops();
  }

  /** Paying 22.26… TokenTwo into the first pool and sweeping both hops
      delivers the 0.01 ether and leaves the first pool's TokenTwo reserve
      grown by the payment. */
  lemma TokenTwoForExactEthHops()
    ensures var funded := Router.PayIn(Seeded(), {}, TokenTwo, TokenOne, 22261734541129371930);
      && funded.Ok?
      && var hopped := Router.Hops(funded.value, {}, [TokenTwo, TokenOne, WETH],
                                   [22261734541129371930, 5040246367242430811, 10000000000000000], 0, UserTwo);
         && hopped.Ok? && hopped.value.delivered == 10000000000000000
         && hopped.value.reg.pairs[0].reserve1 == 242261734541129371930
  {
    var path, amounts := [TokenTwo, TokenOne, WETH], [22261734541129371930, 5040246367242430811, 10000000000000000];
    TokenTwoForExactEthFirstHop();
    var funded := Router.PayIn(Seeded(), {}, TokenTwo, TokenOne, 22261734541129371930);
    var first := Router.Hop(funded.value, {}, TokenTwo, TokenOne, 5040246367242430811, PairAt(1));
    var last := Router.Hop(first.value.reg, {}, TokenOne, WETH, 10000000000000000, Account(UserTwo));
    assert last.Ok? && last.value.reg.pairs[0] == first.value.reg.pairs[0];
    assert Router.NextRecipient(funded.value, path, 0, UserTwo) == Ok(PairAt(1));
    assert Router.NextRecipient(first.value.reg, path, 1, UserTwo) == Ok(Account(UserTwo));
    assert Router.Hops(first.value.reg, {}, path, amounts, 1, UserTwo) == last;
    assert Router.Hops(funded.value, {}, path, amounts, 0, UserTwo) == last;
  }

  /** The first hop of that sweep: the TokenTwo pool pays 5.04… TokenOne
      into the WETH pool and records the payment in its reserve. */
  lemma TokenTwoForExactEthFirstHop()
    ensures var funded := Router.PayIn(Seeded(), {}, TokenTwo, TokenOne, 22261734541129371930);
      && funded.Ok?
      && var first := Router.Hop(funded.value, {}, TokenTwo, TokenOne, 5040246367242430811, PairAt(1));
         && first.Ok? && first.value.reg.pairs[0].reserve1 == 242261734541129371930
         && |first.value.reg.pairs| == 2 && first.value.reg.pairs[1].balance0 == 2 * E18
         && first.value.reg.pairs[1].balance1 == 1000 * E18 + 5040246367242430811
  {
    var reg := Seeded();
    var funded := Router.PayIn(reg, {}, TokenTwo, TokenOne, 22261734541129371930);
    assert Paths.PairId(reg, TokenTwo, TokenOne) == Ok(0);
    assert funded.Ok? && funded.value.pairs[0].balance1 == 242261734541129371930;
  }

  /** The backward quote for 0.01 ether out through TokenOne. */
  lemma QuoteTokenTwoForExactEth()
    ensures Paths.GetAmountsIn(Seeded(), 10000000000000000, [TokenTwo, TokenOne, WETH])
         == Ok([22261734541129371930, 5040246367242430811, 10000000000000000])
  {
    var reg := Seeded();
    assert Paths.PairId(reg, TokenOne, WETH) == Ok(1);
    assert Paths.PairId(reg, TokenTwo, TokenOne) == Ok(0);
    assert Paths.GetReserves(reg, TokenOne, WETH) == Ok((1000 * E18, 2 * E18));
    assert Paths.GetReserves(reg, TokenTwo, TokenOne) == Ok((220 * E18, 55 * E18));
    assert Library.GetAmountIn(10000000000000000, 1000 * E18, 2 * E18) == Ok(5040246367242430811);
    assert Library.GetAmountIn(5040246367242430811, 220 * E18, 55 * E18) == Ok(22261734541129371930);
    var path, amounts := [TokenTwo, TokenOne, WETH], [22261734541129371930, 5040246367242430811, 10000000000000000];
    assert Paths.InHop(reg, path, amounts, 0);
    assert Paths.InHop(reg, path, amounts, 1);
    assert Paths.IsAmountsIn(reg, 10000000000000000, path, amounts) by {
      forall i: nat | i + 1 < |path| ensures Paths.InHop(reg, path, amounts, i) {
        assert i == 0 || i == 1;
      }
    }
    Paths.GetAmountsInChains(reg, 10000000000000000, path, amounts);
  }

  /** 105 TokenTwo in through TokenOne buys 0.0347… ether. */
  lemma SwapExactTokenTwoForEth()
    ensures var r := Router.SwapExactTokensForTokens(Seeded(), {}, 105 * E18, 30000000000000000, [TokenTwo, TokenOne, WETH], UserOne);
      && r.Ok? && r.value.amounts == [105 * E18, 17733110553305511495, 34745524652092692]
      && r.value.received == 34745524652092692
  {
    QuoteExactTokenTwoForEth();
    ExactTokenTwoForEthHops();
  }

  /** Paying 105 TokenTwo into the first pool and sweeping both hops
      delivers the quoted 0.0347… ether. */
  lemma ExactTokenTwoForEthHops()
    ensures var funded := Router.PayIn(Seeded(), {}, TokenTwo, TokenOne, 105 * E18);
      && funded.Ok?
      && var hopped := Router.Hops(funded.value, {}, [TokenTwo, TokenOne, WETH],
                                   [105 * E18, 17733110553305511495, 34745524652092692], 0, UserOne);
         && hopped.Ok? && hopped.value.delivered == 34745524652092692
  {
    var reg, path, amounts := Seeded(), [TokenTwo, TokenOne, WETH], [105 * E18, 17733110553305511495, 34745524652092692];
    var funded := Router.PayIn(reg, {}, TokenTwo, TokenOne, 105 * E18);
    assert Paths.PairId(reg, TokenTwo, TokenOne) == Ok(0);
    assert funded.Ok?;
    var first := Router.Hop(funded.value, {}, TokenTwo, TokenOne, 17733110553305511495, PairAt(1));
    assert first.Ok?;
    var last := Router.Hop(first.value.reg, {}, TokenOne, WETH, 34745524652092692, Account(UserOne));
    assert last.Ok?;
    assert Router.NextRecipient(funded.value, path, 0, UserOne) == Ok(PairAt(1));
    assert Router.NextRecipient(first.value.reg, path, 1, UserOne) == Ok(Account(UserOne));
    assert Router.Hops(first.value.reg, {}, path, amounts, 1, UserOne) == last;
    assert Router.Hops(funded.value, {}, path, amounts, 0, UserOne) == last;
  }

  /** The forward quote for 105 TokenTwo through TokenOne into WETH. */
  lemma QuoteExactTokenTwoForEth()
    ensures Paths.GetAmountsOut(Seeded(), 105 * E18, [TokenTwo, TokenOne, WETH])
         == Ok([105 * E18, 17733110553305511495, 34745524652092692])
  {
    var reg := Seeded();
    assert Paths.PairId(reg, TokenTwo, TokenOne) == Ok(0);
    assert Paths.PairId(reg, TokenOne, WETH) == Ok(1);
    assert Paths.GetReserves(reg, TokenTwo, TokenOne) == Ok((220 * E18, 55 * E18));
    assert Paths.GetReserves(reg, TokenOne, WETH) == Ok((1000 * E18, 2 * E18));
    assert Library.GetAmountOut(105 * E18, 220 * E18, 55 * E18) == Ok(17733110553305511495);
    assert Library.GetAmountOut(17733110553305511495, 1000 * E18, 2 * E18) == Ok(34745524652092692);
    var path, amounts := [TokenTwo, TokenOne, WETH], [105 * E18, 17733110553305511495, 34745524652092692];
    assert Paths.OutHop(reg, path, amounts, 0);
    assert Paths.OutHop(reg, path, amounts, 1);
    assert Paths.IsAmountsOut(reg, 105 * E18, path, amounts) by {
      forall i: nat | i + 1 < |path| ensures Paths.OutHop(reg, path, amounts, i) {
        assert i == 0 || i == 1;
      }
    }
    Paths.GetAmountsOutChains(reg, 105 * E18, path, amounts);
  }

  /** 123 TokenOne out of the WETH pool costs 0.28… ether, within the 0.4
      sent. */
  lemma SwapEthForExactTokenOne()
    ensures var r := Router.SwapTokensForExactTokens(Seeded(), {}, 123 * E18, 400000000000000000, [WETH, TokenOne], UserTwo);
      && r.Ok? && r.value.amounts == [281345747619140203, 123 * E18]
      && r.value.reg.pairs[1].reserve0 == 2281345747619140203
      && r.value.reg.pairs[1].reserve1 == 877 * E18
  {
    var reg := Seeded();
    assert Paths.PairId(reg, WETH, TokenOne) == Ok(1);
    assert Paths.GetReserves(reg, WETH, TokenOne) == Ok((2 * E18, 1000 * E18));
    assert Library.GetAmountIn(123 * E18, 2 * E18, 1000 * E18) == Ok(281345747619140203);
    assert Paths.GetAmountsIn(reg, 123 * E18, [WETH, TokenOne]) == Ok([281345747619140203, 123 * E18]);
  }
}
