/** The router: liquidity provision and removal, and swaps along a path of
    pairs.

    The router holds nothing between calls. It moves the caller's tokens
    straight into the first pair, has every pair but the last pay its output
    straight into the next pair, and has the last pair pay the recipient.
    Only what reaches the caller is returned here; the caller's own balances
    are not modelled. Transfers of a fee-on-transfer token credit less than
    they debit (see `Tokens.Delivered`).
 */
module Router {
  import opened Outcomes
  import opened Num
  import opened Tokens
  import Library
  import Pairs
  import Factory
  import Paths

  // ---------------------------------------------------------------- liquidity

  /** `_addLiquidity`'s choice of deposit: into an empty pool, the desired
      amounts as given (they set the price); otherwise the desired amount of
      one side and its `Quote` at the current reserves on the other, taking
      side A in full when B's quote fits within what is desired of B. */
  function AddLiquidityAmounts(reserveA: nat, reserveB: nat, amountADesired: nat, amountBDesired: nat,
                               amountAMin: nat, amountBMin: nat): (r: Result<(nat, nat)>)
    ensures reserveA == 0 && reserveB == 0 ==> r == Ok((amountADesired, amountBDesired))
    ensures r.Ok? ==> r.value.0 <= amountADesired && r.value.1 <= amountBDesired
    ensures r.Ok? && (reserveA > 0 || reserveB > 0) ==>
      && reserveA > 0 && reserveB > 0
      && (|| (&& r.value.0 == amountADesired && r.value.1 >= amountBMin
              && r.value.1 * reserveA <= amountADesired * reserveB < (r.value.1 + 1) * reserveA)
          || (&& r.value.1 == amountBDesired && r.value.0 >= amountAMin
              && r.value.0 * reserveB <= amountBDesired * reserveA < (r.value.0 + 1) * reserveB))
  {
    if reserveA == 0 && reserveB == 0 then
      Ok((amountADesired, amountBDesired))
    else
      var amountBOptimal :- Library.Quote(amountADesired, reserveA, reserveB);
      if amountBOptimal <= amountBDesired then
        :- Need(amountBOptimal >= amountBMin, InsufficientBAmount);
        Ok((amountADesired, amountBOptimal))
      else
        var amountAOptimal :- Library.Quote(amountBDesired, reserveB, reserveA);
        OptimalAWithinDesired(amountADesired, amountBDesired, reserveA, reserveB, amountBOptimal, amountAOptimal);
        :- Need(amountAOptimal >= amountAMin, InsufficientAAmount);
        Ok((amountAOptimal, amountBDesired))
  }

  /** Which deposit `_addLiquidity` picks, and when it reverts. On a pool
      holding both tokens, side A is taken in full whenever B's quote for it
      fits within what is desired of B (`amountADesired * reserveB <
      (amountBDesired + 1) * reserveA`), and the deposit then stands or falls
      on B's minimum; otherwise B is taken in full and A's minimum decides.
      Quoting a zero amount reverts with `InsufficientAmount`, and a pool
      holding only one of the two tokens with `InsufficientLiquidity`. */
  lemma AddLiquidityAmountsOutcome(reserveA: nat, reserveB: nat, amountADesired: nat, amountBDesired: nat,
                                   amountAMin: nat, amountBMin: nat)
    ensures var r := AddLiquidityAmounts(reserveA, reserveB, amountADesired, amountBDesired, amountAMin, amountBMin);
      && ((reserveA > 0 || reserveB > 0) && amountADesired == 0 ==> r == Err(InsufficientAmount))
      && ((reserveA == 0) != (reserveB == 0) && amountADesired > 0 ==> r == Err(InsufficientLiquidity))
      && (reserveA > 0 && reserveB > 0 && amountADesired > 0 ==>
            if amountADesired * reserveB < (amountBDesired + 1) * reserveA then
              && (r.Ok? <==> amountADesired * reserveB >= amountBMin * reserveA)
              && (r.Ok? ==> r.value == (amountADesired, amountADesired * reserveB / reserveA))
              && (r.Err? ==> r == Err(InsufficientBAmount))
            else if amountBDesired == 0 then
              r == Err(InsufficientAmount)
            else
              && (r.Ok? <==> amountBDesired * reserveA >= amountAMin * reserveB)
              && (r.Ok? ==> r.value == (amountBDesired * reserveA / reserveB, amountBDesired))
              && (r.Err? ==> r == Err(InsufficientAAmount)))
  {
    if reserveA > 0 && reserveB > 0 && amountADesired > 0 {
      Library.FloorAtLeast(amountADesired * reserveB, reserveA, amountBDesired + 1);
      Library.FloorAtLeast(amountADesired * reserveB, reserveA, amountBMin);
      if amountBDesired > 0 {
        Library.FloorAtLeast(amountBDesired * reserveA, reserveB, amountAMin);
      }
    }
  }

  /** The router asserts that when side B's quote exceeds what is desired of
      B, side A's quote of the desired B stays within the desired A. It does:
      `amountBDesired < amountADesired * reserveB / reserveA` means
      `amountBDesired * reserveA < amountADesired * reserveB`. */
  lemma OptimalAWithinDesired(amountADesired: nat, amountBDesired: nat, reserveA: nat, reserveB: nat,
                              amountBOptimal: nat, amountAOptimal: nat)
    requires reserveA > 0 && reserveB > 0
    requires amountBOptimal * reserveA <= amountADesired * reserveB
    requires amountBOptimal > amountBDesired
    requires amountAOptimal * reserveB <= amountBDesired * reserveA
    ensures amountAOptimal <= amountADesired
  {
    Library.MulMonotone(amountBDesired, amountBOptimal, reserveA);
    assert amountAOptimal * reserveB <= amountADesired * reserveB;
    Library.MulCancel(amountAOptimal, amountADesired, reserveB);
  }

  datatype Added = Added(reg: Factory.Registry, amountA: nat, amountB: nat, liquidity: nat)

  /** `addLiquidity`: creates the pair if it does not exist yet, chooses the
      deposit with `AddLiquidityAmounts`, transfers both amounts into the pair
      and mints. The shares are computed from what actually arrived. */
  function AddLiquidity(reg: Factory.Registry, feeTokens: set<Token>, tokenA: Token, tokenB: Token,
                        amountADesired: nat, amountBDesired: nat, amountAMin: nat, amountBMin: nat): (r: Result<Added>)
    ensures r.Ok? ==> r.value.amountA <= amountADesired && r.value.amountB <= amountBDesired
    ensures r.Ok? ==> r.value.liquidity > 0
    ensures r.Ok? ==> Paths.PairId(r.value.reg, tokenA, tokenB).Ok?
    ensures r.Ok? && Factory.GetPair(reg, tokenA, tokenB).None? ==>
      && r.value.amountA == amountADesired && r.value.amountB == amountBDesired
      && |r.value.reg.pairs| == |reg.pairs| + 1
    ensures r.Ok? && Factory.GetPair(reg, tokenA, tokenB).Some? ==>
      && Paths.GetReserves(reg, tokenA, tokenB).Ok?
      && var (reserveA, reserveB) := Paths.GetReserves(reg, tokenA, tokenB).value;
         AddLiquidityAmounts(reserveA, reserveB, amountADesired, amountBDesired, amountAMin, amountBMin)
           == Ok((r.value.amountA, r.value.amountB))
    ensures Factory.GetPair(reg, tokenA, tokenB).Some? && Paths.GetReserves(reg, tokenA, tokenB).Ok? ==>
      var (reserveA, reserveB) := Paths.GetReserves(reg, tokenA, tokenB).value;
      var chosen := AddLiquidityAmounts(reserveA, reserveB, amountADesired, amountBDesired, amountAMin, amountBMin);
      chosen.Err? ==> r == Err(chosen.error)
  {
    var reg1 :- if Factory.GetPair(reg, tokenA, tokenB).None? then
                  var created :- Factory.CreatePair(reg, tokenA, tokenB);
                  Ok(created.0)
                else
                  Ok(reg);
    var (reserveA, reserveB) :- Paths.GetReserves(reg1, tokenA, tokenB);
    var id := Paths.PairId(reg1, tokenA, tokenB).value;
    var (amountA, amountB) :- AddLiquidityAmounts(reserveA, reserveB, amountADesired, amountBDesired, amountAMin, amountBMin);
    var p := reg1.pairs[id];
    var funded := Pairs.Credit(Pairs.Credit(p, tokenA, Delivered(feeTokens, tokenA, amountA)),
                               tokenB, Delivered(feeTokens, tokenB, amountB));
    var minted :- Pairs.Mint(funded);
    Ok(Added(Factory.WithPair(reg1, id, minted.pair), amountA, amountB, minted.liquidity))
  }

  /** When `addLiquidity` succeeds and why it reverts. For a missing pair,
      a refused `createPair` reverts with its reason, and otherwise the
      deposit of both desired amounts into the new pair succeeds exactly when
      the pair mints. For an existing pair, the chosen deposit's reason is
      passed through, and otherwise the call succeeds exactly when the pair,
      credited with what arrives, mints; a refused mint reverts with its
      reason. */
  lemma AddLiquidityOutcome(reg: Factory.Registry, feeTokens: set<Token>, tokenA: Token, tokenB: Token,
                            amountADesired: nat, amountBDesired: nat, amountAMin: nat, amountBMin: nat)
    ensures var r := AddLiquidity(reg, feeTokens, tokenA, tokenB, amountADesired, amountBDesired, amountAMin, amountBMin);
      var created := Factory.CreatePair(reg, tokenA, tokenB);
      && (Factory.GetPair(reg, tokenA, tokenB).None? && created.Err? ==> r == Err(created.error))
      && (Factory.GetPair(reg, tokenA, tokenB).None? && created.Ok? ==>
            var (reg1, id) := created.value;
            var funded := Pairs.Credit(Pairs.Credit(reg1.pairs[id], tokenA, Delivered(feeTokens, tokenA, amountADesired)),
                                       tokenB, Delivered(feeTokens, tokenB, amountBDesired));
            && (r.Ok? <==> Pairs.Mint(funded).Ok?)
            && (Pairs.Mint(funded).Err? ==> r == Err(Pairs.Mint(funded).error)))
      && (Factory.GetPair(reg, tokenA, tokenB).Some? && Paths.GetReserves(reg, tokenA, tokenB).Ok? ==>
            var (reserveA, reserveB) := Paths.GetReserves(reg, tokenA, tokenB).value;
            var chosen := AddLiquidityAmounts(reserveA, reserveB, amountADesired, amountBDesired, amountAMin, amountBMin);
            && (chosen.Err? ==> r == Err(chosen.error))
            && (chosen.Ok? ==>
                  var id := Paths.PairId(reg, tokenA, tokenB).value;
                  var funded := Pairs.Credit(Pairs.Credit(reg.pairs[id], tokenA, Delivered(feeTokens, tokenA, chosen.value.0)),
                                             tokenB, Delivered(feeTokens, tokenB, chosen.value.1));
                  && (r.Ok? <==> Pairs.Mint(funded).Ok?)
                  && (Pairs.Mint(funded).Err? ==> r == Err(Pairs.Mint(funded).error))))
  {
    if Factory.GetPair(reg, tokenA, tokenB).None? && Factory.CreatePair(reg, tokenA, tokenB).Ok? {
      var (reg1, id) := Factory.CreatePair(reg, tokenA, tokenB).value;
      assert Paths.PairId(reg1, tokenA, tokenB) == Ok(id);
      assert Paths.GetReserves(reg1, tokenA, tokenB) == Ok((0, 0));
    }
  }

  /** Into a pair that does not exist yet, the provider's shares are the root
      of the product of what actually reached the pair, less the locked
      minimum, and the new pair's reserves are exactly those arrivals. */
  lemma AddLiquidityCreatingPairMintsRoot(reg: Factory.Registry, feeTokens: set<Token>, tokenA: Token, tokenB: Token,
                                          amountADesired: nat, amountBDesired: nat, amountAMin: nat, amountBMin: nat,
                                          added: Added, arrivedA: nat, arrivedB: nat, product: nat)
    requires Factory.Valid(reg) && Factory.GetPair(reg, tokenA, tokenB).None?
    requires AddLiquidity(reg, feeTokens, tokenA, tokenB, amountADesired, amountBDesired, amountAMin, amountBMin) == Ok(added)
    requires arrivedA == Delivered(feeTokens, tokenA, amountADesired) && arrivedB == Delivered(feeTokens, tokenB, amountBDesired)
    requires product == arrivedA * arrivedB
    ensures |reg.pairs| < |added.reg.pairs|
    ensures var p := added.reg.pairs[|reg.pairs|];
      && added.liquidity + Pairs.MINIMUM_LIQUIDITY == Isqrt(product)
      && p.totalSupply == added.liquidity + Pairs.MINIMUM_LIQUIDITY
      && (if tokenA == p.token0 then (p.reserve0, p.reserve1) else (p.reserve1, p.reserve0)) == (arrivedA, arrivedB)
  {
    var funded := NewPairFunding(reg, feeTokens, tokenA, tokenB, amountADesired, amountBDesired, amountAMin, amountBMin);
    Pairs.FirstMintOfFreshPair(funded, tokenA, tokenB, arrivedA, arrivedB);
  }

  /** The first half of `AddLiquidityCreatingPairMintsRoot`: a deposit into a
      pair that does not exist yet credits both desired amounts to the new,
      empty pair and stores what that pair mints. */
  lemma NewPairFunding(reg: Factory.Registry, feeTokens: set<Token>, tokenA: Token, tokenB: Token,
                       amountADesired: nat, amountBDesired: nat, amountAMin: nat, amountBMin: nat)
    returns (funded: Pairs.Pair)
    requires Factory.Valid(reg) && Factory.GetPair(reg, tokenA, tokenB).None?
    requires AddLiquidity(reg, feeTokens, tokenA, tokenB, amountADesired, amountBDesired, amountAMin, amountBMin).Ok?
    ensures tokenA != tokenB
    ensures funded == Pairs.Credit(Pairs.Credit(Pairs.Init(Sort(tokenA, tokenB).0, Sort(tokenA, tokenB).1),
                                                tokenA, Delivered(feeTokens, tokenA, amountADesired)),
                                   tokenB, Delivered(feeTokens, tokenB, amountBDesired))
    ensures var added := AddLiquidity(reg, feeTokens, tokenA, tokenB, amountADesired, amountBDesired, amountAMin, amountBMin).value;
      && Pairs.Mint(funded).Ok?
      && |reg.pairs| < |added.reg.pairs|
      && added.reg.pairs[|reg.pairs|] == Pairs.Mint(funded).value.pair
      && added.liquidity == Pairs.Mint(funded).value.liquidity
  {
    var (reg1, id) := Factory.CreatePair(reg, tokenA, tokenB).value;
    assert Paths.PairId(reg1, tokenA, tokenB) == Ok(id);
    assert Paths.GetReserves(reg1, tokenA, tokenB) == Ok((0, 0));
    funded := Pairs.Credit(Pairs.Credit(reg1.pairs[id], tokenA, Delivered(feeTokens, tokenA, amountADesired)),
                           tokenB, Delivered(feeTokens, tokenB, amountBDesired));
  }

  /** Into an existing pair, what reaches the pair is added to its reserves
      and, once the pool holds shares, the provider receives the largest share
      count that neither arrival undercuts at the old reserves and supply
      (the minimum of the two pro-rata counts); the supply grows by exactly
      that. */
  lemma AddLiquidityToExistingPair(reg: Factory.Registry, feeTokens: set<Token>, tokenA: Token, tokenB: Token,
                                   amountADesired: nat, amountBDesired: nat, amountAMin: nat, amountBMin: nat,
                                   added: Added)
    requires Factory.Valid(reg) && Factory.GetPair(reg, tokenA, tokenB).Some?
    requires AddLiquidity(reg, feeTokens, tokenA, tokenB, amountADesired, amountBDesired, amountAMin, amountBMin) == Ok(added)
    ensures Paths.PairId(reg, tokenA, tokenB).Ok? && |added.reg.pairs| == |reg.pairs|
    ensures var id := Paths.PairId(reg, tokenA, tokenB).value;
      var (p, q) := (reg.pairs[id], added.reg.pairs[id]);
      var (reserveA, reserveB) := Paths.GetReserves(reg, tokenA, tokenB).value;
      var (arrivedA, arrivedB) := (Delivered(feeTokens, tokenA, added.amountA), Delivered(feeTokens, tokenB, added.amountB));
      && (Pairs.Synced(p) ==>
            (if tokenA == q.token0 then (q.reserve0, q.reserve1) else (q.reserve1, q.reserve0))
              == (reserveA + arrivedA, reserveB + arrivedB))
      && (Pairs.Synced(p) && p.totalSupply > 0 ==>
            && Pairs.IsProRataShares(added.liquidity, arrivedA, arrivedB, reserveA, reserveB, p.totalSupply)
            && q.totalSupply == p.totalSupply + added.liquidity)
  {
    var funded := ExistingPairFunding(reg, feeTokens, tokenA, tokenB, amountADesired, amountBDesired,
                                      amountAMin, amountBMin, added);
    var id := Paths.PairId(reg, tokenA, tokenB).value;
    var p := reg.pairs[id];
    Factory.GetPairTokens(reg, tokenA, tokenB);
    assert tokenA != tokenB && {p.token0, p.token1} == {tokenA, tokenB};
    assert Paths.GetReserves(reg, tokenA, tokenB).value
        == if tokenA == p.token0 then (p.reserve0, p.reserve1) else (p.reserve1, p.reserve0);
    if Pairs.Synced(p) {
      Pairs.MintOfCredited(p, tokenA, tokenB, Delivered(feeTokens, tokenA, added.amountA),
                           Delivered(feeTokens, tokenB, added.amountB));
    }
  }

  /** The first half of `AddLiquidityToExistingPair`: a deposit into an
      existing pair credits what arrives of the chosen amounts to that pair and
      stores what it mints. */
  lemma ExistingPairFunding(reg: Factory.Registry, feeTokens: set<Token>, tokenA: Token, tokenB: Token,
                            amountADesired: nat, amountBDesired: nat, amountAMin: nat, amountBMin: nat,
                            added: Added)
    returns (funded: Pairs.Pair)
    requires Factory.GetPair(reg, tokenA, tokenB).Some?
    requires AddLiquidity(reg, feeTokens, tokenA, tokenB, amountADesired, amountBDesired, amountAMin, amountBMin) == Ok(added)
    ensures Paths.PairId(reg, tokenA, tokenB).Ok? && |added.reg.pairs| == |reg.pairs|
    ensures var id := Paths.PairId(reg, tokenA, tokenB).value;
      && funded == Pairs.Credit(Pairs.Credit(reg.pairs[id], tokenA, Delivered(feeTokens, tokenA, added.amountA)),
                                tokenB, Delivered(feeTokens, tokenB, added.amountB))
      && Pairs.Mint(funded).Ok?
      && added.reg.pairs[id] == Pairs.Mint(funded).value.pair
      && added.liquidity == Pairs.Mint(funded).value.liquidity
  {
    var id := Paths.PairId(reg, tokenA, tokenB).value;
    funded := Pairs.Credit(Pairs.Credit(reg.pairs[id], tokenA, Delivered(feeTokens, tokenA, added.amountA)),
                           tokenB, Delivered(feeTokens, tokenB, added.amountB));
  }

  /** Adding liquidity keeps the registry valid. */
  lemma AddLiquidityPreservesValid(reg: Factory.Registry, feeTokens: set<Token>, tokenA: Token, tokenB: Token,
                                   amountADesired: nat, amountBDesired: nat, amountAMin: nat, amountBMin: nat)
    requires Factory.Valid(reg)
    requires AddLiquidity(reg, feeTokens, tokenA, tokenB, amountADesired, amountBDesired, amountAMin, amountBMin).Ok?
    ensures Factory.Valid(AddLiquidity(reg, feeTokens, tokenA, tokenB, amountADesired, amountBDesired, amountAMin, amountBMin).value.reg)
  {
    var reg1 := if Factory.GetPair(reg, tokenA, tokenB).None? then Factory.CreatePair(reg, tokenA, tokenB).value.0 else reg;
    if Factory.GetPair(reg, tokenA, tokenB).None? {
      Factory.CreatePairPreservesValid(reg, tokenA, tokenB);
    }
    var id := Paths.PairId(reg1, tokenA, tokenB).value;
    var added := AddLiquidity(reg, feeTokens, tokenA, tokenB, amountADesired, amountBDesired, amountAMin, amountBMin).value;
    assert added.reg == Factory.WithPair(reg1, id, added.reg.pairs[id]);
    Factory.WithPairPreservesValid(reg1, id, added.reg.pairs[id]);
  }

  datatype Removed = Removed(reg: Factory.Registry, amountA: nat, amountB: nat, receivedA: nat, receivedB: nat)

  /** `removeLiquidity`: burns `liquidity` shares of the pair and has it pay
      both amounts straight to the recipient, reverting if either falls below
      its minimum. The minimums bound what the pair pays out, not what a
      fee-on-transfer token then delivers. */
  function RemoveLiquidity(reg: Factory.Registry, feeTokens: set<Token>, tokenA: Token, tokenB: Token,
                           liquidity: nat, amountAMin: nat, amountBMin: nat): (r: Result<Removed>)
    ensures r.Ok? ==> r.value.amountA >= amountAMin && r.value.amountB >= amountBMin
    ensures r.Ok? ==> r.value.amountA > 0 && r.value.amountB > 0
    ensures r.Ok? ==> r.value.receivedA == Delivered(feeTokens, tokenA, r.value.amountA)
    ensures r.Ok? ==> r.value.receivedB == Delivered(feeTokens, tokenB, r.value.amountB)
    ensures r.Ok? ==> Paths.PairId(reg, tokenA, tokenB).Ok? && |r.value.reg.pairs| == |reg.pairs|
    ensures r.Ok? ==>
      var id := Paths.PairId(reg, tokenA, tokenB).value;
      var (p, q) := (reg.pairs[id], r.value.reg.pairs[id]);
      && q.totalSupply + liquidity == p.totalSupply
      && (if tokenA == p.token0 then (q.reserve0 + r.value.amountA, q.reserve1 + r.value.amountB)
          else (q.reserve0 + r.value.amountB, q.reserve1 + r.value.amountA)) == (p.balance0, p.balance1)
    ensures r.Ok? ==>
      var p := reg.pairs[Paths.PairId(reg, tokenA, tokenB).value];
      var (balanceA, balanceB) := if tokenA == p.token0 then (p.balance0, p.balance1) else (p.balance1, p.balance0);
      && Pairs.IsProRataAmount(r.value.amountA, liquidity, balanceA, p.totalSupply)
      && Pairs.IsProRataAmount(r.value.amountB, liquidity, balanceB, p.totalSupply)
  {
    var id :- Paths.PairId(reg, tokenA, tokenB);
    var p := reg.pairs[id];
    var burned :- Pairs.Burn(p, liquidity);
    var (amountA, amountB) := if tokenA == p.token0 then (burned.amount0, burned.amount1)
                              else (burned.amount1, burned.amount0);
    :- Need(amountA >= amountAMin, InsufficientAAmount);
    :- Need(amountB >= amountBMin, InsufficientBAmount);
    Ok(Removed(Factory.WithPair(reg, id, burned.pair), amountA, amountB,
               Delivered(feeTokens, tokenA, amountA), Delivered(feeTokens, tokenB, amountB)))
  }

  /** Why `removeLiquidity` reverts on an existing pair: the pair's own burn
      failure is passed through unchanged, and otherwise the removal succeeds
      exactly when both rounded-down payouts meet their minimums, reverting
      with `InsufficientAAmount` first and `InsufficientBAmount` second. */
  lemma RemoveLiquidityOutcome(reg: Factory.Registry, feeTokens: set<Token>, tokenA: Token, tokenB: Token,
                               liquidity: nat, amountAMin: nat, amountBMin: nat)
    requires Paths.PairId(reg, tokenA, tokenB).Ok?
    ensures var p := reg.pairs[Paths.PairId(reg, tokenA, tokenB).value];
      var burned := Pairs.Burn(p, liquidity);
      var r := RemoveLiquidity(reg, feeTokens, tokenA, tokenB, liquidity, amountAMin, amountBMin);
      && (burned.Err? ==> r == Err(burned.error))
      && (burned.Ok? ==>
            var (balanceA, balanceB) := if tokenA == p.token0 then (p.balance0, p.balance1) else (p.balance1, p.balance0);
            var (amountA, amountB) := (liquidity * balanceA / p.totalSupply, liquidity * balanceB / p.totalSupply);
            && (r.Ok? <==> amountA >= amountAMin && amountB >= amountBMin)
            && (amountA < amountAMin ==> r == Err(InsufficientAAmount))
            && (amountA >= amountAMin && amountB < amountBMin ==> r == Err(InsufficientBAmount)))
  {
  }

  /** Removing liquidity keeps the registry valid. */
  lemma RemoveLiquidityPreservesValid(reg: Factory.Registry, feeTokens: set<Token>, tokenA: Token, tokenB: Token,
                                      liquidity: nat, amountAMin: nat, amountBMin: nat)
    requires Factory.Valid(reg) && RemoveLiquidity(reg, feeTokens, tokenA, tokenB, liquidity, amountAMin, amountBMin).Ok?
    ensures Factory.Valid(RemoveLiquidity(reg, feeTokens, tokenA, tokenB, liquidity, amountAMin, amountBMin).value.reg)
  {
    var id := Paths.PairId(reg, tokenA, tokenB).value;
    var removed := RemoveLiquidity(reg, feeTokens, tokenA, tokenB, liquidity, amountAMin, amountBMin).value;
    assert removed.reg == Factory.WithPair(reg, id, removed.reg.pairs[id]);
    Factory.WithPairPreservesValid(reg, id, removed.reg.pairs[id]);
  }

  /** `removeLiquidityETHSupportingFeeOnTransferTokens`: as `RemoveLiquidity`,
      but the pair pays the router, which then forwards everything it received
      to the recipient, so a fee-on-transfer token is charged twice. */
  function RemoveLiquidityThroughRouter(reg: Factory.Registry, feeTokens: set<Token>, tokenA: Token, tokenB: Token,
                                        liquidity: nat, amountAMin: nat, amountBMin: nat): (r: Result<Removed>)
    ensures r.Ok? <==> RemoveLiquidity(reg, feeTokens, tokenA, tokenB, liquidity, amountAMin, amountBMin).Ok?
    ensures r.Ok? ==>
      var direct := RemoveLiquidity(reg, feeTokens, tokenA, tokenB, liquidity, amountAMin, amountBMin).value;
      && r.value.reg == direct.reg && r.value.amountA == direct.amountA && r.value.amountB == direct.amountB
      && r.value.receivedA == Delivered(feeTokens, tokenA, direct.receivedA)
      && r.value.receivedB == Delivered(feeTokens, tokenB, direct.receivedB)
      && r.value.receivedA <= direct.receivedA && r.value.receivedB <= direct.receivedB
  {
    var removed :- RemoveLiquidity(reg, feeTokens, tokenA, tokenB, liquidity, amountAMin, amountBMin);
    Ok(removed.(receivedA := Delivered(feeTokens, tokenA, removed.receivedA),
                receivedB := Delivered(feeTokens, tokenB, removed.receivedB)))
  }

  // ---------------------------------------------------------------- swaps

  datatype Hopped = Hopped(reg: Factory.Registry, delivered: nat)

  /** The pair orientation for a trade from `input`: which of the pair's two
      outputs carries `amountOut`. */
  function Outputs(p: Pairs.Pair, input: Token, amountOut: nat): (r: (nat, nat))
    ensures r.0 + r.1 == amountOut
    ensures input == p.token0 ==> r.0 == 0
    ensures input != p.token0 ==> r.1 == 0
  {
    if input == p.token0 then (0, amountOut) else (amountOut, 0)
  }

  /** One hop of `_swap`: the pair for `input` and `output` pays `amountOut`
      of `output` to `next`. When `next` is another pair, that pair's held
      balance rises by what the transfer delivers; when it is the paying pair
      itself, the tokens come straight back. */
  function Hop(reg: Factory.Registry, feeTokens: set<Token>, input: Token, output: Token,
               amountOut: nat, next: Recipient): (r: Result<Hopped>)
    ensures r.Ok? ==> r.value.delivered == Delivered(feeTokens, output, amountOut)
    ensures r.Ok? ==> Paths.PairId(reg, input, output).Ok?
    ensures r.Ok? ==> |r.value.reg.pairs| == |reg.pairs| && r.value.reg.index == reg.index
    ensures r.Ok? ==>
      var id := Paths.PairId(reg, input, output).value;
      forall j | 0 <= j < |reg.pairs| && j != id && next != PairAt(j) :: r.value.reg.pairs[j] == reg.pairs[j]
  {
    var id :- Paths.PairId(reg, input, output);
    var p := reg.pairs[id];
    var delivered := Delivered(feeTokens, output, amountOut);
    var (amount0Out, amount1Out) := Outputs(p, input, amountOut);
    var (paid0, paid1) := Outputs(p, input, if next == PairAt(id) then delivered else 0);
    var q :- Pairs.Swap(p, amount0Out, amount1Out, next, paid0, paid1);
    var reg1 := Factory.WithPair(reg, id, q);
    var reg2 := if next.PairAt? && next.id != id && next.id < |reg1.pairs| then
                  Factory.WithPair(reg1, next.id, Pairs.Credit(reg1.pairs[next.id], output, delivered))
                else
                  reg1;
    Ok(Hopped(reg2, delivered))
  }

  /** Where hop `i` of `path` pays: the next hop's pair, or the recipient
      after the last hop. */
  function NextRecipient(reg: Factory.Registry, path: seq<Token>, i: nat, to: Address): (r: Result<Recipient>)
    requires i + 1 < |path|
    ensures i + 2 == |path| ==> r == Ok(Account(to))
    ensures i + 2 < |path| ==> (r.Ok? <==> Paths.PairId(reg, path[i + 1], path[i + 2]).Ok?)
    ensures i + 2 < |path| && r.Ok? ==> r.value == PairAt(Paths.PairId(reg, path[i + 1], path[i + 2]).value)
  {
    if i + 2 < |path| then
      var id :- Paths.PairId(reg, path[i + 1], path[i + 2]);
      Ok(PairAt(id))
    else
      Ok(Account(to))
  }

  /** `_swap`: hops `i` to the last along `path`, each paying the quoted
      `amounts[k + 1]`; the result carries what the recipient receives. */
  function Hops(reg: Factory.Registry, feeTokens: set<Token>, path: seq<Token>, amounts: seq<nat>,
                i: nat, to: Address): (r: Result<Hopped>)
    requires |amounts| == |path| && i + 1 < |path|
    ensures r.Ok? ==> r.value.delivered == Delivered(feeTokens, path[|path| - 1], amounts[|path| - 1])
    ensures r.Ok? ==> |r.value.reg.pairs| == |reg.pairs| && r.value.reg.index == reg.index
    decreases |path| - i
  {
    var next :- NextRecipient(reg, path, i, to);
    var hopped :- Hop(reg, feeTokens, path[i], path[i + 1], amounts[i + 1], next);
    if i + 2 == |path| then Ok(hopped) else Hops(hopped.reg, feeTokens, path, amounts, i + 1, to)
  }

  /** The caller's transfer of `amount` of `a` into the pair for `a` and `b`. */
  function PayIn(reg: Factory.Registry, feeTokens: set<Token>, a: Token, b: Token, amount: nat): (r: Result<Factory.Registry>)
    ensures r.Ok? <==> Paths.PairId(reg, a, b).Ok?
    ensures r.Ok? ==>
      var id := Paths.PairId(reg, a, b).value;
      r.value == Factory.WithPair(reg, id, Pairs.Credit(reg.pairs[id], a, Delivered(feeTokens, a, amount)))
  {
    var id :- Paths.PairId(reg, a, b);
    Ok(Factory.WithPair(reg, id, Pairs.Credit(reg.pairs[id], a, Delivered(feeTokens, a, amount))))
  }

  datatype Swapped = Swapped(reg: Factory.Registry, amounts: seq<nat>, received: nat)

  /** `swapExactTokensForTokens`: quotes `amountIn` forward along `path`,
      reverts if the final quote is below `amountOutMin`, then pays `amountIn`
      into the first pair and runs the hops. */
  function SwapExactTokensForTokens(reg: Factory.Registry, feeTokens: set<Token>, amountIn: nat, amountOutMin: nat,
                                    path: seq<Token>, to: Address): (r: Result<Swapped>)
    ensures r.Ok? ==> Paths.GetAmountsOut(reg, amountIn, path) == Ok(r.value.amounts)
    ensures r.Ok? ==> |path| >= 2 && r.value.amounts[|path| - 1] >= amountOutMin
    ensures r.Ok? ==> r.value.received == Delivered(feeTokens, path[|path| - 1], r.value.amounts[|path| - 1])
    ensures Paths.GetAmountsOut(reg, amountIn, path).Err? ==> r == Paths.GetAmountsOut(reg, amountIn, path).PropagateFailure()
    ensures Paths.GetAmountsOut(reg, amountIn, path).Ok? && Paths.GetAmountsOut(reg, amountIn, path).value[|path| - 1] < amountOutMin
      ==> r == Err(InsufficientOutputAmount)
  {
    var amounts :- Paths.GetAmountsOut(reg, amountIn, path);
    :- Need(amounts[|amounts| - 1] >= amountOutMin, InsufficientOutputAmount);
    var funded :- PayIn(reg, feeTokens, path[0], path[1], amounts[0]);
    var hopped :- Hops(funded, feeTokens, path, amounts, 0, to);
    Ok(Swapped(hopped.reg, amounts, hopped.delivered))
  }

  /** `swapTokensForExactTokens`: quotes `amountOut` backward along `path`,
      reverts if the required input exceeds `amountInMax`, then pays exactly
      that input into the first pair and runs the hops. */
  function SwapTokensForExactTokens(reg: Factory.Registry, feeTokens: set<Token>, amountOut: nat, amountInMax: nat,
                                    path: seq<Token>, to: Address): (r: Result<Swapped>)
    ensures r.Ok? ==> Paths.GetAmountsIn(reg, amountOut, path) == Ok(r.value.amounts)
    ensures r.Ok? ==> |path| >= 2 && r.value.amounts[0] <= amountInMax && r.value.amounts[|path| - 1] == amountOut
    ensures r.Ok? ==> r.value.received == Delivered(feeTokens, path[|path| - 1], amountOut)
    ensures Paths.GetAmountsIn(reg, amountOut, path).Err? ==> r == Paths.GetAmountsIn(reg, amountOut, path).PropagateFailure()
    ensures Paths.GetAmountsIn(reg, amountOut, path).Ok? && Paths.GetAmountsIn(reg, amountOut, path).value[0] > amountInMax
      ==> r == Err(ExcessiveInputAmount)
  {
    var amounts :- Paths.GetAmountsIn(reg, amountOut, path);
    :- Need(amounts[0] <= amountInMax, ExcessiveInputAmount);
    var funded :- PayIn(reg, feeTokens, path[0], path[1], amounts[0]);
    var hopped :- Hops(funded, feeTokens, path, amounts, 0, to);
    Ok(Swapped(hopped.reg, amounts, hopped.delivered))
  }

  /** What hop `input`→`output` measures as its input: the pair's held
      balance of `input` above its recorded reserve, and the reserves in trade
      direction. */
  function Measure(p: Pairs.Pair, input: Token): (r: Result<(nat, nat, nat)>)
    ensures r.Ok? ==>
      var (amountIn, reserveIn, reserveOut) := r.value;
      if input == p.token0 then p.balance0 == p.reserve0 + amountIn && (reserveIn, reserveOut) == (p.reserve0, p.reserve1)
      else p.balance1 == p.reserve1 + amountIn && (reserveIn, reserveOut) == (p.reserve1, p.reserve0)
    ensures r.Err? <==> (if input == p.token0 then p.balance0 < p.reserve0 else p.balance1 < p.reserve1)
  {
    var (balanceIn, reserveIn, reserveOut) := if input == p.token0 then (p.balance0, p.reserve0, p.reserve1)
                                              else (p.balance1, p.reserve1, p.reserve0);
    :- Need(balanceIn >= reserveIn, Underflow);
    Ok((balanceIn - reserveIn, reserveIn, reserveOut))
  }

  /** `_swapSupportingFeeOnTransferTokens`: like `Hops`, but each hop prices
      the input it measures at its pair rather than a precomputed quote. */
  function MeasuredHops(reg: Factory.Registry, feeTokens: set<Token>, path: seq<Token>, i: nat, to: Address): (r: Result<Hopped>)
    requires i + 1 < |path|
    ensures r.Ok? ==> |r.value.reg.pairs| == |reg.pairs| && r.value.reg.index == reg.index
    decreases |path| - i
  {
    var id :- Paths.PairId(reg, path[i], path[i + 1]);
    var (amountIn, reserveIn, reserveOut) :- Measure(reg.pairs[id], path[i]);
    var amountOut :- Library.GetAmountOut(amountIn, reserveIn, reserveOut);
    var next :- NextRecipient(reg, path, i, to);
    var hopped :- Hop(reg, feeTokens, path[i], path[i + 1], amountOut, next);
    if i + 2 == |path| then Ok(hopped) else MeasuredHops(hopped.reg, feeTokens, path, i + 1, to)
  }

  /** `swapExactTokensForTokensSupportingFeeOnTransferTokens`: pays `amountIn`
      into the first pair, runs the measured hops, and reverts unless the
      recipient received at least `amountOutMin`. It quotes nothing up front,
      so a path shorter than two tokens is not refused with `InvalidPath`: it
      panics on reading `path[1]`. */
  function SwapExactTokensForTokensSupportingFee(reg: Factory.Registry, feeTokens: set<Token>, amountIn: nat,
                                                 amountOutMin: nat, path: seq<Token>, to: Address): (r: Result<Hopped>)
    ensures |path| < 2 ==> r == Err(IndexOutOfBounds)
    ensures r.Ok? ==> r.value.delivered >= amountOutMin
  {
    if |path| < 2 then Err(IndexOutOfBounds) else
    var funded :- PayIn(reg, feeTokens, path[0], path[1], amountIn);
    var hopped :- MeasuredHops(funded, feeTokens, path, 0, to);
    :- Need(hopped.delivered >= amountOutMin, InsufficientOutputAmount);
    Ok(hopped)
  }
}
