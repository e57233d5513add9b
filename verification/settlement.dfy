/** Settlement of router swaps: a quoted multi-hop swap over distinct,
    synchronised pairs of plain tokens goes through, pays the recipient
    exactly the final quote, and leaves every pair on the path moved by
    exactly its hop's input and output.
 */
module Settlement {
  import opened Outcomes
  import opened Num
  import opened Tokens
  import Library
  import Pairs
  import Factory
  import Paths
  import Router

  /** `after` is pair `before` once a one-way trade of `amountIn` of `input`
      for `amountOut` of the other token has completed: the input reserve rose
      by `amountIn`, the output reserve fell by `amountOut`, and reserves and
      balances agree again. */
  ghost predicate Traded(before: Pairs.Pair, after: Pairs.Pair, input: Token, amountIn: nat, amountOut: nat) {
    && Pairs.Synced(after)
    && after.token0 == before.token0 && after.token1 == before.token1 && after.totalSupply == before.totalSupply
    && (if input == before.token0
        then after.reserve0 == before.reserve0 + amountIn && after.reserve1 + amountOut == before.reserve1
        else after.reserve1 == before.reserve1 + amountIn && after.reserve0 + amountOut == before.reserve0)
  }

  /** The pair that hop `k` of `path` trades through. */
  function HopPair(reg: Factory.Registry, path: seq<Token>, k: nat): (id: nat)
    requires k + 1 < |path| && Paths.PairId(reg, path[k], path[k + 1]).Ok?
    ensures id < |reg.pairs|
  {
    Paths.PairId(reg, path[k], path[k + 1]).value
  }

  /** Hop `k` can pay `amounts[k + 1]` out: its pair is synchronised, holds
      some of the input token and more than `amounts[k + 1]` of the output
      token, and its reserves still fit in 112 bits after `amounts[k]` arrives. */
  ghost predicate HopReady(reg: Factory.Registry, path: seq<Token>, amounts: seq<nat>, k: nat)
    requires k + 1 < |path| && |amounts| == |path|
  {
    && Paths.PairId(reg, path[k], path[k + 1]).Ok?
    && var p := reg.pairs[HopPair(reg, path, k)];
       var (reserveIn, reserveOut) := Paths.GetReserves(reg, path[k], path[k + 1]).value;
       && Pairs.Synced(p)
       && reserveIn > 0 && 0 < amounts[k + 1] < reserveOut
       && reserveIn + amounts[k] <= MAX_UINT112 && reserveOut <= MAX_UINT112
  }

  /** Hop `k` trading `amounts[k]` for `amounts[k + 1]` keeps the constant
      product of its pair. */
  ghost predicate HopKeeps(reg: Factory.Registry, path: seq<Token>, amounts: seq<nat>, k: nat)
    requires k + 1 < |path| && |amounts| == |path|
  {
    && Paths.GetReserves(reg, path[k], path[k + 1]).Ok?
    && var (reserveIn, reserveOut) := Paths.GetReserves(reg, path[k], path[k + 1]).value;
       Library.KeepsProduct(reserveIn, reserveOut, amounts[k], amounts[k + 1])
  }

  /** `path` can carry `amounts` to recipient `to`: every hop is ready, the
      hops use distinct pairs, no token on the path charges a transfer fee, and
      the recipient is not one of the last pair's tokens. */
  ghost predicate Routable(reg: Factory.Registry, feeTokens: set<Token>, path: seq<Token>, amounts: seq<nat>, to: Address) {
    && Factory.Valid(reg)
    && |path| >= 2 && |amounts| == |path|
    && (forall k: nat | k + 1 < |path| :: Paths.PairId(reg, path[k], path[k + 1]).Ok?)
    && (forall k: nat | k + 1 < |path| :: HopReady(reg, path, amounts, k))
    && (forall k: nat, l: nat | k < l && l + 1 < |path| :: HopPair(reg, path, k) != HopPair(reg, path, l))
    && (forall k | 0 <= k < |path| :: path[k] !in feeTokens)
    && to != path[|path| - 2] && to != path[|path| - 1]
  }

  /** `amounts` settles along `path`: the route can carry it and every hop
      keeps its pair's constant product. */
  ghost predicate Settles(reg: Factory.Registry, feeTokens: set<Token>, path: seq<Token>, amounts: seq<nat>, to: Address) {
    && Routable(reg, feeTokens, path, amounts, to)
    && forall k: nat | k + 1 < |path| :: HopKeeps(reg, path, amounts, k)
  }

  /** Pair `j` is traded by hop `i` or a later one. */
  ghost predicate OnPath(reg: Factory.Registry, path: seq<Token>, i: nat, j: nat)
    requires forall k: nat | k + 1 < |path| :: Paths.PairId(reg, path[k], path[k + 1]).Ok?
  {
    exists k: nat | i <= k && k + 1 < |path| :: HopPair(reg, path, k) == j
  }

  /** One hop at a product-keeping amount, after its input has arrived,
      succeeds and delivers the whole output to `next`. */
  lemma HopExecutes(reg: Factory.Registry, feeTokens: set<Token>, input: Token, output: Token, p: Pairs.Pair,
                    amountIn: nat, amountOut: nat, next: Recipient)
    requires Paths.PairId(reg, input, output).Ok?
    requires reg.pairs[Paths.PairId(reg, input, output).value] == Pairs.Credit(p, input, amountIn)
    requires next != PairAt(Paths.PairId(reg, input, output).value)
    requires p.token0 != p.token1 && {p.token0, p.token1} == {input, output}
    requires Pairs.Synced(p)
    requires var (reserveIn, reserveOut) := if input == p.token0 then (p.reserve0, p.reserve1) else (p.reserve1, p.reserve0);
      && reserveIn > 0 && 0 < amountOut < reserveOut
      && Library.KeepsProduct(reserveIn, reserveOut, amountIn, amountOut)
      && reserveIn + amountIn <= MAX_UINT112 && reserveOut <= MAX_UINT112
    requires output !in feeTokens
    requires next.PairAt? ==> next.id < |reg.pairs|
    requires next.Account? ==> next.addr != input && next.addr != output
    ensures var r := Router.Hop(reg, feeTokens, input, output, amountOut, next);
      var id := Paths.PairId(reg, input, output).value;
      && r.Ok? && r.value.delivered == amountOut
      && Traded(p, r.value.reg.pairs[id], input, amountIn, amountOut)
      && (next.PairAt? ==> r.value.reg.pairs[next.id] == Pairs.Credit(reg.pairs[next.id], output, amountOut))
  {
    var id := Paths.PairId(reg, input, output).value;
    var q := reg.pairs[id];
    if input == p.token0 {
      assert q == p.(balance0 := p.balance0 + amountIn);
      Pairs.SwapAcceptsExactlyKeptTrades(p, amountIn, amountOut, next);
      var s := Pairs.Swap(q, 0, amountOut, next, 0, 0);
      assert s.Ok? && Traded(p, s.value, input, amountIn, amountOut);
    } else {
      assert q == p.(balance1 := p.balance1 + amountIn);
      var f := Pairs.Flip(p);
      Pairs.SwapAcceptsExactlyKeptTrades(f, amountIn, amountOut, next);
      assert Pairs.Flip(q) == f.(balance0 := f.balance0 + amountIn);
      Pairs.SwapSymmetric(q, amountOut, 0, next, 0, 0);
      var s := Pairs.Swap(q, amountOut, 0, next, 0, 0);
      assert s.Ok? && Traded(p, s.value, input, amountIn, amountOut);
    }
  }

  /** Hop `i` of a settling swap, once its input has arrived: it goes
      through, trades its own pair, credits the next hop's pair with the whole
      output, and leaves every other pair alone; `Hops` from `i` continues
      from its result. */
  lemma HopStep(reg0: Factory.Registry, reg: Factory.Registry, feeTokens: set<Token>,
                path: seq<Token>, amounts: seq<nat>, i: nat, to: Address) returns (h: Router.Hopped)
    requires i + 1 < |path| && |amounts| == |path|
    requires HopReady(reg0, path, amounts, i) && HopKeeps(reg0, path, amounts, i)
    requires var p := reg0.pairs[HopPair(reg0, path, i)];
      p.token0 != p.token1 && {p.token0, p.token1} == {path[i], path[i + 1]}
    requires i + 2 < |path| ==>
      && Paths.PairId(reg0, path[i + 1], path[i + 2]).Ok?
      && Paths.PairId(reg0, path[i], path[i + 1]) != Paths.PairId(reg0, path[i + 1], path[i + 2])
    requires path[i + 1] !in feeTokens
    requires i + 2 == |path| ==> to != path[i] && to != path[i + 1]
    requires |reg.pairs| == |reg0.pairs| && reg.index == reg0.index
    requires reg.pairs[HopPair(reg0, path, i)] == Pairs.Credit(reg0.pairs[HopPair(reg0, path, i)], path[i], amounts[i])
    ensures Router.NextRecipient(reg, path, i, to).Ok?
    ensures Router.Hop(reg, feeTokens, path[i], path[i + 1], amounts[i + 1], Router.NextRecipient(reg, path, i, to).value) == Ok(h)
    ensures Router.Hops(reg, feeTokens, path, amounts, i, to)
              == if i + 2 == |path| then Ok(h) else Router.Hops(h.reg, feeTokens, path, amounts, i + 1, to)
    ensures h.delivered == amounts[i + 1]
    ensures |h.reg.pairs| == |reg.pairs| && h.reg.index == reg.index
    ensures Traded(reg0.pairs[HopPair(reg0, path, i)], h.reg.pairs[HopPair(reg0, path, i)],
                   path[i], amounts[i], amounts[i + 1])
    ensures i + 2 < |path| ==>
      h.reg.pairs[HopPair(reg0, path, i + 1)] == Pairs.Credit(reg.pairs[HopPair(reg0, path, i + 1)], path[i + 1], amounts[i + 1])
    ensures forall j | 0 <= j < |reg.pairs| && j != HopPair(reg0, path, i)
                       && (i + 2 < |path| ==> j != HopPair(reg0, path, i + 1)) ::
              h.reg.pairs[j] == reg.pairs[j]
  {
    var n := |path|;
    var id := HopPair(reg0, path, i);
    var p := reg0.pairs[id];
    var next := Router.NextRecipient(reg, path, i, to).value;
    if i + 2 < n {
      assert next == PairAt(HopPair(reg0, path, i + 1));
    }
    HopExecutes(reg, feeTokens, path[i], path[i + 1], p, amounts[i], amounts[i + 1], next);
    h := Router.Hop(reg, feeTokens, path[i], path[i + 1], amounts[i + 1], next).value;
  }

  /** A pair traded by hop `i` or later is traded by hop `i` or by hop
      `i + 1` or later. */
  lemma OnPathStep(reg: Factory.Registry, path: seq<Token>, i: nat, j: nat)
    requires forall k: nat | k + 1 < |path| :: Paths.PairId(reg, path[k], path[k + 1]).Ok?
    requires i + 1 < |path|
    ensures OnPath(reg, path, i, j) <==> HopPair(reg, path, i) == j || OnPath(reg, path, i + 1, j)
  {
    if OnPath(reg, path, i, j) && HopPair(reg, path, i) != j {
      var k: nat :| i <= k && k + 1 < |path| && HopPair(reg, path, k) == j;
      assert OnPath(reg, path, i + 1, j);
    }
    if HopPair(reg, path, i) == j {
      assert OnPath(reg, path, i, j);
    }
    if OnPath(reg, path, i + 1, j) {
      var k: nat :| i + 1 <= k && k + 1 < |path| && HopPair(reg, path, k) == j;
      assert OnPath(reg, path, i, j);
    }
  }

  /** On a route of distinct pairs, hop `i`'s pair is not traded again later. */
  lemma NotOnPathLater(reg: Factory.Registry, feeTokens: set<Token>, path: seq<Token>, amounts: seq<nat>, i: nat, to: Address)
    requires Routable(reg, feeTokens, path, amounts, to)
    requires i + 1 < |path|
    ensures !OnPath(reg, path, i + 1, HopPair(reg, path, i))
  {
    forall k: nat | i + 1 <= k && k + 1 < |path|
      ensures HopPair(reg, path, k) != HopPair(reg, path, i)
    {
      assert HopPair(reg, path, i) != HopPair(reg, path, k);
    }
  }

  /** Hop `i` touches only its own pair and the next hop's, so on a route of
      distinct pairs the pairs of hops after `i + 1` are still untouched. */
  lemma LaterPairsUntouched(reg0: Factory.Registry, reg: Factory.Registry, after: Factory.Registry, path: seq<Token>, i: nat)
    requires i + 2 < |path|
    requires forall k: nat | k + 1 < |path| :: Paths.PairId(reg0, path[k], path[k + 1]).Ok?
    requires forall k: nat, l: nat | k < l && l + 1 < |path| :: HopPair(reg0, path, k) != HopPair(reg0, path, l)
    requires |reg.pairs| == |reg0.pairs| && |after.pairs| == |reg0.pairs|
    requires forall j | 0 <= j < |reg.pairs| && j != HopPair(reg0, path, i) && j != HopPair(reg0, path, i + 1) ::
      after.pairs[j] == reg.pairs[j]
    requires forall k: nat | i < k && k + 1 < |path| :: reg.pairs[HopPair(reg0, path, k)] == reg0.pairs[HopPair(reg0, path, k)]
    ensures forall k: nat | i + 1 < k && k + 1 < |path| :: after.pairs[HopPair(reg0, path, k)] == reg0.pairs[HopPair(reg0, path, k)]
  {
    forall k: nat | i + 1 < k && k + 1 < |path|
      ensures after.pairs[HopPair(reg0, path, k)] == reg0.pairs[HopPair(reg0, path, k)]
    {
      assert HopPair(reg0, path, i) != HopPair(reg0, path, k);
      assert HopPair(reg0, path, i + 1) != HopPair(reg0, path, k);
    }
  }

  /** Hop `i`'s trade survives the later hops when they leave its pair alone. */
  lemma TradedThrough(reg0: Factory.Registry, after: Factory.Registry, final: Factory.Registry,
                      path: seq<Token>, amounts: seq<nat>, i: nat)
    requires i + 1 < |path| && |amounts| == |path|
    requires forall k: nat | k + 1 < |path| :: Paths.PairId(reg0, path[k], path[k + 1]).Ok?
    requires |after.pairs| == |reg0.pairs| && |final.pairs| == |reg0.pairs|
    requires Traded(reg0.pairs[HopPair(reg0, path, i)], after.pairs[HopPair(reg0, path, i)], path[i], amounts[i], amounts[i + 1])
    requires final.pairs[HopPair(reg0, path, i)] == after.pairs[HopPair(reg0, path, i)]
    requires forall k: nat | i + 1 <= k && k + 1 < |path| ::
      Traded(reg0.pairs[HopPair(reg0, path, k)], final.pairs[HopPair(reg0, path, k)], path[k], amounts[k], amounts[k + 1])
    ensures forall k: nat | i <= k && k + 1 < |path| ::
      Traded(reg0.pairs[HopPair(reg0, path, k)], final.pairs[HopPair(reg0, path, k)], path[k], amounts[k], amounts[k + 1])
  {
  }

  /** A pair off the route from hop `i` on is left alone by hop `i` and by
      the hops after it. */
  lemma UntouchedOffPath(reg0: Factory.Registry, reg: Factory.Registry, after: Factory.Registry, final: Factory.Registry,
                         path: seq<Token>, i: nat)
    requires i + 1 < |path|
    requires forall k: nat | k + 1 < |path| :: Paths.PairId(reg0, path[k], path[k + 1]).Ok?
    requires |after.pairs| == |reg.pairs| && |final.pairs| == |reg.pairs|
    requires forall j | 0 <= j < |reg.pairs| && j != HopPair(reg0, path, i)
                        && (i + 2 < |path| ==> j != HopPair(reg0, path, i + 1)) ::
      after.pairs[j] == reg.pairs[j]
    requires i + 2 < |path| ==> forall j | 0 <= j < |after.pairs| && !OnPath(reg0, path, i + 1, j) :: final.pairs[j] == after.pairs[j]
    requires i + 2 == |path| ==> final == after
    ensures forall j | 0 <= j < |reg.pairs| && !OnPath(reg0, path, i, j) :: final.pairs[j] == reg.pairs[j]
  {
    if i + 2 < |path| {
      OnPathStep(reg0, path, i + 1, HopPair(reg0, path, i + 1));
    }
    forall j | 0 <= j < |reg.pairs| && !OnPath(reg0, path, i, j)
      ensures final.pairs[j] == reg.pairs[j]
    {
      OnPathStep(reg0, path, i, j);
      if i + 2 < |path| {
        OnPathStep(reg0, path, i + 1, j);
      }
    }
  }

  /** Hops `i` onwards of a settling swap all go through, once hop `i`'s
      input has arrived at its pair and the later pairs are as they were: each
      pair on the path ends traded by exactly its hop's amounts, the recipient
      gets the final amount, and no other pair changes. */
  lemma {:induction false} HopsExecute(reg0: Factory.Registry, reg: Factory.Registry, feeTokens: set<Token>,
                                       path: seq<Token>, amounts: seq<nat>, i: nat, to: Address)
    requires Settles(reg0, feeTokens, path, amounts, to)
    requires i + 1 < |path|
    requires |reg.pairs| == |reg0.pairs| && reg.index == reg0.index
    requires reg.pairs[HopPair(reg0, path, i)] == Pairs.Credit(reg0.pairs[HopPair(reg0, path, i)], path[i], amounts[i])
    requires forall k: nat | i < k && k + 1 < |path| :: reg.pairs[HopPair(reg0, path, k)] == reg0.pairs[HopPair(reg0, path, k)]
    ensures var r := Router.Hops(reg, feeTokens, path, amounts, i, to);
      && r.Ok? && r.value.delivered == amounts[|path| - 1]
      && (forall k: nat | i <= k && k + 1 < |path| ::
            Traded(reg0.pairs[HopPair(reg0, path, k)], r.value.reg.pairs[HopPair(reg0, path, k)],
                   path[k], amounts[k], amounts[k + 1]))
      && (forall j | 0 <= j < |reg.pairs| && !OnPath(reg0, path, i, j) :: r.value.reg.pairs[j] == reg.pairs[j])
    decreases |path| - i
  {
    var n := |path|;
    var id := HopPair(reg0, path, i);
    assert HopReady(reg0, path, amounts, i) && HopKeeps(reg0, path, amounts, i);
    Factory.GetPairTokens(reg0, path[i], path[i + 1]);
    if i + 2 < n {
      assert Paths.PairId(reg0, path[i + 1], path[i + 2]).Ok?;
      assert HopPair(reg0, path, i) != HopPair(reg0, path, i + 1);
    }
    var h := HopStep(reg0, reg, feeTokens, path, amounts, i, to);
    if i + 2 < n {
      LaterPairsUntouched(reg0, reg, h.reg, path, i);
      HopsExecute(reg0, h.reg, feeTokens, path, amounts, i + 1, to);
      NotOnPathLater(reg0, feeTokens, path, amounts, i, to);
      var r := Router.Hops(h.reg, feeTokens, path, amounts, i + 1, to).value;
      TradedThrough(reg0, h.reg, r.reg, path, amounts, i);
      UntouchedOffPath(reg0, reg, h.reg, r.reg, path, i);
    } else {
      TradedThrough(reg0, h.reg, h.reg, path, amounts, i);
      UntouchedOffPath(reg0, reg, h.reg, h.reg, path, i);
    }
  }

  /** A settling quote, once paid into the first pair, runs to completion:
      the recipient gets the last amount, each pair on the path is traded by
      its hop's amounts, and every other pair is as it was. */
  lemma QuotedSwapSettles(reg: Factory.Registry, feeTokens: set<Token>, path: seq<Token>, amounts: seq<nat>, to: Address)
    requires Settles(reg, feeTokens, path, amounts, to)
    ensures var funded := Router.PayIn(reg, feeTokens, path[0], path[1], amounts[0]);
      && funded.Ok?
      && var r := Router.Hops(funded.value, feeTokens, path, amounts, 0, to);
         && r.Ok? && r.value.delivered == amounts[|path| - 1]
         && (forall k: nat | k + 1 < |path| ::
               Traded(reg.pairs[HopPair(reg, path, k)], r.value.reg.pairs[HopPair(reg, path, k)],
                      path[k], amounts[k], amounts[k + 1]))
         && (forall j | 0 <= j < |reg.pairs| && !OnPath(reg, path, 0, j) :: r.value.reg.pairs[j] == reg.pairs[j])
  {
    var id := HopPair(reg, path, 0);
    var funded := Router.PayIn(reg, feeTokens, path[0], path[1], amounts[0]).value;
    assert Delivered(feeTokens, path[0], amounts[0]) == amounts[0] by {
      assert path[0] !in feeTokens;
    }
    forall k: nat | 0 < k && k + 1 < |path|
      ensures funded.pairs[HopPair(reg, path, k)] == reg.pairs[HopPair(reg, path, k)]
    {
      assert HopPair(reg, path, 0) != HopPair(reg, path, k);
    }
    HopsExecute(reg, funded, feeTokens, path, amounts, 0, to);
    var r := Router.Hops(funded, feeTokens, path, amounts, 0, to).value;
    forall j | 0 <= j < |reg.pairs| && !OnPath(reg, path, 0, j)
      ensures r.reg.pairs[j] == reg.pairs[j]
    {
      OnPathStep(reg, path, 0, j);
    }
  }

  /** A hop priced by `GetAmountOut` keeps its pair's product. */
  lemma OutHopKeeps(reg: Factory.Registry, path: seq<Token>, amounts: seq<nat>, k: nat)
    requires k + 1 < |path| && |amounts| == |path|
    requires Paths.OutHop(reg, path, amounts, k)
    ensures HopKeeps(reg, path, amounts, k)
  {
  }

  /** A hop priced by `GetAmountIn` keeps its pair's product. */
  lemma InHopKeeps(reg: Factory.Registry, path: seq<Token>, amounts: seq<nat>, k: nat)
    requires k + 1 < |path| && |amounts| == |path|
    requires Paths.InHop(reg, path, amounts, k)
    ensures HopKeeps(reg, path, amounts, k)
  {
  }

  /** Once the quote clears `amountOutMin` and the first pair is found,
      `swapExactTokensForTokens` is the hops run from the funded registry. */
  lemma SwapExactTokensForTokensRuns(reg: Factory.Registry, feeTokens: set<Token>, amountIn: nat, amountOutMin: nat,
                                     path: seq<Token>, to: Address)
    requires Paths.GetAmountsOut(reg, amountIn, path).Ok?
    requires var amounts := Paths.GetAmountsOut(reg, amountIn, path).value;
      && amounts[|path| - 1] >= amountOutMin
      && Router.PayIn(reg, feeTokens, path[0], path[1], amounts[0]).Ok?
    ensures var amounts := Paths.GetAmountsOut(reg, amountIn, path).value;
      var funded := Router.PayIn(reg, feeTokens, path[0], path[1], amounts[0]).value;
      var r := Router.SwapExactTokensForTokens(reg, feeTokens, amountIn, amountOutMin, path, to);
      && (r.Ok? <==> Router.Hops(funded, feeTokens, path, amounts, 0, to).Ok?)
      && (r.Ok? ==> var h := Router.Hops(funded, feeTokens, path, amounts, 0, to).value;
                    r.value == Router.Swapped(h.reg, amounts, h.delivered))
  {
  }

  /** `swapExactTokensForTokens` over a routable path settles: it succeeds,
      pays the recipient the final forward quote, and trades every pair on
      the path by exactly its quoted amounts and no other pair. */
  lemma SwapExactTokensForTokensSettles(reg: Factory.Registry, feeTokens: set<Token>, amountIn: nat, amountOutMin: nat,
                                        path: seq<Token>, to: Address)
    requires Paths.GetAmountsOut(reg, amountIn, path).Ok?
    requires var amounts := Paths.GetAmountsOut(reg, amountIn, path).value;
      Routable(reg, feeTokens, path, amounts, to) && amounts[|path| - 1] >= amountOutMin
    ensures var amounts := Paths.GetAmountsOut(reg, amountIn, path).value;
      var r := Router.SwapExactTokensForTokens(reg, feeTokens, amountIn, amountOutMin, path, to);
      && r.Ok? && r.value.amounts == amounts && r.value.received == amounts[|path| - 1]
      && (forall k: nat | k + 1 < |path| ::
            Traded(reg.pairs[HopPair(reg, path, k)], r.value.reg.pairs[HopPair(reg, path, k)],
                   path[k], amounts[k], amounts[k + 1]))
      && (forall j | 0 <= j < |reg.pairs| && !OnPath(reg, path, 0, j) :: r.value.reg.pairs[j] == reg.pairs[j])
  {
    var amounts := Paths.GetAmountsOut(reg, amountIn, path).value;
    Paths.GetAmountsOutChains(reg, amountIn, path, amounts);
    forall k: nat | k + 1 < |path|
      ensures HopKeeps(reg, path, amounts, k)
    {
      OutHopKeeps(reg, path, amounts, k);
    }
    QuotedSwapSettles(reg, feeTokens, path, amounts, to);
    SwapExactTokensForTokensRuns(reg, feeTokens, amountIn, amountOutMin, path, to);
  }

  /** `swapTokensForExactTokens` over a routable path settles: it succeeds
      when the backward quote is within `amountInMax`, charges exactly the
      quoted input, pays the recipient exactly `amountOut`, and trades every
      pair on the path by its quoted amounts and no other pair. */
  lemma SwapTokensForExactTokensSettles(reg: Factory.Registry, feeTokens: set<Token>, amountOut: nat, amountInMax: nat,
                                        path: seq<Token>, to: Address)
    requires Paths.GetAmountsIn(reg, amountOut, path).Ok?
    requires var amounts := Paths.GetAmountsIn(reg, amountOut, path).value;
      Routable(reg, feeTokens, path, amounts, to) && amounts[0] <= amountInMax
    ensures var amounts := Paths.GetAmountsIn(reg, amountOut, path).value;
      var r := Router.SwapTokensForExactTokens(reg, feeTokens, amountOut, amountInMax, path, to);
      && r.Ok? && r.value.amounts == amounts && r.value.received == amountOut
      && (forall k: nat | k + 1 < |path| ::
            Traded(reg.pairs[HopPair(reg, path, k)], r.value.reg.pairs[HopPair(reg, path, k)],
                   path[k], amounts[k], amounts[k + 1]))
      && (forall j | 0 <= j < |reg.pairs| && !OnPath(reg, path, 0, j) :: r.value.reg.pairs[j] == reg.pairs[j])
  {
    var amounts := Paths.GetAmountsIn(reg, amountOut, path).value;
    Paths.GetAmountsInChains(reg, amountOut, path, amounts);
    forall k: nat | k + 1 < |path|
      ensures HopKeeps(reg, path, amounts, k)
    {
      InHopKeeps(reg, path, amounts, k);
    }
    QuotedSwapSettles(reg, feeTokens, path, amounts, to);
  }
}
