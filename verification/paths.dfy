/** Multi-hop pricing over a path of tokens: the router library's
    `getReserves`, `getAmountsOut` and `getAmountsIn`.

    A path `[t0, t1, ..., tn]` trades through the pairs `(t0, t1)`, `(t1, t2)`,
    and so on; `amounts[i]` is the amount of `path[i]` moved along it.
 */
module Paths {
  import opened Outcomes
  import opened Tokens
  import Library
  import Factory

  /** The pair for `a` and `b`, as the router finds it: naming two equal
      tokens or the zero address reverts as the token sort does, and a pair
      that was never created cannot be used. */
  function PairId(reg: Factory.Registry, a: Token, b: Token): (r: Result<nat>)
    ensures a == b ==> r == Err(IdenticalAddresses)
    ensures a != b && (a == ZERO_ADDRESS || b == ZERO_ADDRESS) ==> r == Err(ZeroAddress)
    ensures r.Ok? <==> a != b && a != ZERO_ADDRESS && b != ZERO_ADDRESS
                       && Factory.GetPair(reg, a, b).Some? && Factory.GetPair(reg, a, b).value < |reg.pairs|
    ensures r.Ok? ==> r.value == Factory.GetPair(reg, a, b).value && r.value < |reg.pairs|
    ensures r.Err? && a != b && a != ZERO_ADDRESS && b != ZERO_ADDRESS ==> r == Err(PairMissing)
  {
    if a == b then Err(IdenticalAddresses) else
    :- Need(a != ZERO_ADDRESS && b != ZERO_ADDRESS, ZeroAddress);
    match Factory.GetPair(reg, a, b)
    case None => Err(PairMissing)
    case Some(id) =>
      :- Need(id < |reg.pairs|, PairMissing);
      Ok(id)
  }

  /** The reserves of the pair for `a` and `b`, ordered as `(reserve of a,
      reserve of b)`. */
  function GetReserves(reg: Factory.Registry, a: Token, b: Token): (r: Result<(nat, nat)>)
    ensures r.Ok? <==> PairId(reg, a, b).Ok?
    ensures r.Err? ==> r.error == PairId(reg, a, b).error
    ensures r.Ok? ==>
      var p := reg.pairs[PairId(reg, a, b).value];
      r.value == if a == p.token0 then (p.reserve0, p.reserve1) else (p.reserve1, p.reserve0)
  {
    var id :- PairId(reg, a, b);
    var p := reg.pairs[id];
    Ok(if a == p.token0 then (p.reserve0, p.reserve1) else (p.reserve1, p.reserve0))
  }

  /** In a valid registry, the reserves read in the opposite direction are the
      same two numbers, exchanged. */
  lemma GetReservesSymmetric(reg: Factory.Registry, a: Token, b: Token)
    requires Factory.Valid(reg)
    ensures var r := GetReserves(reg, a, b);
      var s := GetReserves(reg, b, a);
      (r.Ok? <==> s.Ok?) && (r.Ok? ==> s.value == (r.value.1, r.value.0))
  {
    Factory.GetPairSymmetric(reg, a, b);
    if GetReserves(reg, a, b).Ok? {
      Factory.GetPairTokens(reg, a, b);
    }
  }

  /** Hop `i` of `path` (from `path[i]` to `path[i + 1]`) prices `amounts[i]`
      in to `amounts[i + 1]` out with `GetAmountOut`. */
  predicate OutHop(reg: Factory.Registry, path: seq<Token>, amounts: seq<nat>, i: nat)
    requires i + 1 < |path| && |amounts| == |path|
  {
    && GetReserves(reg, path[i], path[i + 1]).Ok?
    && var (reserveIn, reserveOut) := GetReserves(reg, path[i], path[i + 1]).value;
       Library.GetAmountOut(amounts[i], reserveIn, reserveOut) == Ok(amounts[i + 1])
  }

  /** Hop `i` of `path` prices `amounts[i + 1]` out at `amounts[i]` in with
      `GetAmountIn`. */
  predicate InHop(reg: Factory.Registry, path: seq<Token>, amounts: seq<nat>, i: nat)
    requires i + 1 < |path| && |amounts| == |path|
  {
    && GetReserves(reg, path[i], path[i + 1]).Ok?
    && var (reserveIn, reserveOut) := GetReserves(reg, path[i], path[i + 1]).value;
       Library.GetAmountIn(amounts[i + 1], reserveIn, reserveOut) == Ok(amounts[i])
  }

  /** `amounts` is a forward quote of `amountIn` along `path`. */
  predicate IsAmountsOut(reg: Factory.Registry, amountIn: nat, path: seq<Token>, amounts: seq<nat>) {
    && |path| >= 2 && |amounts| == |path| && amounts[0] == amountIn
    && forall i: nat | i + 1 < |path| :: OutHop(reg, path, amounts, i)
  }

  /** `amounts` is a backward quote of `amountOut` along `path`. */
  predicate IsAmountsIn(reg: Factory.Registry, amountOut: nat, path: seq<Token>, amounts: seq<nat>) {
    && |path| >= 2 && |amounts| == |path| && amounts[|amounts| - 1] == amountOut
    && forall i: nat | i + 1 < |path| :: InHop(reg, path, amounts, i)
  }

  /** `getAmountsOut`: a forward sweep; each hop's output is the next hop's
      input, and the first failing hop's error is the result. */
  function GetAmountsOut(reg: Factory.Registry, amountIn: nat, path: seq<Token>): (r: Result<seq<nat>>)
    ensures |path| < 2 ==> r == Err(InvalidPath)
    ensures r.Ok? ==> |r.value| == |path| && r.value[0] == amountIn
    decreases |path|
  {
    if |path| < 2 then Err(InvalidPath) else
    var (reserveIn, reserveOut) :- GetReserves(reg, path[0], path[1]);
    var out :- Library.GetAmountOut(amountIn, reserveIn, reserveOut);
    if |path| == 2 then
      Ok([amountIn, out])
    else
      var rest :- GetAmountsOut(reg, out, path[1..]);
      Ok([amountIn] + rest)
  }

  /** `getAmountsIn`: a backward sweep from the last hop to the first; each
      hop's required input is the previous hop's output. */
  function GetAmountsIn(reg: Factory.Registry, amountOut: nat, path: seq<Token>): (r: Result<seq<nat>>)
    ensures |path| < 2 ==> r == Err(InvalidPath)
    ensures r.Ok? ==> |r.value| == |path| && r.value[|path| - 1] == amountOut
    decreases |path|
  {
    if |path| < 2 then Err(InvalidPath) else
    var n := |path|;
    var (reserveIn, reserveOut) :- GetReserves(reg, path[n - 2], path[n - 1]);
    var need :- Library.GetAmountIn(amountOut, reserveIn, reserveOut);
    if n == 2 then
      Ok([need, amountOut])
    else
      var rest :- GetAmountsIn(reg, need, path[..n - 1]);
      Ok(rest + [amountOut])
  }

  /** The forward sweep succeeds exactly with the amounts that chain
      `GetAmountOut` hop by hop. */
  lemma {:induction false} GetAmountsOutChains(reg: Factory.Registry, amountIn: nat, path: seq<Token>, amounts: seq<nat>)
    ensures GetAmountsOut(reg, amountIn, path) == Ok(amounts) <==> IsAmountsOut(reg, amountIn, path, amounts)
    decreases |path|
  {
    if |path| < 2 {
      return;
    }
    if GetAmountsOut(reg, amountIn, path) == Ok(amounts) {
      var (reserveIn, reserveOut) := GetReserves(reg, path[0], path[1]).value;
      var out := Library.GetAmountOut(amountIn, reserveIn, reserveOut).value;
      assert OutHop(reg, path, amounts, 0);
      if |path| > 2 {
        var rest := GetAmountsOut(reg, out, path[1..]).value;
        assert amounts == [amountIn] + rest;
        GetAmountsOutChains(reg, out, path[1..], rest);
        forall i: nat | i + 1 < |path|
          ensures OutHop(reg, path, amounts, i)
        {
          if i > 0 {
            assert OutHop(reg, path[1..], rest, i - 1);
          }
        }
      }
    }
    if IsAmountsOut(reg, amountIn, path, amounts) {
      assert OutHop(reg, path, amounts, 0);
      var (reserveIn, reserveOut) := GetReserves(reg, path[0], path[1]).value;
      var out := amounts[1];
      assert Library.GetAmountOut(amountIn, reserveIn, reserveOut) == Ok(out);
      if |path| == 2 {
        assert amounts == [amountIn, out];
      } else {
        var rest := amounts[1..];
        forall i: nat | i + 1 < |path[1..]|
          ensures OutHop(reg, path[1..], rest, i)
        {
          assert OutHop(reg, path, amounts, i + 1);
        }
        GetAmountsOutChains(reg, out, path[1..], rest);
        assert amounts == [amountIn] + rest;
      }
    }
  }

  /** The backward sweep succeeds exactly with the amounts that chain
      `GetAmountIn` hop by hop. */
  lemma {:induction false} GetAmountsInChains(reg: Factory.Registry, amountOut: nat, path: seq<Token>, amounts: seq<nat>)
    ensures GetAmountsIn(reg, amountOut, path) == Ok(amounts) <==> IsAmountsIn(reg, amountOut, path, amounts)
    decreases |path|
  {
    if |path| < 2 {
      return;
    }
    var n := |path|;
    if GetAmountsIn(reg, amountOut, path) == Ok(amounts) {
      var (reserveIn, reserveOut) := GetReserves(reg, path[n - 2], path[n - 1]).value;
      var need := Library.GetAmountIn(amountOut, reserveIn, reserveOut).value;
      assert InHop(reg, path, amounts, n - 2);
      if n > 2 {
        var rest := GetAmountsIn(reg, need, path[..n - 1]).value;
        assert amounts == rest + [amountOut];
        GetAmountsInChains(reg, need, path[..n - 1], rest);
        forall i: nat | i + 1 < n
          ensures InHop(reg, path, amounts, i)
        {
          if i < n - 2 {
            assert InHop(reg, path[..n - 1], rest, i);
          }
        }
      }
    }
    if IsAmountsIn(reg, amountOut, path, amounts) {
      assert InHop(reg, path, amounts, n - 2);
      var (reserveIn, reserveOut) := GetReserves(reg, path[n - 2], path[n - 1]).value;
      var need := amounts[n - 2];
      assert Library.GetAmountIn(amountOut, reserveIn, reserveOut) == Ok(need);
      if n == 2 {
        assert amounts == [need, amountOut];
      } else {
        var prefix, rest := path[..n - 1], amounts[..n - 1];
        forall i: nat | i + 1 < |prefix|
          ensures InHop(reg, prefix, rest, i)
        {
          assert InHop(reg, path, amounts, i);
        }
        GetAmountsInChains(reg, need, prefix, rest);
        assert amounts == rest + [amountOut];
      }
    }
  }
}
