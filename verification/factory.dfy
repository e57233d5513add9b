/** The factory: the registry of pairs, one per unordered pair of tokens, and
    the two addresses that govern the protocol fee.

    A pair is named by its position in `pairs` (the factory's `allPairs`
    list); `index` maps both orderings of its two tokens to that position, so
    lookup does not depend on argument order.
 */
module Factory {
  import opened Outcomes
  import opened Tokens
  import Pairs

  datatype Registry = Registry(
    feeTo: Address,
    feeToSetter: Address,
    pairs: seq<Pairs.Pair>,
    index: map<(Token, Token), nat>)

  /** The registry's invariant: every lookup key names a pair of two distinct
      non-zero tokens, its reverse is registered to the same pair, and that
      pair holds the two tokens in ascending order; every pair is registered
      under its own tokens. */
  ghost predicate Valid(reg: Registry) {
    KeysConsistent(reg) && PairsRegistered(reg)
  }

  ghost predicate KeysConsistent(reg: Registry) {
    forall k | k in reg.index :: KeyConsistent(reg, k)
  }

  ghost predicate PairsRegistered(reg: Registry) {
    forall i | 0 <= i < |reg.pairs| ::
      && (reg.pairs[i].token0, reg.pairs[i].token1) in reg.index
      && reg.index[(reg.pairs[i].token0, reg.pairs[i].token1)] == i
  }

  /** A freshly deployed factory: no pairs, the fee switched off (`feeTo` is
      the zero address) and `feeToSetter` as given. */
  function New(feeToSetter: Address): (reg: Registry)
    ensures Valid(reg)
    ensures reg.feeTo == ZERO_ADDRESS && reg.feeToSetter == feeToSetter
    ensures AllPairsLength(reg) == 0
    ensures forall a: Token, b: Token :: GetPair(reg, a, b) == None
  {
    Registry(ZERO_ADDRESS, feeToSetter, [], map[])
  }

  /** `allPairsLength`. */
  function AllPairsLength(reg: Registry): (n: nat)
    ensures n == |reg.pairs|
  {
    |reg.pairs|
  }

  /** `getPair(a, b)`: the pair registered for the two tokens, if any (the
      contract answers the zero address for none). */
  function GetPair(reg: Registry, a: Token, b: Token): (r: Option<nat>)
    ensures r.Some? <==> (a, b) in reg.index
    ensures r.Some? ==> r.value == reg.index[(a, b)]
  {
    if (a, b) in reg.index then Some(reg.index[(a, b)]) else None
  }

  /** Lookup is symmetric in its two arguments. */
  lemma GetPairSymmetric(reg: Registry, a: Token, b: Token)
    requires Valid(reg)
    ensures GetPair(reg, a, b) == GetPair(reg, b, a)
  {
    if (b, a) in reg.index {
      assert (a, b) in reg.index;
    }
  }

  /** A registered pair holds exactly the two looked-up tokens, in ascending
      order, whichever order they were named in. */
  lemma GetPairTokens(reg: Registry, a: Token, b: Token)
    requires Valid(reg) && GetPair(reg, a, b).Some?
    ensures var id := GetPair(reg, a, b).value;
      && id < |reg.pairs|
      && a != b && a != ZERO_ADDRESS && b != ZERO_ADDRESS
      && reg.pairs[id].token0 < reg.pairs[id].token1
      && {reg.pairs[id].token0, reg.pairs[id].token1} == {a, b}
  {
  }

  /** `createPair(a, b)`: registers a new, empty pair for two distinct
      non-zero tokens that have no pair yet, and appends it to the list. */
  function CreatePair(reg: Registry, a: Token, b: Token): (r: Result<(Registry, nat)>)
    ensures a == b ==> r == Err(IdenticalAddresses)
    ensures a != b && (a == ZERO_ADDRESS || b == ZERO_ADDRESS) ==> r == Err(ZeroAddress)
    ensures a != b && a != ZERO_ADDRESS && b != ZERO_ADDRESS && Valid(reg) && GetPair(reg, a, b).Some?
      ==> r == Err(PairExists)
    ensures r.Ok? <==> a != b && a != ZERO_ADDRESS && b != ZERO_ADDRESS && Sort(a, b) !in reg.index
    ensures r.Ok? ==>
      var (reg', id) := r.value;
      && id == AllPairsLength(reg) && AllPairsLength(reg') == AllPairsLength(reg) + 1
      && reg'.pairs[..id] == reg.pairs
      && reg'.pairs[id] == Pairs.Init(Sort(a, b).0, Sort(a, b).1)
      && GetPair(reg', a, b) == Some(id) && GetPair(reg', b, a) == Some(id)
      && (forall x: Token, y: Token | {x, y} != {a, b} :: GetPair(reg', x, y) == GetPair(reg, x, y))
      && reg'.feeTo == reg.feeTo && reg'.feeToSetter == reg.feeToSetter
  {
    if a == b then Err(IdenticalAddresses) else
    var (token0, token1) := Sort(a, b);
    :- Need(token0 != ZERO_ADDRESS, ZeroAddress);
    :- Need((token0, token1) !in reg.index, PairExists);
    Ok((Append(reg, token0, token1), |reg.pairs|))
  }

  /** Creating a pair keeps the registry valid. */
  lemma CreatePairPreservesValid(reg: Registry, a: Token, b: Token)
    requires Valid(reg) && CreatePair(reg, a, b).Ok?
    ensures Valid(CreatePair(reg, a, b).value.0)
  {
    var (token0, token1) := Sort(a, b);
    assert (token1, token0) !in reg.index;
    AppendKeepsKeysConsistent(reg, token0, token1);
    AppendKeepsPairsRegistered(reg, token0, token1);
  }

  /** The registry with a new pair for `token0 < token1` appended. */
  function Append(reg: Registry, token0: Token, token1: Token): (reg': Registry)
    ensures |reg'.pairs| == |reg.pairs| + 1 && reg'.pairs[..|reg.pairs|] == reg.pairs
  {
    var id := |reg.pairs|;
    reg.(pairs := reg.pairs + [Pairs.Init(token0, token1)],
         index := reg.index[(token0, token1) := id][(token1, token0) := id])
  }

  lemma AppendKeepsKeysConsistent(reg: Registry, token0: Token, token1: Token)
    requires KeysConsistent(reg) && ZERO_ADDRESS != token0 && token0 < token1
    requires (token0, token1) !in reg.index && (token1, token0) !in reg.index
    ensures KeysConsistent(Append(reg, token0, token1))
  {
    var reg' := Append(reg, token0, token1);
    forall k | k in reg'.index
      ensures KeyConsistent(reg', k)
    {
      if k != (token0, token1) && k != (token1, token0) {
        AppendKeepsOldKey(reg, token0, token1, k);
      }
    }
  }

  ghost predicate KeyConsistent(reg: Registry, k: (Token, Token))
    requires k in reg.index
  {
    && k.0 != k.1 && k.0 != ZERO_ADDRESS && k.1 != ZERO_ADDRESS
    && reg.index[k] < |reg.pairs|
    && (k.1, k.0) in reg.index && reg.index[(k.1, k.0)] == reg.index[k]
    && (reg.pairs[reg.index[k]].token0, reg.pairs[reg.index[k]].token1) == Sort(k.0, k.1)
  }

  lemma AppendKeepsOldKey(reg: Registry, token0: Token, token1: Token, k: (Token, Token))
    requires KeysConsistent(reg) && k in reg.index
    requires (token0, token1) !in reg.index && (token1, token0) !in reg.index
    ensures k in Append(reg, token0, token1).index && KeyConsistent(Append(reg, token0, token1), k)
  {
    var reg' := Append(reg, token0, token1);
    assert (k.1, k.0) in reg.index;
    assert reg'.pairs[reg.index[k]] == reg.pairs[reg.index[k]];
  }

  lemma AppendKeepsPairsRegistered(reg: Registry, token0: Token, token1: Token)
    requires KeysConsistent(reg) && PairsRegistered(reg) && token0 < token1
    requires (token0, token1) !in reg.index && (token1, token0) !in reg.index
    ensures PairsRegistered(Append(reg, token0, token1))
  {
    var reg' := Append(reg, token0, token1);
    var id := |reg.pairs|;
    forall i | 0 <= i < |reg'.pairs|
      ensures && (reg'.pairs[i].token0, reg'.pairs[i].token1) in reg'.index
              && reg'.index[(reg'.pairs[i].token0, reg'.pairs[i].token1)] == i
    {
      if i < id {
        var key := (reg.pairs[i].token0, reg.pairs[i].token1);
        assert reg'.pairs[i] == reg.pairs[i];
        assert key in reg.index;
        assert key != (token0, token1) && key != (token1, token0);
      }
    }
  }

  /** `setFeeTo`: only the current `feeToSetter` may change the fee recipient. */
  function SetFeeTo(reg: Registry, caller: Address, feeTo: Address): (r: Result<Registry>)
    ensures r.Ok? <==> caller == reg.feeToSetter
    ensures r.Err? ==> r.error == Forbidden
    ensures r.Ok? ==> r.value == reg.(feeTo := feeTo)
  {
    if caller != reg.feeToSetter then Err(Forbidden) else
    Ok(reg.(feeTo := feeTo))
  }

  /** `setFeeToSetter`: only the current `feeToSetter` may hand the role over. */
  function SetFeeToSetter(reg: Registry, caller: Address, feeToSetter: Address): (r: Result<Registry>)
    ensures r.Ok? <==> caller == reg.feeToSetter
    ensures r.Err? ==> r.error == Forbidden
    ensures r.Ok? ==> r.value == reg.(feeToSetter := feeToSetter)
  {
    if caller != reg.feeToSetter then Err(Forbidden) else
    Ok(reg.(feeToSetter := feeToSetter))
  }

  /** After the setter hands the role to someone else, the old setter is
      refused and the new one may set the fee recipient; the registry of pairs
      is untouched throughout. */
  lemma HandoverMovesControl(reg: Registry, newSetter: Address, feeTo: Address)
    requires newSetter != reg.feeToSetter
    ensures var r := SetFeeToSetter(reg, reg.feeToSetter, newSetter);
      && r.Ok?
      && SetFeeTo(r.value, reg.feeToSetter, feeTo) == Err(Forbidden)
      && SetFeeToSetter(r.value, reg.feeToSetter, reg.feeToSetter) == Err(Forbidden)
      && SetFeeTo(r.value, newSetter, feeTo).Ok?
      && SetFeeTo(r.value, newSetter, feeTo).value.feeTo == feeTo
      && SetFeeTo(r.value, newSetter, feeTo).value.pairs == reg.pairs
  {
  }

  /** Replaces the state of pair `id`, as a pair operation does. */
  function WithPair(reg: Registry, id: nat, p: Pairs.Pair): (reg': Registry)
    requires id < |reg.pairs|
    ensures |reg'.pairs| == |reg.pairs| && reg'.pairs[id] == p
    ensures forall j | 0 <= j < |reg.pairs| && j != id :: reg'.pairs[j] == reg.pairs[j]
    ensures reg'.index == reg.index && reg'.feeTo == reg.feeTo && reg'.feeToSetter == reg.feeToSetter
  {
    reg.(pairs := reg.pairs[id := p])
  }

  /** Pair operations never change a pair's tokens, so they keep the registry valid. */
  lemma WithPairPreservesValid(reg: Registry, id: nat, p: Pairs.Pair)
    requires Valid(reg) && id < |reg.pairs|
    requires p.token0 == reg.pairs[id].token0 && p.token1 == reg.pairs[id].token1
    ensures Valid(WithPair(reg, id, p))
  {
    var reg' := WithPair(reg, id, p);
    forall k | k in reg'.index
      ensures (reg'.pairs[reg'.index[k]].token0, reg'.pairs[reg'.index[k]].token1) == Sort(k.0, k.1)
    {
      assert k in reg.index;
    }
    forall i | 0 <= i < |reg'.pairs|
      ensures (reg'.pairs[i].token0, reg'.pairs[i].token1) in reg'.index
    {
      assert (reg.pairs[i].token0, reg.pairs[i].token1) in reg.index;
    }
  }
}
