/** The factory scenarios: fee-setter access control, pair creation and its
    errors, and the state of a new pair. */
module CoreVectors {
  import opened Outcomes
  import opened Tokens
  import opened Fixtures
  import Pairs
  import Factory

  /** The fee switch starts off and only the current setter may move it or
      hand over the role; after the handover the new setter sets `feeTo`. */
  lemma FeeSetterHandover()
    ensures var reg := Factory.New(Owner);
      && reg.feeToSetter == Owner && reg.feeTo == ZERO_ADDRESS
      && Factory.SetFeeToSetter(reg, UserOne, UserOne) == Err(Forbidden)
      && Factory.SetFeeTo(reg, UserOne, UserOne) == Err(Forbidden)
      && var reg1 := Factory.SetFeeTo(reg, Owner, Owner);
         && reg1.Ok?
         && var reg2 := Factory.SetFeeToSetter(reg1.value, Owner, UserOne);
            && reg2.Ok? && reg2.value.feeToSetter == UserOne && reg2.value.feeTo == Owner
            && var reg3 := Factory.SetFeeTo(reg2.value, UserOne, UserTwo);
               reg3.Ok? && reg3.value.feeTo == UserTwo
  {
  }

  /** Creating pairs: identical tokens and the zero address are refused, the
      first pair is registered under both orders, the reversed duplicate is
      refused, and the pair count grows by one per creation. */
  lemma CreatePairSequence()
    ensures var reg := Factory.New(Owner);
      && Factory.AllPairsLength(reg) == 0
      && Factory.GetPair(reg, TokenOne, TokenTwo) == None
      && Factory.CreatePair(reg, TokenOne, TokenOne) == Err(IdenticalAddresses)
      && Factory.CreatePair(reg, TokenOne, ZERO_ADDRESS) == Err(ZeroAddress)
      && var c1 := Factory.CreatePair(reg, TokenOne, TokenTwo);
         && c1.Ok? && Factory.AllPairsLength(c1.value.0) == 1
         && Factory.CreatePair(c1.value.0, TokenTwo, TokenOne) == Err(PairExists)
         && var c2 := Factory.CreatePair(c1.value.0, WETH, TokenThree);
            && c2.Ok? && Factory.AllPairsLength(c2.value.0) == 2
            && Factory.GetPair(c2.value.0, TokenTwo, TokenOne) == Some(0)
            && Factory.GetPair(c2.value.0, WETH, TokenThree) == Some(1)
            && Factory.CreatePair(c2.value.0, TokenTwo, WETH).Ok?
  {
  }

  /** A pair looked up with its tokens reversed holds them in ascending order
      and starts with no reserves. */
  lemma NewPairIsEmpty()
    ensures var c := Factory.CreatePair(Factory.New(Owner), TokenOne, TokenTwo);
      && c.Ok?
      && Factory.GetPair(c.value.0, TokenTwo, TokenOne) == Some(c.value.1)
      && var p := c.value.0.pairs[c.value.1];
         p.token0 == TokenOne && p.token1 == TokenTwo && p.reserve0 == 0 && p.reserve1 == 0
  {
  }
}
