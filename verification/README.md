# Uniswap V2 arithmetic and registry, in Dafny

This project models the Uniswap V2 core and periphery, as the repository's
Hardhat test suite exercises them. It covers four parts:

- **the factory**: the registry of pairs and the fee-setter role;
- **the pair**: liquidity shares, optimistic settlement against measured balances, and the constant-product swap check;
- **the library**: `quote`, `getAmountOut`, `getAmountIn`, `getReserves`, `getAmountsOut` and `getAmountsIn`;
- **the router**: `addLiquidity`, `removeLiquidity` and the swap entry points, including the fee-on-transfer variants.

The model is purely functional. Every operation takes a registry (or a pair)
and returns a new one, or the error the contract reverts with.

Each row below cites the Hardhat test lines that pin the behaviour down: a
formula written out in a comment, a number the test expects, or a revert it
checks. Every concrete number in those tests is restated as a lemma over the
model (the `*Vectors` modules), proved by evaluation. The general properties
are proved for all inputs.

Modules:

| module | contents |
|---|---|
| `Outcomes` | the `Result` type and the revert reasons |
| `Num` | `min`, the integer square root, the uint112 bound |
| `Tokens` | addresses, and what a transfer of a plain or a fee-on-transfer token delivers |
| `Library` | the pricing formulas |
| `Pairs` | `mint`, `burn`, `swap` and the flash-swap fee |
| `Factory` | `createPair`, `getPair`, `setFeeTo`, `setFeeToSetter` and the registry invariant |
| `Paths` | multi-hop quoting |
| `Router` | the router |
| `Settlement` | end-to-end proofs that a quoted swap settles |
| `Fixtures` and the `*Vectors` modules | the test scenarios |

## Model

| member | source | states |
|---|---|---|
| Num.Isqrt | test/peripheryContracts.test.ts:98-104 | the result is the integer square root: its square is at most `n` and the next square exceeds `n` |
| Num.RootUnique | test/peripheryContracts.test.ts:144-145 | at most one number is the integer square root of `n`, so a witness identifies it (`sqrt(200e18 * 50e18)` is exactly `100e18`) |
| Tokens.Delivered | test/addLiquidity.test.ts:233-236 | a plain token delivers the whole amount; a fee-on-transfer token delivers 99.7% rounded down, never more than was sent |
| Tokens.Sort | test/coreContrats.test.ts:124-127 | the pair's two tokens are the two given, in ascending order, whichever order they were named in |
| Library.Quote | test/peripheryContracts.test.ts:154-170 | the largest amount of B worth no more than `amountA` at the reserves' price; fails exactly when the amount or a reserve is zero, with the contract's reason |
| Library.GetAmountOut | test/peripheryContracts.test.ts:467-470 | the output keeps the fee-adjusted constant product, one unit more does not, and it is below the output reserve; fails exactly when an input or a reserve is zero |
| Library.AmountOutExactlyKept | test/peripheryContracts.test.ts:464-504 | both directions: a trade of `amountIn` keeps the product for exactly the outputs up to `getAmountOut`'s |
| Library.GetAmountIn | test/peripheryContracts.test.ts:509-512 | the input keeps the fee-adjusted product and is positive, two units less do not keep it; fails exactly when the output is zero, a reserve is zero or the output is not below the reserve |
| Library.AmountInBounds | test/peripheryContracts.test.ts:506-544 | every input at least the quoted one keeps the product, and every input two or more below it breaks it |
| Library.AmountInBuysAmountOut | test/peripheryContracts.test.ts:519-520 | paying `getAmountIn(amountOut)` buys at least `amountOut` by `getAmountOut` |
| Library.AmountOutCostsAtMostOneMore | test/peripheryContracts.test.ts:477-478 | quoting back the input for a quoted output asks for at most one unit more than was paid |
| Library.AmountInOfAmountOutCanBeFarLess | test/peripheryContracts.test.ts:467-470 | the two formulas are not inverse: 100 in buys 9 from reserves (1, 10), yet 9 out is quoted at only 10 |
| Library.AmountInOvershootsWhenExact | test/peripheryContracts.test.ts:509-512 | the `+ 1` after the floor overcharges by one when the division is exact: 1 out of (997, 2) is quoted at 1001, while 1000 already keeps the product |
| Pairs.Init | test/coreContrats.test.ts:124-133 | a new pair holds its two tokens and has zero reserves and no shares |
| Pairs.Credit | test/addLiquidity.test.ts:233-236 | an arriving transfer raises the held balance of that token only, and leaves the reserves and supply alone |
| Pairs.Update | test/peripheryContracts.test.ts:106-111 | recording balances makes reserves equal the held balances; it reverts with `Overflow` exactly when one exceeds uint112 |
| Pairs.FirstShares | test/peripheryContracts.test.ts:98-104 | the first deposit mints the integer square root of the product less the 1000 locked shares; the error is `Underflow` below 1000 and `InsufficientLiquidityMinted` at exactly 1000 |
| Pairs.LaterShares | test/peripheryContracts.test.ts:167-170 | a later deposit mints the largest share count that undercuts neither side's pro-rata value (the smaller of the two ratios); division by a zero reserve fails |
| Pairs.LaterSharesOutcome | test/peripheryContracts.test.ts:167-170 | a later deposit mints exactly when both reserves are positive and each side is worth at least one share (`amount * supply >= reserve`) |
| Pairs.Mint | test/addLiquidity.test.ts:238-243 | the shares come from the measured arrivals (balance less reserve), the total supply grows by the shares (plus 1000 the first time), and the reserves become the balances; balances below the reserves revert with `Underflow` |
| Pairs.MintFirst | test/addLiquidity.test.ts:238-243 | the first deposit's shares plus the locked 1000 are the integer root of the product of the arrivals, the supply is exactly that root, and the reserves become the balances |
| Pairs.MintLater | test/peripheryContracts.test.ts:146-170 | a later deposit's shares are the largest count neither arrival undercuts at the old reserves and supply, and the supply grows by exactly those shares |
| Pairs.MintOutcome | test/peripheryContracts.test.ts:146-170 | mint succeeds exactly when the first deposit's root exceeds 1000 (a later one: each side is worth a share) and the balances fit in 112 bits; a root of exactly 1000, or a later side worth no share, reverts with `InsufficientLiquidityMinted` |
| Pairs.MintOfCredited | test/peripheryContracts.test.ts:146-170 | a deposit credited to a synced pair, in either token order, grows the reserves by the arrivals and, into a pool holding shares, mints the largest share count neither arrival undercuts |
| Pairs.FirstMintOfFreshPair | test/peripheryContracts.test.ts:79-112 | a first deposit into a fresh pair, credited in either token order, mints `isqrt(a * b) - 1000` and leaves reserves equal to the deposits |
| Pairs.Burn | test/peripheryContracts.test.ts:267-270 | each payout is `liquidity * balance / totalSupply` rounded down; the supply falls by the shares burnt and the reserves by the payouts; it succeeds exactly when the supply is positive, the shares are within it, both payouts are positive and the new balances fit in 112 bits, reverting with `InsufficientLiquidityBurned`, `Underflow` or `Overflow` respectively |
| Pairs.MintThenBurnReturnsAtMostDeposit | test/removeLiquidity.test.ts:590-629 | minting and at once burning the new shares never returns more of either token than was deposited |
| Pairs.BurnShortOfSupplyLeavesReserves | test/peripheryContracts.test.ts:98-104 | while any shares (such as the 1000 locked ones) stay outstanding, a burn cannot empty either reserve |
| Pairs.AmountIn | test/peripheryContracts.test.ts:496-503 | what a swap counts as arrived on one side never exceeds the held balance, and is exactly the amount by which the balance exceeds the reserve less the output (zero when it does not) |
| Pairs.Swap | test/peripheryContracts.test.ts:496-503 | a swap succeeds only if some input arrived and the fee-adjusted product of the new balances is at least the old reserves' product; the reserves then equal the balances |
| Pairs.SwapKeepsReserveProduct | test/peripheryContracts.test.ts:500-503 | a completed swap never lowers the product of the reserves |
| Pairs.SwapSymmetric | test/peripheryContracts.test.ts:536-543 | the pair treats its two sides alike: the mirrored swap has the mirrored outcome or the same error |
| Pairs.AdjustedProductIsKeepsProduct | test/peripheryContracts.test.ts:467-470 | for a one-way trade the pair's fee-adjusted check is exactly the condition the library formulas price against |
| Pairs.SwapOfArrival | test/peripheryContracts.test.ts:480-503 | after a deposit of token0, a swap for token1 reverts with `InsufficientInputAmount` when nothing arrived, with `K` when the fee-adjusted product falls, and otherwise moves the reserves by the two amounts |
| Pairs.SwapAcceptsExactlyKeptTrades | test/peripheryContracts.test.ts:480-503 | after a deposit, the pair pays an output exactly when the trade keeps the product, and moves the reserves by the two amounts; otherwise it reverts with `K` |
| Pairs.SwapAcceptsUpToAmountOut | test/swap.test.ts:196-236 | after a deposit, the pair accepts exactly the outputs up to `getAmountOut` of that deposit |
| Pairs.FlashFee | test/flashSwap.test.ts:119-121 | the flash fee is the least amount whose 997 parts in 1000 exceed 0.3% of the loan: `fee * 997 > amount * 3` and `(fee - 1) * 997 <= amount * 3` |
| Pairs.FlashRepaymentRule | test/flashSwap.test.ts:117-150 | a same-token flash loan is refused with `K` exactly when the repayment less its 0.3% falls short of the loan; otherwise it succeeds unless a reserve overflows |
| Pairs.FlashRepaymentAccepted | test/flashSwap.test.ts:145-149 | repaying the loan plus `amount * 3 / 997 + 1` is accepted and the pair keeps the fee on top of its old reserve |
| Pairs.FlashRepaymentOneLessRejected | test/flashSwap.test.ts:119-121 | unless `3 * amount` is a multiple of 997, one unit less than that fee is refused, so the fee is the least that works |
| Pairs.FlashFeeOvershootsOnExactMultiple | test/flashSwap.test.ts:119-121 | when `3 * amount` is a multiple of 997 the fee is one more than needed: borrowing 997 costs 4, yet repaying 997 + 3 is accepted |
| Factory.New | test/coreContrats.test.ts:49-51 | a new factory has no pairs, the fee switched off and the given setter, and satisfies the registry invariant |
| Factory.AllPairsLength | test/coreContrats.test.ts:73-96 | `allPairsLength` is the number of pairs created |
| Factory.GetPair | test/coreContrats.test.ts:73-76 | the lookup answers a pair exactly when one is registered under the two tokens |
| Factory.GetPairSymmetric | test/coreContrats.test.ts:98 | in a valid registry the lookup does not depend on argument order |
| Factory.GetPairTokens | test/coreContrats.test.ts:124-127 | a registered pair holds exactly the two looked-up tokens, distinct and non-zero, in ascending order |
| Factory.CreatePair | test/coreContrats.test.ts:72-112 | reverts with `IDENTICAL_ADDRESSES`, `ZERO_ADDRESS` or `PAIR_EXISTS` as the cases arise; otherwise it appends one new empty pair, registers it under both orders, and changes no other lookup |
| Factory.CreatePairPreservesValid | test/coreContrats.test.ts:86-96 | creating a pair keeps the registry invariant |
| Factory.SetFeeTo | test/coreContrats.test.ts:57-59 | only the current setter may change the fee recipient; anyone else gets `FORBIDDEN` |
| Factory.SetFeeToSetter | test/coreContrats.test.ts:53-55 | only the current setter may hand the role over; anyone else gets `FORBIDDEN` |
| Factory.HandoverMovesControl | test/coreContrats.test.ts:61-69 | after a handover the old setter is refused and the new one may set the fee recipient, with the pairs untouched |
| Paths.PairId | test/coreContrats.test.ts:78-92 | the router finds a pair exactly for two distinct non-zero tokens that have one; otherwise it reverts with the library token sort's `IdenticalAddresses` or `ZeroAddress`, or with `PairMissing` |
| Paths.GetReserves | test/peripheryContracts.test.ts:509-512 | the reserves of the pair ordered as the two tokens were named |
| Paths.GetReservesSymmetric | test/peripheryContracts.test.ts:132-152 | naming the tokens in the other order gives the same reserves exchanged |
| Paths.GetAmountsOut | test/peripheryContracts.test.ts:472-478 | the forward quote starts at the input and has one amount per token; a path shorter than two is `INVALID_PATH` |
| Paths.GetAmountsIn | test/peripheryContracts.test.ts:514-520 | the backward quote ends at the output and has one amount per token; a path shorter than two is `INVALID_PATH` |
| Paths.GetAmountsOutChains | test/swap.test.ts:359-381 | both directions: the forward sweep returns exactly the amounts in which each hop is `getAmountOut` of the previous one |
| Paths.GetAmountsInChains | test/peripheryContracts.test.ts:578-620 | both directions: the backward sweep returns exactly the amounts in which each hop is `getAmountIn` of the next one |
| Router.AddLiquidityAmounts | test/peripheryContracts.test.ts:154-170 | an empty pool takes the desired amounts; otherwise one side in full and the other its quote, never more than desired and never below its minimum |
| Router.AddLiquidityAmountsOutcome | test/peripheryContracts.test.ts:154-170 | on a pool holding both tokens, side A is taken in full exactly when B's quote fits within the desired B, and then the deposit stands iff B's quote meets B's minimum (else `InsufficientBAmount`); otherwise B is taken in full and A's minimum decides (else `InsufficientAAmount`); a zero amount to quote gives `InsufficientAmount`, a pool holding one token only `InsufficientLiquidity` |
| Router.AddLiquidity | test/peripheryContracts.test.ts:114-171 | creates the pair when missing (then taking both desired amounts); into an existing pair deposits exactly what `AddLiquidityAmounts` chooses at the current reserves and reverts with its error; mints a positive share count |
| Router.AddLiquidityOutcome | test/peripheryContracts.test.ts:114-171 | a refused `createPair` reverts with its reason; otherwise the deposit succeeds exactly when the credited pair mints, a refused mint reverting with its reason, and for an existing pair a refused choice of amounts reverts with that choice's reason |
| Router.AddLiquidityToExistingPair | test/peripheryContracts.test.ts:146-170 | into an existing pool holding shares, the provider gets the largest share count that neither arrival undercuts at the old reserves and supply, the supply grows by it, and the reserves grow by the arrivals |
| Router.ExistingPairFunding | test/peripheryContracts.test.ts:154-170 | a deposit into an existing pair credits what arrives of the chosen amounts to that pair and stores what it mints |
| Router.AddLiquidityCreatingPairMintsRoot | test/addLiquidity.test.ts:209-244 | into a new pair, the shares are the root of the product of what actually arrived (after any transfer fee) less 1000, and the reserves are those arrivals |
| Router.AddLiquidityPreservesValid | test/addLiquidity.test.ts:82-115 | adding liquidity keeps the registry invariant |
| Router.RemoveLiquidity | test/peripheryContracts.test.ts:264-293 | pays each side `liquidity * balance / totalSupply` rounded down, oriented to the caller's token order, at least each minimum, and exactly what the pair's balances lose; the recipient gets what the transfer delivers; the supply falls by the shares burnt |
| Router.RemoveLiquidityOutcome | test/peripheryContracts.test.ts:266-281 | on an existing pair, a failed burn reverts with the burn's error; otherwise the removal succeeds exactly when both rounded-down payouts meet their minimums, else `InsufficientAAmount` or `InsufficientBAmount` |
| Router.RemoveLiquidityPreservesValid | test/removeLiquidity.test.ts:211-247 | removing liquidity keeps the registry invariant |
| Router.RemoveLiquidityThroughRouter | test/removeLiquidity.test.ts:429-436 | the fee-supporting removal pays through the router, so a fee-on-transfer token is charged twice and the recipient gets no more than with the direct removal |
| Router.Outputs | test/peripheryContracts.test.ts:490-494 | a trade's whole output is paid on the side opposite its input |
| Router.Hop | test/swap.test.ts:359-369 | one hop pays the next pair or the recipient what the transfer delivers, and leaves every other pair alone |
| Router.NextRecipient | test/swap.test.ts:371-391 | the last hop pays the recipient; an earlier hop pays the pair of the next two tokens, and fails exactly when that pair does not exist |
| Router.Hops | test/swap.test.ts:383-391 | when every hop completes, the recipient receives what the transfer of the last quoted amount delivers, and no pair is added or re-indexed |
| Router.PayIn | test/peripheryContracts.test.ts:496-503 | the caller's payment succeeds exactly when the first pair exists, and credits that pair, and only it, with what the transfer delivers |
| Router.SwapExactTokensForTokens | test/peripheryContracts.test.ts:480-494 | the swap uses the forward quote, reverts with `InsufficientOutputAmount` below `amountOutMin`, and hands the recipient what the last transfer delivers |
| Router.SwapTokensForExactTokens | test/peripheryContracts.test.ts:522-534 | the swap uses the backward quote, reverts with `ExcessiveInputAmount` above `amountInMax`, and hands the recipient what a transfer of `amountOut` delivers |
| Router.Measure | test/swap.test.ts:495-500 | the fee-supporting swap prices the input it measures at the pair (balance less reserve) |
| Router.MeasuredHops | test/swap.test.ts:511-527 | the measured hops keep the pair count and the index |
| Router.SwapExactTokensForTokensSupportingFee | test/swap.test.ts:492-528 | the fee-supporting swap reverts unless the recipient receives at least `amountOutMin`; a path of fewer than two tokens panics on the index rather than reverting with `InvalidPath` |
| Settlement.HopsExecute | test/swap.test.ts:354-392 | hop by hop, a routable quote runs every remaining hop, each pair trading exactly its amounts |
| Settlement.QuotedSwapSettles | test/peripheryContracts.test.ts:622-660 | a quote that keeps every hop's product settles in full: the recipient gets the last amount, each pair on the path moves by its hop's amounts, and no other pair changes |
| Settlement.SwapExactTokensForTokensSettles | test/peripheryContracts.test.ts:464-504 | over a routable path `swapExactTokensForTokens` succeeds, pays the final forward quote, and moves exactly the pairs on the path by their quoted amounts |
| Settlement.SwapTokensForExactTokensSettles | test/peripheryContracts.test.ts:506-544 | over a routable path `swapTokensForExactTokens` charges exactly the quoted input, pays exactly `amountOut`, and moves exactly the pairs on the path |
| CoreVectors.FeeSetterHandover | test/coreContrats.test.ts:49-70 | the fee-setter scenario: refusals, then the handover and the new setter's change |
| CoreVectors.CreatePairSequence | test/coreContrats.test.ts:72-112 | the pair-creation scenario: the three refusals and the pair count going 0, 1, 2 |
| CoreVectors.NewPairIsEmpty | test/coreContrats.test.ts:115-133 | the new TokenOne/TokenTwo pair holds TokenOne as token0 and has zero reserves |
| PeripheryVectors.AddWithCreation | test/peripheryContracts.test.ts:79-112 | creating the pair with 5 and 20 mints 9.999999999999999000 shares and leaves reserves 5 and 20 |
| PeripheryVectors.AddToExisting | test/peripheryContracts.test.ts:114-153 | 200 TokenTwo and 50 TokenOne mint 100 shares and leave reserves 220 and 55 |
| PeripheryVectors.AddUnequal | test/peripheryContracts.test.ts:154-170 | offering 60 and 50 mints 30 shares, the smaller ratio |
| PeripheryVectors.AddWithEth | test/peripheryContracts.test.ts:173-204 | the WETH pool's first deposit of 1000 TokenOne and 2 ether |
| PeripheryVectors.RemoveTokens | test/peripheryContracts.test.ts:264-293 | 5 shares pay 2.5 TokenOne and 10 TokenTwo, leaving 52.5 and 210 |
| PeripheryVectors.RemoveWithEth | test/peripheryContracts.test.ts:295-327 | half the WETH pool's shares pay half of each side |
| PeripheryVectors.RemoveTokensWithPermit | test/peripheryContracts.test.ts:329-366 | the 86-share removal and its payouts |
| PeripheryVectors.RemoveEthWithPermit | test/peripheryContracts.test.ts:368-404 | the 12-share removal from the WETH pool, rounded down |
| PeripheryVectors.SwapExactTokenOneForTokenTwo | test/peripheryContracts.test.ts:464-504 | 40 TokenOne buys 92.470489038785834738 TokenTwo, leaving reserves 95 and 127.529510961214165262 |
| PeripheryVectors.SwapTokenTwoForExactTokenOne | test/peripheryContracts.test.ts:506-544 | 21 TokenOne costs 136.291226621039589357 TokenTwo, leaving reserves 34 and 356.291226621039589357 |
| PeripheryVectors.SwapExactEthForTokenOne | test/peripheryContracts.test.ts:546-576 | 0.2 ether buys the quoted TokenOne from the WETH pool |
| PeripheryVectors.QuoteTokenTwoForExactEth | test/peripheryContracts.test.ts:578-605 | the backward quote over TokenTwo, TokenOne, WETH for 0.01 ether |
| PeripheryVectors.SwapTokenTwoForExactEth | test/peripheryContracts.test.ts:578-620 | paying that quote delivers exactly 0.01 ether |
| PeripheryVectors.TokenTwoForExactEthHops | test/peripheryContracts.test.ts:578-620 | paying 22.261734541129371930 TokenTwo and running both hops delivers exactly 0.01 ether and leaves the first pool's TokenTwo reserve at 242.26… |
| PeripheryVectors.TokenTwoForExactEthFirstHop | test/peripheryContracts.test.ts:578-620 | the first hop pays 5.040246367242430811 TokenOne straight into the WETH pool |
| PeripheryVectors.SwapExactTokenTwoForEth | test/peripheryContracts.test.ts:622-660 | 105 TokenTwo through TokenOne delivers 0.034745524652092692 ether |
| PeripheryVectors.ExactTokenTwoForEthHops | test/peripheryContracts.test.ts:622-660 | paying 105 TokenTwo into the first pool and running both hops delivers 0.034745524652092692 ether |
| PeripheryVectors.QuoteExactTokenTwoForEth | test/peripheryContracts.test.ts:622-660 | the forward quote over TokenTwo, TokenOne, WETH for 105 TokenTwo is 105, 17.733110553305511495, 0.034745524652092692 |
| PeripheryVectors.SwapEthForExactTokenOne | test/peripheryContracts.test.ts:662-689 | 123 TokenOne out of the WETH pool, within the 0.4 ether limit |
| SwapVectors.AddFeeTokenPool | test/swap.test.ts:129-140 | the fee-token pool's first deposit, with 0.3% of the fee token kept by the transfer |
| SwapVectors.AddFeeTokenEthPool | test/swap.test.ts:141-150 | the fee-token/WETH pool's first deposit |
| SwapVectors.AddSixDecimalPool | test/swap.test.ts:152-162 | the 6-decimal pool's first deposit |
| SwapVectors.SwapTokenTwoForExactSixDecimal | test/swap.test.ts:452-490 | the exact-output swap into the 6-decimal token |
| SwapVectors.SwapExactTokenTwoForFeeToken | test/swap.test.ts:492-528 | the pair pays 199.637296986192962787 and the recipient receives 199.038385095234383898 after the fee |
| SwapVectors.SwapExactEthForFeeToken | test/swap.test.ts:530-566 | the fee-supporting swap from WETH into the fee token |
| SwapVectors.SwapExactEthForTokenOneAmongFivePools | test/swap.test.ts:278-308 | the 0.2 ether swap again, with all five pools present |
| SwapVectors.QuoteExactTokenTwoForEthAmongFivePools | test/swap.test.ts:354-392 | the three-token forward quote 105, 17.733110553305511495, 0.034745524652092692 |
| AddLiquidityVectors.AddWithFeeToken | test/addLiquidity.test.ts:209-244 | 99.7 of 100 fee tokens arrive and 44.654227123532212252 shares are minted |
| AddLiquidityVectors.AddWithSixDecimalToken | test/addLiquidity.test.ts:246-276 | the shares for 20 TokenTwo against 200 units of the 6-decimal token |
| RemoveLiquidityVectors.FeeTokenEthPoolIsBuilt | test/removeLiquidity.test.ts:153-162 | the deposit that creates the fee-token/WETH pool |
| RemoveLiquidityVectors.SixDecimalPoolIsBuilt | test/removeLiquidity.test.ts:164-174 | the deposit that creates the 6-decimal pool |
| RemoveLiquidityVectors.RemoveSixDecimal | test/removeLiquidity.test.ts:371-416 | a quarter of the 6-decimal pool's shares, both payouts rounded down |
| RemoveLiquidityVectors.RemoveFeeTokenThroughRouter | test/removeLiquidity.test.ts:418-460 | the pair pays 9.235552078428643801 fee tokens, the holder receives 9.180221885926777795, and the reserves are 4.907366578952571276 and 489.264447921571356199 |
| RemoveLiquidityVectors.SwapBeforeRemove | test/removeLiquidity.test.ts:512-549 | the swap of TokenTwo for exactly 21 TokenOne that precedes the removal |
| RemoveLiquidityVectors.RemoveAfterSwap | test/removeLiquidity.test.ts:551-588 | 20 of the 110 shares then redeem at the new balances |
| RemoveLiquidityVectors.RemoveWholePosition | test/removeLiquidity.test.ts:590-629 | redeeming all 100 of a provider's shares returns exactly the deposit |
| FlashVectors.TokenPoolIsBuilt | test/flashSwap.test.ts:77-87 | the TokenOne/TokenTwo pool's first deposit |
| FlashVectors.WethPoolIsBuilt | test/flashSwap.test.ts:89-98 | the WETH/TokenOne pool's first deposit |
| FlashVectors.FeeValues | test/flashSwap.test.ts:119-121 | the two fees: 5.416248746238716149 and 2979.306920762286860582 |
| FlashVectors.FlashSwapWethPool | test/flashSwap.test.ts:117-150 | borrowing 1800 WETH and repaying it with the fee leaves 2005.416248746238716149; one unit less is refused with `K` |
| FlashVectors.FlashSwapTokenPool | test/flashSwap.test.ts:152-183 | borrowing 990123 TokenOne and repaying it with the fee leaves 1002979.306920762286860582; one unit less is refused with `K` |

## Left out

- ETH entry points (`addLiquidityETH`, `swapExactETHForTokens` and the others) are modelled as the token entry points on WETH paths. Wrapping, unwrapping and the refund of excess ETH are left out, because they are value transfers outside the pricing.
- The `*WithPermit` removals are modelled as plain removals. Signatures, approvals and LP-token allowances are left out, because they are authorisation, not accounting.
- LP-token balances per holder are left out. A mint returns the share count and a burn takes one; who holds the shares is not tracked.
- Deadlines are left out, because there is no clock in the model.
- Events (`PairCreated`, `Mint`, `Burn`, `Swap`, `Sync`) are left out, because they are not state.
- The protocol fee (`_mintFee`, active when `feeTo` is set) is left out, because no scenario switches it on. `feeTo` is stored, but it does not change minting.
- The price accumulators, `kLast` and `blockTimestampLast` are left out. The TWAP scenario (test/twap.test.ts) is context, not core.
- `skim` and `sync` are left out, because no scenario calls them. The reserves follow the held balances through `Pairs.Update` at the end of every mint, burn and swap.
- The flash borrower's callback is left out, along with the reentrancy lock. A flash swap is modelled as `Pairs.Swap` with the repayment arriving during the call (`paid0`, `paid1`).
- Pairs.Update: only the uint112 reserve bound is modelled. The uint256 products inside the library and the pair are unbounded integers here, since the scenarios stay far below 2^256.
- Tokens.Delivered: the fee-on-transfer token is modelled as crediting `amount * 997 / 1000`, rounded down. The token contract is not part of this model. This rule reproduces every number the scenarios check.
- Token addresses are naturals ordered as numbers. The scenarios' actual deployment addresses, and hence which token becomes token0, are fixed by the fixtures instead.
- Library.GetAmountIn: the contract states that the result keeps the product and is within one of the least input that does. It is not minimal (`Library.AmountInOvershootsWhenExact`).
- Router.SwapExactTokensForTokensSupportingFee: its contract states only the `amountOutMin` guard. The outcome of each measured hop is shown on the scenarios (`SwapVectors.SwapExactTokenTwoForFeeToken`, `SwapVectors.SwapExactEthForFeeToken`) rather than proved for all inputs.
- Paths.PairId: `PairMissing` stands for a revert without a reason string. The library computes the address of a pair that was never created and calls into it, and that call reverts with no reason; the model names the case so that its contracts can single it out.
- Router.MeasuredHops: its contract states only that the pair count and the index are kept. What each measured hop pays depends on what the previous transfer delivered, and that is shown on the scenarios, not proved for all inputs.
- Repeated scenarios are not restated. test/addLiquidity.test.ts:82-207, test/removeLiquidity.test.ts:211-369 and test/swap.test.ts:196-276, 310-352 and 394-450 replay the router scenarios on the same pools. Their numbers are the ones the `PeripheryVectors` lemmas prove.
