/** The accounts and tokens that the scenarios below are played with.

    Addresses are arbitrary distinct non-zero naturals; only their order
    matters, because it fixes which token of a pair is `token0`. `TokenOne`
    sorts before `TokenTwo`, so the pair of the two holds `TokenOne` as
    `token0`, as the factory's own scenario observes.
 */
module Fixtures {
  import opened Tokens

  const WETH: Token := 1
  const TokenOne: Token := 2
  const TokenTwo: Token := 3
  /** A token that keeps 0.3% of every transfer. */
  const TokenWithFee: Token := 4
  /** A token with 6 decimals; amounts are in its own base units. */
  const TokenWith6Decimals: Token := 5
  const TokenThree: Token := 6

  const Owner: Address := 100
  const UserOne: Address := 101
  const UserTwo: Address := 102
  const Borrower: Address := 103

  /** The tokens that charge a transfer fee. */
  const FeeTokens: set<Token> := {TokenWithFee}

  /** One token unit of an 18-decimal token. */
  const E18: nat := 1_000_000_000_000_000_000
}
