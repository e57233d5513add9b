/** Addresses, token identities and what a token transfer delivers.

    Tokens are identified by their contract address; addresses are ordered
    naturals and `0` is the zero address. A pair contract is never one of the
    tokens it holds, so pairs are named by their index in the factory instead
    (see `Factory`).
 */
module Tokens {

  type Address = nat

  type Token = Address

  const ZERO_ADDRESS: Address := 0

  /** Where a pair sends tokens: an account (or token contract) address, or
      another pair, named by its index in the factory. */
  datatype Recipient = Account(addr: Address) | PairAt(id: nat)

  /** A transfer of `amount` of token `t` debits the sender by `amount`. A plain
      token credits the receiver with all of it; a fee-on-transfer token keeps
      0.3% and credits 99.7% of it, rounded down. */
  function Delivered(feeTokens: set<Token>, t: Token, amount: nat): (r: nat)
    ensures r <= amount
    ensures t !in feeTokens ==> r == amount
    ensures t in feeTokens ==> r * 1000 <= amount * 997 < (r + 1) * 1000
  {
    if t in feeTokens then amount * 997 / 1000 else amount
  }

  /** The two tokens of a pair in canonical (ascending address) order. */
  function Sort(a: Token, b: Token): (r: (Token, Token))
    ensures {r.0, r.1} == {a, b}
    ensures r.0 <= r.1
  {
    if a < b then (a, b) else (b, a)
  }
}
