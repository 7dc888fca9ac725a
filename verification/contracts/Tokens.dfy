/** The settlement token contracts, as the modelled contracts see them: balances that only
    change by transfers, where a transfer fails without the holder's funds or signature. */
module Tokens {
  import opened Common

  /** (token, holder) to balance; a missing entry is zero. */
  type Balances = map<(Address, Address), int>

  function BalanceOf(b: Balances, token: Address, holder: Address): int {
    if (token, holder) in b then b[(token, holder)] else 0
  }

  function Transferred(b: Balances, env: Env, token: Address, from: Address, to: Address, amount: int)
    : Result<Balances> {
    var _ :- env.RequireAuth(from);
    :- Need(amount >= 0, HostTransfer);
    :- Need(BalanceOf(b, token, from) >= amount, HostTransfer);
    var b := b[(token, from) := BalanceOf(b, token, from) - amount];
    Ok(b[(token, to) := BalanceOf(b, token, to) + amount])
  }

  lemma TransferMoves(b: Balances, env: Env, token: Address, from: Address, to: Address, amount: int, b': Balances)
    requires Transferred(b, env, token, from, to, amount) == Ok(b')
    ensures 0 <= amount <= BalanceOf(b, token, from)
    ensures forall t, h :: BalanceOf(b', t, h) ==
              BalanceOf(b, t, h)
              + (if (t, h) == (token, to) then amount else 0) - (if (t, h) == (token, from) then amount else 0)
  {
  }

  class TokenLedger {
    var balances: Balances

    constructor (initial: Balances)
      ensures balances == initial
    {
      balances := initial;
    }

    method Transfer(env: Env, token: Address, from: Address, to: Address, amount: int) returns (r: Result<()>)
      modifies this
      ensures match Transferred(old(balances), env, token, from, to, amount)
              case Ok(b) => r == Ok(()) && balances == b
              case Err(e) => r == Err(e) && balances == old(balances)
    {
      var _ :- env.RequireAuth(from);
      :- Need(amount >= 0, HostTransfer);
      :- Need(BalanceOf(balances, token, from) >= amount, HostTransfer);
      balances := balances[(token, from) := BalanceOf(balances, token, from) - amount];
      balances := balances[(token, to) := BalanceOf(balances, token, to) + amount];
      return Ok(());
    }
  }
}
