/** Revenue split: configuration in basis points, and distribution of a payment. */
module Revenue {
  import opened Common
  import opened Tokens

  datatype Share = Share(beneficiary: Address, bps: u32)
  datatype Plan = Plan(beneficiaries: seq<Share>, feeBps: u32)

  function SumBps(list: seq<Share>): nat {
    if list == [] then 0 else SumBps(list[..|list| - 1]) + list[|list| - 1].bps
  }

  // The products wrap before they are divided, and so does the difference.

  function Fee(plan: Plan, amount: i128): int { TruncDiv(Wrap128(amount * plan.feeBps), 10000) }
  function Net(plan: Plan, amount: i128): i128 { Wrap128(amount - Fee(plan, amount)) }
  function ShareOf(net: i128, bps: u32): int { TruncDiv(Wrap128(net * bps), 10000) }

  datatype RevenueState = RevenueState(admin: Address, feeAddress: Address, plans: map<string, Plan>)
  {
    function Configure(env: Env, caller: Address, project: string, beneficiaries: seq<Share>)
      : Result<(RevenueState, ())>
    {
      var _ :- env.RequireAuth(caller);
      :- Need(caller == admin, NotAuthorized);
      :- Need(project != "" && beneficiaries != [], InvalidInput);
      :- Need(WrapU32(SumBps(beneficiaries)) == 10000, InvalidInput);
      Ok((this.(plans := plans[project := Plan(beneficiaries, PROTOCOL_FEE_BPS)]), ()))
    }

    function Distribute(tokens: Balances, env: Env, caller: Address, project: string, asset: Address, amount: i128)
      : Result<(Balances, bool)>
    {
      var _ :- env.RequireAuth(caller);
      :- Need(project in plans, NotFound);
      var plan := plans[project];
      var tokens :- Pay(tokens, env, asset, caller, feeAddress, Fee(plan, amount));
      var tokens :- PayShares(tokens, env, asset, caller, Net(plan, amount), plan.beneficiaries);
      Ok((tokens, true))
    }
  }

  /** A payment is only made if it is positive. */
  function Pay(tokens: Balances, env: Env, asset: Address, from: Address, to: Address, amount: int): Result<Balances> {
    if amount > 0 then Transferred(tokens, env, asset, from, to, amount) else Ok(tokens)
  }

  function PayShares(tokens: Balances, env: Env, asset: Address, from: Address, net: i128, list: seq<Share>)
    : Result<Balances>
  {
    if list == [] then Ok(tokens)
    else
      var n := |list| - 1;
      var tokens :- PayShares(tokens, env, asset, from, net, list[..n]);
      Pay(tokens, env, asset, from, list[n].beneficiary, ShareOf(net, list[n].bps))
  }

  /** The contract. */
  class RevenueSplit {
    const tokens: TokenLedger
    const admin: Address
    const feeAddress: Address
    var plans: map<string, Plan>

    function State(): RevenueState
      reads this
    {
      RevenueState(admin, feeAddress, plans)
    }

    constructor (tokens: TokenLedger, admin: Address, feeAddress: Address)
      ensures State() == RevenueState(admin, feeAddress, map[]) && this.tokens == tokens
    {
      this.tokens, this.admin, this.feeAddress := tokens, admin, feeAddress;
      plans := map[];
    }

    method Configure(env: Env, caller: Address, project: string, beneficiaries: seq<Share>) returns (r: Result<()>)
      modifies this
      ensures Commits(r, State(), old(State()).Configure(env, caller, project, beneficiaries))
    {
      var _ :- env.RequireAuth(caller);
      :- Need(caller == admin, NotAuthorized);
      :- Need(project != "" && beneficiaries != [], InvalidInput);
      var total: u32 := 0;
      for i := 0 to |beneficiaries|
        invariant total == WrapU32(SumBps(beneficiaries[..i]))
        invariant plans == old(plans)
      {
        assert beneficiaries[..i + 1][..i] == beneficiaries[..i];
        WrapU32Adds(SumBps(beneficiaries[..i]), beneficiaries[i].bps);
        total := WrapU32(total + beneficiaries[i].bps);
      }
      assert beneficiaries[..|beneficiaries|] == beneficiaries;
      :- Need(total == 10000, InvalidInput);
      plans := plans[project := Plan(beneficiaries, PROTOCOL_FEE_BPS)];
      return Ok(());
    }

    method Distribute(env: Env, caller: Address, project: string, asset: Address, amount: i128)
      returns (r: Result<bool>)
      modifies tokens
      ensures Commits(r, tokens.balances, State().Distribute(old(tokens.balances), env, caller, project, asset, amount))
    {
      var _ :- env.RequireAuth(caller);
      :- Need(project in plans, NotFound);
      var plan := plans[project];
      var fee := TruncDiv(Wrap128(amount * plan.feeBps), 10000);
      var net := Wrap128(amount - fee);
      if fee > 0 {
        var _ :- tokens.Transfer(env, asset, caller, feeAddress, fee);
      }
      ghost var paid := tokens.balances;
      var list := plan.beneficiaries;
      for i := 0 to |list|
        invariant PayShares(paid, env, asset, caller, net, list[..i]) == Ok(tokens.balances)
      {
        var share := list[i];
        NextShare(paid, env, asset, caller, net, list, i, tokens.balances);
        var due := TruncDiv(Wrap128(net * share.bps), 10000);
        if due > 0 {
          var _ :- tokens.Transfer(env, asset, caller, share.beneficiary, due);
        }
      }
      assert list[..|list|] == list;
      return Ok(true);
    }

    method Restore(s: RevenueState)
      requires s.admin == admin && s.feeAddress == feeAddress
      modifies this
      ensures State() == s
    {
      plans := s.plans;
    }
  }

  lemma {:induction false} FailureStays(tokens: Balances, env: Env, asset: Address, from: Address, net: i128,
                                        list: seq<Share>, k: nat)
    requires k <= |list| && PayShares(tokens, env, asset, from, net, list[..k]).Err?
    ensures PayShares(tokens, env, asset, from, net, list) == PayShares(tokens, env, asset, from, net, list[..k])
    decreases |list|
  {
    if k < |list| {
      assert list[..|list| - 1][..k] == list[..k];
      FailureStays(tokens, env, asset, from, net, list[..|list| - 1], k);
    } else {
      assert list[..k] == list;
    }
  }

  /** The next share is paid from what the shares before it left, or fails the whole split. */
  lemma NextShare(tokens: Balances, env: Env, asset: Address, from: Address, net: i128, list: seq<Share>, k: nat,
                  left: Balances)
    requires k < |list| && PayShares(tokens, env, asset, from, net, list[..k]) == Ok(left)
    ensures var next := Pay(left, env, asset, from, list[k].beneficiary, ShareOf(net, list[k].bps));
            && PayShares(tokens, env, asset, from, net, list[..k + 1]) == next
            && (next.Err? ==> PayShares(tokens, env, asset, from, net, list) == next)
  {
    assert list[..k + 1][..k] == list[..k];
    if PayShares(tokens, env, asset, from, net, list[..k + 1]).Err? {
      FailureStays(tokens, env, asset, from, net, list, k + 1);
    }
  }

  // ---------- Runs ----------

  datatype RevenueCall =
    | Configure(caller: Address, project: string, beneficiaries: seq<Share>)
    | Distribute(caller: Address, project: string, asset: Address, amount: i128)
    | TransferToken(token: Address, from: Address, to: Address, amount: i128)

  datatype RevenueTx = RevenueTx(env: Env, call: RevenueCall)

  datatype RevenueWorld = RevenueWorld(revenue: RevenueState, tokens: Balances)

  function Step(w: RevenueWorld, tx: RevenueTx): Result<(RevenueWorld, ())> {
    match tx.call
    case Configure(caller, project, list) =>
      var (s, _) :- w.revenue.Configure(tx.env, caller, project, list); Ok((w.(revenue := s), ()))
    case Distribute(caller, project, asset, amount) =>
      var (t, _) :- w.revenue.Distribute(w.tokens, tx.env, caller, project, asset, amount); Ok((w.(tokens := t), ()))
    case TransferToken(token, from, to, amount) =>
      var t :- Transferred(w.tokens, tx.env, token, from, to, amount); Ok((w.(tokens := t), ()))
  }

  function Apply(w: RevenueWorld, tx: RevenueTx): RevenueWorld {
    match Step(w, tx)
    case Ok((w', _)) => w'
    case Err(_) => w
  }

  function Run(w: RevenueWorld, txs: seq<RevenueTx>): RevenueWorld {
    if txs == [] then w else Apply(Run(w, txs[..|txs| - 1]), txs[|txs| - 1])
  }

  function AtDeployment(admin: Address, feeAddress: Address, tokens: Balances): RevenueWorld {
    RevenueWorld(RevenueState(admin, feeAddress, map[]), tokens)
  }

  /** The host with the contract and the tokens it pays in. */
  class RevenueHost {
    const split: RevenueSplit
    const tokens: TokenLedger

    ghost predicate Valid() { split.tokens == tokens }

    function State(): RevenueWorld
      reads split, tokens
    {
      RevenueWorld(split.State(), tokens.balances)
    }

    constructor (admin: Address, feeAddress: Address, balances: Balances)
      ensures Valid() && State() == AtDeployment(admin, feeAddress, balances)
    {
      var t := new TokenLedger(balances);
      tokens := t;
      split := new RevenueSplit(t, admin, feeAddress);
    }

    /** Runs one transaction. A failed one, such as a distribution whose third share lacks
        funds, leaves nothing behind. */
    method Invoke(tx: RevenueTx) returns (r: Result<()>)
      requires Valid()
      modifies split, tokens
      ensures State() == Apply(old(State()), tx)
      ensures r == match Step(old(State()), tx) case Ok(_) => Ok(()) case Err(e) => Err(e)
    {
      var saved := State();
      r := Dispatch(tx);
      if r.Err? {
        split.Restore(saved.revenue);
        tokens.balances := saved.tokens;
      }
    }

    method Dispatch(tx: RevenueTx) returns (r: Result<()>)
      requires Valid()
      modifies split, tokens
      ensures Commits(r, State(), Step(old(State()), tx))
    {
      match tx.call {
        case Configure(caller, project, list) =>
          r := split.Configure(tx.env, caller, project, list);
        case Distribute(caller, project, asset, amount) =>
          var _ :- split.Distribute(tx.env, caller, project, asset, amount);
          return Ok(());
        case TransferToken(token, from, to, amount) =>
          r := tokens.Transfer(tx.env, token, from, to, amount);
      }
    }
  }
}
