/** What the revenue split conserves, exactly when its arithmetic is exact, and what a
    distribution does to the ledger. */
module RevenueLaws {
  import opened Common
  import opened Tokens
  import opened Revenue

  // ---------- Plans ----------

  /** Shares of exactly 100 %, and the protocol fee of 0.5 %. */
  predicate Complete(plan: Plan) {
    plan.beneficiaries != [] && SumBps(plan.beneficiaries) == 10000 && plan.feeBps == PROTOCOL_FEE_BPS
  }

  /** What `configure` lets through. */
  predicate Accepted(plan: Plan) {
    plan.beneficiaries != [] && WrapU32(SumBps(plan.beneficiaries)) == 10000 && plan.feeBps == PROTOCOL_FEE_BPS
  }

  ghost predicate PlansComplete(s: RevenueState) {
    forall p | p in s.plans :: Complete(s.plans[p])
  }

  ghost predicate PlansAccepted(s: RevenueState) {
    forall p | p in s.plans :: Accepted(s.plans[p])
  }

  /** `configure` accepts a plan that is not complete if and only if its shares wrap. */
  lemma AcceptedIsCompleteIff(plan: Plan)
    requires Accepted(plan)
    ensures Complete(plan) <==> SumBps(plan.beneficiaries) <= U32_MAX
  {
  }

  lemma ConfigureKeepsCompleteIff(s: RevenueState, env: Env, caller: Address, project: string, list: seq<Share>)
    requires PlansComplete(s) && s.Configure(env, caller, project, list).Ok?
    ensures PlansComplete(s.Configure(env, caller, project, list).value.0) <==> SumBps(list) <= U32_MAX
  {
    var s' := s.Configure(env, caller, project, list).value.0;
    AcceptedIsCompleteIff(s'.plans[project]);
  }

  /** Shares of 4294967295 and 10001 basis points come to 2^32 + 10000 and are stored. */
  lemma WrappedPlanCounterexample(s: RevenueState, env: Env, project: string, a: Address, b: Address)
    requires s.admin in env.auth && project != ""
    ensures var list := [Share(a, U32_MAX), Share(b, 10001)];
            && s.Configure(env, s.admin, project, list).Ok?
            && !Complete(s.Configure(env, s.admin, project, list).value.0.plans[project])
  {
    var list := [Share(a, U32_MAX), Share(b, 10001)];
    assert list[..1] == [Share(a, U32_MAX)] && list[..1][..0] == [];
    assert SumBps(list[..1]) == U32_MAX && SumBps(list) == U32_MAX + 10001;
  }

  /** In every run from deployment, every stored plan is complete if and only if the sum of its
      shares fits a u32; runs whose plans all fit store complete plans only. */
  lemma {:induction false} PlansAlwaysComplete(admin: Address, feeAddress: Address, tokens: Balances,
                                               txs: seq<RevenueTx>)
    ensures var s := Run(AtDeployment(admin, feeAddress, tokens), txs).revenue;
            && PlansAccepted(s)
            && (forall p | p in s.plans :: Complete(s.plans[p]) <==> SumBps(s.plans[p].beneficiaries) <= U32_MAX)
            && (SharesFitU32(txs) ==> PlansComplete(s))
    decreases |txs|
  {
    var w := AtDeployment(admin, feeAddress, tokens);
    if txs != [] {
      var front, tx := txs[..|txs| - 1], txs[|txs| - 1];
      PlansAlwaysComplete(admin, feeAddress, tokens, front);
      var mid := Run(w, front);
      TxKeepsPlans(mid, tx);
    }
    var s := Run(w, txs).revenue;
    forall p | p in s.plans ensures Complete(s.plans[p]) <==> SumBps(s.plans[p].beneficiaries) <= U32_MAX {
      AcceptedIsCompleteIff(s.plans[p]);
    }
  }

  predicate SharesFitU32(txs: seq<RevenueTx>) {
    forall i | 0 <= i < |txs| && txs[i].call.Configure? :: SumBps(txs[i].call.beneficiaries) <= U32_MAX
  }

  lemma TxKeepsPlans(w: RevenueWorld, tx: RevenueTx)
    requires PlansAccepted(w.revenue)
    ensures PlansAccepted(Apply(w, tx).revenue)
    ensures PlansComplete(w.revenue) && (tx.call.Configure? ==> SumBps(tx.call.beneficiaries) <= U32_MAX) ==>
              PlansComplete(Apply(w, tx).revenue)
  {
  }

  // ---------- When the arithmetic is exact ----------

  predicate SharesFit(net: i128, list: seq<Share>) {
    forall i | 0 <= i < |list| :: InI128(net * list[i].bps)
  }

  /** All products of a distribution fit an i128. Anyone can check it before the call. */
  predicate Fits(plan: Plan, amount: i128) {
    InI128(amount * plan.feeBps) && SharesFit(Net(plan, amount), plan.beneficiaries)
  }

  /** Fee and shares are the exact ones, rounded toward zero. */
  predicate IsExact(plan: Plan, amount: i128) {
    && Fee(plan, amount) == TruncDiv(amount * plan.feeBps, 10000)
    && forall i | 0 <= i < |plan.beneficiaries| ::
         ShareOf(Net(plan, amount), plan.beneficiaries[i].bps)
         == TruncDiv(Net(plan, amount) * plan.beneficiaries[i].bps, 10000)
  }

  /** The computed fee and shares are exact if and only if nothing wraps. */
  lemma SplitIsExactIff(plan: Plan, amount: i128)
    ensures IsExact(plan, amount) <==> Fits(plan, amount)
  {
    QuotientIsExactIff(amount * plan.feeBps, 10000);
    forall i | 0 <= i < |plan.beneficiaries|
      ensures ShareOf(Net(plan, amount), plan.beneficiaries[i].bps)
              == TruncDiv(Net(plan, amount) * plan.beneficiaries[i].bps, 10000)
              <==> InI128(Net(plan, amount) * plan.beneficiaries[i].bps)
    {
      QuotientIsExactIff(Net(plan, amount) * plan.beneficiaries[i].bps, 10000);
    }
  }

  /** The net amount does not wrap if the fee does not. */
  lemma NetIsExact(plan: Plan, amount: i128)
    requires plan.feeBps == PROTOCOL_FEE_BPS && InI128(amount * plan.feeBps)
    ensures Net(plan, amount) == amount - Fee(plan, amount)
    ensures if amount >= 0 then 0 <= Fee(plan, amount) <= amount else amount <= Fee(plan, amount) <= 0
  {
  }

  /** Everything fits for amounts up to a ten-thousandth of the i128 range. */
  lemma SmallAmountsFit(plan: Plan, amount: i128)
    requires Complete(plan) && -I128_MAX <= 10000 * amount <= I128_MAX
    ensures Fits(plan, amount)
  {
    NetIsExact(plan, amount);
    var net := Net(plan, amount);
    forall i | 0 <= i < |plan.beneficiaries| ensures InI128(net * plan.beneficiaries[i].bps) {
      ShareWithinSum(plan.beneficiaries, i);
      BoundedProduct(net, plan.beneficiaries[i].bps);
    }
  }

  lemma BoundedProduct(net: int, bps: nat)
    requires bps <= 10000 && -I128_MAX <= 10000 * net <= I128_MAX
    ensures InI128(net * bps)
  {
    if net >= 0 {
      assert net * bps <= net * 10000;
    } else {
      assert net * bps >= net * 10000;
    }
  }

  lemma {:induction false} ShareWithinSum(list: seq<Share>, i: nat)
    requires i < |list|
    ensures list[i].bps <= SumBps(list)
    decreases |list|
  {
    if i < |list| - 1 {
      ShareWithinSum(list[..|list| - 1], i);
    }
  }

  // ---------- Rounding ----------

  function SumShares(net: i128, list: seq<Share>): int {
    if list == [] then 0 else SumShares(net, list[..|list| - 1]) + ShareOf(net, list[|list| - 1].bps)
  }

  /** One share of a net amount: at most the exact one, less than a unit below it if it fits,
      and short of more than 2^128 ten-thousandths less one unit if it wraps. */
  lemma ShareBounds(net: i128, bps: u32)
    requires net >= 0
    ensures 10000 * ShareOf(net, bps) <= net * bps
    ensures InI128(net * bps) ==> net * bps - 9999 <= 10000 * ShareOf(net, bps)
    ensures !InI128(net * bps) ==> 10000 * ShareOf(net, bps) <= net * bps - I128_RANGE + 9999
  {
    assert net * bps >= 0;
    QuotientIsNear(Wrap128(net * bps), 10000);
  }

  /** The same for the sum of all shares. */
  ghost predicate SumBounds(net: i128, list: seq<Share>) {
    var exact, sum := net * SumBps(list), 10000 * SumShares(net, list);
    && sum <= exact
    && if SharesFit(net, list) then exact - 9999 * |list| <= sum else sum <= exact - I128_RANGE + 9999
  }

  lemma {:induction false} SharesBounds(net: i128, list: seq<Share>)
    requires net >= 0
    ensures SumBounds(net, list)
    decreases |list|
  {
    if list != [] {
      var front, last := list[..|list| - 1], list[|list| - 1];
      assert list == front + [last];
      SharesBounds(net, front);
      OneMoreShare(net, front, last);
    }
  }

  lemma OneMoreShare(net: i128, front: seq<Share>, last: Share)
    requires net >= 0 && SumBounds(net, front)
    ensures SumBounds(net, front + [last])
  {
    var list := front + [last];
    assert list[..|list| - 1] == front;
    ShareBounds(net, last.bps);
    SharesFitSnoc(net, front, last);
    TimesSum(net, SumBps(front), last.bps);
  }

  lemma TimesSum(a: int, b: int, c: int)
    ensures a * (b + c) == a * b + a * c
  {
  }

  lemma SharesFitSnoc(net: i128, front: seq<Share>, last: Share)
    ensures SharesFit(net, front + [last]) <==> SharesFit(net, front) && InI128(net * last.bps)
  {
    var list := front + [last];
    assert list[|front|] == last && forall i | 0 <= i < |front| :: list[i] == front[i];
  }

  predicate ConservesUpToDust(plan: Plan, amount: i128) {
    var fee := Fee(plan, amount);
    var dust := amount - fee - SumShares(Net(plan, amount), plan.beneficiaries);
    0 <= fee <= amount && 0 <= dust <= |plan.beneficiaries| - 1
  }

  /** Conservation with an exact bound on the dust. For a positive amount, fee, shares and dust
      add up to the amount, with at most one unit of dust a beneficiary less one, if and only
      if the fee does not wrap to a negative number and no share wraps; in particular if all
      products fit. (A stored list has fewer than 2^32 entries.) */
  lemma SplitConserves(plan: Plan, amount: i128)
    requires amount > 0 && Complete(plan) && |plan.beneficiaries| <= U32_MAX
    ensures ConservesUpToDust(plan, amount)
            <==> Fee(plan, amount) >= 0 && SharesFit(Net(plan, amount), plan.beneficiaries)
    ensures Fits(plan, amount) ==> ConservesUpToDust(plan, amount)
  {
    var fee, net, list := Fee(plan, amount), Net(plan, amount), plan.beneficiaries;
    if InI128(amount * plan.feeBps) {
      NetIsExact(plan, amount);
    }
    if fee >= 0 {
      QuotientIsNear(Wrap128(amount * plan.feeBps), 10000);
      assert 0 <= fee <= amount && InI128(amount);
      assert InI128(amount - fee);
      SharesBounds(net, list);
    }
  }

  /** So in every run from deployment: a split of a stored plan whose shares fit a u32 conserves
      a positive amount up to the dust under the same condition. */
  lemma SplitsAlwaysConserve(admin: Address, feeAddress: Address, tokens: Balances, txs: seq<RevenueTx>,
                             project: string, amount: i128)
    requires project in Run(AtDeployment(admin, feeAddress, tokens), txs).revenue.plans && amount > 0
    requires var list := Run(AtDeployment(admin, feeAddress, tokens), txs).revenue.plans[project].beneficiaries;
             SumBps(list) <= U32_MAX && |list| <= U32_MAX
    ensures var plan := Run(AtDeployment(admin, feeAddress, tokens), txs).revenue.plans[project];
            && (ConservesUpToDust(plan, amount)
                <==> Fee(plan, amount) >= 0 && SharesFit(Net(plan, amount), plan.beneficiaries))
            && (Fits(plan, amount) ==> ConservesUpToDust(plan, amount))
  {
    PlansAlwaysComplete(admin, feeAddress, tokens, txs);
    SplitConserves(Run(AtDeployment(admin, feeAddress, tokens), txs).revenue.plans[project], amount);
  }

  /** The largest amount: fee and share wrap to nothing, so that the distribution succeeds and
      pays nobody, while a small amount pays. */
  lemma WrappedAmountCounterexample(who: Address)
    ensures var plan := Plan([Share(who, 10000)], PROTOCOL_FEE_BPS);
            && Complete(plan) && !ConservesUpToDust(plan, I128_MAX)
            && TotalPaid(plan, I128_MAX) == 0 && TotalPaid(plan, 10000) == 10000
  {
    var plan := Plan([Share(who, 10000)], PROTOCOL_FEE_BPS);
    assert Wrap128(I128_MAX * 50) == -50 && Fee(plan, I128_MAX) == 0 && Net(plan, I128_MAX) == I128_MAX;
    assert Wrap128(I128_MAX * 10000) == -10000 && ShareOf(I128_MAX, 10000) == -1;
    OneShare(I128_MAX, who, 10000);
    assert Fee(plan, 10000) == 50 && Net(plan, 10000) == 9950 && ShareOf(9950, 10000) == 9950;
    OneShare(9950, who, 10000);
  }

  lemma OneShare(net: i128, who: Address, bps: u32)
    ensures var list, due := [Share(who, bps)], ShareOf(net, bps);
            && SumBps(list) == bps && SumShares(net, list) == due
            && PositiveShares(net, list) == if due > 0 then due else 0
  {
    var list := [Share(who, bps)];
    assert list[..|list| - 1] == [];
  }

  // ---------- Monotonicity ----------

  /** What `who` receives from a distribution, as fee address and in all its shares. */
  function Received(list: seq<Share>, net: i128, who: Address): int {
    if list == [] then 0
    else
      var last := list[|list| - 1];
      Received(list[..|list| - 1], net, who)
      + (if last.beneficiary == who && ShareOf(net, last.bps) > 0 then ShareOf(net, last.bps) else 0)
  }

  function Payout(s: RevenueState, plan: Plan, amount: i128, who: Address): int {
    var fee := Fee(plan, amount);
    (if who == s.feeAddress && fee > 0 then fee else 0) + Received(plan.beneficiaries, Net(plan, amount), who)
  }

  lemma DivMonotone(a: int, b: int, m: nat)
    requires a <= b
    ensures TruncDiv(a * m, 10000) <= TruncDiv(b * m, 10000)
  {
    assert a * m <= b * m;
  }

  lemma {:induction false} ReceivedMonotone(list: seq<Share>, n1: i128, n2: i128, who: Address)
    requires n1 <= n2 && SharesFit(n1, list) && SharesFit(n2, list)
    ensures Received(list, n1, who) <= Received(list, n2, who)
  {
    if list != [] {
      var front, last := list[..|list| - 1], list[|list| - 1];
      assert list == front + [last];
      SharesFitSnoc(n1, front, last);
      SharesFitSnoc(n2, front, last);
      ReceivedMonotone(front, n1, n2, who);
      DivMonotone(n1, n2, last.bps);
    }
  }

  /** Paying more never gives any recipient less, as long as nothing wraps. */
  lemma PayoutMonotone(s: RevenueState, plan: Plan, a: i128, b: i128, who: Address)
    requires a <= b && plan.feeBps == PROTOCOL_FEE_BPS && Fits(plan, a) && Fits(plan, b)
    ensures Payout(s, plan, a, who) <= Payout(s, plan, b, who)
  {
    NetIsExact(plan, a);
    NetIsExact(plan, b);
    ReceivedMonotone(plan.beneficiaries, Net(plan, a), Net(plan, b), who);
  }

  /** If a payment fits, so does every smaller one. */
  lemma FitsDownward(plan: Plan, a: i128, b: i128)
    requires 0 <= a <= b && plan.feeBps == PROTOCOL_FEE_BPS && Fits(plan, b)
    ensures Fits(plan, a)
  {
    NetIsExact(plan, a);
    NetIsExact(plan, b);
    var list := plan.beneficiaries;
    forall i | 0 <= i < |list| ensures InI128(Net(plan, a) * list[i].bps) {
      SmallerProduct(Net(plan, a), Net(plan, b), list[i].bps);
    }
  }

  lemma SmallerProduct(a: int, b: int, c: nat)
    requires 0 <= a <= b
    ensures 0 <= a * c <= b * c
  {
  }

  // ---------- What a distribution does to the ledger ----------

  /** Everything a distribution pays out. */
  function TotalPaid(plan: Plan, amount: i128): int {
    var fee := Fee(plan, amount);
    (if fee > 0 then fee else 0) + PositiveShares(Net(plan, amount), plan.beneficiaries)
  }

  function PositiveShares(net: i128, list: seq<Share>): (sum: int)
    ensures sum >= 0
  {
    if list == [] then 0
    else
      var due := ShareOf(net, list[|list| - 1].bps);
      PositiveShares(net, list[..|list| - 1]) + (if due > 0 then due else 0)
  }

  lemma {:induction false} SharesLedger(tokens: Balances, env: Env, asset: Address, from: Address, net: i128,
                                        list: seq<Share>, tokens': Balances)
    requires PayShares(tokens, env, asset, from, net, list) == Ok(tokens')
    ensures forall t, h :: BalanceOf(tokens', t, h) == BalanceOf(tokens, t, h)
              + (if t == asset then Received(list, net, h) else 0)
              - (if (t, h) == (asset, from) then PositiveShares(net, list) else 0)
    decreases |list|
  {
    if list != [] {
      var n := |list| - 1;
      var mid := PayShares(tokens, env, asset, from, net, list[..n]).value;
      SharesLedger(tokens, env, asset, from, net, list[..n], mid);
      var due := ShareOf(net, list[n].bps);
      if due > 0 {
        TransferMoves(mid, env, asset, from, list[n].beneficiary, due, tokens');
      }
    }
  }

  /** A successful distribution credits every holder with exactly its payout, debits the
      payer with the total, and touches no other token. */
  lemma DistributionLedger(s: RevenueState, tokens: Balances, env: Env, caller: Address, project: string,
                           asset: Address, amount: i128, tokens': Balances)
    requires s.Distribute(tokens, env, caller, project, asset, amount) == Ok((tokens', true))
    ensures var plan := s.plans[project];
            forall t, h :: BalanceOf(tokens', t, h) == BalanceOf(tokens, t, h)
              + (if t == asset then Payout(s, plan, amount, h) else 0)
              - (if (t, h) == (asset, caller) then TotalPaid(plan, amount) else 0)
  {
    var plan := s.plans[project];
    var fee := Fee(plan, amount);
    var mid := Pay(tokens, env, asset, caller, s.feeAddress, fee).value;
    if fee > 0 {
      TransferMoves(tokens, env, asset, caller, s.feeAddress, fee, mid);
    }
    SharesLedger(mid, env, asset, caller, Net(plan, amount), plan.beneficiaries, tokens');
  }

  /** The sum of the balances of `holders`. */
  function Supply(tokens: Balances, token: Address, holders: seq<Address>): int {
    if holders == [] then 0
    else Supply(tokens, token, holders[..|holders| - 1]) + BalanceOf(tokens, token, holders[|holders| - 1])
  }

  lemma {:induction false} TransferMovesSupply(b: Balances, env: Env, token: Address, from: Address, to: Address,
                                               amount: int, b': Balances, t: Address, holders: seq<Address>)
    requires Transferred(b, env, token, from, to, amount) == Ok(b') && Distinct(holders)
    ensures Supply(b', t, holders) == Supply(b, t, holders)
              + (if t == token && to in holders then amount else 0)
              - (if t == token && from in holders then amount else 0)
    decreases |holders|
  {
    TransferMoves(b, env, token, from, to, amount, b');
    if holders != [] {
      var front, last := holders[..|holders| - 1], holders[|holders| - 1];
      TransferMovesSupply(b, env, token, from, to, amount, b', t, front);
      assert holders == front + [last] && last !in front;
    }
  }

  lemma {:induction false} SharesKeepSupply(b: Balances, env: Env, asset: Address, from: Address, net: i128,
                                            list: seq<Share>, b': Balances, t: Address, holders: seq<Address>)
    requires PayShares(b, env, asset, from, net, list) == Ok(b') && Distinct(holders)
    requires from in holders && forall i | 0 <= i < |list| :: list[i].beneficiary in holders
    ensures Supply(b', t, holders) == Supply(b, t, holders)
    decreases |list|
  {
    if list != [] {
      var n := |list| - 1;
      var mid := PayShares(b, env, asset, from, net, list[..n]).value;
      SharesKeepSupply(b, env, asset, from, net, list[..n], mid, t, holders);
      if ShareOf(net, list[n].bps) > 0 {
        TransferMovesSupply(mid, env, asset, from, list[n].beneficiary, ShareOf(net, list[n].bps), b', t, holders);
      }
    }
  }

  /** No distribution creates or destroys tokens: the supply over any set of accounts that
      includes the payer and the recipients is unchanged. */
  lemma SupplyUnchanged(s: RevenueState, tokens: Balances, env: Env, caller: Address, project: string, asset: Address,
                        amount: i128, tokens': Balances, t: Address, holders: seq<Address>)
    requires s.Distribute(tokens, env, caller, project, asset, amount) == Ok((tokens', true))
    requires Distinct(holders) && caller in holders && s.feeAddress in holders
    requires forall i | 0 <= i < |s.plans[project].beneficiaries| ::
               s.plans[project].beneficiaries[i].beneficiary in holders
    ensures Supply(tokens', t, holders) == Supply(tokens, t, holders)
  {
    var plan := s.plans[project];
    var fee := Fee(plan, amount);
    var mid := Pay(tokens, env, asset, caller, s.feeAddress, fee).value;
    if fee > 0 {
      TransferMovesSupply(tokens, env, asset, caller, s.feeAddress, fee, mid, t, holders);
    }
    SharesKeepSupply(mid, env, asset, caller, Net(plan, amount), plan.beneficiaries, tokens', t, holders);
  }

  // ---------- Amounts that move nothing ----------

  /** Neither fee nor any share is positive. */
  predicate NothingDue(plan: Plan, amount: i128) {
    Fee(plan, amount) <= 0 && NoShareDue(Net(plan, amount), plan.beneficiaries)
  }

  predicate NoShareDue(net: i128, list: seq<Share>) {
    forall i | 0 <= i < |list| :: ShareOf(net, list[i].bps) <= 0
  }

  predicate IsRecipient(s: RevenueState, plan: Plan, who: Address) {
    who == s.feeAddress || exists i | 0 <= i < |plan.beneficiaries| :: plan.beneficiaries[i].beneficiary == who
  }

  /** A successful distribution moves nothing if nothing is due; a payer that is no recipient
      moves nothing only if nothing is due. */
  lemma MovesNothingIff(s: RevenueState, tokens: Balances, env: Env, caller: Address, project: string,
                        asset: Address, amount: i128)
    requires s.Distribute(tokens, env, caller, project, asset, amount).Ok?
    ensures NothingDue(s.plans[project], amount) ==>
              s.Distribute(tokens, env, caller, project, asset, amount) == Ok((tokens, true))
    ensures !IsRecipient(s, s.plans[project], caller) ==>
              (s.Distribute(tokens, env, caller, project, asset, amount) == Ok((tokens, true))
               <==> NothingDue(s.plans[project], amount))
  {
    var plan := s.plans[project];
    if NothingDue(plan, amount) {
      NoSharesNoPayments(tokens, env, asset, caller, Net(plan, amount), plan.beneficiaries);
    } else if !IsRecipient(s, plan, caller) {
      PayerPays(s, tokens, env, caller, project, asset, amount);
    }
  }

  lemma PayerPays(s: RevenueState, tokens: Balances, env: Env, caller: Address, project: string, asset: Address,
                  amount: i128)
    requires s.Distribute(tokens, env, caller, project, asset, amount).Ok?
    requires !IsRecipient(s, s.plans[project], caller) && !NothingDue(s.plans[project], amount)
    ensures s.Distribute(tokens, env, caller, project, asset, amount).value.0 != tokens
  {
    var plan := s.plans[project];
    var tokens' := s.Distribute(tokens, env, caller, project, asset, amount).value.0;
    DistributionLedger(s, tokens, env, caller, project, asset, amount, tokens');
    ReceivedBounds(plan.beneficiaries, Net(plan, amount), caller);
    PositiveSharesZeroIff(Net(plan, amount), plan.beneficiaries);
    assert BalanceOf(tokens', asset, caller) == BalanceOf(tokens, asset, caller) - TotalPaid(plan, amount);
  }

  /** A zero or negative amount moves nothing, if no product wraps. */
  lemma NonPositiveMovesNothing(s: RevenueState, tokens: Balances, env: Env, caller: Address, project: string,
                                asset: Address, amount: i128)
    requires s.Distribute(tokens, env, caller, project, asset, amount).Ok?
    requires amount <= 0 && s.plans[project].feeBps == PROTOCOL_FEE_BPS && Fits(s.plans[project], amount)
    ensures NothingDue(s.plans[project], amount)
    ensures s.Distribute(tokens, env, caller, project, asset, amount) == Ok((tokens, true))
  {
    var plan := s.plans[project];
    NetIsExact(plan, amount);
    NegativeSharesNotDue(Net(plan, amount), plan.beneficiaries);
    MovesNothingIff(s, tokens, env, caller, project, asset, amount);
  }

  lemma {:induction false} NoSharesNoPayments(tokens: Balances, env: Env, asset: Address, from: Address, net: i128,
                                              list: seq<Share>)
    requires NoShareDue(net, list)
    ensures PayShares(tokens, env, asset, from, net, list) == Ok(tokens)
    decreases |list|
  {
    if list != [] {
      NoSharesNoPayments(tokens, env, asset, from, net, list[..|list| - 1]);
    }
  }

  lemma {:induction false} PositiveSharesZeroIff(net: i128, list: seq<Share>)
    ensures PositiveShares(net, list) == 0 <==> NoShareDue(net, list)
  {
    if list != [] {
      var front, last := list[..|list| - 1], list[|list| - 1];
      PositiveSharesZeroIff(net, front);
      assert list == front + [last];
      assert forall i | 0 <= i < |front| :: list[i] == front[i];
    }
  }

  lemma NegativeSharesNotDue(net: i128, list: seq<Share>)
    requires net <= 0 && SharesFit(net, list)
    ensures NoShareDue(net, list)
  {
    forall i | 0 <= i < |list| ensures ShareOf(net, list[i].bps) <= 0 {
      assert net * list[i].bps <= 0;
      QuotientIsNear(net * list[i].bps, 10000);
    }
  }

  /** A negative amount that pays: the share of the smallest amount but one wraps to 1. */
  lemma NegativeAmountCounterexample(who: Address)
    ensures var plan := Plan([Share(who, 10000)], PROTOCOL_FEE_BPS);
            Complete(plan) && TotalPaid(plan, -I128_MAX) == 1
  {
    var plan := Plan([Share(who, 10000)], PROTOCOL_FEE_BPS);
    assert Wrap128(-I128_MAX * 50) == 50 && Fee(plan, -I128_MAX) == 0 && Net(plan, -I128_MAX) == -I128_MAX;
    assert Wrap128(-I128_MAX * 10000) == 10000 && ShareOf(-I128_MAX, 10000) == 1;
    OneShare(-I128_MAX, who, 10000);
  }

  // ---------- Funds ----------

  lemma {:induction false} SharesSucceed(tokens: Balances, env: Env, asset: Address, from: Address, net: i128,
                                         list: seq<Share>)
    requires from in env.auth
    ensures BalanceOf(tokens, asset, from) >= PositiveShares(net, list) ==>
              PayShares(tokens, env, asset, from, net, list).Ok?
    ensures (forall i | 0 <= i < |list| :: list[i].beneficiary != from) ==>
              PayShares(tokens, env, asset, from, net, list).Ok? ==>
              BalanceOf(tokens, asset, from) >= PositiveShares(net, list) || PositiveShares(net, list) == 0
    decreases |list|
  {
    if list != [] {
      var n := |list| - 1;
      var front := list[..n];
      SharesSucceed(tokens, env, asset, from, net, front);
      if PayShares(tokens, env, asset, from, net, front).Ok? {
        var mid := PayShares(tokens, env, asset, from, net, front).value;
        SharesLedger(tokens, env, asset, from, net, front, mid);
        ReceivedBounds(front, net, from);
      }
    }
  }

  lemma {:induction false} ReceivedBounds(list: seq<Share>, net: i128, who: Address)
    ensures Received(list, net, who) >= 0
    ensures (forall i | 0 <= i < |list| :: list[i].beneficiary != who) ==> Received(list, net, who) == 0
  {
    if list != [] {
      ReceivedBounds(list[..|list| - 1], net, who);
    }
  }

  /** Anyone who holds what is paid out can distribute; a payer who is not itself a recipient
      can distribute exactly then. */
  lemma SucceedsExactlyWhenFunded(s: RevenueState, tokens: Balances, env: Env, caller: Address, project: string,
                                  asset: Address, amount: i128)
    requires caller in env.auth && BalanceOf(tokens, asset, caller) >= 0 && project in s.plans
    ensures BalanceOf(tokens, asset, caller) >= TotalPaid(s.plans[project], amount) ==>
              s.Distribute(tokens, env, caller, project, asset, amount).Ok?
    ensures !IsRecipient(s, s.plans[project], caller) ==>
              (s.Distribute(tokens, env, caller, project, asset, amount).Ok?
               <==> BalanceOf(tokens, asset, caller) >= TotalPaid(s.plans[project], amount))
  {
    var plan := s.plans[project];
    var fee := Fee(plan, amount);
    var first := Pay(tokens, env, asset, caller, s.feeAddress, fee);
    if first.Ok? {
      if fee > 0 {
        TransferMoves(tokens, env, asset, caller, s.feeAddress, fee, first.value);
      }
      SharesSucceed(first.value, env, asset, caller, Net(plan, amount), plan.beneficiaries);
    }
  }

  // ---------- When each call commits, and what it leaves behind ----------

  /** `configure` commits if and only if the stored admin signed it, the project is named, there
      are beneficiaries, and their shares wrap to 10000. It stores exactly these, with a fee of
      0.5 %, and leaves the plans of all other projects alone. */
  lemma ConfigureOutcome(w: RevenueWorld, env: Env, caller: Address, project: string, list: seq<Share>)
    ensures Step(w, RevenueTx(env, Configure(caller, project, list))).Ok? <==>
              && caller in env.auth && caller == w.revenue.admin && |project| > 0 && |list| > 0
              && SumBps(list) % 4_294_967_296 == 10000
    ensures Step(w, RevenueTx(env, Configure(caller, project, list))).Ok? ==>
              var w' := Apply(w, RevenueTx(env, Configure(caller, project, list)));
              && project in w'.revenue.plans && w'.revenue.plans[project] == Plan(list, 50)
              && (forall p | p != project :: (p in w'.revenue.plans <==> p in w.revenue.plans)
                                             && (p in w.revenue.plans ==> w'.revenue.plans[p] == w.revenue.plans[p]))
              && w'.revenue.admin == w.revenue.admin && w'.revenue.feeAddress == w.revenue.feeAddress
              && w'.tokens == w.tokens
  {
  }

  /** `configure` fails with the first of these faults, and succeeds without any. */
  lemma ConfigureRefusals(w: RevenueWorld, env: Env, caller: Address, project: string, list: seq<Share>)
    ensures Refused(Step(w, RevenueTx(env, Configure(caller, project, list)))) ==
            First(caller !in env.auth, HostAuth,
            First(caller != w.revenue.admin, NotAuthorized,
            First(|project| == 0 || |list| == 0, InvalidInput,
            First(SumBps(list) % 4_294_967_296 != 10000, InvalidInput, None))))
  {
  }

  /** `distribute` fails for a payer that did not sign and for a project without a plan, and
      never changes a plan. */
  lemma DistributeNeedsPayerAndPlan(w: RevenueWorld, env: Env, caller: Address, project: string, asset: Address,
                                    amount: i128)
    ensures caller !in env.auth ==> Step(w, RevenueTx(env, Distribute(caller, project, asset, amount))) == Err(HostAuth)
    ensures caller in env.auth && project !in w.revenue.plans ==>
              Step(w, RevenueTx(env, Distribute(caller, project, asset, amount))) == Err(NotFound)
    ensures Apply(w, RevenueTx(env, Distribute(caller, project, asset, amount))).revenue == w.revenue
  {
  }

  /** What a recipient gets from a small amount: 0.5 % as fee address, and of the remaining net
      amount the sum of its shares, each rounded down. */
  lemma {:induction false} SmallPayout(s: RevenueState, plan: Plan, amount: i128, who: Address)
    requires Complete(plan) && 0 <= amount && 10000 * amount <= I128_MAX
    ensures var fee := amount * 50 / 10000;
            Payout(s, plan, amount, who)
            == (if who == s.feeAddress then fee else 0) + SharesOf(plan.beneficiaries, amount - fee, who)
  {
    SmallAmountsFit(plan, amount);
    NetIsExact(plan, amount);
    ReceivedIsShares(plan.beneficiaries, Net(plan, amount), who);
  }

  /** The shares of `who` in a net amount, each rounded down, added up. */
  function SharesOf(list: seq<Share>, net: int, who: Address): int {
    if list == [] then 0
    else SharesOf(list[1..], net, who) + (if list[0].beneficiary == who then net * list[0].bps / 10000 else 0)
  }

  lemma {:induction false} ReceivedIsShares(list: seq<Share>, net: i128, who: Address)
    requires net >= 0 && SharesFit(net, list)
    ensures Received(list, net, who) == SharesOf(list, net, who)
  {
    if list != [] {
      var front, last := list[..|list| - 1], list[|list| - 1];
      assert list == front + [last];
      SharesFitSnoc(net, front, last);
      ReceivedIsShares(front, net, who);
      ShareIsRounded(net, last.bps);
      SharesOfSnoc(front, last, net, who);
    }
  }

  lemma ShareIsRounded(net: i128, bps: u32)
    requires net >= 0 && InI128(net * bps)
    ensures ShareOf(net, bps) == net * bps / 10000 && ShareOf(net, bps) >= 0
  {
    assert net * bps >= 0;
  }

  lemma {:induction false} SharesOfSnoc(front: seq<Share>, last: Share, net: int, who: Address)
    ensures SharesOf(front + [last], net, who)
            == SharesOf(front, net, who) + (if last.beneficiary == who then net * last.bps / 10000 else 0)
    decreases |front|
  {
    if front == [] {
      assert front + [last] == [last];
    } else {
      assert (front + [last])[1..] == front[1..] + [last];
      SharesOfSnoc(front[1..], last, net, who);
    }
  }
}
