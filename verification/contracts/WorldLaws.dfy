/** What any transaction of the system does to the registry, and what follows for runs. */
module WorldLaws {
  import opened Common
  import opened Registry
  import opened RegistryLaws
  import opened VotingLaws
  import opened Tracker
  import opened World

  lemma RunSnoc(d: Deployment, w: World, txs: seq<Tx>, tx: Tx)
    ensures Run(d, w, txs + [tx]) == Apply(d, Run(d, w, txs), tx)
  {
    assert (txs + [tx])[..|txs|] == txs;
  }

  /** The registry calls made on behalf of a transaction that commits. */
  function RegistryOps(d: Deployment, w: World, tx: Tx): seq<RegistryTx> {
    if Step(d, w, tx).Err? then [] else
    match tx.call
    case Direct(call) => [RegistryTx(tx.env, call)]
    case CreateOffer(seller, creditId, _, _, _, _) =>
      [RegistryTx(tx.env.CallFrom(d.market), TransferCredit(seller, d.market, creditId))]
    case BuyCredits(buyer, id, _) =>
      if id in w.market.offers then
        [RegistryTx(tx.env.CallFrom(d.market), TransferCredit(d.market, buyer, w.market.offers[id].creditId))]
      else []
    case CancelOffer(_, id) =>
      if id in w.market.offers then
        [RegistryTx(tx.env.CallFrom(d.market),
                    TransferCredit(d.market, w.market.offers[id].seller, w.market.offers[id].creditId))]
      else []
    case Retire(_, input) => RetireOps(d, tx.env, [input])
    case BatchRetire(_, inputs) => RetireOps(d, tx.env, inputs)
    case BridgeIn(bridger, _, _, _, _, metadata) =>
      [RegistryTx(tx.env.CallFrom(d.bridge), MintBridged(d.bridge, bridger, metadata))]
    case BridgeOut(_, id) => [RegistryTx(tx.env.CallFrom(d.bridge), MarkRetired(d.bridge, id))]
    case _ => []
  }

  function RetireOps(d: Deployment, env: Env, inputs: seq<RetireInput>): seq<RegistryTx> {
    seq(|inputs|, i requires 0 <= i < |inputs| =>
      RegistryTx(env.CallFrom(d.tracker), MarkRetired(d.tracker, inputs[i].creditId)))
  }

  lemma {:induction false} RetireEachOps(d: Deployment, t: TrackerState, r: RegistryState, env: Env, owner: Address,
                                         inputs: seq<RetireInput>)
    requires t.RetireEach(d.tracker, r, env, owner, inputs).Ok?
    ensures t.RetireEach(d.tracker, r, env, owner, inputs).value.0.1 == RunRegistry(r, RetireOps(d, env, inputs))
    decreases |inputs|
  {
    if inputs != [] {
      var n := |inputs| - 1;
      RetireEachOps(d, t, r, env, owner, inputs[..n]);
      RetireOpsSnoc(d, r, env, inputs);
      var (t', r') := t.RetireEach(d.tracker, r, env, owner, inputs[..n]).value.0;
      RetireOp(d, t', r', env, owner, inputs[n]);
    }
  }

  lemma RetireOpsSnoc(d: Deployment, r: RegistryState, env: Env, inputs: seq<RetireInput>)
    requires inputs != []
    ensures var n := |inputs| - 1;
            RunRegistry(r, RetireOps(d, env, inputs))
            == Commit(RunRegistry(r, RetireOps(d, env, inputs[..n])),
                      RegistryTx(env.CallFrom(d.tracker), MarkRetired(d.tracker, inputs[n].creditId)))
  {
    var n := |inputs| - 1;
    assert RetireOps(d, env, inputs)[..n] == RetireOps(d, env, inputs[..n]);
  }

  lemma RetireOp(d: Deployment, t: TrackerState, r: RegistryState, env: Env, owner: Address, input: RetireInput)
    requires t.Retire(d.tracker, r, env, owner, input).Ok?
    ensures t.Retire(d.tracker, r, env, owner, input).value.0.1
            == Commit(r, RegistryTx(env.CallFrom(d.tracker), MarkRetired(d.tracker, input.creditId)))
  {
  }

  lemma OneOp(s: RegistryState, op: RegistryTx)
    ensures RunRegistry(s, [op]) == Commit(s, op)
  {
    assert [op][..0] == [];
  }

  /** A transaction changes the registry by its `RegistryOps` and by nothing else. */
  lemma OpsExplainRegistry(d: Deployment, w: World, tx: Tx)
    ensures Apply(d, w, tx).registry == RunRegistry(w.registry, RegistryOps(d, w, tx))
  {
    if Step(d, w, tx).Ok? {
      match tx.call {
        case BatchRetire(owner, inputs) => RetireEachOps(d, w.tracker, w.registry, tx.env, owner, inputs);
        case UpdateRegistryRoot(_, _, _, _) => NoOpExplains(d, w, tx);
        case TransferToken(_, _, _, _) => NoOpExplains(d, w, tx);
        case CreateOffer(_, _, _, _, _, _) => MarketOpExplains(d, w, tx);
        case BuyCredits(_, _, _) => MarketOpExplains(d, w, tx);
        case CancelOffer(_, _) => MarketOpExplains(d, w, tx);
        case Direct(_) => OneOpExplains(d, w, tx);
        case Retire(_, _) => OneOpExplains(d, w, tx);
        case BridgeIn(_, _, _, _, _, _) => OneOpExplains(d, w, tx);
        case BridgeOut(_, _) => OneOpExplains(d, w, tx);
      }
    }
  }

  lemma NoOpExplains(d: Deployment, w: World, tx: Tx)
    requires tx.call.UpdateRegistryRoot? || tx.call.TransferToken?
    ensures Apply(d, w, tx).registry == RunRegistry(w.registry, RegistryOps(d, w, tx))
  {
  }

  lemma MarketOpExplains(d: Deployment, w: World, tx: Tx)
    requires (tx.call.CreateOffer? || tx.call.BuyCredits? || tx.call.CancelOffer?) && Step(d, w, tx).Ok?
    ensures Apply(d, w, tx).registry == RunRegistry(w.registry, RegistryOps(d, w, tx))
  {
    OneOp(w.registry, RegistryOps(d, w, tx)[0]);
  }

  lemma OneOpExplains(d: Deployment, w: World, tx: Tx)
    requires (tx.call.Direct? || tx.call.Retire? || tx.call.BridgeIn? || tx.call.BridgeOut?) && Step(d, w, tx).Ok?
    ensures Apply(d, w, tx).registry == RunRegistry(w.registry, RegistryOps(d, w, tx))
  {
    var ops := RegistryOps(d, w, tx);
    OneOp(w.registry, ops[0]);
    assert ops == [ops[0]];
  }

  /** The registry calls of one transaction: a direct one even if it reverts, or those made on
      behalf of any other transaction that commits. */
  function CallsOf(d: Deployment, w: World, tx: Tx): seq<RegistryTx> {
    if tx.call.Direct? then [RegistryTx(tx.env, tx.call.registryCall)] else RegistryOps(d, w, tx)
  }

  function RegistryCalls(d: Deployment, w: World, txs: seq<Tx>): seq<RegistryTx> {
    if txs == [] then []
    else
      var n := |txs| - 1;
      RegistryCalls(d, w, txs[..n]) + CallsOf(d, Run(d, w, txs[..n]), txs[n])
  }

  lemma CallsExplainRegistry(d: Deployment, w: World, tx: Tx)
    ensures Apply(d, w, tx).registry == RunRegistry(w.registry, CallsOf(d, w, tx))
    ensures !IsConfigUpdate(tx) ==> NoConfigUpdates(CallsOf(d, w, tx))
  {
    if tx.call.Direct? {
      OneOp(w.registry, RegistryTx(tx.env, tx.call.registryCall));
    } else {
      OpsExplainRegistry(d, w, tx);
    }
  }

  predicate NoConfigUpdates(ops: seq<RegistryTx>) {
    forall i | 0 <= i < |ops| :: !ops[i].call.UpdateConfig?
  }

  /** A run of the system is, for the registry, the run of its registry calls. */
  lemma {:induction false} RegistryRuns(d: Deployment, w: World, txs: seq<Tx>)
    ensures Run(d, w, txs).registry == RunRegistry(w.registry, RegistryCalls(d, w, txs))
    ensures (forall i | 0 <= i < |txs| :: !IsConfigUpdate(txs[i])) ==> NoConfigUpdates(RegistryCalls(d, w, txs))
    decreases |txs|
  {
    if txs != [] {
      var n := |txs| - 1;
      RegistryRuns(d, w, txs[..n]);
      CallsExplainRegistry(d, Run(d, w, txs[..n]), txs[n]);
      RunConcat(w.registry, RegistryCalls(d, w, txs[..n]), CallsOf(d, Run(d, w, txs[..n]), txs[n]));
    }
  }

  predicate IsConfigUpdate(tx: Tx) {
    tx.call.Direct? && tx.call.registryCall.UpdateConfig?
  }

  /** Over any run of the whole system, all callers and all contracts included: the voting
      and index invariants hold, and between any two states every credit has only evolved
      as `CreditEvolves` allows. Retired and Rejected are final, and tonnes never change. */
  lemma RegistryOverRuns(d: Deployment, w: World, txs: seq<Tx>)
    requires RegistryInv(w.registry) && IndexInv(w.registry)
    ensures var s := Run(d, w, txs).registry;
            RegistryInv(s) && IndexInv(s) && Evolves(w.registry, s)
  {
    RegistryRuns(d, w, txs);
    RunKeepsInv(w.registry, RegistryCalls(d, w, txs));
  }

  /** While the configuration is not updated, the votes on every credit submitted since stand
      as `Tallied` describes. */
  lemma TallyOverRuns(d: Deployment, w: World, txs: seq<Tx>)
    requires RegistryInv(w.registry) && IndexInv(w.registry)
    requires forall i | 0 <= i < |txs| :: !IsConfigUpdate(txs[i])
    ensures TalliedSince(Run(d, w, txs).registry, w.registry.counter)
  {
    RegistryRuns(d, w, txs);
    FixedConfigTally(w.registry, RegistryCalls(d, w, txs));
  }

  /** Deciding early loses nothing, in any run of the whole system that leaves the
      configuration alone. */
  lemma EarlyDecisionOverRuns(d: Deployment, w: World, txs: seq<Tx>, id: nat)
    requires RegistryInv(w.registry) && IndexInv(w.registry)
    requires w.registry.HasStatus(id, Pending) && w.registry.VotesOn(id) == []
    requires forall i | 0 <= i < |txs| :: !IsConfigUpdate(txs[i])
    requires |Cast(w.registry, RegistryCalls(d, w, txs), id)| >= w.registry.config.quorum
    ensures var s', cast := Run(d, w, txs).registry, Cast(w.registry, RegistryCalls(d, w, txs), id);
            if YesCount(cast[..w.registry.config.quorum]) >= w.registry.config.threshold
            then s'.HasStatus(id, Active) || s'.HasStatus(id, Retired)
            else s'.HasStatus(id, Rejected)
  {
    RegistryRuns(d, w, txs);
    EarlyDecisionIsFullTally(w.registry, RegistryCalls(d, w, txs), id);
  }

  /** The invariants hold from deployment on. */
  lemma RegistryFromGenesis(d: Deployment, admin: Address, threshold: nat, quorum: nat,
                            tokens: map<(Address, Address), int>, txs: seq<Tx>)
    requires 1 <= threshold <= quorum
    ensures var s := Run(d, Genesis(admin, threshold, quorum, tokens), txs).registry; RegistryInv(s) && IndexInv(s)
  {
    InitialisedInv(admin, threshold, quorum);
    RegistryOverRuns(d, Genesis(admin, threshold, quorum, tokens), txs);
  }
}
