/** What an error tells the caller: which faults make a call fail, across all contracts it
    goes through, and which of them its error names. */
module Refusals {
  import opened Common
  import opened Registry
  import opened RegistryEffects
  import opened Tokens
  import opened Market
  import opened Tracker
  import opened Bridge
  import Merkle
  import opened World

  // ---------- Registry ----------

  /** Why `from` cannot hand over credit `id`. */
  function TransferFault(s: RegistryState, id: nat, from: Address): Option<Error> {
    if id !in s.owners then Some(CreditNotFound)
    else First(s.owners[id] != from, CreditNotOwned, InactiveFault(s, id))
  }

  function InactiveFault(s: RegistryState, id: nat): Option<Error> {
    if id !in s.credits then Some(CreditNotFound)
    else First(s.credits[id].status != Active, CreditNotActive, None)
  }

  function VoteFault(s: RegistryState, env: Env, verifier: Address, id: nat): Option<Error> {
    First(verifier !in env.auth, HostAuth,
    First(verifier !in s.verifiers, NotAuthorized,
    First(id !in s.credits, CreditNotFound,
    First(id in s.credits && s.credits[id].status != Pending, CreditNotPending,
    First(exists i | 0 <= i < |s.VotesOn(id)| :: s.VotesOn(id)[i].verifier == verifier, AlreadyVoted, None)))))
  }

  /** Administrative calls other than `update_config` take the signatures of caller and admin. */
  function AdminFault(s: RegistryState, env: Env, admin: Address, otherwise: Option<Error>): Option<Error> {
    First(admin !in env.auth || s.config.admin !in env.auth, HostAuth, otherwise)
  }

  function RegistryFault(s: RegistryState, env: Env, call: RegistryCall): Option<Error> {
    match call
    case SubmitCredit(issuer, m, _) =>
      First(issuer !in env.auth, HostAuth, First(!Acceptable(m), InvalidInput, None))
    case ApproveAndMint(verifier, id, _) => VoteFault(s, env, verifier, id)
    case RejectCredit(verifier, id, _) => VoteFault(s, env, verifier, id)
    case TransferCredit(from, _, id) => First(from !in env.auth, HostAuth, TransferFault(s, id, from))
    case MarkRetired(caller, id) =>
      First(caller !in env.auth, HostAuth, First(caller !in s.retirers, NotAuthorized, InactiveFault(s, id)))
    case UpdateConfig(admin, threshold, quorum, window, feeBps, bufferPct) =>
      First(admin !in env.auth, HostAuth,
      First(admin != s.config.admin, NotAuthorized,
      First(threshold == 0 || threshold > quorum || quorum > 20 || window < 3600 || window > 7_776_000
            || feeBps > 1000 || bufferPct > 50, InvalidInput, None)))
    case MintBridged(bridge, _, m) =>
      First(bridge !in env.auth, HostAuth,
      First(bridge !in s.bridges, NotAuthorized,
      First(!Acceptable(m), InvalidInput, None)))
    case AddVerifier(admin, verifier) =>
      AdminFault(s, env, admin,
      First(verifier in s.verifiers, VerifierAlreadyRegistered,
      First(|s.verifiers| >= 20, InvalidInput, None)))
    case RemoveVerifier(admin, verifier) =>
      AdminFault(s, env, admin, First(verifier !in s.verifiers, VerifierNotFound, None))
    case _ => AdminFault(s, env, call.admin, None)
  }

  /** A registry call fails with the first of these faults, and succeeds without any. */
  lemma RegistryRefusals(s: RegistryState, env: Env, call: RegistryCall)
    ensures Refused(s.Perform(env, call)) == RegistryFault(s, env, call)
  {
    if call.SubmitCredit? || call.MintBridged? {
      NewCreditRefusals(s, env, call);
    } else if call.ApproveAndMint? || call.RejectCredit? {
      VoteRefusals(s, env, call);
    } else if call.UpdateConfig? {
      ConfigRefusals(s, env, call);
    } else if call.TransferCredit? || call.MarkRetired? {
      ActiveCreditRefusals(s, env, call);
    }
  }

  lemma NewCreditRefusals(s: RegistryState, env: Env, call: RegistryCall)
    requires call.SubmitCredit? || call.MintBridged?
    ensures Refused(s.Perform(env, call)) == RegistryFault(s, env, call)
  {
  }

  lemma VoteRefusals(s: RegistryState, env: Env, call: RegistryCall)
    requires call.ApproveAndMint? || call.RejectCredit?
    ensures Refused(s.Perform(env, call)) == RegistryFault(s, env, call)
  {
    BallotRefusals(s, env, call.verifier, call.creditId);
  }

  lemma BallotRefusals(s: RegistryState, env: Env, verifier: Address, id: nat)
    ensures Refused(s.VoteAllowed(env, verifier, id)) == VoteFault(s, env, verifier, id)
  {
    assert HasVoted(s.VotesOn(id), verifier)
        <==> exists i | 0 <= i < |s.VotesOn(id)| :: s.VotesOn(id)[i].verifier == verifier;
  }

  lemma ConfigRefusals(s: RegistryState, env: Env, call: RegistryCall)
    requires call.UpdateConfig?
    ensures Refused(s.Perform(env, call)) == RegistryFault(s, env, call)
  {
  }

  lemma ActiveCreditRefusals(s: RegistryState, env: Env, call: RegistryCall)
    requires call.TransferCredit? || call.MarkRetired?
    ensures Refused(s.Perform(env, call)) == RegistryFault(s, env, call)
  {
  }

  // ---------- The other contracts ----------

  function BuyFault(d: Deployment, w: World, env: Env, buyer: Address, amount: i128, o: Offer): Option<Error> {
    First(o.status != Listed, OfferAlreadyFilled,
    First(o.expiry.Some? && env.now > o.expiry.value, OfferExpired,
    First(amount <= 0 || o.filled + amount > o.amount, InsufficientAmount,
    First(TruncDiv(Wrap128(amount * o.price), 1000) < 0, HostTransfer,
    First(BalanceOf(w.tokens, o.currency, buyer) < TruncDiv(Wrap128(amount * o.price), 1000), HostTransfer,
          TransferFault(w.registry, o.creditId, d.market))))))
  }

  function CancelFault(d: Deployment, w: World, env: Env, caller: Address, o: Offer): Option<Error> {
    First(o.seller != caller && (o.expiry.Some? ==> env.now <= o.expiry.value), OfferNotCancellable,
    First(o.status != Listed, OfferAlreadyFilled, TransferFault(w.registry, o.creditId, d.market)))
  }

  /** Credit `id` is not `owner`'s; `error` is what the contract says then. */
  function OwnerFault(s: RegistryState, id: nat, owner: Address, error: Error, otherwise: Option<Error>)
    : Option<Error> {
    if id !in s.owners then Some(CreditNotFound) else First(s.owners[id] != owner, error, otherwise)
  }

  function Fault(d: Deployment, w: World, env: Env, call: Call): Option<Error>
    requires !call.BatchRetire?
  {
    match call
    case Direct(registryCall) => RegistryFault(w.registry, env, registryCall)
    case CreateOffer(seller, id, price, amount, _, expiry) =>
      First(seller !in env.auth, HostAuth,
      First(amount <= 0 || price <= 0 || (expiry.Some? && expiry.value <= env.now), InvalidInput,
            TransferFault(w.registry, id, seller)))
    case BuyCredits(buyer, id, amount) =>
      First(buyer !in env.auth, HostAuth,
            if id !in w.market.offers then Some(OfferNotFound)
            else BuyFault(d, w, env, buyer, amount, w.market.offers[id]))
    case CancelOffer(caller, id) =>
      First(caller !in env.auth, HostAuth,
            if id !in w.market.offers then Some(OfferNotFound)
            else CancelFault(d, w, env, caller, w.market.offers[id]))
    case Retire(owner, input) =>
      First(owner !in env.auth, HostAuth,
      First(|input.reason| == 0 || |input.beneficiary| == 0 || |input.accountingPeriod| == 0, InvalidInput,
      First(input.creditId in w.tracker.records, CreditAlreadyRetired,
      OwnerFault(w.registry, input.creditId, owner, CreditNotOwned,
      First(d.tracker !in w.registry.retirers, NotAuthorized, InactiveFault(w.registry, input.creditId))))))
    case BridgeIn(bridger, source, serial, leaf, proof, m) =>
      First(bridger !in env.auth, HostAuth,
            if source !in w.bridge.roots then Some(RegistryNotFound)
            else
              First(w.bridge.roots[source].root != Merkle.ClimbByValue(d.sha256, leaf, proof), InvalidProof,
              First((source, serial) in w.bridge.bridged, AlreadyBridged,
              First(d.bridge !in w.registry.bridges, NotAuthorized,
              First(!Acceptable(m), InvalidInput, None)))))
    case BridgeOut(owner, id) =>
      First(owner !in env.auth, HostAuth,
      OwnerFault(w.registry, id, owner, NotAuthorized,
      First(d.bridge !in w.registry.retirers, NotAuthorized, InactiveFault(w.registry, id))))
    case UpdateRegistryRoot(admin, _, _, _) =>
      First(admin !in env.auth, HostAuth, First(admin != w.bridge.admin, NotAuthorized, None))
    case TransferToken(token, from, _, amount) =>
      First(from !in env.auth, HostAuth,
      First(amount < 0 || BalanceOf(w.tokens, token, from) < amount, HostTransfer, None))
  }

  /** A transaction fails with the first of its faults, and succeeds without any. A batch of
      retirements fails like the retirements in turn (`TrackerLaws.BatchRefinesRetire`). */
  lemma FirstFaultIsNamed(d: Deployment, w: World, tx: Tx)
    requires forall id | id in w.market.offers :: 0 <= w.market.offers[id].filled <= w.market.offers[id].amount
    requires !tx.call.BatchRetire?
    ensures Refused(Step(d, w, tx)) == Fault(d, w, tx.env, tx.call)
  {
    match tx.call
    case Direct(call) => DirectRefusals(d, w, tx);
    case CreateOffer(_, _, _, _, _, _) => CreateRefusals(d, w, tx);
    case BuyCredits(_, _, _) => BuyRefusals(d, w, tx);
    case CancelOffer(_, _) => CancelRefusals(d, w, tx);
    case Retire(_, _) => RetireRefusals(d, w, tx);
    case BridgeIn(_, _, _, _, _, _) => ImportRefusals(d, w, tx);
    case BridgeOut(_, _) => BridgeOutRefusals(d, w, tx);
    case UpdateRegistryRoot(_, _, _, _) => OtherRefusals(d, w, tx);
    case TransferToken(_, _, _, _) => OtherRefusals(d, w, tx);
  }

  lemma DirectRefusals(d: Deployment, w: World, tx: Tx)
    requires tx.call.Direct?
    ensures Refused(Step(d, w, tx)) == Fault(d, w, tx.env, tx.call)
  {
    RegistryRefusals(w.registry, tx.env, tx.call.registryCall);
  }

  lemma CreateRefusals(d: Deployment, w: World, tx: Tx)
    requires tx.call.CreateOffer?
    ensures Refused(Step(d, w, tx)) == Fault(d, w, tx.env, tx.call)
  {
  }

  lemma BuyRefusals(d: Deployment, w: World, tx: Tx)
    requires tx.call.BuyCredits?
    requires forall id | id in w.market.offers :: 0 <= w.market.offers[id].filled <= w.market.offers[id].amount
    ensures Refused(Step(d, w, tx)) == Fault(d, w, tx.env, tx.call)
  {
  }

  lemma CancelRefusals(d: Deployment, w: World, tx: Tx)
    requires tx.call.CancelOffer?
    ensures Refused(Step(d, w, tx)) == Fault(d, w, tx.env, tx.call)
  {
  }

  lemma RetireRefusals(d: Deployment, w: World, tx: Tx)
    requires tx.call.Retire?
    ensures Refused(Step(d, w, tx)) == Fault(d, w, tx.env, tx.call)
  {
  }

  lemma ImportRefusals(d: Deployment, w: World, tx: Tx)
    requires tx.call.BridgeIn?
    ensures Refused(Step(d, w, tx)) == Fault(d, w, tx.env, tx.call)
  {
    if tx.call.source in w.bridge.roots {
      Merkle.AcceptsByValue(d.sha256, tx.call.leaf, tx.call.proof, w.bridge.roots[tx.call.source].root);
    }
  }

  lemma BridgeOutRefusals(d: Deployment, w: World, tx: Tx)
    requires tx.call.BridgeOut?
    ensures Refused(Step(d, w, tx)) == Fault(d, w, tx.env, tx.call)
  {
  }

  lemma OtherRefusals(d: Deployment, w: World, tx: Tx)
    requires tx.call.UpdateRegistryRoot? || tx.call.TransferToken?
    ensures Refused(Step(d, w, tx)) == Fault(d, w, tx.env, tx.call)
  {
  }
}
