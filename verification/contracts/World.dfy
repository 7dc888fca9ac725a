/** Registry, marketplace, tracker, bridge and tokens as one transition system. Every call
    is one transaction: it commits all its writes, across contracts, or none. */
module World {
  import opened Common
  import opened Registry
  import opened Tokens
  import opened Market
  import opened Tracker
  import opened Merkle
  import opened Bridge

  datatype World = World(
    registry: RegistryState, market: MarketState, tracker: TrackerState, bridge: BridgeState, tokens: Balances)

  /** The addresses of the contracts, and the hash function the bridge uses. */
  datatype Deployment = Deployment(market: Address, tracker: Address, bridge: Address, sha256: Hash)

  datatype Call =
    | Direct(registryCall: RegistryCall)
    | CreateOffer(seller: Address, creditId: nat, price: i128, amount: i128, currency: Address, expiry: Option<nat>)
    | BuyCredits(buyer: Address, offerId: nat, amount: i128)
    | CancelOffer(caller: Address, offerId: nat)
    | Retire(owner: Address, input: RetireInput)
    | BatchRetire(owner: Address, inputs: seq<RetireInput>)
    | BridgeIn(bridger: Address, source: string, serial: string, leaf: Digest, proof: seq<Digest>, metadata: Credit)
    | BridgeOut(owner: Address, creditId: nat)
    | UpdateRegistryRoot(admin: Address, source: string, root: Digest, height: nat)
    | TransferToken(token: Address, from: Address, to: Address, amount: i128)

  datatype Answer = Plain(reply: Reply) | Records(records: seq<Record>)

  datatype Tx = Tx(env: Env, call: Call)

  /** What one call would do if nothing fails. */
  function Step(d: Deployment, w: World, tx: Tx): Result<(World, Answer)> {
    var env := tx.env;
    match tx.call
    case Direct(call) =>
      var (registry, reply) :- w.registry.Perform(env, call);
      Ok((w.(registry := registry), Plain(reply)))
    case CreateOffer(seller, creditId, price, amount, currency, expiry) =>
      var ((market, registry), id) :-
          w.market.CreateOffer(d.market, w.registry, env, seller, creditId, price, amount, currency, expiry);
      Ok((w.(market := market, registry := registry), Plain(Id(id))))
    case BuyCredits(buyer, id, amount) =>
      var ((market, registry, tokens), b) :-
          w.market.BuyCredits(d.market, w.registry, w.tokens, env, buyer, id, amount);
      Ok((w.(market := market, registry := registry, tokens := tokens), Plain(Flag(b))))
    case CancelOffer(caller, id) =>
      var ((market, registry), b) :- w.market.CancelOffer(d.market, w.registry, env, caller, id);
      Ok((w.(market := market, registry := registry), Plain(Flag(b))))
    case Retire(owner, input) =>
      var ((tracker, registry), record) :- w.tracker.Retire(d.tracker, w.registry, env, owner, input);
      Ok((w.(tracker := tracker, registry := registry), Records([record])))
    case BatchRetire(owner, inputs) =>
      var ((tracker, registry), records) :- w.tracker.BatchRetire(d.tracker, w.registry, env, owner, inputs);
      Ok((w.(tracker := tracker, registry := registry), Records(records)))
    case BridgeIn(bridger, source, serial, leaf, proof, metadata) =>
      var ((bridge, registry), id) :-
          w.bridge.BridgeIn(d.bridge, d.sha256, w.registry, env, bridger, source, serial, leaf, proof, metadata);
      Ok((w.(bridge := bridge, registry := registry), Plain(Id(id))))
    case BridgeOut(owner, id) =>
      var ((bridge, registry), b) :- w.bridge.BridgeOut(d.bridge, w.registry, env, owner, id);
      Ok((w.(bridge := bridge, registry := registry), Plain(Flag(b))))
    case UpdateRegistryRoot(admin, source, root, height) =>
      var (bridge, b) :- w.bridge.UpdateRegistryRoot(env, admin, source, root, height);
      Ok((w.(bridge := bridge), Plain(Flag(b))))
    case TransferToken(token, from, to, amount) =>
      var tokens :- Transferred(w.tokens, env, token, from, to, amount);
      Ok((w.(tokens := tokens), Plain(Done)))
  }

  /** One transaction: committed, or reverted as a whole. */
  function Apply(d: Deployment, w: World, tx: Tx): World {
    match Step(d, w, tx)
    case Ok((w', _)) => w'
    case Err(_) => w
  }

  function Run(d: Deployment, w: World, txs: seq<Tx>): World {
    if txs == [] then w else Apply(d, Run(d, w, txs[..|txs| - 1]), txs[|txs| - 1])
  }

  /** The state right after deployment. */
  function Genesis(admin: Address, threshold: nat, quorum: nat, tokens: Balances): World {
    World(Initialised(admin, threshold, quorum), NO_OFFERS, NOTHING_RETIRED, NothingBridged(admin), tokens)
  }

  /** The host with the deployed contracts. */
  class Chain {
    const registry: CreditRegistry
    const tokens: TokenLedger
    const market: Marketplace
    const tracker: RetirementTracker
    const bridge: MerkleBridge

    ghost predicate Valid() {
      && market.registry == registry && market.tokens == tokens
      && tracker.registry == registry && bridge.registry == registry
    }

    function Deployed(): Deployment {
      Deployment(market.self, tracker.self, bridge.self, bridge.sha256)
    }

    function State(): World
      reads registry, tokens, market, tracker, bridge
    {
      World(registry.State(), market.State(), tracker.State(), bridge.State(), tokens.balances)
    }

    constructor (registry: CreditRegistry, tokens: TokenLedger, market: Marketplace, tracker: RetirementTracker,
                 bridge: MerkleBridge)
      ensures this.registry == registry && this.tokens == tokens
      ensures this.market == market && this.tracker == tracker && this.bridge == bridge
    {
      this.registry, this.tokens, this.market, this.tracker, this.bridge := registry, tokens, market, tracker, bridge;
    }

    /** Deploys the contracts, or nothing if the registry's `init` panics. */
    static method Deploy(d: Deployment, admin: Address, threshold: nat, quorum: nat, balances: Balances)
      returns (r: Result<Chain>)
      ensures 1 <= threshold <= quorum ==>
                && r.Ok? && fresh(r.value) && r.value.Valid() && r.value.Deployed() == d
                && r.value.State() == Genesis(admin, threshold, quorum, balances)
      ensures !(1 <= threshold <= quorum) ==> r == Err(InvalidInput)
    {
      var registry :- CreditRegistry.Init(admin, threshold, quorum);
      var tokens := new TokenLedger(balances);
      var market := new Marketplace(d.market, registry, tokens);
      var tracker := new RetirementTracker(d.tracker, registry);
      var bridge := new MerkleBridge(d.bridge, registry, d.sha256, admin);
      var chain := new Chain(registry, tokens, market, tracker, bridge);
      return Ok(chain);
    }

    /** Runs one transaction. If the contract panics, every write made on the way, in any
        contract, is undone. */
    method Invoke(tx: Tx) returns (r: Result<Answer>)
      requires Valid()
      modifies registry, tokens, market, tracker, bridge
      ensures State() == Apply(Deployed(), old(State()), tx)
      ensures r == match Step(Deployed(), old(State()), tx) case Ok((_, answer)) => Ok(answer) case Err(e) => Err(e)
    {
      var saved := State();
      r := Dispatch(tx);
      if r.Err? {
        registry.Restore(saved.registry);
        market.Restore(saved.market);
        tracker.Restore(saved.tracker);
        bridge.Restore(saved.bridge);
        tokens.balances := saved.tokens;
      }
    }

    method Dispatch(tx: Tx) returns (r: Result<Answer>)
      requires Valid()
      modifies registry, tokens, market, tracker, bridge
      ensures Commits(r, State(), Step(Deployed(), old(State()), tx))
    {
      match tx.call {
        case Direct(call) =>
          var reply :- registry.Perform(tx.env, call);
          return Ok(Plain(reply));
        case TransferToken(token, from, to, amount) =>
          var _ :- tokens.Transfer(tx.env, token, from, to, amount);
          return Ok(Plain(Done));
        case CreateOffer(_, _, _, _, _, _) => r := ToMarket(tx);
        case BuyCredits(_, _, _) => r := ToMarket(tx);
        case CancelOffer(_, _) => r := ToMarket(tx);
        case Retire(_, _) => r := ToTracker(tx);
        case BatchRetire(_, _) => r := ToTracker(tx);
        case _ => r := ToBridge(tx);
      }
    }

    method ToMarket(tx: Tx) returns (r: Result<Answer>)
      requires Valid() && (tx.call.CreateOffer? || tx.call.BuyCredits? || tx.call.CancelOffer?)
      modifies registry, tokens, market
      ensures Commits(r, State(), Step(Deployed(), old(State()), tx))
    {
      match tx.call {
        case CreateOffer(seller, creditId, price, amount, currency, expiry) =>
          var id :- market.CreateOffer(tx.env, seller, creditId, price, amount, currency, expiry);
          return Ok(Plain(Id(id)));
        case BuyCredits(buyer, id, amount) =>
          var b :- market.BuyCredits(tx.env, buyer, id, amount);
          return Ok(Plain(Flag(b)));
        case CancelOffer(caller, id) =>
          var b :- market.CancelOffer(tx.env, caller, id);
          return Ok(Plain(Flag(b)));
      }
    }

    method ToTracker(tx: Tx) returns (r: Result<Answer>)
      requires Valid() && (tx.call.Retire? || tx.call.BatchRetire?)
      modifies registry, tracker
      ensures Commits(r, State(), Step(Deployed(), old(State()), tx))
    {
      match tx.call {
        case Retire(owner, input) =>
          var record :- tracker.Retire(tx.env, owner, input);
          return Ok(Records([record]));
        case BatchRetire(owner, inputs) =>
          var records :- tracker.BatchRetire(tx.env, owner, inputs);
          return Ok(Records(records));
      }
    }

    method ToBridge(tx: Tx) returns (r: Result<Answer>)
      requires Valid() && (tx.call.BridgeIn? || tx.call.BridgeOut? || tx.call.UpdateRegistryRoot?)
      modifies registry, bridge
      ensures Commits(r, State(), Step(Deployed(), old(State()), tx))
    {
      match tx.call {
        case BridgeIn(bridger, source, serial, leaf, proof, metadata) =>
          var id :- bridge.BridgeIn(tx.env, bridger, source, serial, leaf, proof, metadata);
          return Ok(Plain(Id(id)));
        case BridgeOut(owner, id) =>
          var b :- bridge.BridgeOut(tx.env, owner, id);
          return Ok(Plain(Flag(b)));
        case UpdateRegistryRoot(admin, source, root, height) =>
          var b :- bridge.UpdateRegistryRoot(tx.env, admin, source, root, height);
          return Ok(Plain(Flag(b)));
      }
    }
  }
}
