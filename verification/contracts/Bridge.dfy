/** The Merkle bridge: published registry roots, the set of imported serials, imports and
    exports of credits. */
module Bridge {
  import opened Common
  import opened Registry
  import opened Merkle

  datatype RegistryRoot = RegistryRoot(root: Digest, blockHeight: nat, updatedAt: nat)

  /** The published `CreditBridged` and `BridgeOut` events. */
  datatype Import = Import(registry: string, serial: string, creditId: nat)
  datatype Export = Export(creditId: nat, owner: Address)

  datatype BridgeState = BridgeState(
    admin: Address, roots: map<string, RegistryRoot>, bridged: set<(string, string)>,
    imports: seq<Import>, exports: seq<Export>)
  {
    function BridgeIn(self: Address, sha256: Hash, registry: RegistryState, env: Env, bridger: Address,
                      source: string, serial: string, leaf: Digest, proof: seq<Digest>, metadata: Credit)
      : Result<((BridgeState, RegistryState), nat)>
    {
      var _ :- env.RequireAuth(bridger);
      :- Need(source in roots, RegistryNotFound);
      :- Need(Accepts(sha256, leaf, proof, roots[source].root), InvalidProof);
      :- Need((source, serial) !in bridged, AlreadyBridged);
      var (registry, id) :- registry.MintBridged(env.CallFrom(self), self, bridger, metadata);
      Ok(((this.(bridged := bridged + {(source, serial)}, imports := imports + [Import(source, serial, id)]),
           registry), id))
    }

    function BridgeOut(self: Address, registry: RegistryState, env: Env, owner: Address, id: nat)
      : Result<((BridgeState, RegistryState), bool)>
    {
      var _ :- env.RequireAuth(owner);
      var owned :- registry.ReadOwner(id);
      :- Need(owned == owner, NotAuthorized);
      var (registry, _) :- registry.MarkRetired(env.CallFrom(self), self, id);
      Ok(((this.(exports := exports + [Export(id, owner)]), registry), true))
    }

    function UpdateRegistryRoot(env: Env, caller: Address, source: string, root: Digest, height: nat)
      : Result<(BridgeState, bool)>
    {
      var _ :- env.RequireAuth(caller);
      :- Need(caller == admin, NotAuthorized);
      Ok((this.(roots := roots[source := RegistryRoot(root, height, env.now)]), true))
    }
  }

  function NothingBridged(admin: Address): BridgeState {
    BridgeState(admin, map[], {}, [], [])
  }

  /** The contract. `imports` and `exports` are the logs of the events it has published. */
  class MerkleBridge {
    const self: Address
    const registry: CreditRegistry
    const sha256: Hash
    var admin: Address
    var roots: map<string, RegistryRoot>
    var bridged: set<(string, string)>
    var imports: seq<Import>
    var exports: seq<Export>

    function State(): BridgeState
      reads this
    {
      BridgeState(admin, roots, bridged, imports, exports)
    }

    constructor (self: Address, registry: CreditRegistry, sha256: Hash, admin: Address)
      ensures State() == NothingBridged(admin)
      ensures this.self == self && this.registry == registry && this.sha256 == sha256
    {
      this.self, this.registry, this.sha256, this.admin := self, registry, sha256, admin;
      roots, bridged, imports, exports := map[], {}, [], [];
    }

    method Restore(s: BridgeState)
      modifies this
      ensures State() == s
    {
      admin, roots, bridged, imports, exports := s.admin, s.roots, s.bridged, s.imports, s.exports;
    }

    method BridgeIn(env: Env, bridger: Address, source: string, serial: string, leaf: Digest, proof: seq<Digest>,
                    metadata: Credit)
      returns (r: Result<nat>)
      modifies this, registry
      ensures Commits(r, (State(), registry.State()),
                      old(State()).BridgeIn(self, sha256, old(registry.State()), env, bridger, source, serial, leaf,
                                            proof, metadata))
    {
      var _ :- env.RequireAuth(bridger);
      :- Need(source in roots, RegistryNotFound);
      var accepted := VerifyProof(sha256, leaf, proof, roots[source].root);
      :- Need(accepted, InvalidProof);
      :- Need((source, serial) !in bridged, AlreadyBridged);
      var id :- registry.MintBridged(env.CallFrom(self), self, bridger, metadata);
      bridged := bridged + {(source, serial)};
      imports := imports + [Import(source, serial, id)];
      return Ok(id);
    }

    method BridgeOut(env: Env, owner: Address, id: nat) returns (r: Result<bool>)
      modifies this, registry
      ensures Commits(r, (State(), registry.State()),
                      old(State()).BridgeOut(self, old(registry.State()), env, owner, id))
    {
      var _ :- env.RequireAuth(owner);
      var owned :- registry.State().ReadOwner(id);
      :- Need(owned == owner, NotAuthorized);
      var _ :- registry.MarkRetired(env.CallFrom(self), self, id);
      exports := exports + [Export(id, owner)];
      return Ok(true);
    }

    method UpdateRegistryRoot(env: Env, caller: Address, source: string, root: Digest, height: nat)
      returns (r: Result<bool>)
      modifies this
      ensures Commits(r, State(), old(State()).UpdateRegistryRoot(env, caller, source, root, height))
    {
      var _ :- env.RequireAuth(caller);
      :- Need(caller == admin, NotAuthorized);
      roots := roots[source := RegistryRoot(root, height, env.now)];
      return Ok(true);
    }
  }
}
