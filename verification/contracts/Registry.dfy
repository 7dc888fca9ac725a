/** The credit registry: credits, owners, verifier votes and their indexes.
    `RegistryState` holds what the contract stores, and its members say what each entry
    point does to it; the class `CreditRegistry` is the contract itself. */
module Registry {
  import opened Common
  import opened Paging

  datatype CreditStatus = Pending | Active | Retired | Rejected | Bridged

  /** The token id: all zeroes before minting, then the SHA-256 of the credit id. */
  datatype TokenId = ZeroToken | HashOfId(id: nat)

  datatype Credit = Credit(
    projectId: string, methodology: string, vintageStart: nat, vintageEnd: nat, tonnes: int,
    geography: string, serialPrefix: string, sdgFlags: nat, permanenceRating: nat,
    bufferContributionPct: nat, additionalityType: nat, ipfsHash: string,
    status: CreditStatus, createdAt: nat, tokenId: TokenId)

  datatype Vote = Vote(verifier: Address, approved: bool, timestamp: nat, comments: string)

  datatype Config = Config(
    admin: Address, threshold: nat, quorum: nat, approvalWindow: nat, protocolFeeBps: nat, bufferPoolPct: nat)

  /** A published `CreditSubmitted` event. */
  datatype Submission = Submission(creditId: nat, issuer: Address)

  predicate ValidMetadata(m: Credit) {
    && m.projectId != "" && m.methodology != ""
    && 0 < m.vintageStart <= m.vintageEnd
    && 0 < m.tonnes <= MAX_TONNES
    && |m.geography| == 2
    && m.sdgFlags <= 0x3FFF && m.bufferContributionPct <= 20
    && m.permanenceRating <= 100 && m.additionalityType <= 2
  }

  /** How many of `votes` say `approved`. */
  function Tally(votes: seq<Vote>, approved: bool): nat {
    if votes == [] then 0
    else Tally(votes[..|votes| - 1], approved) + (if votes[|votes| - 1].approved == approved then 1 else 0)
  }

  predicate HasVoted(votes: seq<Vote>, verifier: Address) {
    exists i | 0 <= i < |votes| :: votes[i].verifier == verifier
  }

  /** The registry entry points that change state. */
  datatype RegistryCall =
    | SubmitCredit(issuer: Address, metadata: Credit, ipfsHash: string)
    | ApproveAndMint(verifier: Address, creditId: nat, comments: string)
    | RejectCredit(verifier: Address, creditId: nat, comments: string)
    | TransferCredit(from: Address, to: Address, creditId: nat)
    | MarkRetired(caller: Address, creditId: nat)
    | UpdateConfig(admin: Address, threshold: nat, quorum: nat, window: nat, feeBps: nat, bufferPct: nat)
    | AddVerifier(admin: Address, verifier: Address)
    | RemoveVerifier(admin: Address, verifier: Address)
    | MintBridged(bridge: Address, to: Address, metadata: Credit)
    | AddBridge(admin: Address, bridge: Address)
    | RemoveBridge(admin: Address, bridge: Address)
    | AddRetirer(admin: Address, retirer: Address)
    | RemoveRetirer(admin: Address, retirer: Address)

  datatype Reply = Done | Flag(flag: bool) | Id(id: nat)

  datatype RegistryState = RegistryState(
    config: Config, counter: nat, credits: map<nat, Credit>, owners: map<nat, Address>,
    votes: map<nat, seq<Vote>>, byIssuer: map<Address, seq<nat>>, byOwner: map<Address, seq<nat>>,
    verifiers: seq<Address>, bridges: set<Address>, retirers: set<Address>,
    submissions: seq<Submission>)
  {
    function VotesOn(id: nat): seq<Vote> { ListAt(votes, id) }

    function ReadCredit(id: nat): Result<Credit> {
      if id in credits then Ok(credits[id]) else Err(CreditNotFound)
    }

    function ReadOwner(id: nat): Result<Address> {
      if id in owners then Ok(owners[id]) else Err(CreditNotFound)
    }

    predicate HasStatus(id: nat, status: CreditStatus) {
      id in credits && credits[id].status == status
    }

    function SetStatus(id: nat, status: CreditStatus): RegistryState
      requires id in credits
    {
      this.(credits := credits[id := credits[id].(status := status)])
    }

    function SubmitCredit(env: Env, issuer: Address, metadata: Credit, ipfsHash: string): Result<(RegistryState, nat)> {
      var _ :- env.RequireAuth(issuer);
      :- Need(ValidMetadata(metadata), InvalidInput);
      var id := counter + 1;
      var credit := metadata.(status := Pending, ipfsHash := ipfsHash, tokenId := ZeroToken, createdAt := env.now);
      Ok((this.(counter := id,
                credits := credits[id := credit],
                owners := owners[id := issuer],
                byIssuer := byIssuer[issuer := ListAt(byIssuer, issuer) + [id]],
                byOwner := byOwner[issuer := ListAt(byOwner, issuer) + [id]],
                submissions := submissions + [Submission(id, issuer)]), id))
    }

    /** What a vote checks before it is recorded, in the order the contract checks it. */
    function VoteAllowed(env: Env, verifier: Address, id: nat): Result<()> {
      if verifier !in env.auth then Err(HostAuth)
      else if verifier !in verifiers then Err(NotAuthorized)
      else if id !in credits then Err(CreditNotFound)
      else if credits[id].status != Pending then Err(CreditNotPending)
      else if HasVoted(VotesOn(id), verifier) then Err(AlreadyVoted)
      else Ok(())
    }

    function ApproveAndMint(env: Env, verifier: Address, id: nat, comments: string): (r: Result<(RegistryState, bool)>)
      ensures r.Ok? ==> r.value.0 == this.(votes := r.value.0.votes, credits := r.value.0.credits)
    {
      var _ :- VoteAllowed(env, verifier, id);
      var s := this.(votes := votes[id := VotesOn(id) + [Vote(verifier, true, env.now, comments)]]);
      if Tally(s.VotesOn(id), true) >= config.threshold then
        Ok((s.(credits := credits[id := credits[id].(status := Active, tokenId := HashOfId(id))]), true))
      else
        Ok((s, false))
    }

    function RejectCredit(env: Env, verifier: Address, id: nat, reason: string): (r: Result<(RegistryState, bool)>)
      ensures r.Ok? ==> r.value.0 == this.(votes := r.value.0.votes, credits := r.value.0.credits)
    {
      var _ :- VoteAllowed(env, verifier, id);
      var s := this.(votes := votes[id := VotesOn(id) + [Vote(verifier, false, env.now, reason)]]);
      if Tally(s.VotesOn(id), false) > config.quorum - config.threshold then
        Ok((s.SetStatus(id, Rejected), true))
      else
        Ok((s, false))
    }

    function TransferCredit(env: Env, from: Address, to: Address, id: nat): Result<(RegistryState, bool)> {
      var _ :- env.RequireAuth(from);
      var owner :- ReadOwner(id);
      :- Need(owner == from, CreditNotOwned);
      var credit :- ReadCredit(id);
      :- Need(credit.status == Active, CreditNotActive);
      Ok((this.(owners := owners[id := to], byOwner := byOwner[to := ListAt(byOwner, to) + [id]]), true))
    }

    function MarkRetired(env: Env, caller: Address, id: nat): Result<(RegistryState, ())> {
      var _ :- env.RequireAuth(caller);
      :- Need(caller in retirers, NotAuthorized);
      var credit :- ReadCredit(id);
      :- Need(credit.status == Active, CreditNotActive);
      Ok((SetStatus(id, Retired), ()))
    }

    function UpdateConfig(env: Env, admin: Address, threshold: nat, quorum: nat, window: nat, feeBps: nat,
                          bufferPct: nat)
      : Result<(RegistryState, bool)>
    {
      var _ :- env.RequireAuth(admin);
      :- Need(admin == config.admin, NotAuthorized);
      :- Need(1 <= threshold <= quorum <= MAX_VERIFIERS, InvalidInput);
      :- Need(3600 <= window <= 90 * 24 * 3600 && feeBps <= 1000 && bufferPct <= 50, InvalidInput);
      Ok((this.(config := Config(config.admin, threshold, quorum, window, feeBps, bufferPct)), true))
    }

    /** `admin.require_auth()` for the argument, then `require_admin` for the stored admin. */
    function AdminOnly(env: Env, admin: Address): Result<()> {
      if admin in env.auth && config.admin in env.auth then Ok(()) else Err(HostAuth)
    }

    function AddVerifier(env: Env, admin: Address, verifier: Address): Result<(RegistryState, ())> {
      var _ :- AdminOnly(env, admin);
      :- Need(verifier !in verifiers, VerifierAlreadyRegistered);
      :- Need(|verifiers| < MAX_VERIFIERS, InvalidInput);
      Ok((this.(verifiers := verifiers + [verifier]), ()))
    }

    function RemoveVerifier(env: Env, admin: Address, verifier: Address): Result<(RegistryState, ())> {
      var _ :- AdminOnly(env, admin);
      :- Need(verifier in verifiers, VerifierNotFound);
      Ok((this.(verifiers := Without(verifiers, verifier)), ()))
    }

    function MintBridged(env: Env, bridge: Address, to: Address, metadata: Credit): Result<(RegistryState, nat)> {
      var _ :- env.RequireAuth(bridge);
      :- Need(bridge in bridges, NotAuthorized);
      :- Need(ValidMetadata(metadata), InvalidInput);
      var id := counter + 1;
      var credit := metadata.(status := Active, createdAt := env.now, tokenId := HashOfId(id));
      Ok((this.(counter := id,
                credits := credits[id := credit],
                owners := owners[id := to],
                byOwner := byOwner[to := ListAt(byOwner, to) + [id]]), id))
    }

    function AddBridge(env: Env, admin: Address, bridge: Address): Result<(RegistryState, ())> {
      var _ :- AdminOnly(env, admin);
      Ok((this.(bridges := bridges + {bridge}), ()))
    }

    function RemoveBridge(env: Env, admin: Address, bridge: Address): Result<(RegistryState, ())> {
      var _ :- AdminOnly(env, admin);
      Ok((this.(bridges := bridges - {bridge}), ()))
    }

    function AddRetirer(env: Env, admin: Address, retirer: Address): Result<(RegistryState, ())> {
      var _ :- AdminOnly(env, admin);
      Ok((this.(retirers := retirers + {retirer}), ()))
    }

    function RemoveRetirer(env: Env, admin: Address, retirer: Address): Result<(RegistryState, ())> {
      var _ :- AdminOnly(env, admin);
      Ok((this.(retirers := retirers - {retirer}), ()))
    }

    /** One invocation of any of the entry points above. */
    function Perform(env: Env, call: RegistryCall): Result<(RegistryState, Reply)> {
      match call
      case SubmitCredit(issuer, metadata, ipfsHash) =>
        var (s, id) :- SubmitCredit(env, issuer, metadata, ipfsHash); Ok((s, Id(id)))
      case ApproveAndMint(verifier, id, comments) =>
        var (s, minted) :- ApproveAndMint(env, verifier, id, comments); Ok((s, Flag(minted)))
      case RejectCredit(verifier, id, reason) =>
        var (s, rejected) :- RejectCredit(env, verifier, id, reason); Ok((s, Flag(rejected)))
      case TransferCredit(from, to, id) =>
        var (s, b) :- TransferCredit(env, from, to, id); Ok((s, Flag(b)))
      case MarkRetired(caller, id) =>
        var (s, _) :- MarkRetired(env, caller, id); Ok((s, Done))
      case UpdateConfig(admin, threshold, quorum, window, feeBps, bufferPct) =>
        var (s, b) :- UpdateConfig(env, admin, threshold, quorum, window, feeBps, bufferPct); Ok((s, Flag(b)))
      case AddVerifier(admin, verifier) =>
        var (s, _) :- AddVerifier(env, admin, verifier); Ok((s, Done))
      case RemoveVerifier(admin, verifier) =>
        var (s, _) :- RemoveVerifier(env, admin, verifier); Ok((s, Done))
      case MintBridged(bridge, to, metadata) =>
        var (s, id) :- MintBridged(env, bridge, to, metadata); Ok((s, Id(id)))
      case AddBridge(admin, bridge) =>
        var (s, _) :- AddBridge(env, admin, bridge); Ok((s, Done))
      case RemoveBridge(admin, bridge) =>
        var (s, _) :- RemoveBridge(env, admin, bridge); Ok((s, Done))
      case AddRetirer(admin, retirer) =>
        var (s, _) :- AddRetirer(env, admin, retirer); Ok((s, Done))
      case RemoveRetirer(admin, retirer) =>
        var (s, _) :- RemoveRetirer(env, admin, retirer); Ok((s, Done))
    }
  }

  /** What `init` writes. */
  function Initialised(admin: Address, threshold: nat, quorum: nat): RegistryState {
    RegistryState(Config(admin, threshold, quorum, APPROVAL_WINDOW_SECONDS, PROTOCOL_FEE_BPS, 10),
                  0, map[], map[], map[], map[], map[], [], {}, {}, [])
  }

  /** The contract. Its fields are its instance storage; `submissions` is the log of the
      `CreditSubmitted` events it has published. */
  class CreditRegistry {
    var config: Config
    var counter: nat
    var credits: map<nat, Credit>
    var owners: map<nat, Address>
    var votes: map<nat, seq<Vote>>
    var byIssuer: map<Address, seq<nat>>
    var byOwner: map<Address, seq<nat>>
    var verifiers: seq<Address>
    var bridges: set<Address>
    var retirers: set<Address>
    var submissions: seq<Submission>

    function State(): RegistryState
      reads this
    {
      RegistryState(config, counter, credits, owners, votes, byIssuer, byOwner, verifiers, bridges, retirers,
                    submissions)
    }

    /** `init`, called once at deployment. */
    static method Init(admin: Address, threshold: nat, quorum: nat) returns (r: Result<CreditRegistry>)
      ensures 1 <= threshold <= quorum ==>
                r.Ok? && fresh(r.value) && r.value.State() == Initialised(admin, threshold, quorum)
      ensures !(1 <= threshold <= quorum) ==> r == Err(InvalidInput)
    {
      if threshold == 0 || quorum == 0 || threshold > quorum {
        return Err(InvalidInput);
      }
      var registry := new CreditRegistry(admin, threshold, quorum);
      return Ok(registry);
    }

    /** What `init` writes once its checks have passed. */
    constructor (admin: Address, threshold: nat, quorum: nat)
      requires 1 <= threshold <= quorum
      ensures State() == Initialised(admin, threshold, quorum)
    {
      config := Config(admin, threshold, quorum, APPROVAL_WINDOW_SECONDS, PROTOCOL_FEE_BPS, 10);
      counter := 0;
      credits, owners, votes, byIssuer, byOwner := map[], map[], map[], map[], map[];
      verifiers, bridges, retirers, submissions := [], {}, {}, [];
    }

    /** The host puts back the storage of a failed invocation. */
    method Restore(s: RegistryState)
      modifies this
      ensures State() == s
    {
      config, counter, credits, owners, votes := s.config, s.counter, s.credits, s.owners, s.votes;
      byIssuer, byOwner, verifiers := s.byIssuer, s.byOwner, s.verifiers;
      bridges, retirers, submissions := s.bridges, s.retirers, s.submissions;
    }

    method SubmitCredit(env: Env, issuer: Address, metadata: Credit, ipfsHash: string) returns (r: Result<nat>)
      modifies this
      ensures Commits(r, State(), old(State()).SubmitCredit(env, issuer, metadata, ipfsHash))
    {
      var _ :- env.RequireAuth(issuer);
      :- Need(ValidMetadata(metadata), InvalidInput);
      counter := counter + 1;
      var m := metadata.(status := Pending, ipfsHash := ipfsHash, tokenId := ZeroToken, createdAt := env.now);
      credits := credits[counter := m];
      owners := owners[counter := issuer];
      byIssuer := byIssuer[issuer := ListAt(byIssuer, issuer) + [counter]];
      byOwner := byOwner[issuer := ListAt(byOwner, issuer) + [counter]];
      submissions := submissions + [Submission(counter, issuer)];
      return Ok(counter);
    }

    method IsVerifier(a: Address) returns (found: bool)
      ensures found == (a in verifiers)
    {
      for i := 0 to |verifiers|
        invariant a !in verifiers[..i]
      {
        if verifiers[i] == a { return true; }
      }
      return false;
    }

    method HasApproval(id: nat, verifier: Address) returns (voted: bool)
      ensures voted == HasVoted(State().VotesOn(id), verifier)
    {
      var records := ListAt(votes, id);
      for i := 0 to |records|
        invariant !HasVoted(records[..i], verifier)
      {
        if records[i].verifier == verifier { return true; }
      }
      assert records[..|records|] == records;
      return false;
    }

    method CountVotes(id: nat, approved: bool) returns (count: nat)
      ensures count == Tally(State().VotesOn(id), approved)
    {
      var records := ListAt(votes, id);
      count := 0;
      for i := 0 to |records|
        invariant count == Tally(records[..i], approved)
      {
        assert records[..i + 1][..i] == records[..i];
        if records[i].approved == approved {
          count := count + 1;
        }
      }
      assert records[..|records|] == records;
    }

    method ApproveAndMint(env: Env, verifier: Address, id: nat, comments: string) returns (r: Result<bool>)
      modifies this
      ensures Commits(r, State(), old(State()).ApproveAndMint(env, verifier, id, comments))
    {
      var _ :- env.RequireAuth(verifier);
      var registered := IsVerifier(verifier);
      :- Need(registered, NotAuthorized);
      var credit :- State().ReadCredit(id);
      :- Need(credit.status == Pending, CreditNotPending);
      var voted := HasApproval(id, verifier);
      :- Need(!voted, AlreadyVoted);
      assert old(State()).VoteAllowed(env, verifier, id).Ok?;
      votes := votes[id := ListAt(votes, id) + [Vote(verifier, true, env.now, comments)]];
      ghost var recorded := State();
      assert recorded == old(State()).(votes := recorded.votes);
      var approvals := CountVotes(id, true);
      if approvals >= config.threshold {
        credits := credits[id := credit.(status := Active, tokenId := HashOfId(id))];
        return Ok(true);
      }
      return Ok(false);
    }

    method RejectCredit(env: Env, verifier: Address, id: nat, reason: string) returns (r: Result<bool>)
      modifies this
      ensures Commits(r, State(), old(State()).RejectCredit(env, verifier, id, reason))
    {
      var _ :- env.RequireAuth(verifier);
      var registered := IsVerifier(verifier);
      :- Need(registered, NotAuthorized);
      var credit :- State().ReadCredit(id);
      :- Need(credit.status == Pending, CreditNotPending);
      var voted := HasApproval(id, verifier);
      :- Need(!voted, AlreadyVoted);
      assert old(State()).VoteAllowed(env, verifier, id).Ok?;
      votes := votes[id := ListAt(votes, id) + [Vote(verifier, false, env.now, reason)]];
      ghost var recorded := State();
      assert recorded == old(State()).(votes := recorded.votes);
      var rejections := CountVotes(id, false);
      if rejections > config.quorum - config.threshold {
        credits := credits[id := credit.(status := Rejected)];
        return Ok(true);
      }
      return Ok(false);
    }

    method TransferCredit(env: Env, from: Address, to: Address, id: nat) returns (r: Result<bool>)
      modifies this
      ensures Commits(r, State(), old(State()).TransferCredit(env, from, to, id))
    {
      var _ :- env.RequireAuth(from);
      var owner :- State().ReadOwner(id);
      :- Need(owner == from, CreditNotOwned);
      var credit :- State().ReadCredit(id);
      :- Need(credit.status == Active, CreditNotActive);
      owners := owners[id := to];
      byOwner := byOwner[to := ListAt(byOwner, to) + [id]];
      return Ok(true);
    }

    method MarkRetired(env: Env, caller: Address, id: nat) returns (r: Result<()>)
      modifies this
      ensures Commits(r, State(), old(State()).MarkRetired(env, caller, id))
    {
      var _ :- env.RequireAuth(caller);
      :- Need(caller in retirers, NotAuthorized);
      var credit :- State().ReadCredit(id);
      :- Need(credit.status == Active, CreditNotActive);
      credits := credits[id := credit.(status := Retired)];
      return Ok(());
    }

    method UpdateConfig(env: Env, admin: Address, threshold: nat, quorum: nat, window: nat, feeBps: nat, bufferPct: nat)
      returns (r: Result<bool>)
      modifies this
      ensures Commits(r, State(), old(State()).UpdateConfig(env, admin, threshold, quorum, window, feeBps, bufferPct))
    {
      var _ :- env.RequireAuth(admin);
      :- Need(admin == config.admin, NotAuthorized);
      if threshold == 0 || quorum == 0 || threshold > quorum || quorum > MAX_VERIFIERS {
        return Err(InvalidInput);
      }
      :- Need(3600 <= window <= 90 * 24 * 3600, InvalidInput);
      :- Need(feeBps <= 1000, InvalidInput);
      :- Need(bufferPct <= 50, InvalidInput);
      config := config.(threshold := threshold, quorum := quorum, approvalWindow := window,
                        protocolFeeBps := feeBps, bufferPoolPct := bufferPct);
      return Ok(true);
    }

    method AddVerifier(env: Env, admin: Address, verifier: Address) returns (r: Result<()>)
      modifies this
      ensures Commits(r, State(), old(State()).AddVerifier(env, admin, verifier))
    {
      var _ :- env.RequireAuth(admin);
      var _ :- env.RequireAuth(config.admin);
      var registered := IsVerifier(verifier);
      :- Need(!registered, VerifierAlreadyRegistered);
      :- Need(|verifiers| < MAX_VERIFIERS, InvalidInput);
      verifiers := verifiers + [verifier];
      return Ok(());
    }

    method RemoveVerifier(env: Env, admin: Address, verifier: Address) returns (r: Result<()>)
      modifies this
      ensures Commits(r, State(), old(State()).RemoveVerifier(env, admin, verifier))
    {
      var _ :- env.RequireAuth(admin);
      var _ :- env.RequireAuth(config.admin);
      var list: seq<Address>, found := [], false;
      for i := 0 to |verifiers|
        invariant list == Without(verifiers[..i], verifier)
        invariant found == (verifier in verifiers[..i])
      {
        assert verifiers[..i + 1][..i] == verifiers[..i];
        if verifiers[i] == verifier {
          found := true;
        } else {
          list := list + [verifiers[i]];
        }
      }
      assert verifiers[..|verifiers|] == verifiers;
      :- Need(found, VerifierNotFound);
      verifiers := list;
      return Ok(());
    }

    method MintBridged(env: Env, bridge: Address, to: Address, metadata: Credit) returns (r: Result<nat>)
      modifies this
      ensures Commits(r, State(), old(State()).MintBridged(env, bridge, to, metadata))
    {
      var _ :- env.RequireAuth(bridge);
      :- Need(bridge in bridges, NotAuthorized);
      :- Need(ValidMetadata(metadata), InvalidInput);
      counter := counter + 1;
      credits := credits[counter := metadata.(status := Active, createdAt := env.now, tokenId := HashOfId(counter))];
      owners := owners[counter := to];
      byOwner := byOwner[to := ListAt(byOwner, to) + [counter]];
      return Ok(counter);
    }

    method SetBridge(env: Env, admin: Address, bridge: Address, authorized: bool) returns (r: Result<()>)
      modifies this
      ensures Commits(r, State(), if authorized then old(State()).AddBridge(env, admin, bridge)
                                  else old(State()).RemoveBridge(env, admin, bridge))
    {
      var _ :- env.RequireAuth(admin);
      var _ :- env.RequireAuth(config.admin);
      bridges := if authorized then bridges + {bridge} else bridges - {bridge};
      return Ok(());
    }

    method SetRetirer(env: Env, admin: Address, retirer: Address, authorized: bool) returns (r: Result<()>)
      modifies this
      ensures Commits(r, State(), if authorized then old(State()).AddRetirer(env, admin, retirer)
                                  else old(State()).RemoveRetirer(env, admin, retirer))
    {
      var _ :- env.RequireAuth(admin);
      var _ :- env.RequireAuth(config.admin);
      retirers := if authorized then retirers + {retirer} else retirers - {retirer};
      return Ok(());
    }

    /** The entry point named by `call`, with its reply. */
    method Perform(env: Env, call: RegistryCall) returns (r: Result<Reply>)
      modifies this
      ensures Commits(r, State(), old(State()).Perform(env, call))
    {
      match call {
        case SubmitCredit(issuer, metadata, ipfsHash) =>
          var id :- SubmitCredit(env, issuer, metadata, ipfsHash); return Ok(Id(id));
        case ApproveAndMint(verifier, id, comments) =>
          var b :- ApproveAndMint(env, verifier, id, comments); return Ok(Flag(b));
        case RejectCredit(verifier, id, reason) =>
          var b :- RejectCredit(env, verifier, id, reason); return Ok(Flag(b));
        case TransferCredit(from, to, id) =>
          var b :- TransferCredit(env, from, to, id); return Ok(Flag(b));
        case MarkRetired(caller, id) =>
          var _ :- MarkRetired(env, caller, id); return Ok(Done);
        case UpdateConfig(admin, threshold, quorum, window, feeBps, bufferPct) =>
          var b :- UpdateConfig(env, admin, threshold, quorum, window, feeBps, bufferPct); return Ok(Flag(b));
        case AddVerifier(admin, verifier) =>
          var _ :- AddVerifier(env, admin, verifier); return Ok(Done);
        case RemoveVerifier(admin, verifier) =>
          var _ :- RemoveVerifier(env, admin, verifier); return Ok(Done);
        case MintBridged(bridge, to, metadata) =>
          var id :- MintBridged(env, bridge, to, metadata); return Ok(Id(id));
        case AddBridge(admin, bridge) =>
          var _ :- SetBridge(env, admin, bridge, true); return Ok(Done);
        case RemoveBridge(admin, bridge) =>
          var _ :- SetBridge(env, admin, bridge, false); return Ok(Done);
        case AddRetirer(admin, retirer) =>
          var _ :- SetRetirer(env, admin, retirer, true); return Ok(Done);
        case RemoveRetirer(admin, retirer) =>
          var _ :- SetRetirer(env, admin, retirer, false); return Ok(Done);
      }
    }

    method CreditsByIssuer(issuer: Address, offset: u32, limit: u32) returns (page: seq<nat>)
      ensures page == Page(ListAt(byIssuer, issuer), offset, limit)
    {
      var list := ListAt(byIssuer, issuer);
      var end := Min(SaturatingAdd(offset, limit), |list|);
      if offset >= |list| {
        return [];
      }
      page := [];
      for i := offset to end
        invariant page == list[offset..i]
      {
        page := page + [list[i]];
      }
    }
  }
}
