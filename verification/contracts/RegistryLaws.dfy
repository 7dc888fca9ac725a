/** What every run of the credit registry keeps, and how voting decides. */
module RegistryLaws {
  import opened Common
  import opened Registry

  // ---------- Runs ----------

  datatype RegistryTx = RegistryTx(env: Env, call: RegistryCall)

  /** One transaction: committed, or reverted as a whole. */
  function Commit(s: RegistryState, tx: RegistryTx): RegistryState {
    match s.Perform(tx.env, tx.call)
    case Ok((s', _)) => s'
    case Err(_) => s
  }

  function RunRegistry(s: RegistryState, txs: seq<RegistryTx>): RegistryState {
    if txs == [] then s else Commit(RunRegistry(s, txs[..|txs| - 1]), txs[|txs| - 1])
  }

  lemma {:induction false} RunConcat(s: RegistryState, a: seq<RegistryTx>, b: seq<RegistryTx>)
    ensures RunRegistry(s, a + b) == RunRegistry(RunRegistry(s, a), b)
    decreases |b|
  {
    if b == [] {
      assert a + b == a;
    } else {
      var n := |b| - 1;
      assert (a + b)[..|a + b| - 1] == a + b[..n];
      RunConcat(s, a, b[..n]);
    }
  }

  // ---------- Invariants ----------

  predicate Submitted(submissions: seq<Submission>, id: nat) {
    exists i | 0 <= i < |submissions| :: submissions[i].creditId == id
  }

  predicate DistinctVoters(votes: seq<Vote>) {
    forall i, j | 0 <= i < j < |votes| :: votes[i].verifier != votes[j].verifier
  }

  /** The ids submitted by `a`, in the order of submission. */
  function SubmittedBy(submissions: seq<Submission>, a: Address): seq<nat> {
    if submissions == [] then []
    else
      var last := submissions[|submissions| - 1];
      SubmittedBy(submissions[..|submissions| - 1], a) + (if last.issuer == a then [last.creditId] else [])
  }

  ghost predicate KeysSound(credits: map<nat, Credit>, owners: map<nat, Address>, votes: map<nat, seq<Vote>>,
                            counter: nat) {
    && (forall id: nat :: id in credits <==> 1 <= id <= counter)
    && owners.Keys == credits.Keys
    && votes.Keys <= credits.Keys
  }

  ghost predicate VotersDistinct(votes: map<nat, seq<Vote>>) {
    forall id | id in votes :: DistinctVoters(votes[id])
  }

  /** Nothing has the unused status Bridged, and a credit that was never submitted (it came
      over the bridge) has no votes and was born Active. */
  ghost predicate OriginsSound(credits: map<nat, Credit>, votes: map<nat, seq<Vote>>, submissions: seq<Submission>) {
    && (forall id | id in credits :: credits[id].status != Bridged)
    && (forall id | id in credits && !Submitted(submissions, id) ::
          id !in votes && (credits[id].status == Active || credits[id].status == Retired))
  }

  /** Issuer lists are the submissions of that issuer. The submitted ids ascend. */
  ghost predicate IssuersIndexed(byIssuer: map<Address, seq<nat>>, submissions: seq<Submission>, counter: nat) {
    && (forall a: Address :: ListAt(byIssuer, a) == SubmittedBy(submissions, a))
    && (forall i, j | 0 <= i < j < |submissions| :: submissions[i].creditId < submissions[j].creditId)
    && (forall i | 0 <= i < |submissions| :: 1 <= submissions[i].creditId <= counter)
  }

  /** An owner's list contains everything it owns. */
  ghost predicate OwnersIndexed(byOwner: map<Address, seq<nat>>, owners: map<nat, Address>) {
    forall id | id in owners :: id in ListAt(byOwner, owners[id])
  }

  ghost predicate VerifiersSound(verifiers: seq<Address>) {
    |verifiers| <= MAX_VERIFIERS && Distinct(verifiers)
  }

  ghost predicate RegistryInv(s: RegistryState) {
    && KeysSound(s.credits, s.owners, s.votes, s.counter)
    && 1 <= s.config.threshold <= s.config.quorum
    && VotersDistinct(s.votes)
    && OriginsSound(s.credits, s.votes, s.submissions)
    && VerifiersSound(s.verifiers)
  }

  ghost predicate IndexInv(s: RegistryState) {
    IssuersIndexed(s.byIssuer, s.submissions, s.counter) && OwnersIndexed(s.byOwner, s.owners)
  }

  // ---------- How a credit may change over time ----------

  predicate StatusMayBecome(from: CreditStatus, to: CreditStatus) {
    match from
    case Pending => to != Bridged
    case Active => to == Active || to == Retired
    case _ => to == from
  }

  /** Retired and Rejected are final; votes are append-only and freeze with the decision;
      everything but the status and the token id stays, in particular the tonnes; only an
      Active credit changes hands. */
  ghost predicate CreditEvolves(s: RegistryState, s': RegistryState, id: nat)
    requires id in s.credits && id in s.owners
  {
    && id in s'.credits && id in s'.owners
    && StatusMayBecome(s.credits[id].status, s'.credits[id].status)
    && s'.credits[id] == s.credits[id].(status := s'.credits[id].status, tokenId := s'.credits[id].tokenId)
    && s.VotesOn(id) <= s'.VotesOn(id)
    && (s.credits[id].status != Pending ==>
          s'.VotesOn(id) == s.VotesOn(id) && s'.credits[id].tokenId == s.credits[id].tokenId)
    && (s.credits[id].status == Retired || s.credits[id].status == Rejected ==> s'.owners[id] == s.owners[id])
    && (s'.credits[id].status == Pending ==> s'.owners[id] == s.owners[id])
  }

  ghost predicate Evolves(s: RegistryState, s': RegistryState)
    requires s.owners.Keys == s.credits.Keys
  {
    && s.counter <= s'.counter
    && s.submissions <= s'.submissions
    && (forall id: nat | id in s.credits :: CreditEvolves(s, s', id))
    && (forall id: nat | id in s.credits :: Submitted(s.submissions, id) <==> Submitted(s'.submissions, id))
  }

  // ---------- One step ----------

  lemma SubmittedAppend(subs: seq<Submission>, last: Submission)
    ensures forall id :: Submitted(subs + [last], id) <==> Submitted(subs, id) || id == last.creditId
    ensures forall a :: SubmittedBy(subs + [last], a) ==
                        SubmittedBy(subs, a) + (if last.issuer == a then [last.creditId] else [])
  {
    var subs' := subs + [last];
    assert subs'[..|subs|] == subs && subs'[|subs|] == last;
    forall id | Submitted(subs, id) ensures Submitted(subs', id) {
      var i :| 0 <= i < |subs| && subs[i].creditId == id;
      assert subs'[i].creditId == id;
    }
  }

  lemma SubmitKeepsInv(s: RegistryState, env: Env, issuer: Address, m: Credit, ipfs: string, s': RegistryState, id: nat)
    requires RegistryInv(s) && s.SubmitCredit(env, issuer, m, ipfs) == Ok((s', id))
    ensures RegistryInv(s')
  {
    SubmittedAppend(s.submissions, Submission(id, issuer));
    assert OriginsSound(s'.credits, s'.votes, s'.submissions) by {
      forall k | k in s'.credits && !Submitted(s'.submissions, k)
        ensures k !in s'.votes && (s'.credits[k].status == Active || s'.credits[k].status == Retired)
      {
        assert k in s.credits && !Submitted(s.submissions, k);
      }
    }
  }

  lemma SubmitEvolves(s: RegistryState, env: Env, issuer: Address, m: Credit, ipfs: string, s': RegistryState, id: nat)
    requires RegistryInv(s) && s.SubmitCredit(env, issuer, m, ipfs) == Ok((s', id))
    ensures Evolves(s, s')
    ensures id == s.counter + 1 && s'.HasStatus(id, Pending) && s'.VotesOn(id) == []
    ensures forall k :: Submitted(s'.submissions, k) <==> Submitted(s.submissions, k) || k == id
  {
    SubmittedAppend(s.submissions, Submission(id, issuer));
  }

  lemma MintKeepsInv(s: RegistryState, env: Env, bridge: Address, to: Address, m: Credit, s': RegistryState, id: nat)
    requires RegistryInv(s) && IndexInv(s) && s.MintBridged(env, bridge, to, m) == Ok((s', id))
    ensures RegistryInv(s')
    ensures id == s.counter + 1 && !Submitted(s'.submissions, id) && s'.HasStatus(id, Active)
  {
    assert s'.submissions == s.submissions && s'.votes == s.votes;
  }

  lemma MintEvolves(s: RegistryState, env: Env, bridge: Address, to: Address, m: Credit, s': RegistryState, id: nat)
    requires RegistryInv(s) && s.MintBridged(env, bridge, to, m) == Ok((s', id))
    ensures Evolves(s, s')
  {
    assert s'.submissions == s.submissions && s'.votes == s.votes;
  }

  /** The state after a vote on a Pending credit that leaves it with the given status and token. */
  ghost function Recorded(s: RegistryState, id: nat, v: Vote, status: CreditStatus, token: TokenId): RegistryState
    requires id in s.credits
  {
    s.(votes := s.votes[id := s.VotesOn(id) + [v]],
       credits := s.credits[id := s.credits[id].(status := status, tokenId := token)])
  }

  /** A vote of either kind. */
  function CastVote(s: RegistryState, env: Env, verifier: Address, id: nat, text: string, approve: bool)
    : Result<(RegistryState, bool)>
  {
    if approve then s.ApproveAndMint(env, verifier, id, text) else s.RejectCredit(env, verifier, id, text)
  }

  lemma VoteShape(s: RegistryState, env: Env, verifier: Address, id: nat, text: string, approve: bool,
                  s': RegistryState, b: bool)
    requires Ok((s', b)) == CastVote(s, env, verifier, id, text, approve)
    ensures s.HasStatus(id, Pending) && !HasVoted(s.VotesOn(id), verifier) && id in s'.credits
    ensures var v, c := Vote(verifier, approve, env.now, text), s'.credits[id];
            && s' == Recorded(s, id, v, c.status, c.tokenId)
            && c.status == (if !b then Pending else if approve then Active else Rejected)
            && b == if approve then Tally(s.VotesOn(id) + [v], true) >= s.config.threshold
                    else Tally(s.VotesOn(id) + [v], false) > s.config.quorum - s.config.threshold
  {
    assert s.credits[id] == s.credits[id].(status := Pending, tokenId := s.credits[id].tokenId);
    assert s.credits[id := s.credits[id]] == s.credits;
  }

  lemma VoteKeepsInv(s: RegistryState, id: nat, v: Vote, status: CreditStatus, token: TokenId)
    requires RegistryInv(s) && s.HasStatus(id, Pending) && !HasVoted(s.VotesOn(id), v.verifier)
    requires status == Pending || status == Active || status == Rejected
    ensures RegistryInv(Recorded(s, id, v, status, token))
  {
    var s' := Recorded(s, id, v, status, token);
    assert VotersDistinct(s'.votes) by {
      assert id in s.votes ==> DistinctVoters(s.votes[id]);
      assert DistinctVoters(s'.votes[id]);
    }
  }

  lemma VoteEvolves(s: RegistryState, id: nat, v: Vote, status: CreditStatus, token: TokenId)
    requires RegistryInv(s) && s.HasStatus(id, Pending)
    requires status == Pending || status == Active || status == Rejected
    ensures Evolves(s, Recorded(s, id, v, status, token))
  {
    var s' := Recorded(s, id, v, status, token);
    forall k: nat | k in s.credits ensures CreditEvolves(s, s', k) {
      if k == id {
        assert s.VotesOn(id) <= s'.VotesOn(id);
      }
    }
  }

  lemma VoteCallKeepsInv(s: RegistryState, env: Env, verifier: Address, id: nat, text: string, approve: bool,
                         s': RegistryState, b: bool)
    requires RegistryInv(s)
    requires Ok((s', b)) == CastVote(s, env, verifier, id, text, approve)
    ensures RegistryInv(s') && Evolves(s, s')
  {
    VoteShape(s, env, verifier, id, text, approve, s', b);
    var v, c := Vote(verifier, approve, env.now, text), s'.credits[id];
    VoteKeepsInv(s, id, v, c.status, c.tokenId);
    VoteEvolves(s, id, v, c.status, c.tokenId);
  }

  lemma SubmitCallKeepsInv(s: RegistryState, env: Env, issuer: Address, m: Credit, ipfs: string)
    requires RegistryInv(s) && s.SubmitCredit(env, issuer, m, ipfs).Ok?
    ensures var s' := s.SubmitCredit(env, issuer, m, ipfs).value.0; RegistryInv(s') && Evolves(s, s')
  {
    var (s', id) := s.SubmitCredit(env, issuer, m, ipfs).value;
    SubmitKeepsInv(s, env, issuer, m, ipfs, s', id);
    SubmitEvolves(s, env, issuer, m, ipfs, s', id);
  }

  lemma MintCallKeepsInv(s: RegistryState, env: Env, bridge: Address, to: Address, m: Credit)
    requires RegistryInv(s) && IndexInv(s) && s.MintBridged(env, bridge, to, m).Ok?
    ensures var s' := s.MintBridged(env, bridge, to, m).value.0; RegistryInv(s') && Evolves(s, s')
  {
    var (s', id) := s.MintBridged(env, bridge, to, m).value;
    MintKeepsInv(s, env, bridge, to, m, s', id);
    MintEvolves(s, env, bridge, to, m, s', id);
  }

  lemma TransferKeepsInv(s: RegistryState, env: Env, from: Address, to: Address, id: nat)
    requires RegistryInv(s) && s.TransferCredit(env, from, to, id).Ok?
    ensures var s' := s.TransferCredit(env, from, to, id).value.0; RegistryInv(s') && Evolves(s, s')
  {
    var s' := s.TransferCredit(env, from, to, id).value.0;
    assert s' == s.(owners := s.owners[id := to], byOwner := s'.byOwner);
  }

  lemma RetireKeepsInv(s: RegistryState, env: Env, caller: Address, id: nat, s': RegistryState)
    requires RegistryInv(s) && s.MarkRetired(env, caller, id) == Ok((s', ()))
    ensures RegistryInv(s') && Evolves(s, s')
  {
    assert s.HasStatus(id, Active) && s' == s.SetStatus(id, Retired);
  }

  predicate IsAdminCall(call: RegistryCall) {
    call.UpdateConfig? || call.AddVerifier? || call.RemoveVerifier?
    || call.AddBridge? || call.RemoveBridge? || call.AddRetirer? || call.RemoveRetirer?
  }

  /** What administration leaves alone: credits, owners, votes and indexes, and, unless it
      updates it, the configuration. */
  ghost predicate Administered(s: RegistryState, s': RegistryState, configured: bool) {
    && s' == s.(config := s'.config, verifiers := s'.verifiers, bridges := s'.bridges, retirers := s'.retirers)
    && (1 <= s.config.threshold <= s.config.quorum ==> 1 <= s'.config.threshold <= s'.config.quorum)
    && (VerifiersSound(s.verifiers) ==> VerifiersSound(s'.verifiers))
    && (!configured ==> s'.config == s.config)
  }

  lemma AdminEffect(s: RegistryState, tx: RegistryTx)
    requires IsAdminCall(tx.call)
    ensures Administered(s, Commit(s, tx), tx.call.UpdateConfig?)
  {
    if tx.call.UpdateConfig? {
      ConfigEffect(s, tx);
    } else if tx.call.AddVerifier? || tx.call.RemoveVerifier? {
      VerifiersEffect(s, tx);
    } else {
      AuthorizationEffect(s, tx);
    }
  }

  lemma ConfigEffect(s: RegistryState, tx: RegistryTx)
    requires tx.call.UpdateConfig?
    ensures Administered(s, Commit(s, tx), true)
  {
  }

  lemma VerifiersEffect(s: RegistryState, tx: RegistryTx)
    requires tx.call.AddVerifier? || tx.call.RemoveVerifier?
    ensures Administered(s, Commit(s, tx), false)
  {
    if tx.call.RemoveVerifier? {
      RemovalKeepsSound(s, tx);
    }
  }

  lemma AuthorizationEffect(s: RegistryState, tx: RegistryTx)
    requires tx.call.AddBridge? || tx.call.RemoveBridge? || tx.call.AddRetirer? || tx.call.RemoveRetirer?
    ensures Administered(s, Commit(s, tx), false)
  {
  }

  lemma RemovalKeepsSound(s: RegistryState, tx: RegistryTx)
    requires tx.call.RemoveVerifier?
    ensures VerifiersSound(s.verifiers) ==> VerifiersSound(Commit(s, tx).verifiers)
  {
    if VerifiersSound(s.verifiers) {
      WithoutKeepsDistinct(s.verifiers, tx.call.verifier);
    }
  }

  lemma StepKeepsInv(s: RegistryState, tx: RegistryTx)
    requires RegistryInv(s) && IndexInv(s)
    ensures RegistryInv(Commit(s, tx)) && Evolves(s, Commit(s, tx))
  {
    if IsAdminCall(tx.call) {
      AdminEffect(s, tx);
    } else if s.Perform(tx.env, tx.call).Ok? {
      CallKeepsInv(s, tx, Commit(s, tx));
    }
  }

  lemma CallKeepsInv(s: RegistryState, tx: RegistryTx, s': RegistryState)
    requires RegistryInv(s) && IndexInv(s) && !IsAdminCall(tx.call)
    requires s.Perform(tx.env, tx.call).Ok? && s' == Commit(s, tx)
    ensures RegistryInv(s') && Evolves(s, s')
  {
    match tx.call {
      case SubmitCredit(issuer, m, ipfs) =>
        SubmitCallKeepsInv(s, tx.env, issuer, m, ipfs);
      case ApproveAndMint(v, id, text) =>
        VoteCallKeepsInv(s, tx.env, v, id, text, true, s', s.ApproveAndMint(tx.env, v, id, text).value.1);
      case RejectCredit(v, id, text) =>
        VoteCallKeepsInv(s, tx.env, v, id, text, false, s', s.RejectCredit(tx.env, v, id, text).value.1);
      case TransferCredit(from, to, id) => TransferKeepsInv(s, tx.env, from, to, id);
      case MarkRetired(caller, id) => RetireKeepsInv(s, tx.env, caller, id, s');
      case MintBridged(bridge, to, m) =>
        MintCallKeepsInv(s, tx.env, bridge, to, m);
    }
  }

  lemma OwnersAppend(byOwner: map<Address, seq<nat>>, owners: map<nat, Address>, id: nat, to: Address)
    requires OwnersIndexed(byOwner, owners)
    ensures OwnersIndexed(byOwner[to := ListAt(byOwner, to) + [id]], owners[id := to])
  {
    var list := ListAt(byOwner, to) + [id];
    assert list[|list| - 1] == id;
  }

  lemma IssuersAppend(byIssuer: map<Address, seq<nat>>, subs: seq<Submission>, counter: nat, issuer: Address)
    requires IssuersIndexed(byIssuer, subs, counter)
    ensures IssuersIndexed(byIssuer[issuer := ListAt(byIssuer, issuer) + [counter + 1]],
                           subs + [Submission(counter + 1, issuer)], counter + 1)
  {
    var byIssuer', last := byIssuer[issuer := ListAt(byIssuer, issuer) + [counter + 1]],
        Submission(counter + 1, issuer);
    SubmittedAppend(subs, last);
    forall a: Address ensures ListAt(byIssuer', a) == SubmittedBy(subs + [last], a) {
      assert ListAt(byIssuer, a) == SubmittedBy(subs, a);
    }
  }

  lemma TransferKeepsIndex(s: RegistryState, env: Env, from: Address, to: Address, id: nat, s': RegistryState)
    requires IndexInv(s) && s.TransferCredit(env, from, to, id) == Ok((s', true))
    ensures IndexInv(s')
  {
    assert s' == s.(owners := s.owners[id := to], byOwner := s.byOwner[to := ListAt(s.byOwner, to) + [id]]);
    OwnersAppend(s.byOwner, s.owners, id, to);
  }

  lemma MintKeepsIndex(s: RegistryState, env: Env, bridge: Address, to: Address, m: Credit, s': RegistryState)
    requires IndexInv(s) && s.MintBridged(env, bridge, to, m) == Ok((s', s.counter + 1))
    ensures IndexInv(s')
  {
    OwnersAppend(s.byOwner, s.owners, s.counter + 1, to);
  }

  lemma SubmitKeepsIndex(s: RegistryState, env: Env, issuer: Address, m: Credit, ipfs: string, s': RegistryState)
    requires IndexInv(s) && s.SubmitCredit(env, issuer, m, ipfs) == Ok((s', s.counter + 1))
    ensures IndexInv(s')
  {
    OwnersAppend(s.byOwner, s.owners, s.counter + 1, issuer);
    IssuersAppend(s.byIssuer, s.submissions, s.counter, issuer);
  }

  lemma StepKeepsIndex(s: RegistryState, tx: RegistryTx)
    requires IndexInv(s)
    ensures IndexInv(Commit(s, tx))
  {
    if IsAdminCall(tx.call) {
      AdminEffect(s, tx);
    } else if s.Perform(tx.env, tx.call).Ok? {
      var s' := Commit(s, tx);
      match tx.call {
        case SubmitCredit(issuer, m, ipfs) => SubmitKeepsIndex(s, tx.env, issuer, m, ipfs, s');
        case MintBridged(bridge, to, m) => MintKeepsIndex(s, tx.env, bridge, to, m, s');
        case TransferCredit(from, to, id) => TransferKeepsIndex(s, tx.env, from, to, id, s');
        case ApproveAndMint(_, _, _) => OtherCallKeepsIndexes(s, tx);
        case RejectCredit(_, _, _) => OtherCallKeepsIndexes(s, tx);
        case MarkRetired(_, _) => OtherCallKeepsIndexes(s, tx);
      }
    }
  }

  lemma OtherCallKeepsIndexes(s: RegistryState, tx: RegistryTx)
    requires tx.call.ApproveAndMint? || tx.call.RejectCredit? || tx.call.MarkRetired?
    ensures var s' := Commit(s, tx);
            && s'.byIssuer == s.byIssuer && s'.byOwner == s.byOwner && s'.owners == s.owners
            && s'.submissions == s.submissions && s'.counter == s.counter
  {
  }

  lemma EvolvesTransitive(a: RegistryState, b: RegistryState, c: RegistryState)
    requires a.owners.Keys == a.credits.Keys && b.owners.Keys == b.credits.Keys
    requires Evolves(a, b) && Evolves(b, c)
    ensures Evolves(a, c)
  {
    forall id: nat | id in a.credits ensures CreditEvolves(a, c, id) {
      assert CreditEvolves(a, b, id) && CreditEvolves(b, c, id);
    }
  }

  /** The registry invariants hold in every state of every run, and every credit evolves
      only in the ways `CreditEvolves` allows between any two of them. */
  lemma {:induction false} RunKeepsInv(s: RegistryState, txs: seq<RegistryTx>)
    requires RegistryInv(s) && IndexInv(s)
    ensures RegistryInv(RunRegistry(s, txs)) && IndexInv(RunRegistry(s, txs))
    ensures Evolves(s, RunRegistry(s, txs))
    decreases |txs|
  {
    if txs != [] {
      var n := |txs| - 1;
      RunKeepsInv(s, txs[..n]);
      var mid := RunRegistry(s, txs[..n]);
      StepKeepsInv(mid, txs[n]);
      StepKeepsIndex(mid, txs[n]);
      EvolvesTransitive(s, mid, RunRegistry(s, txs));
    }
  }

  lemma InitialisedInv(admin: Address, threshold: nat, quorum: nat)
    requires 1 <= threshold <= quorum
    ensures RegistryInv(Initialised(admin, threshold, quorum)) && IndexInv(Initialised(admin, threshold, quorum))
  {
  }

  /** Issuer lists partition the submitted ids: an id is in exactly the list of its issuer,
      once, and every list ascends. */
  lemma IssuerListsPartition(s: RegistryState, id: nat)
    requires IndexInv(s)
    ensures forall a :: Ascending(ListAt(s.byIssuer, a))
    ensures forall a, b | a != b :: !(id in ListAt(s.byIssuer, a) && id in ListAt(s.byIssuer, b))
    ensures Submitted(s.submissions, id) <==> exists a :: id in ListAt(s.byIssuer, a)
  {
    forall a ensures Ascending(ListAt(s.byIssuer, a)) { IssuerListAscends(s, a); }
    forall a, b | a != b ensures !(id in ListAt(s.byIssuer, a) && id in ListAt(s.byIssuer, b)) {
      IssuerListsDisjoint(s, a, b, id);
    }
    SubmittedIffListed(s, id);
  }

  lemma IssuerListAscends(s: RegistryState, a: Address)
    requires IndexInv(s)
    ensures Ascending(ListAt(s.byIssuer, a))
  {
    SubmittedByAscends(s.submissions, a);
    assert ListAt(s.byIssuer, a) == SubmittedBy(s.submissions, a);
  }

  lemma IssuerListsDisjoint(s: RegistryState, a: Address, b: Address, id: nat)
    requires IndexInv(s) && a != b
    ensures !(id in ListAt(s.byIssuer, a) && id in ListAt(s.byIssuer, b))
  {
    ListedIff(s, a, id);
    ListedIff(s, b, id);
    OneIssuer(s.submissions, id, a, b);
  }

  lemma SubmittedIffListed(s: RegistryState, id: nat)
    requires IndexInv(s)
    ensures Submitted(s.submissions, id) <==> exists a :: id in ListAt(s.byIssuer, a)
  {
    if Submitted(s.submissions, id) {
      var i :| 0 <= i < |s.submissions| && s.submissions[i].creditId == id;
      assert s.submissions[i] == Submission(id, s.submissions[i].issuer);
      ListedIff(s, s.submissions[i].issuer, id);
    }
    if a :| id in ListAt(s.byIssuer, a) {
      ListedIff(s, a, id);
    }
  }

  lemma ListedIff(s: RegistryState, a: Address, id: nat)
    requires IndexInv(s)
    ensures id in ListAt(s.byIssuer, a) <==> Submission(id, a) in s.submissions
  {
    SubmittedByIn(s.submissions, a, id);
    assert ListAt(s.byIssuer, a) == SubmittedBy(s.submissions, a);
  }

  lemma OneIssuer(subs: seq<Submission>, id: nat, a: Address, b: Address)
    requires forall i, j | 0 <= i < j < |subs| :: subs[i].creditId < subs[j].creditId
    requires a != b
    ensures !(Submission(id, a) in subs && Submission(id, b) in subs)
  {
  }

  predicate Ascending(list: seq<nat>) {
    forall i, j | 0 <= i < j < |list| :: list[i] < list[j]
  }

  lemma {:induction false} SubmittedByIn(subs: seq<Submission>, a: Address, id: nat)
    ensures id in SubmittedBy(subs, a) <==> Submission(id, a) in subs
  {
    if subs != [] {
      var front, last := subs[..|subs| - 1], subs[|subs| - 1];
      assert subs == front + [last];
      SubmittedByIn(front, a, id);
    }
  }

  lemma {:induction false} SubmittedByAscends(subs: seq<Submission>, a: Address)
    requires forall i, j | 0 <= i < j < |subs| :: subs[i].creditId < subs[j].creditId
    ensures Ascending(SubmittedBy(subs, a))
    ensures forall id | id in SubmittedBy(subs, a) :: subs != [] && id <= subs[|subs| - 1].creditId
  {
    if subs != [] {
      var front, last := subs[..|subs| - 1], subs[|subs| - 1];
      SubmittedByAscends(front, a);
      var list := SubmittedBy(front, a);
      forall id | id in list ensures id < last.creditId {
        assert front[|front| - 1] == subs[|subs| - 2];
      }
      forall i | 0 <= i < |list| ensures list[i] < last.creditId {
        assert list[i] in list;
      }
    }
  }

  // ---------- Voting under a fixed configuration ----------

  lemma {:induction false} TallySplits(votes: seq<Vote>)
    ensures Tally(votes, true) + Tally(votes, false) == |votes|
  {
    if votes != [] {
      TallySplits(votes[..|votes| - 1]);
    }
  }

  lemma TallyAppend(votes: seq<Vote>, v: Vote, approved: bool)
    ensures Tally(votes + [v], approved) == Tally(votes, approved) + (if v.approved == approved then 1 else 0)
  {
    assert (votes + [v])[..|votes|] == votes;
  }

  /** Where the votes on a submitted credit stand: undecided while Pending, decided by
      exactly the vote that made the difference otherwise. */
  predicate Tallied(s: RegistryState, id: nat)
    requires id in s.credits
  {
    var yes, no, c := Tally(s.VotesOn(id), true), Tally(s.VotesOn(id), false), s.config;
    match s.credits[id].status
    case Pending => yes < c.threshold && no <= c.quorum - c.threshold && |s.VotesOn(id)| < c.quorum
    case Rejected => yes < c.threshold && no == c.quorum - c.threshold + 1
    case _ => yes == c.threshold && no <= c.quorum - c.threshold
  }

  ghost predicate TalliedSince(s: RegistryState, since: nat) {
    forall id: nat | id in s.credits && id > since && Submitted(s.submissions, id) :: Tallied(s, id)
  }

  lemma StepKeepsTally(s: RegistryState, tx: RegistryTx, since: nat)
    requires RegistryInv(s) && IndexInv(s) && TalliedSince(s, since) && !tx.call.UpdateConfig?
    ensures TalliedSince(Commit(s, tx), since) && Commit(s, tx).config == s.config
  {
    if IsAdminCall(tx.call) {
      AdminEffect(s, tx);
    } else if s.Perform(tx.env, tx.call).Ok? {
      CallKeepsTally(s, tx, Commit(s, tx), since);
    }
  }

  lemma CallKeepsTally(s: RegistryState, tx: RegistryTx, s': RegistryState, since: nat)
    requires RegistryInv(s) && IndexInv(s) && TalliedSince(s, since) && !IsAdminCall(tx.call)
    requires s.Perform(tx.env, tx.call).Ok? && s' == Commit(s, tx)
    ensures TalliedSince(s', since) && s'.config == s.config
  {
    match tx.call {
      case SubmitCredit(issuer, m, ipfs) =>
        SubmitKeepsTally(s, tx.env, issuer, m, ipfs, s', since);
      case ApproveAndMint(v, id, text) =>
        VoteCallKeepsTally(s, tx.env, v, id, text, true, s', s.ApproveAndMint(tx.env, v, id, text).value.1, since);
      case RejectCredit(v, id, text) =>
        VoteCallKeepsTally(s, tx.env, v, id, text, false, s', s.RejectCredit(tx.env, v, id, text).value.1, since);
      case MintBridged(bridge, to, m) =>
        MintKeepsTally(s, tx.env, bridge, to, m, s', since);
      case TransferCredit(from, to, id) =>
        TransferKeepsTally(s, tx.env, from, to, id, s', since);
      case MarkRetired(caller, id) =>
        RetireKeepsTally(s, tx.env, caller, id, s', since);
    }
  }

  lemma VoteCallKeepsTally(s: RegistryState, env: Env, verifier: Address, id: nat, text: string, approve: bool,
                           s': RegistryState, b: bool, since: nat)
    requires RegistryInv(s) && TalliedSince(s, since)
    requires Ok((s', b)) == CastVote(s, env, verifier, id, text, approve)
    ensures TalliedSince(s', since) && s'.config == s.config
  {
    VoteShape(s, env, verifier, id, text, approve, s', b);
    VoteKeepsTally(s, id, Vote(verifier, approve, env.now, text), s', since);
  }

  lemma TransferKeepsTally(s: RegistryState, env: Env, from: Address, to: Address, id: nat, s': RegistryState,
                           since: nat)
    requires TalliedSince(s, since)
    requires var r := s.TransferCredit(env, from, to, id); r.Ok? && r.value.0 == s'
    ensures TalliedSince(s', since)
  {
    forall k: nat | k in s'.credits && k > since && Submitted(s'.submissions, k) ensures Tallied(s', k) {
      assert Tallied(s, k);
    }
  }

  lemma MintKeepsTally(s: RegistryState, env: Env, bridge: Address, to: Address, m: Credit, s': RegistryState,
                       since: nat)
    requires RegistryInv(s) && IndexInv(s) && TalliedSince(s, since)
    requires var r := s.MintBridged(env, bridge, to, m); r.Ok? && r.value.0 == s'
    ensures TalliedSince(s', since)
  {
    MintKeepsInv(s, env, bridge, to, m, s', s.MintBridged(env, bridge, to, m).value.1);
    forall k: nat | k in s'.credits && k > since && Submitted(s'.submissions, k) ensures Tallied(s', k) {
      assert Tallied(s, k);
    }
  }

  lemma RetireKeepsTally(s: RegistryState, env: Env, caller: Address, id: nat, s': RegistryState, since: nat)
    requires TalliedSince(s, since) && s.MarkRetired(env, caller, id) == Ok((s', ()))
    ensures TalliedSince(s', since)
  {
    forall k: nat | k in s'.credits && k > since && Submitted(s'.submissions, k) ensures Tallied(s', k) {
      assert Tallied(s, k);
    }
  }

  lemma SubmitKeepsTally(s: RegistryState, env: Env, issuer: Address, m: Credit, ipfs: string, s': RegistryState,
                         since: nat)
    requires RegistryInv(s) && TalliedSince(s, since)
    requires var r := s.SubmitCredit(env, issuer, m, ipfs); r.Ok? && r.value.0 == s'
    ensures TalliedSince(s', since)
  {
    SubmitEvolves(s, env, issuer, m, ipfs, s', s.SubmitCredit(env, issuer, m, ipfs).value.1);
    forall k: nat | k in s'.credits && k > since && Submitted(s'.submissions, k) ensures Tallied(s', k) {
      assert k in s.credits ==> Tallied(s, k);
    }
  }

  lemma VoteKeepsTally(s: RegistryState, id: nat, v: Vote, s': RegistryState, since: nat)
    requires RegistryInv(s) && TalliedSince(s, since) && s.HasStatus(id, Pending) && id in s'.credits
    requires s' == Recorded(s, id, v, s'.credits[id].status, s'.credits[id].tokenId)
    requires s'.credits[id].status ==
             if v.approved then (if Tally(s.VotesOn(id) + [v], true) >= s.config.threshold then Active else Pending)
             else if Tally(s.VotesOn(id) + [v], false) > s.config.quorum - s.config.threshold then Rejected
             else Pending
    ensures TalliedSince(s', since)
  {
    forall k: nat | k in s'.credits && k > since && Submitted(s'.submissions, k) ensures Tallied(s', k) {
      assert Tallied(s, k);
      if k == id {
        VotedTally(s, id, v, s');
      } else {
        OtherTally(s, id, v, s'.credits[id].status, s'.credits[id].tokenId, k);
      }
    }
  }

  lemma OtherTally(s: RegistryState, id: nat, v: Vote, status: CreditStatus, token: TokenId, k: nat)
    requires id in s.credits && k in s.credits && k != id && Tallied(s, k)
    ensures Tallied(Recorded(s, id, v, status, token), k)
  {
  }

  lemma VotedTally(s: RegistryState, id: nat, v: Vote, s': RegistryState)
    requires s.HasStatus(id, Pending) && Tallied(s, id) && id in s'.credits
    requires s'.config == s.config && s'.VotesOn(id) == s.VotesOn(id) + [v]
    requires s'.credits[id].status ==
             if v.approved then (if Tally(s.VotesOn(id) + [v], true) >= s.config.threshold then Active else Pending)
             else if Tally(s.VotesOn(id) + [v], false) > s.config.quorum - s.config.threshold then Rejected
             else Pending
    ensures Tallied(s', id)
  {
    VoteTally(s, id, v);
  }

  lemma VoteTally(s: RegistryState, id: nat, v: Vote)
    ensures Tally(s.VotesOn(id) + [v], true) == Tally(s.VotesOn(id), true) + (if v.approved then 1 else 0)
    ensures Tally(s.VotesOn(id) + [v], false) == Tally(s.VotesOn(id), false) + (if v.approved then 0 else 1)
    ensures |s.VotesOn(id)| == Tally(s.VotesOn(id), true) + Tally(s.VotesOn(id), false)
  {
    TallyAppend(s.VotesOn(id), v, true);
    TallyAppend(s.VotesOn(id), v, false);
    TallySplits(s.VotesOn(id));
  }

  /** In a run that leaves the configuration alone, every credit submitted during the run
      stands as `Tallied` says: a Pending one has fewer than threshold approvals and at most
      quorum - threshold rejections, hence fewer than quorum votes; a voted-in one has
      exactly threshold approvals; a Rejected one exactly quorum - threshold + 1 rejections. */
  lemma {:induction false} FixedConfigTally(s: RegistryState, txs: seq<RegistryTx>)
    requires RegistryInv(s) && IndexInv(s)
    requires forall i | 0 <= i < |txs| :: !txs[i].call.UpdateConfig?
    ensures TalliedSince(RunRegistry(s, txs), s.counter) && RunRegistry(s, txs).config == s.config
    decreases |txs|
  {
    if txs != [] {
      var n := |txs| - 1;
      FixedConfigTally(s, txs[..n]);
      RunKeepsInv(s, txs[..n]);
      StepKeepsTally(RunRegistry(s, txs[..n]), txs[n], s.counter);
    }
  }
}
