/** When each registry call commits, and what it leaves behind for an observer: written out
    from the contract's promises, one law a call. */
module RegistryEffects {
  import opened Common
  import opened Registry
  import opened RegistryLaws

  // ---------- What an observer compares ----------

  /** Everything about other credits is as before. */
  ghost predicate OthersKept(s: RegistryState, s': RegistryState, id: nat) {
    forall k: nat | k != id ::
      s'.ReadCredit(k) == s.ReadCredit(k) && s'.ReadOwner(k) == s.ReadOwner(k) && s'.VotesOn(k) == s.VotesOn(k)
  }

  ghost predicate CreditsKept(s: RegistryState, s': RegistryState) {
    && s'.counter == s.counter && s'.credits == s.credits && s'.owners == s.owners && s'.votes == s.votes
    && s'.byIssuer == s.byIssuer && s'.byOwner == s.byOwner && s'.submissions == s.submissions
  }

  ghost predicate AdminKept(s: RegistryState, s': RegistryState) {
    && s'.config == s.config && s'.verifiers == s.verifiers && s'.bridges == s.bridges && s'.retirers == s.retirers
  }

  /** `a`'s list has grown by `id`, all other lists are as before. */
  ghost predicate ListGrew(lists: map<Address, seq<nat>>, lists': map<Address, seq<nat>>, a: Address, id: nat) {
    forall b :: ListAt(lists', b) == ListAt(lists, b) + (if b == a then [id] else [])
  }

  /** What the contract demands of metadata. */
  predicate Acceptable(m: Credit) {
    && |m.projectId| > 0 && |m.methodology| > 0
    && m.vintageStart > 0 && m.vintageEnd > 0 && m.vintageStart <= m.vintageEnd
    && m.tonnes > 0 && m.tonnes <= 1_000_000_000_000
    && |m.geography| == 2 && m.sdgFlags <= 16383
    && m.bufferContributionPct <= 20 && m.permanenceRating <= 100 && m.additionalityType <= 2
  }

  // ---------- New credits ----------

  /** A submission commits if and only if the issuer signed it and the metadata are acceptable.
      The new credit is Pending and the issuer's, with no votes and no token, and keeps every
      other field of the submission. */
  lemma SubmitOutcome(s: RegistryState, env: Env, issuer: Address, m: Credit, ipfs: string)
    requires RegistryInv(s)
    ensures s.Perform(env, SubmitCredit(issuer, m, ipfs)).Ok? <==> issuer in env.auth && Acceptable(m)
    ensures s.Perform(env, SubmitCredit(issuer, m, ipfs)).Ok? ==>
              var (s', reply) := s.Perform(env, SubmitCredit(issuer, m, ipfs)).value;
              var id := s.counter + 1;
              && reply == Id(id) && s'.counter == id && id !in s.credits
              && s'.ReadCredit(id) == Ok(Credit(m.projectId, m.methodology, m.vintageStart, m.vintageEnd, m.tonnes,
                                                m.geography, m.serialPrefix, m.sdgFlags, m.permanenceRating,
                                                m.bufferContributionPct, m.additionalityType, ipfs,
                                                Pending, env.now, ZeroToken))
              && s'.ReadOwner(id) == Ok(issuer) && s'.VotesOn(id) == []
              && ListGrew(s.byIssuer, s'.byIssuer, issuer, id) && ListGrew(s.byOwner, s'.byOwner, issuer, id)
              && s'.submissions == s.submissions + [Submission(id, issuer)]
              && OthersKept(s, s', id) && AdminKept(s, s')
  {
  }

  /** A bridged mint commits if and only if the bridge signed it, is authorized, and the metadata
      are acceptable. The new credit is Active, belongs to the receiver, and is in the
      receiver's list; every field but status, time and token is that of the metadata. */
  lemma MintOutcome(s: RegistryState, env: Env, bridge: Address, to: Address, m: Credit)
    requires RegistryInv(s)
    ensures s.Perform(env, MintBridged(bridge, to, m)).Ok? <==>
              bridge in env.auth && bridge in s.bridges && Acceptable(m)
    ensures s.Perform(env, MintBridged(bridge, to, m)).Ok? ==>
              var (s', reply) := s.Perform(env, MintBridged(bridge, to, m)).value;
              reply == Id(s.counter + 1) && Minted(s, s', env, to, m)
  {
    if s.Perform(env, MintBridged(bridge, to, m)).Ok? {
      MintEffect(s, env, bridge, to, m);
    }
  }

  lemma MintEffect(s: RegistryState, env: Env, bridge: Address, to: Address, m: Credit)
    requires RegistryInv(s) && s.MintBridged(env, bridge, to, m).Ok?
    ensures var (s', id) := s.MintBridged(env, bridge, to, m).value; id == s.counter + 1 && Minted(s, s', env, to, m)
  {
  }

  /** `s'` is `s` with one bridged credit more, `to`'s. */
  ghost predicate Minted(s: RegistryState, s': RegistryState, env: Env, to: Address, m: Credit) {
    var id := s.counter + 1;
    && s'.counter == id && id !in s.credits
    && s'.ReadCredit(id) == Ok(Credit(m.projectId, m.methodology, m.vintageStart, m.vintageEnd, m.tonnes,
                                      m.geography, m.serialPrefix, m.sdgFlags, m.permanenceRating,
                                      m.bufferContributionPct, m.additionalityType, m.ipfsHash,
                                      Active, env.now, HashOfId(id)))
    && s'.ReadOwner(id) == Ok(to) && s'.VotesOn(id) == []
    && ListGrew(s.byOwner, s'.byOwner, to, id) && s'.byIssuer == s.byIssuer && s'.submissions == s.submissions
    && OthersKept(s, s', id) && AdminKept(s, s')
  }

  // ---------- Votes ----------

  /** A vote commits if and only if a registered verifier signed it, the credit is Pending, and
      no vote on it is that verifier's. It is recorded last, and only status and token of the
      credit can change: at the deciding vote, an approved credit gets its token id. */
  lemma VoteOutcome(s: RegistryState, env: Env, verifier: Address, id: nat, text: string, approve: bool)
    ensures CastVote(s, env, verifier, id, text, approve).Ok? <==>
              && verifier in env.auth && verifier in s.verifiers
              && id in s.credits && s.credits[id].status == Pending
              && forall i | 0 <= i < |s.VotesOn(id)| :: s.VotesOn(id)[i].verifier != verifier
    ensures CastVote(s, env, verifier, id, text, approve).Ok? ==>
              var (s', decided) := CastVote(s, env, verifier, id, text, approve).value;
              && s'.VotesOn(id) == s.VotesOn(id) + [Vote(verifier, approve, env.now, text)]
              && s'.ReadCredit(id) == Ok(s.credits[id].(
                   status := if !decided then Pending else if approve then Active else Rejected,
                   tokenId := if decided && approve then HashOfId(id) else s.credits[id].tokenId))
              && s'.ReadOwner(id) == s.ReadOwner(id) && s'.counter == s.counter
              && s'.byIssuer == s.byIssuer && s'.byOwner == s.byOwner && s'.submissions == s.submissions
              && OthersKept(s, s', id) && AdminKept(s, s')
  {
    assert HasVoted(s.VotesOn(id), verifier)
        <==> exists i | 0 <= i < |s.VotesOn(id)| :: s.VotesOn(id)[i].verifier == verifier;
  }

  /** The calls are votes of the kind their name says. */
  lemma CallsAreVotes(s: RegistryState, env: Env, verifier: Address, id: nat, text: string)
    ensures s.Perform(env, ApproveAndMint(verifier, id, text))
            == match CastVote(s, env, verifier, id, text, true)
               case Ok((s', decided)) => Ok((s', Flag(decided))) case Err(e) => Err(e)
    ensures s.Perform(env, RejectCredit(verifier, id, text))
            == match CastVote(s, env, verifier, id, text, false)
               case Ok((s', decided)) => Ok((s', Flag(decided))) case Err(e) => Err(e)
  {
  }

  // ---------- Owners and retirement ----------

  /** A transfer commits if and only if its sender signed it and owns the credit, which is
      Active. Only the owner changes. */
  lemma TransferOutcome(s: RegistryState, env: Env, from: Address, to: Address, id: nat)
    ensures s.Perform(env, TransferCredit(from, to, id)).Ok? <==>
              && from in env.auth && id in s.owners && s.owners[id] == from
              && id in s.credits && s.credits[id].status == Active
    ensures s.Perform(env, TransferCredit(from, to, id)).Ok? ==>
              var (s', reply) := s.Perform(env, TransferCredit(from, to, id)).value;
              reply == Flag(true) && HandedOver(s, s', id, to)
  {
  }

  /** `s'` is `s` with credit `id` in the hands of `to`. */
  ghost predicate HandedOver(s: RegistryState, s': RegistryState, id: nat, to: Address) {
    && s'.ReadOwner(id) == Ok(to) && s'.ReadCredit(id) == s.ReadCredit(id) && s'.VotesOn(id) == s.VotesOn(id)
    && ListGrew(s.byOwner, s'.byOwner, to, id)
    && s'.counter == s.counter && s'.byIssuer == s.byIssuer && s'.submissions == s.submissions
    && OthersKept(s, s', id) && AdminKept(s, s')
  }

  /** `mark_retired` commits if and only if an authorized retirer signed it and the credit is
      Active. Only the status changes. */
  lemma MarkRetiredOutcome(s: RegistryState, env: Env, caller: Address, id: nat)
    ensures s.Perform(env, MarkRetired(caller, id)).Ok? <==>
              && caller in env.auth && caller in s.retirers && id in s.credits && s.credits[id].status == Active
    ensures s.Perform(env, MarkRetired(caller, id)).Ok? ==>
              var (s', reply) := s.Perform(env, MarkRetired(caller, id)).value;
              reply == Done && TakenOff(s, s', id)
  {
  }

  /** `s'` is `s` with credit `id` Retired. */
  ghost predicate TakenOff(s: RegistryState, s': RegistryState, id: nat) {
    && id in s.credits && s'.ReadCredit(id) == Ok(s.credits[id].(status := Retired))
    && s'.ReadOwner(id) == s.ReadOwner(id) && s'.VotesOn(id) == s.VotesOn(id)
    && s'.counter == s.counter && s'.byIssuer == s.byIssuer && s'.byOwner == s.byOwner
    && s'.submissions == s.submissions && OthersKept(s, s', id) && AdminKept(s, s')
  }

  // ---------- Administration ----------

  /** `update_config` commits if and only if the stored admin signed it and every value is within
      its bounds. It stores exactly these values, and the admin stays. */
  lemma ConfigOutcome(s: RegistryState, env: Env, admin: Address, threshold: nat, quorum: nat, window: nat, feeBps: nat,
                      bufferPct: nat)
    ensures s.Perform(env, UpdateConfig(admin, threshold, quorum, window, feeBps, bufferPct)).Ok? <==>
              && admin in env.auth && admin == s.config.admin
              && threshold >= 1 && threshold <= quorum && quorum <= 20
              && window >= 3600 && window <= 7_776_000 && feeBps <= 1000 && bufferPct <= 50
    ensures s.Perform(env, UpdateConfig(admin, threshold, quorum, window, feeBps, bufferPct)).Ok? ==>
              var (s', reply) := s.Perform(env,
                                           UpdateConfig(admin, threshold, quorum, window, feeBps, bufferPct)).value;
              && reply == Flag(true)
              && s'.config.admin == s.config.admin && s'.config.threshold == threshold && s'.config.quorum == quorum
              && s'.config.approvalWindow == window && s'.config.protocolFeeBps == feeBps
              && s'.config.bufferPoolPct == bufferPct
              && s'.verifiers == s.verifiers && s'.bridges == s.bridges && s'.retirers == s.retirers
              && CreditsKept(s, s')
  {
  }

  /** `add_verifier` commits if and only if caller and stored admin signed it, the verifier is
      new, and fewer than 20 are registered. It comes last in the list. */
  lemma AddVerifierOutcome(s: RegistryState, env: Env, admin: Address, verifier: Address)
    ensures s.Perform(env, AddVerifier(admin, verifier)).Ok? <==>
              && admin in env.auth && s.config.admin in env.auth
              && (forall i | 0 <= i < |s.verifiers| :: s.verifiers[i] != verifier) && |s.verifiers| < 20
    ensures s.Perform(env, AddVerifier(admin, verifier)).Ok? ==>
              var (s', reply) := s.Perform(env, AddVerifier(admin, verifier)).value;
              && reply == Done && s'.verifiers == s.verifiers + [verifier]
              && s'.config == s.config && s'.bridges == s.bridges && s'.retirers == s.retirers && CreditsKept(s, s')
  {
  }

  /** `remove_verifier` commits if and only if caller and stored admin signed it and the verifier
      is registered. The others stay, in their order. */
  lemma RemoveVerifierOutcome(s: RegistryState, env: Env, admin: Address, before: seq<Address>, verifier: Address,
                              after: seq<Address>)
    ensures s.Perform(env, RemoveVerifier(admin, verifier)).Ok? <==>
              && admin in env.auth && s.config.admin in env.auth && verifier in s.verifiers
    ensures s.Perform(env, RemoveVerifier(admin, verifier)).Ok? && Distinct(s.verifiers)
            && s.verifiers == before + [verifier] + after ==>
              var (s', reply) := s.Perform(env, RemoveVerifier(admin, verifier)).value;
              && reply == Done && s'.verifiers == before + after
              && s'.config == s.config && s'.bridges == s.bridges && s'.retirers == s.retirers && CreditsKept(s, s')
  {
    if Distinct(s.verifiers) && s.verifiers == before + [verifier] + after {
      WithoutOne(before, verifier, after);
    }
  }

  lemma {:induction false} WithoutOne(before: seq<Address>, a: Address, after: seq<Address>)
    requires Distinct(before + [a] + after)
    ensures Without(before + [a] + after, a) == before + after
    decreases |after|
  {
    var list := before + [a] + after;
    assert list[|before|] == a;
    if after == [] {
      assert list[..|list| - 1] == before;
      assert forall i | 0 <= i < |before| :: list[i] == before[i];
      WithoutAbsent(before, a);
      assert before + after == before;
    } else {
      var front := after[..|after| - 1];
      assert list[..|list| - 1] == before + [a] + front;
      assert list[|list| - 1] == after[|after| - 1] != a;
      WithoutOne(before, a, front);
      assert before + front + [after[|after| - 1]] == before + after;
    }
  }

  lemma {:induction false} WithoutAbsent(list: seq<Address>, a: Address)
    requires forall i | 0 <= i < |list| :: list[i] != a
    ensures Without(list, a) == list
  {
    if list != [] {
      WithoutAbsent(list[..|list| - 1], a);
    }
  }

  /** Bridges and retirers are authorized and dismissed only with the signatures of caller and
      stored admin, and nothing else changes. */
  lemma AuthorizationOutcome(s: RegistryState, env: Env, admin: Address, a: Address)
    ensures forall call | call in {AddBridge(admin, a), RemoveBridge(admin, a), AddRetirer(admin, a),
              RemoveRetirer(admin, a)} ::
              s.Perform(env, call).Ok? <==> admin in env.auth && s.config.admin in env.auth
    ensures admin in env.auth && s.config.admin in env.auth ==>
              && s.Perform(env, AddBridge(admin, a)) == Ok((s.(bridges := s.bridges + {a}), Done))
              && s.Perform(env, RemoveBridge(admin, a)) == Ok((s.(bridges := s.bridges - {a}), Done))
              && s.Perform(env, AddRetirer(admin, a)) == Ok((s.(retirers := s.retirers + {a}), Done))
              && s.Perform(env, RemoveRetirer(admin, a)) == Ok((s.(retirers := s.retirers - {a}), Done))
  {
  }

  /** A fresh registry: the configuration of `init`, and nothing else. */
  lemma FreshRegistry(admin: Address, threshold: nat, quorum: nat)
    ensures var s := Initialised(admin, threshold, quorum);
            && s.config == Config(admin, threshold, quorum, 604_800, 50, 10) && s.counter == 0
            && (forall k :: s.ReadCredit(k).Err? && s.ReadOwner(k).Err? && s.VotesOn(k) == [])
            && (forall a :: ListAt(s.byIssuer, a) == [] && ListAt(s.byOwner, a) == [] && a !in s.verifiers
                            && a !in s.bridges && a !in s.retirers)
  {
  }

  // ---------- Token ids over runs ----------

  /** A credit has its token id exactly from the moment it was minted. */
  ghost predicate TokensSound(credits: map<nat, Credit>) {
    forall id | id in credits ::
      credits[id].tokenId ==
      if credits[id].status == Active || credits[id].status == Retired then HashOfId(id) else ZeroToken
  }

  lemma {:induction false} TokensOverRuns(s: RegistryState, txs: seq<RegistryTx>)
    requires RegistryInv(s) && IndexInv(s) && TokensSound(s.credits)
    ensures TokensSound(RunRegistry(s, txs).credits)
    decreases |txs|
  {
    if txs != [] {
      var n := |txs| - 1;
      TokensOverRuns(s, txs[..n]);
      RunKeepsInv(s, txs[..n]);
      CallKeepsTokens(RunRegistry(s, txs[..n]), txs[n]);
    }
  }

  lemma CallKeepsTokens(s: RegistryState, tx: RegistryTx)
    requires RegistryInv(s) && TokensSound(s.credits)
    ensures TokensSound(Commit(s, tx).credits)
  {
    if IsAdminCall(tx.call) {
      AdminEffect(s, tx);
    } else if s.Perform(tx.env, tx.call).Ok? {
      match tx.call {
        case SubmitCredit(issuer, m, ipfs) =>
          SubmitOutcome(s, tx.env, issuer, m, ipfs);
          OneCreditChanged(s, Commit(s, tx), s.counter + 1);
        case MintBridged(bridge, to, m) =>
          MintOutcome(s, tx.env, bridge, to, m);
          OneCreditChanged(s, Commit(s, tx), s.counter + 1);
        case ApproveAndMint(v, id, text) =>
          VoteOutcome(s, tx.env, v, id, text, true);
          OneCreditChanged(s, Commit(s, tx), id);
        case RejectCredit(v, id, text) =>
          VoteOutcome(s, tx.env, v, id, text, false);
          OneCreditChanged(s, Commit(s, tx), id);
        case TransferCredit(from, to, id) =>
          TransferOutcome(s, tx.env, from, to, id);
          OneCreditChanged(s, Commit(s, tx), id);
        case MarkRetired(caller, id) =>
          MarkRetiredOutcome(s, tx.env, caller, id);
          OneCreditChanged(s, Commit(s, tx), id);
      }
    }
  }

  lemma OneCreditChanged(s: RegistryState, s': RegistryState, id: nat)
    requires TokensSound(s.credits) && OthersKept(s, s', id)
    requires id in s'.credits ==>
               s'.credits[id].tokenId == (if s'.credits[id].status == Active || s'.credits[id].status == Retired
                                          then HashOfId(id) else ZeroToken)
    ensures TokensSound(s'.credits)
  {
    forall k | k in s'.credits && k != id ensures k in s.credits && s'.credits[k] == s.credits[k] {
      assert s'.ReadCredit(k) == s.ReadCredit(k);
    }
  }
}
