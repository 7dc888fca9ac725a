/** How verifiers decide a credit: early decision equals the full tally, in any order. */
module VotingLaws {
  import opened Common
  import opened Registry
  import opened RegistryLaws

  // ---------- Ballots ----------

  datatype Choice = Choice(verifier: Address, approve: bool)
  datatype Ballot = Ballot(choice: Choice, env: Env, comments: string)

  function BallotTx(b: Ballot, id: nat): RegistryTx {
    RegistryTx(b.env, if b.choice.approve then ApproveAndMint(b.choice.verifier, id, b.comments)
                      else RejectCredit(b.choice.verifier, id, b.comments))
  }

  function BallotTxs(ballots: seq<Ballot>, id: nat): seq<RegistryTx> {
    seq(|ballots|, i requires 0 <= i < |ballots| => BallotTx(ballots[i], id))
  }

  function Choices(ballots: seq<Ballot>): seq<Choice> {
    seq(|ballots|, i requires 0 <= i < |ballots| => ballots[i].choice)
  }

  function YesCount(choices: seq<Choice>): nat {
    if choices == [] then 0
    else YesCount(choices[..|choices| - 1]) + (if choices[|choices| - 1].approve then 1 else 0)
  }

  /** Ballots signed by distinct verifiers that are registered in `s`. */
  ghost predicate ProperBallots(s: RegistryState, ballots: seq<Ballot>) {
    && (forall i | 0 <= i < |ballots| ::
          ballots[i].choice.verifier in s.verifiers && ballots[i].choice.verifier in ballots[i].env.auth)
    && (forall i, j | 0 <= i < j < |ballots| :: ballots[i].choice.verifier != ballots[j].choice.verifier)
  }

  /** The vote on `id` that a call casts, if it casts one. */
  function VoteOn(call: RegistryCall, id: nat): Option<Choice> {
    match call
    case ApproveAndMint(verifier, k, _) => if k == id then Some(Choice(verifier, true)) else None
    case RejectCredit(verifier, k, _) => if k == id then Some(Choice(verifier, false)) else None
    case _ => None
  }

  predicate HasChosen(choices: seq<Choice>, verifier: Address) {
    exists i | 0 <= i < |choices| :: choices[i].verifier == verifier
  }

  /** What a transaction adds to the ballot `cast` on `id`: a vote signed by a verifier that is
      registered at the time and is not on the ballot yet, decided or not. */
  function AddedVote(s: RegistryState, tx: RegistryTx, id: nat, cast: seq<Choice>): seq<Choice> {
    match VoteOn(tx.call, id)
    case Some(c) =>
      if c.verifier in tx.env.auth && c.verifier in s.verifiers && !HasChosen(cast, c.verifier) then [c] else []
    case None => []
  }

  /** The ballot on `id` over a whole run, votes after the decision (which revert) included. */
  function Cast(s: RegistryState, txs: seq<RegistryTx>, id: nat): seq<Choice> {
    if txs == [] then []
    else
      var n := |txs| - 1;
      var cast := Cast(s, txs[..n], id);
      cast + AddedVote(RunRegistry(s, txs[..n]), txs[n], id, cast)
  }

  predicate RetiredAmong(txs: seq<RegistryTx>, id: nat) {
    exists i | 0 <= i < |txs| :: txs[i].call.MarkRetired? && txs[i].call.creditId == id
  }

  /** The votes that can decide: the first `quorum` ones. */
  function Deciding(cast: seq<Choice>, quorum: nat): seq<Choice> {
    if |cast| <= quorum then cast else cast[..quorum]
  }

  lemma DecidingGrows(cast: seq<Choice>, c: Choice, quorum: nat)
    ensures Deciding(cast + [c], quorum) == Deciding(cast, quorum)
            || Deciding(cast + [c], quorum) == Deciding(cast, quorum) + [c]
    ensures |cast| < quorum ==> Deciding(cast, quorum) == cast && Deciding(cast + [c], quorum) == cast + [c]
  {
  }

  /** Where the credit stands once `cast` is its ballot: undecided with all of it recorded, or
      decided by the first `quorum` votes. */
  ghost predicate Standing(config: Config, s: RegistryState, id: nat, cast: seq<Choice>, mayBeRetired: bool) {
    var yes := YesCount(Deciding(cast, config.quorum));
    var no := |Deciding(cast, config.quorum)| - yes;
    && s.config == config && id in s.credits
    && match s.credits[id].status
       case Pending =>
         && Tally(s.VotesOn(id), true) == yes < config.threshold
         && Tally(s.VotesOn(id), false) == no <= config.quorum - config.threshold
         && (forall v :: HasVoted(s.VotesOn(id), v) <==> HasChosen(cast, v))
       case Active => yes >= config.threshold
       case Retired => yes >= config.threshold && mayBeRetired
       case Rejected => no > config.quorum - config.threshold
       case _ => false
  }

  lemma {:induction false} BallotStands(s: RegistryState, txs: seq<RegistryTx>, id: nat)
    requires RegistryInv(s) && IndexInv(s) && s.HasStatus(id, Pending) && s.VotesOn(id) == []
    requires forall i | 0 <= i < |txs| :: !txs[i].call.UpdateConfig?
    ensures Standing(s.config, RunRegistry(s, txs), id, Cast(s, txs, id), RetiredAmong(txs, id))
    decreases |txs|
  {
    if txs != [] {
      var front, tx := txs[..|txs| - 1], txs[|txs| - 1];
      assert front + [tx] == txs;
      BallotStands(s, front, id);
      RunKeepsInv(s, front);
      CastSnoc(s, front, tx, id);
      RetiredSnoc(front, tx, id);
      NextStands(s.config, RunRegistry(s, front), tx, id, Cast(s, front, id), RetiredAmong(front, id),
                 RetiredAmong(txs, id));
    }
  }

  lemma CastSnoc(s: RegistryState, txs: seq<RegistryTx>, tx: RegistryTx, id: nat)
    ensures RunRegistry(s, txs + [tx]) == Commit(RunRegistry(s, txs), tx)
    ensures Cast(s, txs + [tx], id) == Cast(s, txs, id) + AddedVote(RunRegistry(s, txs), tx, id, Cast(s, txs, id))
  {
    assert (txs + [tx])[..|txs|] == txs;
  }

  lemma RetiredSnoc(txs: seq<RegistryTx>, tx: RegistryTx, id: nat)
    ensures RetiredAmong(txs, id) ==> RetiredAmong(txs + [tx], id)
    ensures tx.call.MarkRetired? && tx.call.creditId == id ==> RetiredAmong(txs + [tx], id)
  {
    if i :| 0 <= i < |txs| && txs[i].call.MarkRetired? && txs[i].call.creditId == id {
      assert (txs + [tx])[i] == txs[i];
    }
    assert (txs + [tx])[|txs|] == tx;
  }

  lemma NextStands(config: Config, s: RegistryState, tx: RegistryTx, id: nat, cast: seq<Choice>, before: bool,
                   after: bool)
    requires 1 <= config.threshold <= config.quorum && Standing(config, s, id, cast, before) && id <= s.counter
    requires !tx.call.UpdateConfig? && (before || (tx.call.MarkRetired? && tx.call.creditId == id) ==> after)
    ensures Standing(config, Commit(s, tx), id, cast + AddedVote(s, tx, id, cast), after)
  {
    assert Standing(config, s, id, cast, after);
    if VoteOn(tx.call, id).Some? {
      VoteStands(config, s, tx, id, cast, after);
    } else {
      OtherCallStands(config, s, tx, id, cast, after);
    }
  }

  /** One more vote: recorded while the credit is Pending and the vote counts; else it reverts. */
  lemma VoteStands(config: Config, s: RegistryState, tx: RegistryTx, id: nat, cast: seq<Choice>, mayBeRetired: bool)
    requires 1 <= config.threshold <= config.quorum && Standing(config, s, id, cast, mayBeRetired)
    requires VoteOn(tx.call, id).Some?
    ensures Standing(config, Commit(s, tx), id, cast + AddedVote(s, tx, id, cast), mayBeRetired)
  {
    var c, added := VoteOn(tx.call, id).value, AddedVote(s, tx, id, cast);
    if s.HasStatus(id, Pending) && added == [c] {
      var ballot := Ballot(c, tx.env, tx.call.comments);
      assert BallotTx(ballot, id) == tx;
      BallotCounts(config, s, ballot, id, cast, mayBeRetired);
    } else {
      VoteReverts(s, tx, id, c);
      assert cast + [] == cast;
      if !s.HasStatus(id, Pending) {
        DecisionStands(config, s, id, cast, c, mayBeRetired);
      }
    }
  }

  /** Further votes do not undo a decision. */
  lemma DecisionStands(config: Config, s: RegistryState, id: nat, cast: seq<Choice>, c: Choice, mayBeRetired: bool)
    requires Standing(config, s, id, cast, mayBeRetired) && !s.HasStatus(id, Pending)
    ensures Standing(config, s, id, cast + [c], mayBeRetired)
  {
    DecidingGrows(cast, c, config.quorum);
    YesAppend(Deciding(cast, config.quorum), c);
  }

  lemma BallotCounts(config: Config, s: RegistryState, b: Ballot, id: nat, cast: seq<Choice>, mayBeRetired: bool)
    requires 1 <= config.threshold <= config.quorum && Standing(config, s, id, cast, mayBeRetired)
    requires s.HasStatus(id, Pending) && !HasChosen(cast, b.choice.verifier)
    requires b.choice.verifier in s.verifiers && b.choice.verifier in b.env.auth
    ensures Standing(config, Commit(s, BallotTx(b, id)), id, cast + [b.choice], mayBeRetired)
  {
    var vote := Vote(b.choice.verifier, b.choice.approve, b.env.now, b.comments);
    VoteIsRecorded(s, b, id);
    RecordedStands(config, s, Commit(s, BallotTx(b, id)), id, vote, cast, b.choice, mayBeRetired);
  }

  lemma RecordedStands(config: Config, s: RegistryState, s': RegistryState, id: nat, vote: Vote, cast: seq<Choice>,
                       c: Choice, mayBeRetired: bool)
    requires 1 <= config.threshold <= config.quorum && Standing(config, s, id, cast, mayBeRetired)
    requires s.HasStatus(id, Pending) && vote.verifier == c.verifier && vote.approved == c.approve
    requires s'.config == config && id in s'.credits && s'.VotesOn(id) == s.VotesOn(id) + [vote]
    requires s'.credits[id].status ==
             if c.approve then if Tally(s'.VotesOn(id), true) >= config.threshold then Active else Pending
             else if Tally(s'.VotesOn(id), false) > config.quorum - config.threshold then Rejected else Pending
    ensures Standing(config, s', id, cast + [c], mayBeRetired)
  {
    VoteTally(s, id, vote);
    YesAppend(cast, c);
    YesBounded(Deciding(cast, config.quorum));
    DecidingGrows(cast, c, config.quorum);
    VotersGrow(s.VotesOn(id), vote, cast, c);
  }

  lemma VotersGrow(votes: seq<Vote>, vote: Vote, cast: seq<Choice>, c: Choice)
    requires vote.verifier == c.verifier && forall v :: HasVoted(votes, v) <==> HasChosen(cast, v)
    ensures forall v :: HasVoted(votes + [vote], v) <==> HasChosen(cast + [c], v)
  {
    forall v ensures HasVoted(votes + [vote], v) <==> HasVoted(votes, v) || v == vote.verifier {
      assert (votes + [vote])[|votes|] == vote;
      if i :| 0 <= i < |votes| && votes[i].verifier == v { assert (votes + [vote])[i] == votes[i]; }
    }
    forall v ensures HasChosen(cast + [c], v) <==> HasChosen(cast, v) || v == c.verifier {
      assert (cast + [c])[|cast|] == c;
      if i :| 0 <= i < |cast| && cast[i].verifier == v { assert (cast + [c])[i] == cast[i]; }
    }
  }

  lemma VoteReverts(s: RegistryState, tx: RegistryTx, id: nat, c: Choice)
    requires VoteOn(tx.call, id) == Some(c)
    requires s.HasStatus(id, Pending) ==>
               c.verifier !in tx.env.auth || c.verifier !in s.verifiers || HasVoted(s.VotesOn(id), c.verifier)
    ensures Commit(s, tx) == s
  {
  }

  /** Calls that are no votes on the credit leave its votes alone, and retire it at most. */
  lemma OtherCallStands(config: Config, s: RegistryState, tx: RegistryTx, id: nat, cast: seq<Choice>,
                        mayBeRetired: bool)
    requires Standing(config, s, id, cast, mayBeRetired) && id <= s.counter
    requires VoteOn(tx.call, id).None? && !tx.call.UpdateConfig?
    requires tx.call.MarkRetired? && tx.call.creditId == id ==> mayBeRetired
    ensures Standing(config, Commit(s, tx), id, cast + AddedVote(s, tx, id, cast), mayBeRetired)
  {
    assert cast + [] == cast;
    OtherCallEffect(s, tx, id);
  }

  lemma OtherVoteEffect(s: RegistryState, env: Env, v: Address, k: nat, text: string, approve: bool, s': RegistryState,
                        b: bool, id: nat)
    requires Ok((s', b)) == CastVote(s, env, v, k, text, approve)
    requires id in s.credits && k != id
    ensures s'.config == s.config && id in s'.credits && s'.VotesOn(id) == s.VotesOn(id)
    ensures s'.credits[id] == s.credits[id]
  {
    VoteShape(s, env, v, k, text, approve, s', b);
  }

  lemma OtherCallEffect(s: RegistryState, tx: RegistryTx, id: nat)
    requires id in s.credits && id <= s.counter && VoteOn(tx.call, id).None? && !tx.call.UpdateConfig?
    ensures var s' := Commit(s, tx);
            && s'.config == s.config && id in s'.credits && s'.VotesOn(id) == s.VotesOn(id)
            && (s'.credits[id].status == s.credits[id].status
                || (s.HasStatus(id, Active) && s'.HasStatus(id, Retired)
                    && tx.call.MarkRetired? && tx.call.creditId == id))
  {
    if IsAdminCall(tx.call) {
      AdminEffect(s, tx);
    } else if s.Perform(tx.env, tx.call).Ok? {
      var s' := Commit(s, tx);
      match tx.call {
        case ApproveAndMint(v, k, text) =>
          OtherVoteEffect(s, tx.env, v, k, text, true, s', s.ApproveAndMint(tx.env, v, k, text).value.1, id);
        case RejectCredit(v, k, text) =>
          OtherVoteEffect(s, tx.env, v, k, text, false, s', s.RejectCredit(tx.env, v, k, text).value.1, id);
        case SubmitCredit(_, _, _) =>
        case TransferCredit(_, _, _) =>
        case MarkRetired(_, _) =>
        case MintBridged(_, _, _) =>
      }
    }
  }

  lemma VoteIsRecorded(s: RegistryState, b: Ballot, id: nat)
    requires s.HasStatus(id, Pending) && !HasVoted(s.VotesOn(id), b.choice.verifier)
    requires b.choice.verifier in s.verifiers && b.choice.verifier in b.env.auth
    ensures var s' := Commit(s, BallotTx(b, id));
            var vote := Vote(b.choice.verifier, b.choice.approve, b.env.now, b.comments);
            && s'.config == s.config && s'.verifiers == s.verifiers && id in s'.credits
            && s'.VotesOn(id) == s.VotesOn(id) + [vote]
            && s'.credits[id].status ==
               if b.choice.approve then
                 if Tally(s.VotesOn(id) + [vote], true) >= s.config.threshold then Active else Pending
               else
                 if Tally(s.VotesOn(id) + [vote], false) > s.config.quorum - s.config.threshold then Rejected
                 else Pending
  {
    VoteCommits(s, b, id);
    var (s', decided) := CastVote(s, b.env, b.choice.verifier, id, b.comments, b.choice.approve).value;
    VoteShape(s, b.env, b.choice.verifier, id, b.comments, b.choice.approve, s', decided);
  }

  lemma VoteCommits(s: RegistryState, b: Ballot, id: nat)
    requires s.HasStatus(id, Pending) && !HasVoted(s.VotesOn(id), b.choice.verifier)
    requires b.choice.verifier in s.verifiers && b.choice.verifier in b.env.auth
    ensures var r := CastVote(s, b.env, b.choice.verifier, id, b.comments, b.choice.approve);
            r.Ok? && Commit(s, BallotTx(b, id)) == r.value.0
  {
    assert s.VoteAllowed(b.env, b.choice.verifier, id).Ok?;
  }

  lemma {:induction false} YesBounded(choices: seq<Choice>)
    ensures YesCount(choices) <= |choices|
  {
    if choices != [] {
      YesBounded(choices[..|choices| - 1]);
    }
  }

  /** Deciding early loses nothing. Take any run from a fresh Pending credit that does not
      update the configuration, whatever else happens in it: if at least `quorum` registered
      verifiers cast their votes on the credit (votes after the decision revert), it ends up
      Active, or Retired by a later `mark_retired`, if the first `quorum` votes have at least
      `threshold` approvals, and Rejected otherwise. */
  lemma EarlyDecisionIsFullTally(s: RegistryState, txs: seq<RegistryTx>, id: nat)
    requires RegistryInv(s) && IndexInv(s) && s.HasStatus(id, Pending) && s.VotesOn(id) == []
    requires forall i | 0 <= i < |txs| :: !txs[i].call.UpdateConfig?
    requires |Cast(s, txs, id)| >= s.config.quorum
    ensures var s' := RunRegistry(s, txs);
            if YesCount(Cast(s, txs, id)[..s.config.quorum]) >= s.config.threshold
            then s'.HasStatus(id, Active) || (s'.HasStatus(id, Retired) && RetiredAmong(txs, id))
            else s'.HasStatus(id, Rejected)
  {
    BallotStands(s, txs, id);
    assert Deciding(Cast(s, txs, id), s.config.quorum) == Cast(s, txs, id)[..s.config.quorum];
  }

  /** Ballots of distinct registered verifiers, cast one after the other, are all on the
      ballot, in that order. */
  lemma {:induction false} BallotsAreCast(s: RegistryState, ballots: seq<Ballot>, id: nat)
    requires ProperBallots(s, ballots)
    ensures Cast(s, BallotTxs(ballots, id), id) == Choices(ballots)
    ensures RunRegistry(s, BallotTxs(ballots, id)).verifiers == s.verifiers
    decreases |ballots|
  {
    if ballots != [] {
      var front, last := ballots[..|ballots| - 1], ballots[|ballots| - 1];
      assert front + [last] == ballots;
      BallotsAreCast(s, front, id);
      BallotsSnoc(front, last, id);
      CastSnoc(s, BallotTxs(front, id), BallotTx(last, id), id);
      BallotAdds(s, RunRegistry(s, BallotTxs(front, id)), front, last, id);
    }
  }

  lemma BallotsSnoc(front: seq<Ballot>, last: Ballot, id: nat)
    ensures BallotTxs(front + [last], id) == BallotTxs(front, id) + [BallotTx(last, id)]
    ensures Choices(front + [last]) == Choices(front) + [last.choice]
  {
  }

  lemma BallotAdds(s: RegistryState, mid: RegistryState, front: seq<Ballot>, last: Ballot, id: nat)
    requires ProperBallots(s, front + [last]) && mid.verifiers == s.verifiers
    ensures AddedVote(mid, BallotTx(last, id), id, Choices(front)) == [last.choice]
    ensures Commit(mid, BallotTx(last, id)).verifiers == s.verifiers
  {
    assert (front + [last])[|front|] == last;
    VoteKeepsVerifiers(mid, last, id);
    NotYetChosen(s, front, last);
  }

  lemma VoteKeepsVerifiers(s: RegistryState, b: Ballot, id: nat)
    ensures Commit(s, BallotTx(b, id)).verifiers == s.verifiers
  {
  }

  lemma NotYetChosen(s: RegistryState, front: seq<Ballot>, last: Ballot)
    requires ProperBallots(s, front + [last])
    ensures !HasChosen(Choices(front), last.choice.verifier)
  {
    var ballots := front + [last];
    forall i | 0 <= i < |front| ensures Choices(front)[i].verifier != last.choice.verifier {
      assert ballots[i] == front[i] && ballots[|front|] == last;
    }
  }

  lemma {:induction false} YesConcat(a: seq<Choice>, b: seq<Choice>)
    ensures YesCount(a + b) == YesCount(a) + YesCount(b)
    decreases |b|
  {
    if b == [] {
      assert a + b == a;
    } else {
      assert (a + b)[..|a + b| - 1] == a + b[..|b| - 1];
      YesConcat(a, b[..|b| - 1]);
    }
  }

  lemma YesAppend(choices: seq<Choice>, x: Choice)
    ensures YesCount(choices + [x]) == YesCount(choices) + (if x.approve then 1 else 0)
  {
    assert (choices + [x])[..|choices|] == choices;
  }

  lemma YesRemove(before: seq<Choice>, x: Choice, after: seq<Choice>)
    ensures YesCount(before + [x] + after) == YesCount(before + after) + (if x.approve then 1 else 0)
  {
    YesConcat(before + [x], after);
    YesConcat(before, after);
    YesAppend(before, x);
  }

  lemma {:induction false} YesPermutes(a: seq<Choice>, b: seq<Choice>)
    requires multiset(a) == multiset(b)
    ensures YesCount(a) == YesCount(b)
    decreases |a|
  {
    assert |a| == |multiset(a)| == |multiset(b)| == |b|;
    if a != [] {
      var n := |a| - 1;
      var front, x := a[..n], a[n];
      assert a == front + [x];
      assert x in multiset(a);
      var k :| 0 <= k < |b| && b[k] == x;
      var before, after := b[..k], b[k + 1..];
      assert b == before + [x] + after;
      assert multiset(before + after) == multiset(b) - multiset{x};
      assert multiset(front) == multiset(a) - multiset{x};
      YesPermutes(front, before + after);
      YesRemove(before, x, after);
    }
  }

  /** The outcome of `quorum` votes does not depend on their order, nor on when and with which
      comments they were cast, nor on what else happens in between. */
  lemma OutcomeIsOrderIndependent(s: RegistryState, a: seq<RegistryTx>, b: seq<RegistryTx>, id: nat)
    requires RegistryInv(s) && IndexInv(s) && s.HasStatus(id, Pending) && s.VotesOn(id) == []
    requires forall i | 0 <= i < |a| :: !a[i].call.UpdateConfig?
    requires forall i | 0 <= i < |b| :: !b[i].call.UpdateConfig?
    requires |Cast(s, a, id)| == s.config.quorum && multiset(Cast(s, a, id)) == multiset(Cast(s, b, id))
    ensures RunRegistry(s, a).HasStatus(id, Rejected) <==> RunRegistry(s, b).HasStatus(id, Rejected)
    ensures !RetiredAmong(a, id) && !RetiredAmong(b, id) ==>
              exists status :: RunRegistry(s, a).HasStatus(id, status) && RunRegistry(s, b).HasStatus(id, status)
  {
    SameVotesSameYes(Cast(s, a, id), Cast(s, b, id));
    EarlyDecisionIsFullTally(s, a, id);
    EarlyDecisionIsFullTally(s, b, id);
    if YesCount(Cast(s, a, id)) < s.config.threshold {
      assert RunRegistry(s, a).HasStatus(id, Rejected) && RunRegistry(s, b).HasStatus(id, Rejected);
    } else if !RetiredAmong(a, id) && !RetiredAmong(b, id) {
      assert RunRegistry(s, a).HasStatus(id, Active) && RunRegistry(s, b).HasStatus(id, Active);
    }
  }

  lemma SameVotesSameYes(a: seq<Choice>, b: seq<Choice>)
    requires multiset(a) == multiset(b)
    ensures |a| == |b| && YesCount(a) == YesCount(b) && a[..|a|] == a && b[..|b|] == b
  {
    assert |a| == |multiset(a)| == |multiset(b)| == |b|;
    YesPermutes(a, b);
  }

  /** With more votes than the quorum the order does matter. At quorum 2 and threshold 1, of
      three verifiers of whom one approves: if it votes last the credit is Rejected, and if it
      votes first the credit is Active. */
  lemma OrderMattersBeyondQuorum(s: RegistryState, id: nat, yes: Ballot, no1: Ballot, no2: Ballot)
    requires RegistryInv(s) && IndexInv(s) && s.HasStatus(id, Pending) && s.VotesOn(id) == []
    requires s.config.quorum == 2 && s.config.threshold == 1 && ProperBallots(s, [yes, no1, no2])
    requires yes.choice.approve && !no1.choice.approve && !no2.choice.approve
    ensures RunRegistry(s, BallotTxs([no1, no2, yes], id)).HasStatus(id, Rejected)
    ensures RunRegistry(s, BallotTxs([yes, no1, no2], id)).HasStatus(id, Active)
  {
    assert [yes, no1, no2][0] == yes && [yes, no1, no2][1] == no1 && [yes, no1, no2][2] == no2;
    FirstTwoDecide(s, id, no1, no2, yes);
    FirstTwoDecide(s, id, yes, no1, no2);
  }

  lemma FirstTwoDecide(s: RegistryState, id: nat, a: Ballot, b: Ballot, c: Ballot)
    requires RegistryInv(s) && IndexInv(s) && s.HasStatus(id, Pending) && s.VotesOn(id) == []
    requires s.config.quorum == 2 && s.config.threshold == 1 && ProperBallots(s, [a, b, c])
    ensures RunRegistry(s, BallotTxs([a, b, c], id))
            .HasStatus(id, if a.choice.approve || b.choice.approve then Active else Rejected)
  {
    var ballots := [a, b, c];
    BallotsAreCast(s, ballots, id);
    BallotsOnlyVote(ballots, id);
    EarlyDecisionIsFullTally(s, BallotTxs(ballots, id), id);
    assert Choices(ballots)[..2] == [a.choice, b.choice];
    YesOfTwo(a.choice, b.choice);
  }

  lemma BallotsOnlyVote(ballots: seq<Ballot>, id: nat)
    ensures !RetiredAmong(BallotTxs(ballots, id), id)
    ensures forall i | 0 <= i < |ballots| :: !BallotTxs(ballots, id)[i].call.UpdateConfig?
  {
  }

  lemma YesOfTwo(a: Choice, b: Choice)
    ensures YesCount([a, b]) >= 1 <==> a.approve || b.approve
  {
    assert [a, b] == [] + [a] + [b];
    YesAppend([], a);
    YesAppend([] + [a], b);
  }
}
