# Verified model of the carbon credit protocol

This project models three parts of the repository and proves what they promise.

**The Soroban contracts** (`contracts/`). Each contract is a class whose fields are its
storage and whose methods follow its entry points, checks in the same order and panics with
the same error. Each method is proved against a member function of the contract's state
datatype (`RegistryState`, `MarketState`, ...), and the theorems are about those functions
and about runs of them. `World` puts registry, marketplace, tracker, bridge and settlement
tokens together as one transition system: a transaction either commits its writes in all
contracts or none. `World.Chain.Invoke` is the host that undoes the writes of a panicking
invocation, among them the `Expired` status that `buy_credits` writes just before it panics.
Contract events that other systems count on are kept as logs in the state (`submissions`,
`fills`, `retired`, `imports`, `exports`). `RegistryEffects` and `WorldEffects` say for each call
when it commits and what an observer finds afterwards, with the bounds and comparisons written
out; `Refusals` says what the error of a refused call tells the caller.

**The indexer** (`indexer/`). `Sync` is the page loop with its cursor, against a server that
may return anything. `ExactlyOnce` adds a server that pages faithfully through a chain that
grows between (and during) requests, by whole ledgers. The events of one transaction share
their key (ledger, transaction index), and the loop takes one event of each key only, the first
that does not belong to a failed call. Polling is proved to deliver exactly what these events
decode to, in order, each once, and to deliver everything if and only if no other event of a
transaction can be decoded. That it gets ahead takes a `Dense` chain, one in which every page
reaches a successful call of a later ledger.

**Two API pieces** (`api/`). The token bucket rate limiter, and the Scope 3 report: its CSV
form with a reader for section 2 of RFC 4180, and its summary.

Conventions. A panic is `Err`, and `Env.auth` is the set of addresses that signed the
invocation. Arithmetic is that of the release build the deployment workflow makes, which
wraps around: `Wrap128` for amounts, `WrapU32` for sums of basis points; checked and saturating
operations are modelled as such. SHA-256 is an arbitrary function from bytes to 32-byte
digests, and token contracts are a map of balances whose transfer fails without the holder's
signature or funds, or for a negative amount. Theorems about runs name who is trusted:
`SignedByUsers` says that contract addresses sign nothing, `RetirersTrusted` and
`BridgesTrusted` that the admin authorizes no retirer but tracker and bridge contract, and no
bridge but the bridge contract.

Where code and promise part:

- A partial purchase hands the whole credit to the buyer while the offer stays listed, so
  "the seller can always cancel" is false in general. `MarketExamples.PartialFillCounterexample`
  is a run that shows it. `MarketLaws.BuyStrandsOfferIffPartial` and
  `MarketLaws.CancelSucceedsIffHeld` give the exact conditions, and `MarketLaws.EscrowIsSafe`
  proves the promise for every credit whose accepted buys took the whole offer, whatever
  happens to other credits in the same run.
- The partial purchase does further damage when the credit is listed again: buying the rest of
  the old offer takes it out of the new escrow. `MarketLaws.BuyEmptiesOtherEscrow` says what
  happens, `MarketExamples.RelistedCreditCounterexample` is such a run.
- The contracts build has no overflow checks, and three computations can wrap. Each has a
  failing input and the exact condition, which can be checked before the call:
  - a price: `MarketExamples.WrappedPriceCounterexample` buys a credit for nothing;
    `MarketLaws.BuyPays` and `MarketLaws.PaidInFullIff` hold the payments to the exact price if
    and only if amount * price fits an i128, as it does for the whole life of an offer whose own
    product fits (`MarketLaws.FittingOfferNeverWraps`);
  - a plan: `RevenueLaws.WrappedPlanCounterexample`; a stored plan adds up to 100 % if and only
    if the sum of its shares fits a u32 (`RevenueLaws.PlansAlwaysComplete`);
  - a distribution: `RevenueLaws.WrappedAmountCounterexample` pays nobody, and
    `RevenueLaws.NegativeAmountCounterexample` pays for a negative amount; fee and shares are
    exact if and only if their products fit (`RevenueLaws.SplitIsExactIff`), and conservation and
    the effect of an amount have their own conditions (`RevenueLaws.SplitConserves`,
    `RevenueLaws.MovesNothingIff`). A build with overflow checks would panic instead.
- With more votes than the quorum, the first `quorum` votes decide, so that the order matters
  (`VotingLaws.OrderMattersBeyondQuorum`).
- The indexer's cursor cannot tell the events of one transaction apart: the first one counts
  as seen, decodable or not, and the others are skipped. Transactions with several events are
  common (`bridge_in` publishes the registry's event and then its own).
  `ExactlyOnce.SecondEventIsLost` is such a transaction, and
  `ExactlyOnce.NothingLostIffOnlyFirstsDecode` the exact condition for losing nothing.
- The indexer resumes at a ledger, not inside it, so that it can get stuck: a full page without
  an event of a successful call beyond the cursor comes back on every poll.
  `ExactlyOnce.StuckForGood` is such a chain, `ExactlyOnce.PollStallsIff` the exact condition.
- A retirement record is documented to hold the tonnes, and holds 0
  (`WorldEffects.RetireOutcome`); the tonnes are those of the credit, which never change
  (`BurnLaws.RecordIsPermanent`).
- A Merkle proof given to `bridge_in` vouches for its leaf only, which is compared neither
  with the serial nor with the metadata, and a proof may be shorter than the tree is deep.
  `ImportLaws.ImportsAreProven` and `ImportLaws.ImportedNodeIsLeafIff` say what an import
  proves about the leaf, `ImportLaws.ProofCanBeUsedAgain` when the same proof imports again,
  and `ImportLaws.RootImportsItself` is a run in which a root with the empty proof imports
  two serials.
- `OfferStatus::Expired` is written by `buy_credits` but never committed, as the next
  statement panics; `MarketLaws.OffersAlwaysAccounted` includes that no offer is ever Expired.

## Model

| member | source | states |
|---|---|---|
| World.Chain.Invoke | contracts/marketplace/src/lib.rs:76-94 | one transaction: the state of all contracts becomes what the call specifies, or, when any contract panics on the way, is exactly what it was before |
| World.Chain.Deploy | contracts/credit-registry/src/lib.rs:185-203 | deployment gives the genesis state of the system if 1 <= threshold <= quorum, and otherwise fails with InvalidInput |
| Registry.CreditRegistry.Init | contracts/credit-registry/src/lib.rs:185-200 | stores the configuration if 1 <= threshold <= quorum, else InvalidInput |
| Registry.CreditRegistry.SubmitCredit | contracts/credit-registry/src/lib.rs:26-46 | a valid submission by a signing issuer creates the next id as Pending, owned and indexed by the issuer; else the error of the failing check |
| Registry.CreditRegistry.ApproveAndMint | contracts/credit-registry/src/lib.rs:53-89 | the vote is recorded; the credit becomes Active with its token id exactly when approvals reach the threshold; errors in the order of the checks |
| Registry.CreditRegistry.RejectCredit | contracts/credit-registry/src/lib.rs:95-127 | the vote is recorded; the credit becomes Rejected exactly when rejections exceed quorum - threshold |
| Registry.CreditRegistry.TransferCredit | contracts/credit-registry/src/lib.rs:129-143 | only the signing owner moves an Active credit; owner and owner index are updated |
| Registry.CreditRegistry.MarkRetired | contracts/credit-registry/src/lib.rs:170-181 | an authorized, signing retirer turns Active into Retired and changes nothing else |
| Registry.CreditRegistry.UpdateConfig | contracts/credit-registry/src/lib.rs:216-256 | only the admin, only within the bounds, and always 1 <= threshold <= quorum |
| Registry.CreditRegistry.AddVerifier | contracts/credit-registry/src/lib.rs:258-274 | appends an unregistered verifier while there are fewer than the maximum |
| Registry.CreditRegistry.RemoveVerifier | contracts/credit-registry/src/lib.rs:276-295 | the rebuilt list is the old one without the verifier; fails if it was not listed |
| Registry.CreditRegistry.MintBridged | contracts/credit-registry/src/lib.rs:300-327 | an authorized bridge creates the next id as Active for the receiver, without a submission |
| Registry.CreditRegistry.SetBridge | contracts/credit-registry/src/lib.rs:329-339 | the admin adds or removes a bridge |
| Registry.CreditRegistry.SetRetirer | contracts/credit-registry/src/lib.rs:343-354 | the admin adds or removes a retirer |
| Registry.CreditRegistry.IsVerifier | contracts/credit-registry/src/storage.rs:202-214 | the search loop decides membership in the verifier list |
| Registry.CreditRegistry.HasApproval | contracts/credit-registry/src/storage.rs:64-78 | the search loop finds a vote of the verifier, approval or rejection, if there is one |
| Registry.CreditRegistry.CountVotes | contracts/credit-registry/src/storage.rs:80-112 | the counting loop gives the number of votes of the asked kind |
| Registry.CreditRegistry.CreditsByIssuer | contracts/credit-registry/src/storage.rs:133-150 | the paging loop returns that page of the issuer's list |
| Paging.PagesCoverList | contracts/credit-registry/src/storage.rs:133-150 | for any limit from 1, consecutive pages put together are the whole list |
| RegistryLaws.RunKeepsInv | contracts/credit-registry/src/lib.rs:26-354 | in every run: ids are 1..counter, 1 <= threshold <= quorum, voters of a credit are distinct, at most 20 distinct verifiers, indexes agree; every credit only evolves as the life cycle allows (Retired and Rejected final, votes frozen by the decision, all other fields and the tonnes fixed) |
| RegistryLaws.StepKeepsIndex | contracts/credit-registry/src/storage.rs:121-169 | every call keeps each issuer list equal to that issuer's submissions in order, and each owner list a superset of what it owns |
| RegistryLaws.IssuerListsPartition | contracts/credit-registry/src/storage.rs:121-150 | issuer lists ascend, are disjoint, and together hold exactly the submitted ids |
| RegistryLaws.FixedConfigTally | contracts/credit-registry/src/lib.rs:53-127 | in runs without `update_config`: a Pending credit has fewer than threshold approvals and at most quorum - threshold rejections; a voted-in one exactly threshold approvals; a Rejected one exactly quorum - threshold + 1 rejections |
| VotingLaws.EarlyDecisionIsFullTally | contracts/credit-registry/src/lib.rs:53-127 | deciding early loses nothing: in any run without `update_config`, whatever else happens in it, once at least `quorum` registered verifiers have cast their votes on a fresh Pending credit (reverted ones after the decision included), it is Active, or Retired by a later call, if the first `quorum` votes have threshold approvals, else Rejected |
| VotingLaws.BallotsAreCast | contracts/credit-registry/src/lib.rs:53-127 | signed votes of distinct registered verifiers, one after the other, are all on that ballot, in order |
| VotingLaws.OutcomeIsOrderIndependent | contracts/credit-registry/src/lib.rs:53-127 | two runs whose ballots on the credit are the same `quorum` votes, in any order and with anything in between, decide it alike |
| VotingLaws.OrderMattersBeyondQuorum | contracts/credit-registry/src/lib.rs:53-127 | with three votes at quorum 2 and threshold 1, one approval decides if it comes first and is too late if it comes last |
| RegistryLaws.VoteShape | contracts/credit-registry/src/storage.rs:52-112 | a vote that succeeds came from a verifier that had not voted on a Pending credit, appends one record, and decides exactly at the threshold |
| RegistryEffects.SubmitOutcome | contracts/credit-registry/src/lib.rs:26-46 | a submission commits if and only if the issuer signed it and the metadata keep every bound; the new credit is Pending and the issuer's, with no votes and no token, and has every other field of the submission; nothing else changes |
| RegistryEffects.MintOutcome | contracts/credit-registry/src/lib.rs:300-327 | a bridged mint commits if and only if an authorized bridge signed it and the metadata keep every bound; the new credit is Active, belongs to the receiver, is in the receiver's list, and has every other field of the metadata; nothing else changes |
| RegistryEffects.VoteOutcome | contracts/credit-registry/src/lib.rs:53-127 | a vote commits if and only if a registered verifier that has not voted yet signed it and the credit is Pending; it is recorded last, and an approved credit gets its token id at the deciding vote |
| RegistryEffects.CallsAreVotes | contracts/credit-registry/src/lib.rs:53-127 | `approve_and_mint` casts an approval and `reject_credit` a rejection |
| RegistryEffects.TransferOutcome | contracts/credit-registry/src/lib.rs:129-143 | a transfer commits if and only if the owner of an Active credit signed it, and hands over that credit only |
| RegistryEffects.MarkRetiredOutcome | contracts/credit-registry/src/lib.rs:170-181 | retiring commits if and only if an authorized retirer signed it and the credit is Active, and changes its status only |
| RegistryEffects.ConfigOutcome | contracts/credit-registry/src/lib.rs:216-256 | `update_config` commits if and only if the stored admin signed it and every value is within its bounds; exactly these values are stored, and nothing else changes |
| RegistryEffects.AddVerifierOutcome | contracts/credit-registry/src/lib.rs:258-274 | a verifier is added if and only if caller and stored admin signed it, it is not registered, and fewer than 20 are; it comes last |
| RegistryEffects.RemoveVerifierOutcome | contracts/credit-registry/src/lib.rs:276-295 | a verifier is removed if and only if caller and stored admin signed it and it is registered; the others stay in order |
| RegistryEffects.AuthorizationOutcome | contracts/credit-registry/src/lib.rs:329-354 | bridges and retirers are authorized and dismissed exactly with the signatures of caller and stored admin, strangers change nothing |
| RegistryEffects.TokensOverRuns | contracts/credit-registry/src/lib.rs:26-354 | in every run a credit has its token id if and only if it is Active or Retired |
| Refusals.RegistryRefusals | contracts/credit-registry/src/lib.rs:26-354 | a registry call fails with the first of its faults, with every bound written out, and succeeds without any |
| WorldLaws.OpsExplainRegistry | contracts/marketplace/src/lib.rs:29-153 | any transaction of any contract changes the registry only by its own calls to registry entry points |
| WorldLaws.RegistryOverRuns | contracts/credit-registry/src/lib.rs:129-181 | the registry invariants and the credit life cycle hold across runs of the whole system |
| WorldLaws.TallyOverRuns | contracts/credit-registry/src/lib.rs:53-127 | the vote tallies hold across runs of the whole system while the configuration stands |
| WorldLaws.EarlyDecisionOverRuns | contracts/credit-registry/src/lib.rs:53-127 | deciding early loses nothing in any run of the whole system that leaves the configuration alone |
| WorldLaws.RegistryFromGenesis | contracts/credit-registry/src/lib.rs:185-203 | all of this from deployment on |
| Refusals.FirstFaultIsNamed | contracts/marketplace/src/lib.rs:29-153 | the same for every call of marketplace, tracker (single retirements), bridge and tokens, through all contracts that the call enters |
| Tracker.RetirementTracker.Retire | contracts/retirement-tracker/src/lib.rs:39-82 | retires an owned, unretired credit through the registry and files its record; errors in the order of the checks |
| Tracker.RetirementTracker.BatchRetire | contracts/retirement-tracker/src/lib.rs:87-135 | the loop does what `retire` on each input in turn does; the first failure fails the batch with its error |
| Tracker.RetirementTracker.ByBeneficiary | contracts/retirement-tracker/src/storage.rs:40-64 | the paging loop returns the existing records of that page of the beneficiary's list |
| WorldEffects.RetireOutcome | contracts/retirement-tracker/src/lib.rs:39-82 | a retirement commits if and only if the owner of an Active credit without record signed it, reason, beneficiary and period are given, and the tracker is an authorized retirer; it files exactly the given facts at the ledger's time, under that id and that beneficiary, and changes nothing else |
| BurnLaws.NoDoubleCounting | contracts/retirement-tracker/src/lib.rs:39-82 | in every run a credit is Retired if and only if it has exactly one of a tracker record or a bridge-out, never both, never two; each names the credit's registered owner |
| BurnLaws.GenesisBurn | contracts/retirement-tracker/src/lib.rs:30-37 | that invariant holds at deployment |
| BurnLaws.RecordIsPermanent | contracts/retirement-tracker/src/lib.rs:39-82 | a record is never lost or reassigned: in every later state the credit is Retired with the same tonnes and owned by the record's `retired_by` |
| BurnLaws.OnlyMarkRetiredRetires | contracts/credit-registry/src/lib.rs:129-181 | no registry entry point but `mark_retired` changes which credits are retired or who owns a retired credit |
| TrackerLaws.BeneficiariesOverRuns | contracts/retirement-tracker/src/storage.rs:28-38 | in every run a beneficiary's list is exactly the ids of the records naming it, in order of retirement, and every id is retired once |
| TrackerLaws.GenesisIndex | contracts/retirement-tracker/src/lib.rs:30-37 | that holds at deployment |
| TrackerLaws.BeneficiaryPages | contracts/retirement-tracker/src/storage.rs:40-64 | reading all pages gives one record per retirement of the beneficiary, in order |
| TrackerLaws.BatchRefinesRetire | contracts/retirement-tracker/src/lib.rs:87-135 | the batch succeeds if and only if the owner signed, there are at most 100 inputs, the ids are distinct and each could be retired on its own before the batch; result and error are those of retiring in turn |
| TrackerLaws.BatchIsSequence | contracts/retirement-tracker/src/lib.rs:87-135 | as transactions: a batch ends in the same world as the sequence of `retire` transactions, or changes nothing |
| Market.Marketplace.CreateOffer | contracts/marketplace/src/lib.rs:29-70 | escrows the credit with the marketplace and lists the offer under the next id |
| Market.Marketplace.BuyCredits | contracts/marketplace/src/lib.rs:76-116 | takes payment with the product of amount and price wrapped, hands over the credit, and accounts the fill; every error path, the expired one included |
| Market.Marketplace.CancelOffer | contracts/marketplace/src/lib.rs:121-153 | the seller, or anyone after expiry, gets the credit sent back to the seller |
| Market.Marketplace.Listings | contracts/marketplace/src/storage.rs:61-82 | the paging loop returns the active offers of the page, at most 50 ids a page; panics on an id without offer |
| WorldEffects.CreateOfferOutcome | contracts/marketplace/src/lib.rs:29-70 | an offer commits if and only if the owner of the Active credit signed it, amount and price are positive, and the expiry lies in the future; the credit goes to the marketplace and the offer is listed with exactly these terms |
| WorldEffects.BuySucceedsIff | contracts/marketplace/src/lib.rs:76-116 | a buy commits if and only if the buyer signed it, the offer is Listed and the time is not past its expiry, the amount is positive and not more than what is left, the wrapped payment is not negative and covered by the buyer's balance, and the marketplace holds the credit Active |
| WorldEffects.ExpiredOfferIsNotSold | contracts/marketplace/src/lib.rs:82-88 | a signed buy of a Listed offer past its expiry fails with OfferExpired, and the whole world, the offer included, is as it was |
| WorldEffects.BuyEffect | contracts/marketplace/src/lib.rs:94-116 | a committed buy adds the amount to what is filled, closes the offer when nothing is left, publishes the fill, gives the credit to the buyer, and leaves other offers and contracts alone |
| WorldEffects.BuyLedger | contracts/marketplace/src/lib.rs:94-105 | of all balances, a buy changes the buyer's and the seller's only, by the payment |
| WorldEffects.CancelOutcome | contracts/marketplace/src/lib.rs:121-153 | a cancellation commits if and only if the seller signed it, or anyone past the expiry, the offer is Listed and the marketplace holds the credit; it closes the offer with its other terms unchanged and returns the credit to the seller |
| MarketLaws.OffersAlwaysAccounted | contracts/marketplace/src/lib.rs:76-153 | in every run, partial fills included: `filled` is the sum of the accepted buys, within 0..amount, Filled if and only if nothing is left, never Expired; the total paid over k fills is within k - 1 below what the buys were charged after wrapping |
| MarketLaws.PaidInFullIff | contracts/marketplace/src/lib.rs:94-105 | in every reachable state the total paid for an offer is at most floor(filled * price / 1000), and at least that minus (k - 1) if and only if no fill's product wrapped |
| MarketLaws.FittingOfferNeverWraps | contracts/marketplace/src/lib.rs:94-105 | no fill wraps for an offer whose amount times price fits an i128 |
| MarketLaws.ChargeIsFullIff | contracts/marketplace/src/lib.rs:94-94 | a payment is the exact rounded price if and only if the product fits an i128; otherwise the seller is short of at least 2^127 - 1 thousandths |
| MarketLaws.RoundingStep | contracts/marketplace/src/lib.rs:94-101 | one more rounded-down charge loosens the rounding bound by at most one |
| MarketLaws.BuyPays | contracts/marketplace/src/lib.rs:94-105 | a buy moves its payment from buyer to seller and nothing else in the ledger, the payment is floor(amount * price / 1000) if and only if the product fits an i128, and the buyer owns the credit |
| MarketLaws.EscrowIsSafe | contracts/marketplace/src/lib.rs:29-153 | in every run, each credit never sold in parts is in at most one listed offer, and while listed the marketplace owns it and it is Active |
| MarketLaws.GenesisEscrow | contracts/marketplace/src/lib.rs:20-27 | the escrow invariant holds at deployment |
| MarketLaws.CancelReturnsEscrow | contracts/marketplace/src/lib.rs:121-153 | hence cancelling such an offer always succeeds and the seller owns the credit again |
| MarketLaws.CancelSucceedsIffHeld | contracts/marketplace/src/lib.rs:121-153 | for any listed offer the seller can cancel if and only if the registry still has the credit Active and owned by the marketplace |
| MarketLaws.BuyStrandsOfferIffPartial | contracts/marketplace/src/lib.rs:76-116 | an accepted buy leaves its offer listed exactly when it was partial, and then the seller cannot cancel |
| MarketLaws.BuyEmptiesOtherEscrow | contracts/marketplace/src/lib.rs:76-116 | a buy from one of two listed offers of the same credit leaves the other listed without its credit, uncancellable and unpaid |
| MarketExamples.PartialFillCounterexample | contracts/marketplace/src/test.rs:90-118 | a run from deployment in which a seller cannot cancel a listed offer |
| MarketExamples.RelistedCreditCounterexample | contracts/marketplace/src/lib.rs:76-116 | a run from deployment in which a buyer's own offer of the credit loses it to a buyer of the old offer |
| MarketExamples.WrappedPriceCounterexample | contracts/marketplace/src/lib.rs:94-96 | a run from deployment in which amount 4 at price 2^126 is bought for 0 and the offer is Filled |
| MarketLaws.ListingsCoverOffers | contracts/marketplace/src/storage.rs:61-82 | stepping by min(limit, 50), the pages are exactly the active offers in order of creation |
| MarketLaws.AllPagesAreTheListedOffers | contracts/marketplace/src/storage.rs:61-82 | in every reachable state, reading all pages gives exactly the listed offers among the ids 1 to the counter, in order |
| Merkle.VerifyProof | contracts/merkle-bridge/src/lib.rs:95-116 | the loop accepts exactly when climbing from the leaf with sorted pairs reaches the root |
| Merkle.LessIsTotal | contracts/merkle-bridge/src/lib.rs:104-108 | byte order is total, so sorting a pair is well defined |
| Merkle.LessIsByValue | contracts/merkle-bridge/src/lib.rs:104-108 | the byte order is the order of the digests read as base-256 numbers |
| Merkle.AcceptsByValue | contracts/merkle-bridge/src/lib.rs:95-116 | a proof is accepted if and only if its root is reached by hashing, at every level, the digest of smaller value before the other |
| Merkle.TwoDigests | contracts/merkle-bridge/src/lib.rs:104-110 | of two digests that differ first at byte k, the one with the smaller byte k is hashed first, whichever of them is the leaf |
| Merkle.EveryNodeVerifies | contracts/merkle-bridge/src/lib.rs:95-116 | completeness: every node of every tree verifies with its sibling path |
| Merkle.AcceptedIsNodeOrCollision | contracts/merkle-bridge/src/lib.rs:95-116 | soundness: what is accepted against a tree's root is a node with its sibling path, unless the hash collides on two inputs at hand |
| Merkle.VerificationIsExact | contracts/merkle-bridge/src/lib.rs:95-116 | without such a collision, accepted if and only if it is a node at that depth with its sibling path |
| Merkle.LeafMembership | contracts/merkle-bridge/src/lib.rs:95-116 | for perfect trees and full-length proofs: every leaf has an accepted proof, and every accepted value is a leaf |
| Bridge.MerkleBridge.BridgeIn | contracts/merkle-bridge/src/lib.rs:34-69 | with a leaf proven against the registry's root, imports a serial not yet imported as a new credit with the given metadata; errors in the order of the checks |
| Bridge.MerkleBridge.BridgeOut | contracts/merkle-bridge/src/lib.rs:73-88 | the owner retires the credit on chain and the bridge-out is published |
| Bridge.MerkleBridge.UpdateRegistryRoot | contracts/merkle-bridge/src/lib.rs:118-139 | only the admin replaces a root; nothing else changes |
| WorldEffects.ImportEffect | contracts/merkle-bridge/src/lib.rs:34-69 | a committed import gives the next id to the bridger: owned by it, in its list, Active, with all other fields of the metadata; the serial is remembered and the import published; every other credit and contract is as before |
| WorldEffects.ImportedCreditIsUsable | contracts/merkle-bridge/src/lib.rs:34-69 | right after its import the bridger can offer the credit for sale, transfer it, and retire it if the tracker is authorized |
| WorldEffects.BridgeOutOutcome | contracts/merkle-bridge/src/lib.rs:73-88 | a bridge-out commits if and only if the owner of an Active credit signed it and the bridge is an authorized retirer; the credit is Retired and the bridge-out published, nothing else changes |
| WorldEffects.RootOutcome | contracts/merkle-bridge/src/lib.rs:118-139 | a root is published if and only if the bridge's admin signed it, and replaces that registry's root only |
| ImportLaws.ImportsAreABijection | contracts/merkle-bridge/src/lib.rs:34-69 | in every run imported (registry, serial) keys correspond one to one with the credits minted over the bridge |
| ImportLaws.GenesisImports | contracts/merkle-bridge/src/lib.rs:22-28 | that holds at deployment |
| ImportLaws.KeysAreNeverForgotten | contracts/merkle-bridge/src/storage.rs:42-48 | the set of imported keys only grows |
| ImportLaws.NoSecondImport | contracts/merkle-bridge/src/lib.rs:34-88 | after an import no later import of the same serial succeeds, whatever happens in between, bridge-outs and root changes included |
| ImportLaws.ImportsAreProven | contracts/merkle-bridge/src/lib.rs:34-139 | from the commit of a registry's root to its next update, whatever happens in between, the leaf and proof of an import are the value and sibling path of a node of the tree behind that root, at the depth of the proof's length, short of a hash collision |
| ImportLaws.ImportedNodeIsLeafIff | contracts/merkle-bridge/src/lib.rs:95-116 | in a perfect tree that node is a leaf if and only if the proof is as long as the tree is deep |
| ImportLaws.ImportSucceedsIff | contracts/merkle-bridge/src/lib.rs:34-69 | a signing bridger's import commits if and only if the registry has a root, the proof verifies, the serial is new, the metadata are valid and the bridge is authorized |
| ImportLaws.ProofCanBeUsedAgain | contracts/merkle-bridge/src/lib.rs:34-69 | after an import, and until the root is updated, the same leaf and proof import again, for any serial and metadata, if and only if that serial is new, its metadata valid and the bridge authorized |
| ImportLaws.ProofCanBeUsedAtOnce | contracts/merkle-bridge/src/lib.rs:34-69 | right after an import the same leaf and proof import again if and only if the serial is new and the metadata valid |
| ImportLaws.RootImportsItself | contracts/merkle-bridge/src/lib.rs:34-69 | a run from deployment in which a published root with the empty proof imports two serials with different metadata |
| Stake.VerifierStake.Register | contracts/verifier-stake/src/lib.rs:28-54 | takes the minimum stake and adds a record and a list entry |
| Stake.VerifierStake.AddStake | contracts/verifier-stake/src/lib.rs:56-75 | moves the amount and adds it to the stake, with the overflow check after the transfer |
| Stake.VerifierStake.Slash | contracts/verifier-stake/src/lib.rs:81-106 | only the admin, at most the stake; reputation drops by 10 and never below 0; no token moves |
| Stake.VerifierStake.Unregister | contracts/verifier-stake/src/lib.rs:111-142 | after the cooldown (elapsed seconds wrap if the clock goes back) pays the whole stake back, removes the record and rebuilds the list without it |
| Stake.VerifierStake.AllVerifiers | contracts/verifier-stake/src/lib.rs:155-166 | the loop returns the records of the list |
| Stake.StakeHost.Invoke | contracts/verifier-stake/src/lib.rs:28-142 | one transaction: contract and token balances become what the call specifies, or are exactly what they were, such as when a stake overflows after its transfer |
| Stake.AlwaysSolvent | contracts/verifier-stake/src/lib.rs:28-142 | in every run: the list is duplicate-free and names exactly the stored records; balance minus the sum of all stakes is never negative and never shrinks |
| Stake.InitialStake | contracts/verifier-stake/src/lib.rs:17-23 | that holds at deployment |
| Stake.UnregisterNeverLacksFunds | contracts/verifier-stake/src/lib.rs:111-142 | past the cooldown `unregister` always succeeds and returns the whole stake |
| Stake.AllRecordsReturned | contracts/verifier-stake/src/lib.rs:155-166 | every registered verifier's record, once each, in list order |
| Stake.RegisterOutcome | contracts/verifier-stake/src/lib.rs:28-54 | registering commits if and only if an unregistered verifier holding 100 tokens signed it; its record starts with that stake and reputation 100 |
| Stake.AddStakeOutcome | contracts/verifier-stake/src/lib.rs:56-75 | a positive amount that the verifier holds, and whose sum fits an i128, is added exactly; else nothing happens |
| Stake.SlashOutcome | contracts/verifier-stake/src/lib.rs:81-106 | a slash commits if and only if the stored admin signed it and the amount is positive and at most the stake; it takes exactly the amount, and ten points of reputation down to zero |
| Stake.UnregisterOutcome | contracts/verifier-stake/src/lib.rs:111-142 | with a clock that has not gone back, unregistering commits if and only if 30 days have passed and the stake is there to be returned; the verifier gets exactly its stake and is forgotten, nobody else is |
| Stake.StakeRefusals | contracts/verifier-stake/src/lib.rs:28-142 | a call fails with the first of its faults and succeeds without any, if the clock has not gone back |
| Revenue.RevenueSplit.Configure | contracts/revenue-split/src/lib.rs:28-61 | the loop adds the shares, wrapping at 2^32, and stores the plan only if that gives 10000 |
| Revenue.RevenueSplit.Distribute | contracts/revenue-split/src/lib.rs:67-95 | pays the fee, then each positive share in order, all products wrapping at 2^128 |
| Revenue.RevenueHost.Invoke | contracts/revenue-split/src/lib.rs:28-95 | one transaction: plans and balances become what the call specifies, or are exactly what they were, such as when a later share lacks funds |
| RevenueLaws.ConfigureKeepsCompleteIff | contracts/revenue-split/src/lib.rs:28-61 | `configure` keeps every stored plan at shares of exactly 100 % and the protocol fee if and only if the sum of the new shares fits a u32 |
| RevenueLaws.WrappedPlanCounterexample | contracts/revenue-split/src/lib.rs:44-53 | shares of 4294967295 and 10001 basis points are stored |
| RevenueLaws.PlansAlwaysComplete | contracts/revenue-split/src/lib.rs:28-95 | in every run from deployment a stored plan is complete if and only if its shares' sum fits a u32; if the sums of all configured plans fit, all stored plans are complete |
| RevenueLaws.SplitsAlwaysConserve | contracts/revenue-split/src/lib.rs:67-95 | hence in every run a stored plan whose shares fit conserves a positive amount under the condition of SplitConserves |
| RevenueLaws.SplitIsExactIff | contracts/revenue-split/src/lib.rs:78-91 | fee and shares are the exact rounded ones if and only if all products fit an i128 |
| RevenueLaws.SmallAmountsFit | contracts/revenue-split/src/lib.rs:78-91 | all products fit for amounts up to a ten-thousandth of the i128 range |
| RevenueLaws.SplitConserves | contracts/revenue-split/src/lib.rs:67-95 | for a positive amount, fee + shares + dust = amount with 0 <= dust <= n - 1 for n beneficiaries if and only if the computed fee is not negative and no share wraps; in particular if all products fit |
| RevenueLaws.WrappedAmountCounterexample | contracts/revenue-split/src/lib.rs:67-95 | the largest amount pays nobody while 10000 pays in full, so neither conservation nor monotonicity holds there |
| RevenueLaws.PayoutMonotone | contracts/revenue-split/src/lib.rs:67-95 | a larger amount never pays any recipient less, if both fit |
| RevenueLaws.FitsDownward | contracts/revenue-split/src/lib.rs:78-91 | if a payment fits, so does every smaller one |
| RevenueLaws.DistributionLedger | contracts/revenue-split/src/lib.rs:67-95 | every holder receives exactly its computed payout, the payer is debited the total, no other token moves |
| RevenueLaws.SupplyUnchanged | contracts/revenue-split/src/lib.rs:67-95 | no token is created or destroyed |
| RevenueLaws.MovesNothingIff | contracts/revenue-split/src/lib.rs:81-91 | a distribution moves nothing if, and for a payer that is no recipient only if, neither fee nor any share comes out positive |
| RevenueLaws.NonPositiveMovesNothing | contracts/revenue-split/src/lib.rs:67-95 | a zero or negative amount moves nothing if its products fit |
| RevenueLaws.NegativeAmountCounterexample | contracts/revenue-split/src/lib.rs:67-95 | the amount -(2^127 - 1) pays a beneficiary 1 |
| RevenueLaws.SucceedsExactlyWhenFunded | contracts/revenue-split/src/lib.rs:67-95 | for any amount, holding what is paid out suffices, and is necessary for a payer who is not a recipient |
| RevenueLaws.ConfigureOutcome | contracts/revenue-split/src/lib.rs:28-61 | `configure` commits if and only if the stored admin signed it, project and beneficiaries are given and the shares add up to 10000 modulo 2^32; it stores exactly these with a fee of 0.5 % and leaves the plans of other projects alone |
| RevenueLaws.ConfigureRefusals | contracts/revenue-split/src/lib.rs:28-61 | `configure` fails with the first of its faults and succeeds without any |
| RevenueLaws.DistributeNeedsPayerAndPlan | contracts/revenue-split/src/lib.rs:67-76 | without the payer's signature or a plan nothing is distributed, and no distribution changes a plan |
| RevenueLaws.SmallPayout | contracts/revenue-split/src/lib.rs:78-91 | for small amounts a recipient gets 0.5 % as fee address plus its shares of the rest, each rounded down |
| Sync.IndexerSync.constructor | indexer/src/sync.ts:63-76 | the cursor starts at the given one, or at ledger 1; without given contracts the configured ones are used |
| Sync.IndexerSync.FetchEvents | indexer/src/sync.ts:179-247 | the nested loops return the events of `Fetch` and leave the cursor where it says; idle without contracts |
| Sync.PollIncreases | indexer/src/sync.ts:190-247 | whatever the server returns, a poll emits strictly increasing keys beyond the old cursor and not beyond the new one |
| Sync.AtMostOnce | indexer/src/sync.ts:190-247 | over any number of polls of any servers no key is emitted twice and the cursor never moves back |
| Sync.OnlyServedEventsAreEmitted | indexer/src/sync.ts:198-228 | whatever the server returns, a poll emits decodings of served events only, and nothing of a failed call |
| Sync.FailedCallsChangeNothing | indexer/src/sync.ts:205-206 | a poll that is served events of failed calls only emits nothing and keeps the cursor |
| Sync.OneEventPoll | indexer/src/sync.ts:205-243 | a poll that is served one event takes it if and only if its call did not fail and (ledger, index) lies beyond the cursor, with the defaults for missing numbers, and then moves on to the next ledger |
| Sync.FiftyRequestsAtMost | indexer/src/sync.ts:198-232 | a poll makes no more than fifty requests |
| Sync.LimitedPollResumes | indexer/src/sync.ts:230-243 | a poll ended by the page limit keeps its cursor or leaves it at the key of a served event, not at the next ledger |
| ExactlyOnce.AbsorbStretch | indexer/src/sync.ts:204-227 | a page overlapping what was seen skips exactly the old events, those of failed calls and the further events of a transaction, and takes the first event of each new one in order |
| ExactlyOnce.PollIsExact | indexer/src/sync.ts:179-247 | a poll of a faithful server emits exactly what the first successful events of the transactions between old and new cursor decode to; on a dense chain it catches up, but for failed calls, or advances by at least one event a page (50) |
| ExactlyOnce.ExactlyOnceDelivery | indexer/src/sync.ts:179-247 | over all polls, across overlapping pages, the page limit, mid-ledger resume, failed calls and ledgers of any size, everything emitted is exactly what the first successful events of the transactions after the initial cursor decode to, in order, none of them lost, none repeated |
| ExactlyOnce.NothingLostIffOnlyFirstsDecode | indexer/src/sync.ts:204-227 | all decodable events of successful calls between initial and current cursor are emitted, in order and once, if and only if only first events of a transaction are decodable among them |
| ExactlyOnce.SecondEventIsLost | indexer/src/sync.ts:207-227 | a transaction of two events, the second decodable, of which no polls ever emit anything while the cursor moves past it |
| ExactlyOnce.StillServerIsFaithful | indexer/src/sync.ts:149-177 | faithful servers exist for every chain |
| ExactlyOnce.EventuallyDelivered | indexer/src/sync.ts:179-247 | on a dense chain every visible decodable first event of a transaction after the initial cursor is emitted after enough polls |
| ExactlyOnce.PollStallsIff | indexer/src/sync.ts:204-243 | a poll whose first page is full emits nothing and keeps the cursor if and only if no event of that page is both of a successful call and beyond the cursor |
| ExactlyOnce.StuckForGood | indexer/src/sync.ts:204-243 | behind a hundred events of failed calls in one ledger, an event that can be decoded is never delivered, however often the indexer polls |
| RateLimit.RateLimitGuard.CanActivate | api/src/common/guards/rate-limit.guard.ts:26-64 | the key's bucket is created, refilled and charged; refused exactly when it is empty; no other bucket changes |
| RateLimit.TokensInRange | api/src/common/guards/rate-limit.guard.ts:41-61 | tokens stay within 0 and the largest capacity |
| RateLimit.WindowBound | api/src/common/guards/rate-limit.guard.ts:41-63 | in any window of a key's requests at most C + ceil(seconds) are admitted |
| RateLimit.GuardWindowBound | api/src/common/guards/rate-limit.guard.ts:26-64 | the same for the guard as a whole, from an empty map, under any interleaving of keys: for each key at most the largest capacity among its requests + ceil(seconds) |
| RateLimit.OtherKeysHaveNoEffect | api/src/common/guards/rate-limit.guard.ts:38-46 | a key's bucket and admissions are a function of its own requests |
| RateLimit.SpacedHitIsAdmitted | api/src/common/guards/rate-limit.guard.ts:48-63 | after any history, bursts included, a request a second or more after its key's previous one is admitted |
| RateLimit.GuardAdmitsSpaced | api/src/common/guards/rate-limit.guard.ts:26-64 | the same for the guard as a whole, whatever other keys do |
| RateLimit.BurstIsAdmitted | api/src/common/guards/rate-limit.guard.ts:43-61 | a bucket with n tokens, and a new one with its whole capacity, serves n requests in a row and keeps the rest |
| RateLimit.GuardAdmitsFirstBurst | api/src/common/guards/rate-limit.guard.ts:26-64 | from an empty map a key's first requests are all admitted, up to 100 if any of them is public or anonymous and 1000 otherwise, whatever other keys do |
| RateLimit.GuardAdmitsBurstAfterPause | api/src/common/guards/rate-limit.guard.ts:26-64 | after any history and a pause of 1000 ms for each request of the burst, a burst up to that capacity is admitted |
| RateLimit.FirstSecondAnswers | api/src/common/guards/rate-limit.guard.ts:36-63 | in the first second of a key the answers count down from limit - 1 to 0, limit 100 or 1000, and are refusals after that |
| RateLimit.SomeHitIsAdmitted | api/src/common/guards/rate-limit.guard.ts:48-61 | a key is never refused for a whole second: refused requests do not delay the refill |
| RateLimit.RefillRestartsTheClock | api/src/common/guards/rate-limit.guard.ts:48-54 | a refill restarts the clock: an empty bucket refilled by one token is empty for another second |
| RateLimit.KeysOfClients | api/src/common/guards/rate-limit.guard.ts:41-41 | a client is known by its wallet, else by its address, else by one shared key |
| Csv.FieldRoundTrip | api/src/reporting/reporting.service.ts:244-249 | reading an escaped field gives the original string, for every string |
| Csv.RecordRoundTrip | api/src/reporting/reporting.service.ts:108-128 | reading a printed line gives its fields |
| Csv.TableRoundTrip | api/src/reporting/reporting.service.ts:107-135 | reading a printed table gives header and rows, with or without rows |
| Csv.ExportRoundTrip | api/src/reporting/reporting.service.ts:107-135 | reading the export, byte order mark dropped, gives the fifteen headers and every line item's original fields |
| Csv.PlainIff | api/src/reporting/reporting.service.ts:244-249 | a field is printed as it is if and only if it has no quote, comma or line break; otherwise it is enclosed in quotes |
| Csv.ColumnsHoldTheirFields | api/src/reporting/reporting.service.ts:64-125 | every one of the fifteen columns holds the field it is named after, and an absent certificate hash is empty |
| Csv.ExportFrame | api/src/reporting/reporting.service.ts:130-134 | the export starts with the byte order mark, and with any rows ends in a line break |
| Summary.BuildSummary | api/src/reporting/reporting.service.ts:193-227 | the one-pass loop reports the exact totals, the number of distinct credits, and the naive group-by in each breakdown |
| Summary.GroupMap.Accumulate | api/src/reporting/reporting.service.ts:229-238 | adds the tonnes and one retirement to the key, in insertion order |
| Summary.BreakdownIsGroupBy | api/src/reporting/reporting.service.ts:216-224 | keys distinct and exactly those that occur, each with the sum and count of its rows, by descending tonnes with ties in first-seen order; the entries add up to the totals |
| Summary.SortIsStable | api/src/reporting/reporting.service.ts:216-224 | sorting is a stable permutation by descending tonnes |

## Left out

- Frontend, command line, SDK, HTTP controllers, database services, IPFS, PDF and QR code generation, webhooks: plumbing around calls that are not visible in the repository.
- Agreement of the indexer's database with the chain: event decoding (`parseRpcEvent`) is a parameter of the model.
- `resyncFromGenesis`, failed RPC calls, events without ledger or with transaction index below 1, and pages that end inside a growing ledger are outside the exactly-once theorems; a failed RPC call is an empty page, and the theorems of `Sync` cover everything but `resyncFromGenesis`.
- A processor that throws after the cursor has moved: the theorems are about the events `fetchEvents` returns.
- Ledger and transaction numbers that are not numbers in the RPC's JSON.
- Authentication: `require_auth` means that the address is in `Env.auth`.
- Contract events other than the logs named above, storage time to live, heartbeats, metrics, configuration getters, approval and rejection counters of verifiers (never written).
- A second call of any `init`: it is modelled as construction.
- Builds with overflow checks, such as the test build: they panic where the model wraps, and agree with it where the stated conditions hold.
- RevenueLaws.PayoutMonotone: one way only, under the condition that both amounts fit, because for a pair of amounts that wrap the exact condition is the comparison of the two payouts itself.
- u64 counters and numbers of votes are unbounded; token contracts never reach the i128 limit of a balance.
- Token ids: the hash of a credit id is a symbolic value, distinct for distinct ids.
- String lengths are counted in characters, not in UTF-8 bytes.
- Rounding of floating-point tonnes in the summary: tonnes are exact numbers. `Array.prototype.sort` is taken as a stable sort.
- How numbers are shown as text in the CSV: any function from numbers to strings.
- The index of offers by seller is maintained by the model, without theorems of its own.
