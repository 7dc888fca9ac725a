/** When each call of marketplace, tracker and bridge commits, and what it leaves behind in all
    contracts: written out from the promises, one law a call. */
module WorldEffects {
  import opened Common
  import opened Registry
  import opened RegistryLaws
  import opened RegistryEffects
  import opened Tokens
  import opened Market
  import opened Tracker
  import opened Merkle
  import opened Bridge
  import opened World

  /** The marketplace can hand the credit over: it owns it, and it is Active. */
  predicate Available(s: RegistryState, id: nat, owner: Address) {
    id in s.owners && s.owners[id] == owner && id in s.credits && s.credits[id].status == Active
  }

  /** At deployment there is nothing but the configuration and the tokens. */
  lemma GenesisIsEmpty(admin: Address, threshold: nat, quorum: nat, tokens: Balances)
    ensures var w := Genesis(admin, threshold, quorum, tokens);
            && w.registry == Initialised(admin, threshold, quorum) && w.tokens == tokens
            && (forall id :: w.market.ReadOffer(id).Err?) && w.market.counter == 0 && w.market.all == []
            && w.market.fills == []
            && w.tracker.records == map[] && (forall b :: ListAt(w.tracker.byBeneficiary, b) == [])
            && w.tracker.retired == []
            && w.bridge.admin == admin && w.bridge.roots == map[] && w.bridge.bridged == {}
            && w.bridge.imports == [] && w.bridge.exports == []
  {
  }

  // ---------- Marketplace ----------

  /** All offers but `id`, and the lists of offers, are as before. */
  ghost predicate OtherOffersKept(m: MarketState, m': MarketState, id: nat) {
    && m'.counter == m.counter && m'.bySeller == m.bySeller && m'.all == m.all
    && forall k: nat | k != id :: m'.ReadOffer(k) == m.ReadOffer(k)
  }

  /** An offer commits if and only if its seller signed it, amount and price are positive, the
      expiry lies in the future, and the seller owns the credit, which is Active. The credit
      goes to the marketplace; the offer is listed with exactly the given terms, behind all
      others and in the seller's list. */
  lemma CreateOfferOutcome(d: Deployment, w: World, env: Env, seller: Address, creditId: nat, price: i128, amount: i128,
                           currency: Address, expiry: Option<nat>)
    ensures var tx := Tx(env, CreateOffer(seller, creditId, price, amount, currency, expiry));
            Step(d, w, tx).Ok? <==>
            && seller in env.auth && amount > 0 && price > 0 && (expiry == None || expiry.value > env.now)
            && Available(w.registry, creditId, seller)
    ensures var tx := Tx(env, CreateOffer(seller, creditId, price, amount, currency, expiry));
            Step(d, w, tx).Ok? ==>
              var (w', answer) := Step(d, w, tx).value;
              var id := w.market.counter + 1;
              && answer == Plain(Id(id)) && w'.market.counter == id
              && w'.market.ReadOffer(id)
                 == Ok(Offer(seller, creditId, price, amount, 0, currency, expiry, env.now, Listed))
              && (forall k: nat | k != id :: w'.market.ReadOffer(k) == w.market.ReadOffer(k))
              && ListGrew(w.market.bySeller, w'.market.bySeller, seller, id)
              && w'.market.all == w.market.all + [id] && w'.market.fills == w.market.fills
              && HandedOver(w.registry, w'.registry, creditId, d.market)
              && w'.tracker == w.tracker && w'.bridge == w.bridge && w'.tokens == w.tokens
  {
    CreateOfferSucceedsIff(d, w, env, seller, creditId, price, amount, currency, expiry);
  }

  lemma CreateOfferSucceedsIff(d: Deployment, w: World, env: Env, seller: Address, creditId: nat, price: i128,
                               amount: i128, currency: Address, expiry: Option<nat>)
    ensures Step(d, w, Tx(env, CreateOffer(seller, creditId, price, amount, currency, expiry))).Ok? <==>
            && seller in env.auth && amount > 0 && price > 0 && (expiry == None || expiry.value > env.now)
            && Available(w.registry, creditId, seller)
  {
  }

  /** A buy commits if and only if the buyer signed it, the offer is Listed and not past its
      expiry, the amount is positive and at most what is left, the payment, with its product
      wrapped, is not negative and covered by the buyer's balance, and the marketplace still
      holds the credit. */
  lemma BuySucceedsIff(d: Deployment, w: World, env: Env, buyer: Address, id: nat, amount: i128)
    requires id in w.market.offers
    requires 0 <= w.market.offers[id].filled <= w.market.offers[id].amount
    ensures var o := w.market.offers[id];
            Step(d, w, Tx(env, BuyCredits(buyer, id, amount))).Ok? <==>
            && buyer in env.auth && o.status == Listed && (o.expiry == None || env.now <= o.expiry.value)
            && amount > 0 && o.filled + amount <= o.amount
            && TruncDiv(Wrap128(amount * o.price), 1000) >= 0
            && BalanceOf(w.tokens, o.currency, buyer) >= TruncDiv(Wrap128(amount * o.price), 1000)
            && Available(w.registry, o.creditId, d.market)
  {
  }

  /** A buy of an offer that does not exist fails. */
  lemma NoOfferNoBuy(d: Deployment, w: World, env: Env, buyer: Address, id: nat, amount: i128)
    ensures id !in w.market.offers ==> Step(d, w, Tx(env, BuyCredits(buyer, id, amount))).Err?
  {
  }

  /** A signed buy of a Listed offer past its expiry fails with OfferExpired, and the world is as
      it was: the offer in particular is still Listed. */
  lemma ExpiredOfferIsNotSold(d: Deployment, w: World, env: Env, buyer: Address, id: nat, amount: i128)
    requires buyer in env.auth && id in w.market.offers && w.market.offers[id].status == Listed
    requires w.market.offers[id].expiry.Some? && env.now > w.market.offers[id].expiry.value
    ensures Step(d, w, Tx(env, BuyCredits(buyer, id, amount))) == Err(OfferExpired)
    ensures Apply(d, w, Tx(env, BuyCredits(buyer, id, amount))) == w
  {
  }

  /** A committed buy counts the amount as filled, closes the offer when nothing is left,
      publishes the fill, hands the credit to the buyer, and moves the payment. */
  lemma BuyEffect(d: Deployment, w: World, env: Env, buyer: Address, id: nat, amount: i128)
    requires id in w.market.offers && Step(d, w, Tx(env, BuyCredits(buyer, id, amount))).Ok?
    ensures var (w', answer) := Step(d, w, Tx(env, BuyCredits(buyer, id, amount))).value;
            var o := w.market.offers[id];
            && answer == Plain(Flag(true)) && InI128(o.filled + amount)
            && w'.market.ReadOffer(id)
               == Ok(Offer(o.seller, o.creditId, o.price, o.amount, o.filled + amount, o.currency, o.expiry,
                           o.createdAt, if o.filled + amount >= o.amount then Filled else Listed))
            && OtherOffersKept(w.market, w'.market, id) && w'.market.fills == w.market.fills + [Fill(id, buyer, amount)]
            && HandedOver(w.registry, w'.registry, o.creditId, buyer)
            && w'.tracker == w.tracker && w'.bridge == w.bridge
  {
    var w', self, o := Step(d, w, Tx(env, BuyCredits(buyer, id, amount))).value.0, d.market, w.market.offers[id];
    assert w.registry.TransferCredit(env.CallFrom(self), self, buyer, o.creditId).value.0 == w'.registry;
  }

  /** The ledger after a committed buy: the payment went from buyer to seller. */
  lemma BuyLedger(d: Deployment, w: World, env: Env, buyer: Address, id: nat, amount: i128)
    requires id in w.market.offers && Step(d, w, Tx(env, BuyCredits(buyer, id, amount))).Ok?
    ensures var w', o := Step(d, w, Tx(env, BuyCredits(buyer, id, amount))).value.0, w.market.offers[id];
            var payment := TruncDiv(Wrap128(amount * o.price), 1000);
            forall t, h :: BalanceOf(w'.tokens, t, h) == BalanceOf(w.tokens, t, h)
                           + (if (t, h) == (o.currency, o.seller) then payment else 0)
                           - (if (t, h) == (o.currency, buyer) then payment else 0)
  {
    var w', o := Step(d, w, Tx(env, BuyCredits(buyer, id, amount))).value.0, w.market.offers[id];
    TransferMoves(w.tokens, env.CallFrom(d.market), o.currency, buyer, o.seller, Payment(amount, o.price), w'.tokens);
  }

  /** A cancellation commits if and only if the seller signed it, or anybody after the expiry,
      the offer is Listed, and the marketplace still holds the credit. It closes the offer and
      returns the credit to the seller. */
  lemma CancelOutcome(d: Deployment, w: World, env: Env, caller: Address, id: nat)
    ensures var tx := Tx(env, CancelOffer(caller, id));
            Step(d, w, tx).Ok? <==>
            && caller in env.auth && id in w.market.offers
            && (var o := w.market.offers[id];
                && (caller == o.seller || (o.expiry.Some? && env.now > o.expiry.value))
                && o.status == Listed && Available(w.registry, o.creditId, d.market))
    ensures var tx := Tx(env, CancelOffer(caller, id));
            Step(d, w, tx).Ok? ==>
              var (w', answer) := Step(d, w, tx).value;
              var o := w.market.offers[id];
              && answer == Plain(Flag(true))
              && w'.market.ReadOffer(id) == Ok(Offer(o.seller, o.creditId, o.price, o.amount, o.filled, o.currency,
                                                     o.expiry, o.createdAt, Cancelled))
              && OtherOffersKept(w.market, w'.market, id) && w'.market.fills == w.market.fills
              && HandedOver(w.registry, w'.registry, o.creditId, o.seller)
              && w'.tracker == w.tracker && w'.bridge == w.bridge && w'.tokens == w.tokens
  {
  }

  // ---------- Tracker ----------

  /** A retirement commits if and only if the owner signed it, reason, beneficiary and period are
      given, the credit has no record, belongs to the owner and is Active, and the tracker is
      an authorized retirer. It files exactly the given facts, at the ledger's time. */
  lemma RetireOutcome(d: Deployment, w: World, env: Env, owner: Address, input: RetireInput)
    ensures var tx := Tx(env, Retire(owner, input));
            Step(d, w, tx).Ok? <==>
            && owner in env.auth && |input.reason| > 0 && |input.beneficiary| > 0 && |input.accountingPeriod| > 0
            && input.creditId !in w.tracker.records && Available(w.registry, input.creditId, owner)
            && d.tracker in w.registry.retirers
    ensures var tx := Tx(env, Retire(owner, input));
            Step(d, w, tx).Ok? ==>
              var (w', answer) := Step(d, w, tx).value;
              var id := input.creditId;
              var record := Record(id, owner, input.beneficiary, input.reason, input.accountingPeriod, 0,
                                   env.sequence, env.now);
              && answer == Records([record])
              && id in w'.tracker.records && w'.tracker.records[id] == record
              && (forall k: nat | k != id ::
                    && (k in w'.tracker.records <==> k in w.tracker.records)
                    && (k in w.tracker.records ==> w'.tracker.records[k] == w.tracker.records[k]))
              && (forall b :: ListAt(w'.tracker.byBeneficiary, b)
                              == ListAt(w.tracker.byBeneficiary, b) + (if b == input.beneficiary then [id] else []))
              && w'.tracker.retired == w.tracker.retired + [id]
              && TakenOff(w.registry, w'.registry, id)
              && w'.market == w.market && w'.bridge == w.bridge && w'.tokens == w.tokens
  {
  }

  // ---------- Bridge ----------

  /** A committed import mints the next credit for the bridger, remembers the serial, and
      publishes the import; roots, exports and the other contracts are as before. */
  lemma ImportEffect(d: Deployment, w: World, tx: Tx)
    requires tx.call.BridgeIn? && Step(d, w, tx).Ok? && RegistryInv(w.registry)
    ensures var (w', answer) := Step(d, w, tx).value;
            var id := w.registry.counter + 1;
            && answer == Plain(Id(id))
            && Minted(w.registry, w'.registry, tx.env, tx.call.bridger, tx.call.metadata)
            && w'.bridge.bridged == w.bridge.bridged + {(tx.call.source, tx.call.serial)}
            && w'.bridge.imports == w.bridge.imports + [Import(tx.call.source, tx.call.serial, id)]
            && w'.bridge.roots == w.bridge.roots && w'.bridge.exports == w.bridge.exports
            && w'.bridge.admin == w.bridge.admin
            && w'.market == w.market && w'.tracker == w.tracker && w'.tokens == w.tokens
  {
    var env := tx.env.CallFrom(d.bridge);
    MintOutcome(w.registry, env, d.bridge, tx.call.bridger, tx.call.metadata);
    assert w.registry.MintBridged(env, d.bridge, tx.call.bridger, tx.call.metadata).Ok?;
  }

  /** What it means to the bridger: right after the import it can offer the credit, transfer it,
      and, if the tracker is authorized, retire it. */
  lemma ImportedCreditIsUsable(d: Deployment, w: World, tx: Tx, env: Env, price: i128, amount: i128, currency: Address,
                               to: Address, input: RetireInput)
    requires tx.call.BridgeIn? && Step(d, w, tx).Ok? && RegistryInv(w.registry)
    requires tx.call.bridger in env.auth && price > 0 && amount > 0
    requires input.creditId == w.registry.counter + 1 && Complete(input)
    ensures var w', id := Apply(d, w, tx), w.registry.counter + 1;
            && Step(d, w', Tx(env, CreateOffer(tx.call.bridger, id, price, amount, currency, None))).Ok?
            && Step(d, w', Tx(env, Direct(TransferCredit(tx.call.bridger, to, id)))).Ok?
            && (d.tracker in w.registry.retirers && id !in w.tracker.records ==>
                  Step(d, w', Tx(env, Retire(tx.call.bridger, input))).Ok?)
  {
    var w', id := Apply(d, w, tx), w.registry.counter + 1;
    ImportEffect(d, w, tx);
    assert Available(w'.registry, id, tx.call.bridger);
    CreateOfferSucceedsIff(d, w', env, tx.call.bridger, id, price, amount, currency, None);
    TransferOutcome(w'.registry, env, tx.call.bridger, to, id);
    RetireOutcome(d, w', env, tx.call.bridger, input);
  }

  /** A bridge-out commits if and only if the owner signed it, owns the credit, which is Active,
      and the bridge is an authorized retirer. It takes the credit off and publishes the
      bridge-out. */
  lemma BridgeOutOutcome(d: Deployment, w: World, env: Env, owner: Address, id: nat)
    ensures var tx := Tx(env, BridgeOut(owner, id));
            Step(d, w, tx).Ok? <==>
              owner in env.auth && Available(w.registry, id, owner) && d.bridge in w.registry.retirers
    ensures var tx := Tx(env, BridgeOut(owner, id));
            Step(d, w, tx).Ok? ==>
              var (w', answer) := Step(d, w, tx).value;
              && answer == Plain(Flag(true)) && TakenOff(w.registry, w'.registry, id)
              && w'.bridge.exports == w.bridge.exports + [Export(id, owner)]
              && w'.bridge.bridged == w.bridge.bridged && w'.bridge.imports == w.bridge.imports
              && w'.bridge.roots == w.bridge.roots && w'.bridge.admin == w.bridge.admin
              && w'.market == w.market && w'.tracker == w.tracker && w'.tokens == w.tokens
  {
  }

  /** A root is published if and only if the bridge's admin signed it; it replaces the root of
      that registry, stamped with height and time, and nothing else. */
  lemma RootOutcome(d: Deployment, w: World, env: Env, admin: Address, source: string, root: Digest, height: nat)
    ensures var tx := Tx(env, UpdateRegistryRoot(admin, source, root, height));
            Step(d, w, tx).Ok? <==> admin in env.auth && admin == w.bridge.admin
    ensures var tx := Tx(env, UpdateRegistryRoot(admin, source, root, height));
            Step(d, w, tx).Ok? ==>
              var (w', answer) := Step(d, w, tx).value;
              && answer == Plain(Flag(true))
              && source in w'.bridge.roots && w'.bridge.roots[source] == RegistryRoot(root, height, env.now)
              && (forall r | r != source ::
                    && (r in w'.bridge.roots <==> r in w.bridge.roots)
                    && (r in w.bridge.roots ==> w'.bridge.roots[r] == w.bridge.roots[r]))
              && w'.bridge.admin == w.bridge.admin && w'.bridge.bridged == w.bridge.bridged
              && w'.bridge.imports == w.bridge.imports && w'.bridge.exports == w.bridge.exports
              && w'.registry == w.registry && w'.market == w.market && w'.tracker == w.tracker && w'.tokens == w.tokens
  {
  }

  // ---------- Direct calls and tokens ----------

  /** A direct registry call is just that call, as seen by every other contract. */
  lemma DirectOutcome(d: Deployment, w: World, env: Env, call: RegistryCall)
    ensures Step(d, w, Tx(env, Direct(call))).Ok? <==> w.registry.Perform(env, call).Ok?
    ensures w.registry.Perform(env, call).Ok? ==>
              var (s', reply) := w.registry.Perform(env, call).value;
              Step(d, w, Tx(env, Direct(call))) == Ok((w.(registry := s'), Plain(reply)))
  {
  }

  /** A token transfer commits if and only if its sender signed it and holds the amount, which is
      not negative. */
  lemma TokenOutcome(d: Deployment, w: World, env: Env, token: Address, from: Address, to: Address, amount: i128)
    ensures var tx := Tx(env, TransferToken(token, from, to, amount));
            Step(d, w, tx).Ok? <==> from in env.auth && amount >= 0 && BalanceOf(w.tokens, token, from) >= amount
    ensures var tx := Tx(env, TransferToken(token, from, to, amount));
            Step(d, w, tx).Ok? ==>
              var w' := Step(d, w, tx).value.0;
              && w'.registry == w.registry && w'.market == w.market && w'.tracker == w.tracker && w'.bridge == w.bridge
              && forall t, h :: BalanceOf(w'.tokens, t, h) == BalanceOf(w.tokens, t, h)
                                + (if (t, h) == (token, to) then amount else 0)
                                - (if (t, h) == (token, from) then amount else 0)
  {
  }
}
