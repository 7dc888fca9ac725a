/** The marketplace: offers, escrow of the offered credit, fills and cancellation. */
module Market {
  import opened Common
  import opened Registry
  import opened Tokens
  import opened Paging

  datatype OfferStatus = Listed | Filled | Cancelled | Expired

  datatype Offer = Offer(
    seller: Address, creditId: nat, price: i128, amount: i128, filled: i128,
    currency: Address, expiry: Option<nat>, createdAt: nat, status: OfferStatus)

  /** A published `OfferFilled` event. */
  datatype Fill = Fill(offerId: nat, buyer: Address, amount: i128)

  /** The price is in stroops per millitonne, hence the division by 1000. The product wraps. */
  function Payment(amount: i128, price: i128): int {
    TruncDiv(Wrap128(amount * price), 1000)
  }

  predicate PastExpiry(offer: Offer, now: nat) {
    offer.expiry.Some? && now > offer.expiry.value
  }

  /** The Listed offers among `ids`, in order. */
  function ListedAmong(offers: map<nat, Offer>, ids: seq<nat>): seq<Offer> {
    if ids == [] then []
    else
      var id := ids[|ids| - 1];
      ListedAmong(offers, ids[..|ids| - 1]) + (if id in offers && offers[id].status == Listed then [offers[id]] else [])
  }

  datatype MarketState = MarketState(
    counter: nat, offers: map<nat, Offer>, bySeller: map<Address, seq<nat>>, all: seq<nat>, fills: seq<Fill>)
  {
    function ReadOffer(id: nat): Result<Offer> {
      if id in offers then Ok(offers[id]) else Err(OfferNotFound)
    }

    /** `self` is the marketplace's own address, where escrowed credits are held. */
    function CreateOffer(self: Address, registry: RegistryState, env: Env, seller: Address, creditId: nat,
                         price: i128, amount: i128, currency: Address, expiry: Option<nat>)
      : Result<((MarketState, RegistryState), nat)>
    {
      var _ :- env.RequireAuth(seller);
      :- Need(amount > 0 && price > 0, InvalidInput);
      :- Need(expiry.Some? ==> expiry.value > env.now, InvalidInput);
      var (registry, _) :- registry.TransferCredit(env.CallFrom(self), seller, self, creditId);
      var id := counter + 1;
      var offer := Offer(seller, creditId, price, amount, 0, currency, expiry, env.now, Listed);
      Ok(((this.(counter := id, offers := offers[id := offer],
                 bySeller := bySeller[seller := ListAt(bySeller, seller) + [id]], all := all + [id]), registry), id))
    }

    function BuyCredits(self: Address, registry: RegistryState, tokens: Balances, env: Env,
                        buyer: Address, id: nat, amount: i128)
      : Result<((MarketState, RegistryState, Balances), bool)>
    {
      var _ :- env.RequireAuth(buyer);
      var offer :- ReadOffer(id);
      :- Need(offer.status == Listed, OfferAlreadyFilled);
      :- Need(!PastExpiry(offer, env.now), OfferExpired);
      :- Need(0 < amount <= Wrap128(offer.amount - offer.filled), InsufficientAmount);
      var tokens :- Transferred(tokens, env.CallFrom(self), offer.currency, buyer, offer.seller,
                                Payment(amount, offer.price));
      var (registry, _) :- registry.TransferCredit(env.CallFrom(self), self, buyer, offer.creditId);
      :- Need(InI128(offer.filled + amount), InvalidInput);
      var filled := offer.filled + amount;
      var offer := offer.(filled := filled, status := if filled >= offer.amount then Filled else Listed);
      Ok(((this.(offers := offers[id := offer], fills := fills + [Fill(id, buyer, amount)]), registry, tokens), true))
    }

    function CancelOffer(self: Address, registry: RegistryState, env: Env, caller: Address, id: nat)
      : Result<((MarketState, RegistryState), bool)>
    {
      var _ :- env.RequireAuth(caller);
      var offer :- ReadOffer(id);
      :- Need(offer.seller == caller || PastExpiry(offer, env.now), OfferNotCancellable);
      :- Need(offer.status == Listed, OfferAlreadyFilled);
      var (registry, _) :- registry.TransferCredit(env.CallFrom(self), self, offer.seller, offer.creditId);
      Ok(((this.(offers := offers[id := offer.(status := Cancelled)]), registry), true))
    }
  }

  const NO_OFFERS := MarketState(0, map[], map[], [], [])

  /** The contract. `fills` is the log of the `OfferFilled` events it has published. */
  class Marketplace {
    const self: Address
    const registry: CreditRegistry
    const tokens: TokenLedger
    var counter: nat
    var offers: map<nat, Offer>
    var bySeller: map<Address, seq<nat>>
    var all: seq<nat>
    var fills: seq<Fill>

    function State(): MarketState
      reads this
    {
      MarketState(counter, offers, bySeller, all, fills)
    }

    constructor (self: Address, registry: CreditRegistry, tokens: TokenLedger)
      ensures State() == NO_OFFERS && this.self == self && this.registry == registry && this.tokens == tokens
    {
      this.self, this.registry, this.tokens := self, registry, tokens;
      counter, offers, bySeller, all, fills := 0, map[], map[], [], [];
    }

    method Restore(s: MarketState)
      modifies this
      ensures State() == s
    {
      counter, offers, bySeller, all, fills := s.counter, s.offers, s.bySeller, s.all, s.fills;
    }

    method CreateOffer(env: Env, seller: Address, creditId: nat, price: i128, amount: i128, currency: Address,
                       expiry: Option<nat>)
      returns (r: Result<nat>)
      modifies this, registry
      ensures Commits(r, (State(), registry.State()),
                      old(State()).CreateOffer(self, old(registry.State()), env, seller, creditId, price, amount,
                                               currency, expiry))
    {
      var _ :- env.RequireAuth(seller);
      if amount <= 0 || price <= 0 {
        return Err(InvalidInput);
      }
      if expiry.Some? {
        if expiry.value <= env.now {
          return Err(InvalidInput);
        }
      }
      var _ :- registry.TransferCredit(env.CallFrom(self), seller, self, creditId);
      counter := counter + 1;
      offers := offers[counter := Offer(seller, creditId, price, amount, 0, currency, expiry, env.now, Listed)];
      bySeller := bySeller[seller := ListAt(bySeller, seller) + [counter]];
      all := all + [counter];
      return Ok(counter);
    }

    /** On an expired offer this writes `Expired` and then panics: only the host's rollback
        keeps that write out of the ledger. */
    method BuyCredits(env: Env, buyer: Address, id: nat, amount: i128) returns (r: Result<bool>)
      modifies this, registry, tokens
      ensures Commits(r, (State(), registry.State(), tokens.balances),
                      old(State()).BuyCredits(self, old(registry.State()), old(tokens.balances), env, buyer, id,
                                              amount))
    {
      var _ :- env.RequireAuth(buyer);
      var offer :- State().ReadOffer(id);
      :- Need(offer.status == Listed, OfferAlreadyFilled);
      if offer.expiry.Some? {
        if env.now > offer.expiry.value {
          offer := offer.(status := Expired);
          offers := offers[id := offer];
          return Err(OfferExpired);
        }
      }
      var available := Wrap128(offer.amount - offer.filled);
      if amount <= 0 || amount > available {
        return Err(InsufficientAmount);
      }
      var payment := TruncDiv(Wrap128(amount * offer.price), 1000);
      var _ :- tokens.Transfer(env.CallFrom(self), offer.currency, buyer, offer.seller, payment);
      var _ :- registry.TransferCredit(env.CallFrom(self), self, buyer, offer.creditId);
      :- Need(InI128(offer.filled + amount), InvalidInput);
      offer := offer.(filled := offer.filled + amount);
      if offer.filled >= offer.amount {
        offer := offer.(status := Filled);
      }
      offers := offers[id := offer];
      fills := fills + [Fill(id, buyer, amount)];
      return Ok(true);
    }

    method CancelOffer(env: Env, caller: Address, id: nat) returns (r: Result<bool>)
      modifies this, registry
      ensures Commits(r, (State(), registry.State()),
                      old(State()).CancelOffer(self, old(registry.State()), env, caller, id))
    {
      var _ :- env.RequireAuth(caller);
      var offer :- State().ReadOffer(id);
      if offer.seller != caller {
        if offer.expiry.Some? {
          if env.now <= offer.expiry.value {
            return Err(OfferNotCancellable);
          }
        } else {
          return Err(OfferNotCancellable);
        }
      }
      :- Need(offer.status == Listed, OfferAlreadyFilled);
      var _ :- registry.TransferCredit(env.CallFrom(self), self, offer.seller, offer.creditId);
      offers := offers[id := offer.(status := Cancelled)];
      return Ok(true);
    }

    /** `get_listings`: the Listed offers of one page of all offers. */
    method Listings(offset: u32, limit: u32) returns (r: Result<seq<Offer>>)
      ensures var ids := Page(all, offset, Min(limit, 50));
              r == if forall id | id in ids :: id in offers then Ok(ListedAmong(offers, ids)) else Err(OfferNotFound)
    {
      var pageLimit: u32 := Min(limit, MAX_LISTINGS_PAGE);
      var end := Min(SaturatingAdd(offset, pageLimit), |all|);
      if offset >= |all| {
        return Ok([]);
      }
      var page: seq<Offer> := [];
      for i := offset to end
        invariant forall k | offset <= k < i :: all[k] in offers
        invariant page == ListedAmong(offers, all[offset..i])
      {
        assert all[offset..end][i - offset] == all[i];
        var offer :- State().ReadOffer(all[i]);
        if offer.status == Listed {
          page := page + [offer];
        }
        assert all[offset..i + 1][..i - offset] == all[offset..i];
      }
      return Ok(page);
    }
  }
}
