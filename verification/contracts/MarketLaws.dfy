/** Escrow and accounting of the marketplace over all runs. */
module MarketLaws {
  import opened Common
  import opened Registry
  import opened RegistryLaws
  import opened Tokens
  import opened Market
  import opened Tracker
  import opened World
  import opened WorldLaws
  import opened BurnLaws
  import opened Paging

  // ---------- Offer accounting ----------

  function SumFilled(fills: seq<Fill>, id: nat): int {
    if fills == [] then 0
    else
      var last := fills[|fills| - 1];
      SumFilled(fills[..|fills| - 1], id) + (if last.offerId == id then last.amount else 0)
  }

  function CountFills(fills: seq<Fill>, id: nat): nat {
    if fills == [] then 0
    else CountFills(fills[..|fills| - 1], id) + (if fills[|fills| - 1].offerId == id then 1 else 0)
  }

  /** What the buyers of offer `id` have paid in all, at its price. */
  function Paid(fills: seq<Fill>, id: nat, price: i128): int {
    if fills == [] then 0
    else
      var last := fills[|fills| - 1];
      Paid(fills[..|fills| - 1], id, price) + (if last.offerId == id then Payment(last.amount, price) else 0)
  }

  /** What a buy is charged before the division by 1000: its price as far as it survives the
      wrap-around, and nothing if that comes out negative. */
  function Charge(amount: i128, price: i128): int {
    if Wrap128(amount * price) > 0 then Wrap128(amount * price) else 0
  }

  function Charged(fills: seq<Fill>, id: nat, price: i128): int {
    if fills == [] then 0
    else
      var last := fills[|fills| - 1];
      Charged(fills[..|fills| - 1], id, price) + (if last.offerId == id then Charge(last.amount, price) else 0)
  }

  /** An offer agrees with the fills published for it: `filled` is their sum, the offer is
      Filled exactly when nothing is left, it is never Expired, and rounding each payment
      down costs the seller less than one unit a fill after the first. */
  ghost predicate OfferAccounted(o: Offer, fills: seq<Fill>, id: nat) {
    var k, paid, charged := CountFills(fills, id), Paid(fills, id, o.price), Charged(fills, id, o.price);
    && o.price > 0 && o.amount > 0
    && o.filled == SumFilled(fills, id)
    && 0 <= o.filled <= o.amount
    && (o.status == Filled <==> o.filled == o.amount)
    && o.status != Expired
    && (k == 0 ==> o.filled == 0 && paid == 0 && charged == 0)
    && (k >= 1 ==> 0 <= paid <= charged / 1000 <= paid + (k - 1))
  }

  ghost predicate MarketInv(m: MarketState) {
    && (forall id | id in m.offers :: 1 <= id <= m.counter && OfferAccounted(m.offers[id], m.fills, id))
    && (forall i | 0 <= i < |m.fills| :: m.fills[i].offerId in m.offers && m.fills[i].amount > 0)
    && m.all == seq(m.counter, i => i + 1)
    && (forall id: nat | 1 <= id <= m.counter :: id in m.offers)
  }

  lemma SumsAppend(fills: seq<Fill>, f: Fill, id: nat, price: i128)
    ensures SumFilled(fills + [f], id) == SumFilled(fills, id) + (if f.offerId == id then f.amount else 0)
    ensures CountFills(fills + [f], id) == CountFills(fills, id) + (if f.offerId == id then 1 else 0)
    ensures Paid(fills + [f], id, price) == Paid(fills, id, price)
            + (if f.offerId == id then Payment(f.amount, price) else 0)
    ensures Charged(fills + [f], id, price) == Charged(fills, id, price)
            + (if f.offerId == id then Charge(f.amount, price) else 0)
  {
    assert (fills + [f])[..|fills|] == fills;
  }

  lemma {:induction false} NoFillsNoSums(fills: seq<Fill>, id: nat, price: i128)
    requires forall i | 0 <= i < |fills| :: fills[i].offerId != id
    ensures SumFilled(fills, id) == 0 && CountFills(fills, id) == 0
    ensures Paid(fills, id, price) == 0 && Charged(fills, id, price) == 0
  {
    if fills != [] {
      NoFillsNoSums(fills[..|fills| - 1], id, price);
    }
  }

  /** One more fill moves the rounding bounds by one. */
  lemma RoundingStep(charged: int, charge: nat, paid: int, k: nat)
    requires k == 0 ==> charged == 0 && paid == 0
    requires k >= 1 ==> 0 <= paid <= charged / 1000 <= paid + (k - 1)
    ensures 0 <= paid + charge / 1000 <= (charged + charge) / 1000 <= paid + charge / 1000 + k
  {
  }

  /** The token refuses negative payments, so an accepted buy pays its charge, rounded down. */
  lemma PaymentIsCharge(amount: i128, price: i128)
    requires Payment(amount, price) >= 0
    ensures Payment(amount, price) == Charge(amount, price) / 1000
  {
  }

  // ---------- Exact prices ----------

  /** For a positive amount and price, a buy is charged in full if and only if its product does
      not wrap; otherwise the seller is short of at least 2^127 - 1 thousandths. */
  lemma ChargeIsFullIff(amount: i128, price: i128)
    requires amount > 0 && price > 0
    ensures 0 <= Charge(amount, price) <= amount * price
    ensures Charge(amount, price) == amount * price <==> InI128(amount * price)
    ensures !InI128(amount * price) ==> Charge(amount, price) <= amount * price - I128_MAX
    ensures Payment(amount, price) == amount * price / 1000 <==> InI128(amount * price)
  {
    assert amount * price > 0;
    QuotientIsExactIff(amount * price, 1000);
  }

  predicate ProductsFit(fills: seq<Fill>, id: nat, price: i128) {
    forall i | 0 <= i < |fills| && fills[i].offerId == id :: InI128(fills[i].amount * price)
  }

  lemma {:induction false} ChargedIsFullIff(fills: seq<Fill>, id: nat, price: i128)
    requires price > 0 && forall i | 0 <= i < |fills| :: fills[i].amount > 0
    ensures ProductsFit(fills, id, price) ==> Charged(fills, id, price) == SumFilled(fills, id) * price
    ensures !ProductsFit(fills, id, price) ==> Charged(fills, id, price) <= SumFilled(fills, id) * price - I128_MAX
    decreases |fills|
  {
    if fills != [] {
      var front, last := fills[..|fills| - 1], fills[|fills| - 1];
      ChargedIsFullIff(front, id, price);
      ChargeIsFullIff(last.amount, price);
      ProductsFitSnoc(front, last, id, price);
      assert fills == front + [last];
      assert (SumFilled(front, id) + last.amount) * price == SumFilled(front, id) * price + last.amount * price;
    }
  }

  lemma ProductsFitSnoc(front: seq<Fill>, last: Fill, id: nat, price: i128)
    ensures ProductsFit(front + [last], id, price)
            <==> ProductsFit(front, id, price) && (last.offerId == id ==> InI128(last.amount * price))
  {
    var fills := front + [last];
    assert fills[|front|] == last && forall i | 0 <= i < |front| :: fills[i] == front[i];
  }

  /** In every reachable state the buyers of an offer have paid at most its exact price, rounded
      down. They are behind by no more than the rounding of each fill after the first if and
      only if no fill wrapped. (No ledger holds 2^64 fills of one offer.) */
  lemma PaidInFullIff(m: MarketState, id: nat)
    requires MarketInv(m) && id in m.offers && 1 <= CountFills(m.fills, id) <= U64_MAX
    ensures var o, paid, k := m.offers[id], Paid(m.fills, id, m.offers[id].price), CountFills(m.fills, id);
            && paid <= o.filled * o.price / 1000
            && (o.filled * o.price / 1000 <= paid + (k - 1) <==> ProductsFit(m.fills, id, o.price))
  {
    var o := m.offers[id];
    assert OfferAccounted(o, m.fills, id);
    ChargedIsFullIff(m.fills, id, o.price);
  }

  /** Nothing wraps for an offer whose amount times price fits, which anyone can check when it
      is created. */
  lemma FittingOfferNeverWraps(m: MarketState, id: nat)
    requires MarketInv(m) && id in m.offers && InI128(m.offers[id].amount * m.offers[id].price)
    ensures ProductsFit(m.fills, id, m.offers[id].price)
  {
    var o := m.offers[id];
    assert OfferAccounted(o, m.fills, id);
    forall i | 0 <= i < |m.fills| && m.fills[i].offerId == id ensures InI128(m.fills[i].amount * o.price) {
      FillWithinSum(m.fills, id, i);
      ProductMonotone(m.fills[i].amount, o.amount, o.price);
    }
  }

  lemma ProductMonotone(a: int, b: int, c: int)
    requires 0 <= a <= b && c >= 0
    ensures 0 <= a * c <= b * c
  {
  }

  lemma {:induction false} FillWithinSum(fills: seq<Fill>, id: nat, i: nat)
    requires i < |fills| && fills[i].offerId == id && forall k | 0 <= k < |fills| :: fills[k].amount > 0
    ensures fills[i].amount <= SumFilled(fills, id)
    decreases |fills|
  {
    var front := fills[..|fills| - 1];
    SumNonNegative(front, id);
    if i < |front| {
      FillWithinSum(front, id, i);
    }
  }

  lemma {:induction false} SumNonNegative(fills: seq<Fill>, id: nat)
    requires forall k | 0 <= k < |fills| :: fills[k].amount > 0
    ensures SumFilled(fills, id) >= 0
  {
    if fills != [] {
      SumNonNegative(fills[..|fills| - 1], id);
    }
  }

  // ---------- Accounting over runs ----------

  lemma CreateKeepsMarket(d: Deployment, m: MarketState, s: RegistryState, env: Env, seller: Address, creditId: nat,
                          price: i128, amount: i128, currency: Address, expiry: Option<nat>, m': MarketState,
                          s': RegistryState)
    requires MarketInv(m)
    requires var r := m.CreateOffer(d.market, s, env, seller, creditId, price, amount, currency, expiry);
             r.Ok? && r.value.0 == (m', s')
    ensures MarketInv(m')
  {
    var id := m.counter + 1;
    NoFillsNoSums(m.fills, id, price);
    assert m'.all == seq(m'.counter, i => i + 1);
  }

  /** An offer after the fill `f`, if that fill is its own. */
  function AfterFill(o: Offer, f: Fill, id: nat): Offer
    requires f.offerId == id ==> InI128(o.filled + f.amount)
  {
    if f.offerId != id then o
    else o.(filled := o.filled + f.amount, status := if o.filled + f.amount >= o.amount then Filled else Listed)
  }

  lemma FillKeepsOffer(o: Offer, fills: seq<Fill>, f: Fill, id: nat)
    requires OfferAccounted(o, fills, id)
    requires f.offerId == id ==>
               o.status == Listed && 0 < f.amount <= o.amount - o.filled && Payment(f.amount, o.price) >= 0
    ensures OfferAccounted(AfterFill(o, f, id), fills + [f], id)
  {
    SumsAppend(fills, f, id, o.price);
    if f.offerId == id {
      PaymentIsCharge(f.amount, o.price);
      RoundingStep(Charged(fills, id, o.price), Charge(f.amount, o.price), Paid(fills, id, o.price),
                   CountFills(fills, id));
    }
  }

  lemma BuyKeepsMarket(d: Deployment, m: MarketState, s: RegistryState, tokens: Balances, env: Env, buyer: Address,
                       id: nat, amount: i128, m': MarketState, s': RegistryState, tokens': Balances)
    requires MarketInv(m)
    requires var r := m.BuyCredits(d.market, s, tokens, env, buyer, id, amount);
             r.Ok? && r.value.0 == (m', s', tokens')
    ensures MarketInv(m')
  {
    var f := Fill(id, buyer, amount);
    forall k | k in m'.offers ensures OfferAccounted(m'.offers[k], m'.fills, k) {
      assert OfferAccounted(m.offers[k], m.fills, k);
      FillKeepsOffer(m.offers[k], m.fills, f, k);
    }
  }

  /** What an accepted buy pays, from the buyer to the seller: the rounded-down price if and
      only if the product of amount and price does not wrap. */
  lemma BuyPays(d: Deployment, m: MarketState, s: RegistryState, tokens: Balances, env: Env, buyer: Address, id: nat,
                amount: i128, m': MarketState, s': RegistryState, tokens': Balances)
    requires MarketInv(m)
    requires var r := m.BuyCredits(d.market, s, tokens, env, buyer, id, amount);
             r.Ok? && r.value.0 == (m', s', tokens')
    ensures var o := m.offers[id];
            && 0 <= Payment(amount, o.price) <= BalanceOf(tokens, o.currency, buyer)
            && (Payment(amount, o.price) == amount * o.price / 1000 <==> InI128(amount * o.price))
            && forall t, h :: BalanceOf(tokens', t, h) == BalanceOf(tokens, t, h)
                 + (if (t, h) == (o.currency, o.seller) then Payment(amount, o.price) else 0)
                 - (if (t, h) == (o.currency, buyer) then Payment(amount, o.price) else 0)
    ensures s'.ReadOwner(m.offers[id].creditId) == Ok(buyer)
  {
    var o := m.offers[id];
    assert OfferAccounted(o, m.fills, id);
    ChargeIsFullIff(amount, o.price);
    TransferMoves(tokens, env.CallFrom(d.market), o.currency, buyer, o.seller, Payment(amount, o.price), tokens');
  }

  lemma CancelKeepsMarket(d: Deployment, m: MarketState, s: RegistryState, env: Env, caller: Address, id: nat,
                          m': MarketState, s': RegistryState)
    requires MarketInv(m)
    requires var r := m.CancelOffer(d.market, s, env, caller, id);
             r.Ok? && r.value.0 == (m', s')
    ensures MarketInv(m')
  {
    assert OfferAccounted(m.offers[id], m.fills, id);
  }

  lemma TxKeepsMarket(d: Deployment, w: World, tx: Tx)
    requires MarketInv(w.market)
    ensures MarketInv(Apply(d, w, tx).market)
  {
    var w' := Apply(d, w, tx);
    if Step(d, w, tx).Ok? {
      match tx.call {
        case CreateOffer(seller, creditId, price, amount, currency, expiry) =>
          CreateKeepsMarket(d, w.market, w.registry, tx.env, seller, creditId, price, amount, currency, expiry,
                            w'.market, w'.registry);
        case BuyCredits(buyer, id, amount) =>
          BuyKeepsMarket(d, w.market, w.registry, w.tokens, tx.env, buyer, id, amount, w'.market, w'.registry,
                         w'.tokens);
        case CancelOffer(caller, id) =>
          CancelKeepsMarket(d, w.market, w.registry, tx.env, caller, id, w'.market, w'.registry);
        case _ => OtherTxKeepsMarketState(d, w, tx);
      }
    }
  }

  /** In every run, partial fills included, every offer agrees with its published fills. In
      particular no committed offer is ever Expired, though `buy_credits` writes that status. */
  lemma {:induction false} OffersAlwaysAccounted(d: Deployment, w: World, txs: seq<Tx>)
    requires MarketInv(w.market)
    ensures MarketInv(Run(d, w, txs).market)
    decreases |txs|
  {
    if txs != [] {
      var n := |txs| - 1;
      OffersAlwaysAccounted(d, w, txs[..n]);
      TxKeepsMarket(d, Run(d, w, txs[..n]), txs[n]);
    }
  }

  lemma GenesisMarket()
    ensures MarketInv(NO_OFFERS)
  {
    assert NO_OFFERS.all == seq(NO_OFFERS.counter, i => i + 1);
  }

  // ---------- Escrow ----------

  /** Every buy accepted so far on this credit took the whole offer. */
  ghost predicate WholeFillsOnly(m: MarketState, creditId: nat) {
    forall i | 0 <= i < |m.fills| && m.fills[i].offerId in m.offers ::
      m.offers[m.fills[i].offerId].creditId == creditId ==> m.fills[i].amount == m.offers[m.fills[i].offerId].amount
  }

  predicate Held(d: Deployment, s: RegistryState, creditId: nat) {
    s.ReadOwner(creditId) == Ok(d.market) && s.HasStatus(creditId, Active)
  }

  predicate IsListed(m: MarketState, id: nat) {
    id in m.offers && m.offers[id].status == Listed
  }

  /** A credit that was never sold in parts is in at most one Listed offer, and while it is
      the marketplace owns it and the registry has it Active. */
  ghost predicate EscrowInv(d: Deployment, m: MarketState, s: RegistryState) {
    && (forall i | IsListed(m, i) && WholeFillsOnly(m, m.offers[i].creditId) :: Held(d, s, m.offers[i].creditId))
    && (forall i, j | IsListed(m, i) && IsListed(m, j) && m.offers[i].creditId == m.offers[j].creditId
                      && WholeFillsOnly(m, m.offers[i].creditId) :: i == j)
  }

  ghost predicate EscrowWorld(d: Deployment, w: World) {
    && OnlyTrustedRetirers(d, w.registry) && MarketInv(w.market) && EscrowInv(d, w.market, w.registry)
    && RegistryInv(w.registry) && IndexInv(w.registry)
  }

  /** A registry call that is neither a retirement nor signed by the marketplace leaves
      held credits held. */
  lemma UserCallKeepsHeld(d: Deployment, s: RegistryState, tx: RegistryTx, id: nat)
    requires Held(d, s, id) && id <= s.counter
    requires !tx.call.MarkRetired?
    requires tx.call.TransferCredit? ==> d.market !in tx.env.auth
    ensures Held(d, Commit(s, tx), id)
  {
    if IsAdminCall(tx.call) {
      AdminEffect(s, tx);
    } else if s.Perform(tx.env, tx.call).Ok? {
      var s' := Commit(s, tx);
      match tx.call {
        case ApproveAndMint(v, k, text) => VoteKeepsHeld(d, s, tx.env, v, k, text, true, s', id);
        case RejectCredit(v, k, text) => VoteKeepsHeld(d, s, tx.env, v, k, text, false, s', id);
        case TransferCredit(_, _, _) =>
        case SubmitCredit(_, _, _) =>
        case MintBridged(_, _, _) =>
      }
    }
  }

  lemma VoteKeepsHeld(d: Deployment, s: RegistryState, env: Env, v: Address, k: nat, text: string, approve: bool,
                      s': RegistryState, id: nat)
    requires Held(d, s, id)
    requires var r := CastVote(s, env, v, k, text, approve); r.Ok? && r.value.0 == s'
    ensures Held(d, s', id)
  {
    VoteShape(s, env, v, k, text, approve, s', CastVote(s, env, v, k, text, approve).value.1);
    RecordedKeepsHeld(d, s, k, Vote(v, approve, env.now, text), s'.credits[k].status, s'.credits[k].tokenId, id);
  }

  lemma RecordedKeepsHeld(d: Deployment, s: RegistryState, k: nat, v: Vote, status: CreditStatus, token: TokenId,
                          id: nat)
    requires s.HasStatus(k, Pending) && Held(d, s, id)
    ensures Held(d, Recorded(s, k, v, status, token), id)
  {
  }

  lemma SameOffersKeepEscrow(d: Deployment, m: MarketState, s: RegistryState, s': RegistryState)
    requires EscrowInv(d, m, s) && forall id | Held(d, s, id) :: Held(d, s', id)
    ensures EscrowInv(d, m, s')
  {
  }

  lemma CreateKeepsEscrow(d: Deployment, m: MarketState, s: RegistryState, env: Env, seller: Address, creditId: nat,
                          price: i128, amount: i128, currency: Address, expiry: Option<nat>, m': MarketState,
                          s': RegistryState)
    requires MarketInv(m) && EscrowInv(d, m, s) && d.market !in env.auth
    requires var r := m.CreateOffer(d.market, s, env, seller, creditId, price, amount, currency, expiry);
             r.Ok? && r.value.0 == (m', s')
    ensures EscrowInv(d, m', s')
  {
    var id := m.counter + 1;
    assert !Held(d, s, creditId) && Held(d, s', creditId);
    forall c ensures WholeFillsOnly(m', c) <==> WholeFillsOnly(m, c) {
      FillsUntouched(m, m', c);
    }
    forall c | Held(d, s, c) ensures Held(d, s', c) {}
    NewOfferKeepsEscrow(d, m, s, m', s', id);
  }

  lemma NewOfferKeepsEscrow(d: Deployment, m: MarketState, s: RegistryState, m': MarketState, s': RegistryState,
                            id: nat)
    requires EscrowInv(d, m, s) && id !in m.offers && id in m'.offers && m'.offers == m.offers[id := m'.offers[id]]
    requires !Held(d, s, m'.offers[id].creditId) && Held(d, s', m'.offers[id].creditId)
    requires forall c | Held(d, s, c) :: Held(d, s', c)
    requires forall c :: WholeFillsOnly(m', c) <==> WholeFillsOnly(m, c)
    ensures EscrowInv(d, m', s')
  {
  }

  lemma FillsUntouched(m: MarketState, m': MarketState, c: nat)
    requires m'.fills == m.fills && MarketInv(m)
    requires forall id | id in m.offers :: id in m'.offers && m'.offers[id].creditId == m.offers[id].creditId
                                           && m'.offers[id].amount == m.offers[id].amount
    ensures WholeFillsOnly(m', c) <==> WholeFillsOnly(m, c)
  {
  }

  lemma BuyKeepsEscrow(d: Deployment, m: MarketState, s: RegistryState, tokens: Balances, env: Env, buyer: Address,
                       id: nat, amount: i128, m': MarketState, s': RegistryState, tokens': Balances)
    requires MarketInv(m) && EscrowInv(d, m, s)
    requires var r := m.BuyCredits(d.market, s, tokens, env, buyer, id, amount);
             r.Ok? && r.value.0 == (m', s', tokens')
    ensures EscrowInv(d, m', s')
  {
    var o, c := m.offers[id], m.offers[id].creditId;
    assert OfferAccounted(o, m.fills, id);
    assert m'.offers == m.offers[id := m'.offers[id]] && m'.fills == m.fills + [Fill(id, buyer, amount)];
    assert m'.offers[id].creditId == c && m'.offers[id].amount == o.amount;
    assert amount == o.amount ==> m'.offers[id].status == Filled;
    forall k | k != c && Held(d, s, k) ensures Held(d, s', k) {}
    FilledOfferLeavesEscrow(d, m, s, id, buyer, amount, m', s');
  }

  lemma FilledOfferLeavesEscrow(d: Deployment, m: MarketState, s: RegistryState, id: nat, buyer: Address, amount: i128,
                                m': MarketState, s': RegistryState)
    requires EscrowInv(d, m, s) && IsListed(m, id) && id in m'.offers
    requires m'.offers == m.offers[id := m'.offers[id]] && m'.fills == m.fills + [Fill(id, buyer, amount)]
    requires m'.offers[id].creditId == m.offers[id].creditId && m'.offers[id].amount == m.offers[id].amount
    requires amount == m.offers[id].amount ==> m'.offers[id].status == Filled
    requires forall k | k != m.offers[id].creditId && Held(d, s, k) :: Held(d, s', k)
    ensures EscrowInv(d, m', s')
  {
    var c := m.offers[id].creditId;
    forall k | WholeFillsOnly(m', k) ensures WholeFillsOnly(m, k) && (k == c ==> !IsListed(m', id)) {
      FillsGrew(m, m', k);
      assert m'.fills[|m.fills|] == Fill(id, buyer, amount);
    }
    forall i | IsListed(m', i) && WholeFillsOnly(m', m'.offers[i].creditId) ensures Held(d, s', m'.offers[i].creditId) {
      assert WholeFillsOnly(m, m'.offers[i].creditId);
      assert i == id || IsListed(m, i);
      assert m'.offers[i].creditId != c;
    }
  }

  lemma FillsGrew(m: MarketState, m': MarketState, c: nat)
    requires m.fills <= m'.fills
    requires forall id | id in m.offers :: id in m'.offers && m'.offers[id].creditId == m.offers[id].creditId
                                           && m'.offers[id].amount == m.offers[id].amount
    requires WholeFillsOnly(m', c)
    ensures WholeFillsOnly(m, c)
  {
    forall i | 0 <= i < |m.fills| && m.fills[i].offerId in m.offers
      ensures m.offers[m.fills[i].offerId].creditId == c ==> m.fills[i].amount == m.offers[m.fills[i].offerId].amount
    {
      assert m'.fills[i] == m.fills[i];
    }
  }

  lemma CancelKeepsEscrow(d: Deployment, m: MarketState, s: RegistryState, env: Env, caller: Address, id: nat,
                          m': MarketState, s': RegistryState)
    requires MarketInv(m) && EscrowInv(d, m, s)
    requires var r := m.CancelOffer(d.market, s, env, caller, id);
             r.Ok? && r.value.0 == (m', s')
    ensures EscrowInv(d, m', s')
  {
    forall k | k != m.offers[id].creditId && Held(d, s, k) ensures Held(d, s', k) {}
    ClosedOfferLeavesEscrow(d, m, s, id, m', s');
  }

  lemma ClosedOfferLeavesEscrow(d: Deployment, m: MarketState, s: RegistryState, id: nat, m': MarketState,
                                s': RegistryState)
    requires MarketInv(m) && EscrowInv(d, m, s) && IsListed(m, id)
    requires m' == m.(offers := m.offers[id := m.offers[id].(status := Cancelled)])
    requires forall k | k != m.offers[id].creditId && Held(d, s, k) :: Held(d, s', k)
    ensures EscrowInv(d, m', s')
  {
    forall k ensures WholeFillsOnly(m', k) <==> WholeFillsOnly(m, k) {
      FillsUntouched(m, m', k);
    }
    forall i | IsListed(m', i) && WholeFillsOnly(m', m'.offers[i].creditId)
      ensures Held(d, s', m'.offers[i].creditId) && IsListed(m, i) && m.offers[i] == m'.offers[i]
    {
      assert IsListed(m, i) && i != id;
    }
  }

  lemma {:induction false} RetireEachKeepsHeld(d: Deployment, t: TrackerState, s: RegistryState, env: Env,
                                               owner: Address, inputs: seq<RetireInput>, id: nat)
    requires Held(d, s, id) && d.market !in env.auth && t.RetireEach(d.tracker, s, env, owner, inputs).Ok?
    ensures owner in env.auth || inputs == []
    ensures Held(d, t.RetireEach(d.tracker, s, env, owner, inputs).value.0.1, id)
    decreases |inputs|
  {
    if inputs != [] {
      RetireEachKeepsHeld(d, t, s, env, owner, inputs[..|inputs| - 1], id);
    }
  }

  lemma TxKeepsEscrow(d: Deployment, w: World, tx: Tx)
    requires EscrowWorld(d, w) && SignedByUsers(d, tx) && RetirersTrusted(d, tx)
    ensures EscrowInv(d, Apply(d, w, tx).market, Apply(d, w, tx).registry)
  {
    if Step(d, w, tx).Ok? {
      match tx.call {
        case CreateOffer(_, _, _, _, _, _) => CreateTxKeepsEscrow(d, w, tx);
        case BuyCredits(_, _, _) => BuyTxKeepsEscrow(d, w, tx);
        case CancelOffer(_, _) => CancelTxKeepsEscrow(d, w, tx);
        case _ => OtherTxKeepsEscrow(d, w, tx);
      }
    }
  }

  lemma CreateTxKeepsEscrow(d: Deployment, w: World, tx: Tx)
    requires EscrowWorld(d, w) && SignedByUsers(d, tx) && tx.call.CreateOffer? && Step(d, w, tx).Ok?
    ensures EscrowInv(d, Apply(d, w, tx).market, Apply(d, w, tx).registry)
  {
    var c, w' := tx.call, Apply(d, w, tx);
    CreateKeepsEscrow(d, w.market, w.registry, tx.env, c.seller, c.creditId, c.price, c.amount, c.currency, c.expiry,
                      w'.market, w'.registry);
  }

  lemma BuyTxKeepsEscrow(d: Deployment, w: World, tx: Tx)
    requires EscrowWorld(d, w) && tx.call.BuyCredits? && Step(d, w, tx).Ok?
    ensures EscrowInv(d, Apply(d, w, tx).market, Apply(d, w, tx).registry)
  {
    var c, w' := tx.call, Apply(d, w, tx);
    BuyKeepsEscrow(d, w.market, w.registry, w.tokens, tx.env, c.buyer, c.offerId, c.amount, w'.market, w'.registry,
                   w'.tokens);
  }

  lemma CancelTxKeepsEscrow(d: Deployment, w: World, tx: Tx)
    requires EscrowWorld(d, w) && tx.call.CancelOffer? && Step(d, w, tx).Ok?
    ensures EscrowInv(d, Apply(d, w, tx).market, Apply(d, w, tx).registry)
  {
    var c, w' := tx.call, Apply(d, w, tx);
    CancelKeepsEscrow(d, w.market, w.registry, tx.env, c.caller, c.offerId, w'.market, w'.registry);
  }

  lemma OtherTxKeepsEscrow(d: Deployment, w: World, tx: Tx)
    requires EscrowWorld(d, w) && SignedByUsers(d, tx) && RetirersTrusted(d, tx)
    requires !tx.call.CreateOffer? && !tx.call.BuyCredits? && !tx.call.CancelOffer?
    ensures EscrowInv(d, Apply(d, w, tx).market, Apply(d, w, tx).registry)
  {
    var w' := Apply(d, w, tx);
    OtherTxKeepsMarketState(d, w, tx);
    forall id | Held(d, w.registry, id) ensures Held(d, w'.registry, id) {
      OtherTxKeepsHeld(d, w, tx, id);
    }
    SameOffersKeepEscrow(d, w.market, w.registry, w'.registry);
  }

  lemma OtherTxKeepsMarketState(d: Deployment, w: World, tx: Tx)
    requires !tx.call.CreateOffer? && !tx.call.BuyCredits? && !tx.call.CancelOffer?
    ensures Apply(d, w, tx).market == w.market
  {
  }

  lemma OtherTxKeepsHeld(d: Deployment, w: World, tx: Tx, id: nat)
    requires EscrowWorld(d, w) && SignedByUsers(d, tx) && RetirersTrusted(d, tx) && Held(d, w.registry, id)
    requires !tx.call.CreateOffer? && !tx.call.BuyCredits? && !tx.call.CancelOffer?
    ensures Held(d, Apply(d, w, tx).registry, id)
  {
    if Step(d, w, tx).Ok? {
      if tx.call.Direct? || tx.call.BridgeIn? {
        OneCallKeepsHeld(d, w.registry, tx, id);
      } else {
        BurnKeepsHeld(d, w, tx, id);
      }
    }
  }

  lemma OneCallKeepsHeld(d: Deployment, s: RegistryState, tx: Tx, id: nat)
    requires Held(d, s, id) && id <= s.counter && s.retirers <= {d.tracker, d.bridge} && SignedByUsers(d, tx)
    requires tx.call.Direct? || tx.call.BridgeIn?
    ensures forall w: World | w.registry == s :: Held(d, Apply(d, w, tx).registry, id)
  {
    match tx.call {
      case Direct(call) =>
        if !call.MarkRetired? {
          UserCallKeepsHeld(d, s, RegistryTx(tx.env, call), id);
        }
      case BridgeIn(bridger, _, _, _, _, m) =>
        UserCallKeepsHeld(d, s, RegistryTx(tx.env.CallFrom(d.bridge), MintBridged(d.bridge, bridger, m)), id);
    }
  }

  /** Whoever retires or bridges out a credit owns it, and the marketplace signs nothing. */
  lemma BurnKeepsHeld(d: Deployment, w: World, tx: Tx, id: nat)
    requires Held(d, w.registry, id) && SignedByUsers(d, tx) && Step(d, w, tx).Ok?
    requires !tx.call.CreateOffer? && !tx.call.BuyCredits? && !tx.call.CancelOffer? && !tx.call.Direct?
             && !tx.call.BridgeIn?
    ensures Held(d, Apply(d, w, tx).registry, id)
  {
    if tx.call.BatchRetire? {
      RetireEachKeepsHeld(d, w.tracker, w.registry, tx.env, tx.call.owner, tx.call.inputs, id);
    }
  }

  lemma TxKeepsTrust(d: Deployment, w: World, tx: Tx)
    requires OnlyTrustedRetirers(d, w.registry) && RetirersTrusted(d, tx)
    ensures OnlyTrustedRetirers(d, Apply(d, w, tx).registry)
  {
    OpsExplainRegistry(d, w, tx);
    var ops := RegistryOps(d, w, tx);
    RunKeepsTrust(d, w.registry, ops);
  }

  lemma {:induction false} RunKeepsTrust(d: Deployment, s: RegistryState, ops: seq<RegistryTx>)
    requires s.retirers <= {d.tracker, d.bridge}
    requires forall i | 0 <= i < |ops| :: ops[i].call.AddRetirer? ==> ops[i].call.retirer in {d.tracker, d.bridge}
    ensures RunRegistry(s, ops).retirers <= {d.tracker, d.bridge}
    decreases |ops|
  {
    if ops != [] {
      RunKeepsTrust(d, s, ops[..|ops| - 1]);
      RetirersChange(RunRegistry(s, ops[..|ops| - 1]), ops[|ops| - 1]);
    }
  }

  /** Escrow is safe in every run: for each credit whose accepted buys all took the whole
      offer, whatever happens to other credits. */
  lemma {:induction false} EscrowIsSafe(d: Deployment, w: World, txs: seq<Tx>)
    requires EscrowWorld(d, w)
    requires forall i | 0 <= i < |txs| :: SignedByUsers(d, txs[i]) && RetirersTrusted(d, txs[i])
    ensures EscrowWorld(d, Run(d, w, txs))
    decreases |txs|
  {
    if txs != [] {
      var n := |txs| - 1;
      var mid := Run(d, w, txs[..n]);
      EscrowIsSafe(d, w, txs[..n]);
      TxKeepsEscrow(d, mid, txs[n]);
      TxKeepsMarket(d, mid, txs[n]);
      TxKeepsTrust(d, mid, txs[n]);
      RegistryOverRuns(d, mid, [txs[n]]);
      assert [txs[n]][..0] == [] && Run(d, mid, [txs[n]]) == Apply(d, mid, txs[n]);
    }
  }

  /** Escrow is never stuck: the seller, and after expiry anyone, can cancel a Listed offer
      on such a credit, and the credit goes back to the seller. */
  lemma CancelReturnsEscrow(d: Deployment, w: World, env: Env, caller: Address, id: nat)
    requires EscrowWorld(d, w) && IsListed(w.market, id) && WholeFillsOnly(w.market, w.market.offers[id].creditId)
    requires caller in env.auth && (caller == w.market.offers[id].seller || PastExpiry(w.market.offers[id], env.now))
    ensures Step(d, w, Tx(env, CancelOffer(caller, id))).Ok?
    ensures var w', o := Apply(d, w, Tx(env, CancelOffer(caller, id))), w.market.offers[id];
            && w'.registry.ReadOwner(o.creditId) == Ok(o.seller) && w'.registry.HasStatus(o.creditId, Active)
            && !IsListed(w'.market, id)
  {
    assert Held(d, w.registry, w.market.offers[id].creditId);
  }

  /** Without the restriction to whole fills the guarantee fails, and exactly so: the seller
      of a Listed offer can cancel if and only if the marketplace still holds the credit. */
  lemma CancelSucceedsIffHeld(d: Deployment, w: World, env: Env, id: nat)
    requires IsListed(w.market, id) && w.market.offers[id].seller in env.auth
    ensures Step(d, w, Tx(env, CancelOffer(w.market.offers[id].seller, id))).Ok?
            <==> Held(d, w.registry, w.market.offers[id].creditId)
  {
  }

  /** An accepted buy leaves its offer Listed exactly when it was partial, and then the
      seller can no longer cancel: the buyer has the whole credit. */
  lemma BuyStrandsOfferIffPartial(d: Deployment, w: World, tx: Tx, env: Env)
    requires MarketInv(w.market)
    requires tx.call.BuyCredits? && tx.call.buyer != d.market && Step(d, w, tx).Ok?
    requires tx.call.offerId in w.market.offers && w.market.offers[tx.call.offerId].seller in env.auth
    ensures var o, w' := w.market.offers[tx.call.offerId], Apply(d, w, tx);
            && (IsListed(w'.market, tx.call.offerId) <==> tx.call.amount < o.amount - o.filled)
            && Step(d, w', Tx(env, CancelOffer(o.seller, tx.call.offerId))).Err?
  {
    var w', id, o := Apply(d, w, tx), tx.call.offerId, w.market.offers[tx.call.offerId];
    assert OfferAccounted(o, w.market.fills, id);
    BuyPays(d, w.market, w.registry, w.tokens, tx.env, tx.call.buyer, id, tx.call.amount, w'.market, w'.registry,
            w'.tokens);
    assert w'.market.offers[id] == AfterFill(o, Fill(id, tx.call.buyer, tx.call.amount), id);
    CancelNeedsEscrow(d, w', env, id, tx.call.buyer);
  }

  lemma CancelNeedsEscrow(d: Deployment, w: World, env: Env, id: nat, owner: Address)
    requires id in w.market.offers && w.registry.ReadOwner(w.market.offers[id].creditId) == Ok(owner)
             && owner != d.market
    ensures Step(d, w, Tx(env, CancelOffer(w.market.offers[id].seller, id))).Err?
  {
  }

  /** And the stranded offer can strand others: a buy from one of two Listed offers of the same
      credit takes the credit away from under the other, which stays Listed as it was, cannot
      be cancelled, and whose seller gets nothing for it. */
  lemma BuyEmptiesOtherEscrow(d: Deployment, w: World, tx: Tx, other: nat, env: Env)
    requires MarketInv(w.market) && tx.call.BuyCredits? && tx.call.buyer != d.market && Step(d, w, tx).Ok?
    requires tx.call.offerId in w.market.offers && other != tx.call.offerId && IsListed(w.market, other)
    requires w.market.offers[other].creditId == w.market.offers[tx.call.offerId].creditId
    ensures var w', o := Apply(d, w, tx), w.market.offers[tx.call.offerId];
            && IsListed(w'.market, other) && w'.market.offers[other] == w.market.offers[other]
            && w'.registry.ReadOwner(o.creditId) == Ok(tx.call.buyer)
            && Step(d, w', Tx(env, CancelOffer(w.market.offers[other].seller, other))).Err?
            && forall t, h | h != o.seller :: BalanceOf(w'.tokens, t, h) <= BalanceOf(w.tokens, t, h)
  {
    var w', id := Apply(d, w, tx), tx.call.offerId;
    BuyPays(d, w.market, w.registry, w.tokens, tx.env, tx.call.buyer, id, tx.call.amount, w'.market, w'.registry,
            w'.tokens);
    assert w'.market.offers[other] == w.market.offers[other];
    CancelNeedsEscrow(d, w', env, other, tx.call.buyer);
  }

  lemma GenesisEscrow(d: Deployment, admin: Address, threshold: nat, quorum: nat, tokens: Balances)
    requires 1 <= threshold <= quorum
    ensures EscrowWorld(d, Genesis(admin, threshold, quorum, tokens))
  {
    GenesisMarket();
    InitialisedInv(admin, threshold, quorum);
  }

  // ---------- Listings ----------

  lemma {:induction false} ListedConcat(offers: map<nat, Offer>, a: seq<nat>, b: seq<nat>)
    ensures ListedAmong(offers, a + b) == ListedAmong(offers, a) + ListedAmong(offers, b)
    decreases |b|
  {
    if b == [] {
      assert a + b == a;
    } else {
      assert (a + b)[..|a + b| - 1] == a + b[..|b| - 1];
      ListedConcat(offers, a, b[..|b| - 1]);
    }
  }

  /** A client reading the listings page by page, in steps of min(limit, 50). */
  function WalkListings(m: MarketState, offset: nat, limit: u32): seq<Offer>
    requires 1 <= limit && |m.all| <= U32_MAX
    decreases |m.all| - offset
  {
    var step: u32 := Min(limit, 50);
    if offset >= |m.all| then []
    else ListedAmong(m.offers, Page(m.all, offset, step)) + WalkListings(m, offset + step, limit)
  }

  /** The offers with ids from 1 to `n` that are Listed, in order of creation. */
  function ListedUpTo(offers: map<nat, Offer>, n: nat): seq<Offer> {
    if n == 0 then []
    else ListedUpTo(offers, n - 1) + (if n in offers && offers[n].status == Listed then [offers[n]] else [])
  }

  /** In every reachable state a client that reads all pages gets exactly the Listed offers, in
      order of creation. */
  lemma AllPagesAreTheListedOffers(m: MarketState, limit: u32)
    requires MarketInv(m) && 1 <= limit && |m.all| <= U32_MAX
    ensures WalkListings(m, 0, limit) == ListedUpTo(m.offers, m.counter)
  {
    ListingsCoverOffers(m, 0, limit);
    assert m.all[0..] == m.all;
    ListedInOrder(m.offers, m.counter);
  }

  lemma {:induction false} ListedInOrder(offers: map<nat, Offer>, n: nat)
    ensures ListedAmong(offers, seq(n, i => i + 1)) == ListedUpTo(offers, n)
  {
    if n > 0 {
      var ids := seq(n, i => i + 1);
      assert ids[..n - 1] == seq(n - 1, i => i + 1);
      ListedInOrder(offers, n - 1);
    }
  }

  /** Consecutive pages of listings are the Listed offers among all offers ever made, in
      order of creation: none skipped, none twice. */
  lemma {:induction false} ListingsCoverOffers(m: MarketState, offset: nat, limit: u32)
    requires 1 <= limit && |m.all| <= U32_MAX
    ensures WalkListings(m, offset, limit) == ListedAmong(m.offers, if offset <= |m.all| then m.all[offset..] else [])
    decreases |m.all| - offset
  {
    var step: u32 := Min(limit, 50);
    if offset < |m.all| {
      ListingsCoverOffers(m, offset + step, limit);
      PageThenRest(m.all, offset, step);
      var rest := if offset + step <= |m.all| then m.all[offset + step..] else [];
      ListedConcat(m.offers, Page(m.all, offset, step), rest);
    }
  }
}
