/** Runs of the marketplace from deployment in which its promises fail. */
module MarketExamples {
  import opened Common
  import opened Registry
  import opened RegistryLaws
  import opened VotingLaws
  import opened Tokens
  import opened Market
  import opened World
  import opened WorldLaws
  import opened MarketLaws

  /** A credit submitted by `seller` and voted in by the only verifier. */
  lemma VotedInCredit(d: Deployment, w: World, metadata: Credit, admin: Address, verifier: Address, seller: Address,
                      env: Env)
    returns (txs: seq<Tx>)
    requires w == Genesis(admin, 1, 1, w.tokens) && ValidMetadata(metadata) && {admin, verifier, seller} <= env.auth
    ensures forall i | 0 <= i < |txs| :: txs[i].env == env
    ensures var w' := Run(d, w, txs);
            && w'.market == NO_OFFERS && w'.tokens == w.tokens
            && w'.registry.ReadOwner(1) == Ok(seller) && w'.registry.HasStatus(1, Active)
  {
    var t1 := Tx(env, Direct(AddVerifier(admin, verifier)));
    var t2 := Tx(env, Direct(SubmitCredit(seller, metadata, "")));
    var t3 := Tx(env, Direct(ApproveAndMint(verifier, 1, "")));
    RunSnoc(d, w, [], t1);
    RunSnoc(d, w, [] + [t1], t2);
    RunSnoc(d, w, [] + [t1] + [t2], t3);
    VoteIn(w.registry, metadata, admin, verifier, seller, env);
    txs := [] + [t1] + [t2] + [t3];
  }

  lemma VoteIn(s: RegistryState, metadata: Credit, admin: Address, verifier: Address, seller: Address, env: Env)
    requires s == Initialised(admin, 1, 1) && ValidMetadata(metadata) && {admin, verifier, seller} <= env.auth
    ensures var s1 := Commit(s, RegistryTx(env, AddVerifier(admin, verifier)));
            var s2 := Commit(s1, RegistryTx(env, SubmitCredit(seller, metadata, "")));
            var s3 := Commit(s2, RegistryTx(env, ApproveAndMint(verifier, 1, "")));
            s3.ReadOwner(1) == Ok(seller) && s3.HasStatus(1, Active)
  {
    var s1 := Commit(s, RegistryTx(env, AddVerifier(admin, verifier)));
    assert s1 == s.(verifiers := [verifier]);
    var s2 := Commit(s1, RegistryTx(env, SubmitCredit(seller, metadata, "")));
    assert s2 == s1.SubmitCredit(env, seller, metadata, "").value.0;
    FirstApproval(s2, verifier, env);
  }

  lemma FirstApproval(s: RegistryState, verifier: Address, env: Env)
    requires s.HasStatus(1, Pending) && s.VotesOn(1) == [] && s.config.threshold == 1
    requires verifier in s.verifiers && verifier in env.auth
    ensures var s' := Commit(s, RegistryTx(env, ApproveAndMint(verifier, 1, "")));
            s'.owners == s.owners && s'.HasStatus(1, Active)
  {
    var v := Vote(verifier, true, env.now, "");
    VoteIsRecorded(s, Ballot(Choice(verifier, true), env, ""), 1);
    assert Tally([v], true) == 1 && [] + [v] == [v];
  }

  /** A run in which the guarantee fails: a credit is voted in, offered at amount 1000 and
      bought in part (300). The offer stays Listed, the buyer owns the credit, and the
      seller's cancellation reverts. */
  lemma PartialFillCounterexample(d: Deployment, metadata: Credit, admin: Address, verifier: Address, seller: Address,
                                  buyer: Address, token: Address, env: Env)
    returns (txs: seq<Tx>)
    requires ValidMetadata(metadata) && d.market != buyer && d.market != seller
    requires {admin, verifier, seller, buyer} <= env.auth
    ensures forall i | 0 <= i < |txs| :: txs[i].env == env
    ensures var w := Run(d, Genesis(admin, 1, 1, map[(token, buyer) := 3000]), txs);
            && IsListed(w.market, 1) && w.market.offers[1].filled == 300 && w.market.offers[1].seller == seller
            && w.registry.ReadOwner(w.market.offers[1].creditId) == Ok(buyer)
            && Step(d, w, Tx(env, CancelOffer(seller, 1))) == Err(CreditNotOwned)
  {
    var w0 := Genesis(admin, 1, 1, map[(token, buyer) := 3000]);
    txs := VotedInCredit(d, w0, metadata, admin, verifier, seller, env);
    var w := Run(d, w0, txs);
    var offer, buy := Tx(env, CreateOffer(seller, 1, 10000, 1000, token, None)), Tx(env, BuyCredits(buyer, 1, 300));
    RunSnoc(d, w0, txs, offer);
    RunSnoc(d, w0, txs + [offer], buy);
    PartialBuy(d, w, seller, buyer, token, env);
    txs := txs + [offer] + [buy];
  }

  lemma PartialBuy(d: Deployment, w: World, seller: Address, buyer: Address, token: Address, env: Env)
    requires w.market == NO_OFFERS && w.tokens == map[(token, buyer) := 3000]
    requires w.registry.ReadOwner(1) == Ok(seller) && w.registry.HasStatus(1, Active)
    requires d.market != buyer && d.market != seller && {seller, buyer} <= env.auth
    ensures var listed := Apply(d, w, Tx(env, CreateOffer(seller, 1, 10000, 1000, token, None)));
            var w' := Apply(d, listed, Tx(env, BuyCredits(buyer, 1, 300)));
            && IsListed(w'.market, 1) && w'.market.offers[1].filled == 300 && w'.market.offers[1].seller == seller
            && w'.registry.ReadOwner(w'.market.offers[1].creditId) == Ok(buyer)
            && Step(d, w', Tx(env, CancelOffer(seller, 1))) == Err(CreditNotOwned)
  {
    var listed := Apply(d, w, Tx(env, CreateOffer(seller, 1, 10000, 1000, token, None)));
    assert listed.market.offers == map[1 := Offer(seller, 1, 10000, 1000, 0, token, None, env.now, Listed)];
    assert Payment(300, 10000) == 3000 && InI128(300 * 10000);
  }

  /** A run that goes on from there: the buyer lists the credit again, and somebody buys the
      rest of the old offer. That takes the credit, while the new offer stays Listed and its
      seller, who paid 3000 for the credit, gets nothing. */
  lemma RelistedCreditCounterexample(d: Deployment, metadata: Credit, admin: Address, verifier: Address,
                                     seller: Address, buyer: Address, other: Address, token: Address, env: Env)
    returns (txs: seq<Tx>)
    requires ValidMetadata(metadata) && d.market !in {seller, buyer, other}
    requires buyer != seller && buyer != other && {admin, verifier, seller, buyer, other} <= env.auth
    ensures forall i | 0 <= i < |txs| :: txs[i].env == env
    ensures var w := Run(d, Genesis(admin, 1, 1, map[(token, buyer) := 3000, (token, other) := 7000]), txs);
            && IsListed(w.market, 2) && w.market.offers[2].seller == buyer
            && w.registry.ReadOwner(w.market.offers[2].creditId) == Ok(other)
            && BalanceOf(w.tokens, token, buyer) == 0
  {
    var w0 := Genesis(admin, 1, 1, map[(token, buyer) := 3000, (token, other) := 7000]);
    txs := PartialFill(d, w0, metadata, admin, verifier, seller, buyer, other, token, env);
    var w := Run(d, w0, txs);
    var relist, rest := Tx(env, CreateOffer(buyer, 1, 10000, 1000, token, None)), Tx(env, BuyCredits(other, 1, 700));
    RunSnoc(d, w0, txs, relist);
    RunSnoc(d, w0, txs + [relist], rest);
    SoldAgain(d, w, seller, buyer, other, token, env);
    txs := txs + [relist] + [rest];
  }

  /** Where the run stands once the credit has been sold in part. */
  ghost predicate InPart(w: World, seller: Address, buyer: Address, other: Address, token: Address, env: Env) {
    && w.market.counter == 1
    && w.market.offers == map[1 := Offer(seller, 1, 10000, 1000, 300, token, None, env.now, Listed)]
    && w.registry.ReadOwner(1) == Ok(buyer) && w.registry.HasStatus(1, Active)
    && BalanceOf(w.tokens, token, buyer) == 0 && BalanceOf(w.tokens, token, other) >= 7000
  }

  lemma PartialFill(d: Deployment, w0: World, metadata: Credit, admin: Address, verifier: Address, seller: Address,
                    buyer: Address, other: Address, token: Address, env: Env)
    returns (txs: seq<Tx>)
    requires w0 == Genesis(admin, 1, 1, map[(token, buyer) := 3000, (token, other) := 7000])
    requires ValidMetadata(metadata) && d.market !in {seller, buyer, other}
    requires buyer != seller && buyer != other && {admin, verifier, seller, buyer, other} <= env.auth
    ensures forall i | 0 <= i < |txs| :: txs[i].env == env
    ensures InPart(Run(d, w0, txs), seller, buyer, other, token, env)
  {
    txs := VotedInCredit(d, w0, metadata, admin, verifier, seller, env);
    var w := Run(d, w0, txs);
    var offer, buy := Tx(env, CreateOffer(seller, 1, 10000, 1000, token, None)), Tx(env, BuyCredits(buyer, 1, 300));
    RunSnoc(d, w0, txs, offer);
    RunSnoc(d, w0, txs + [offer], buy);
    SoldInPart(d, w, seller, buyer, other, token, env);
    txs := txs + [offer] + [buy];
  }

  lemma SoldInPart(d: Deployment, w: World, seller: Address, buyer: Address, other: Address, token: Address, env: Env)
    requires w.market == NO_OFFERS && w.tokens == map[(token, buyer) := 3000, (token, other) := 7000]
    requires w.registry.ReadOwner(1) == Ok(seller) && w.registry.HasStatus(1, Active)
    requires d.market !in {seller, buyer, other} && buyer != seller && buyer != other
    requires {seller, buyer, other} <= env.auth
    ensures var listed := Apply(d, w, Tx(env, CreateOffer(seller, 1, 10000, 1000, token, None)));
            InPart(Apply(d, listed, Tx(env, BuyCredits(buyer, 1, 300))), seller, buyer, other, token, env)
  {
    var listed := Apply(d, w, Tx(env, CreateOffer(seller, 1, 10000, 1000, token, None)));
    assert listed.market.offers == map[1 := Offer(seller, 1, 10000, 1000, 0, token, None, env.now, Listed)];
    assert Payment(300, 10000) == 3000;
  }

  lemma SoldAgain(d: Deployment, w: World, seller: Address, buyer: Address, other: Address, token: Address, env: Env)
    requires InPart(w, seller, buyer, other, token, env)
    requires d.market !in {seller, buyer, other} && buyer != seller && buyer != other && {buyer, other} <= env.auth
    ensures var listed := Apply(d, w, Tx(env, CreateOffer(buyer, 1, 10000, 1000, token, None)));
            var w' := Apply(d, listed, Tx(env, BuyCredits(other, 1, 700)));
            && IsListed(w'.market, 2) && w'.market.offers[2].seller == buyer && w'.market.offers[2].creditId == 1
            && w'.registry.ReadOwner(1) == Ok(other) && BalanceOf(w'.tokens, token, buyer) == 0
  {
    var listed := Apply(d, w, Tx(env, CreateOffer(buyer, 1, 10000, 1000, token, None)));
    assert listed.market.offers == w.market.offers[2 := Offer(buyer, 1, 10000, 1000, 0, token, None, env.now, Listed)];
    assert Payment(700, 10000) == 7000;
  }

  /** A run in which the price wraps: four units at 2^126 come to 2^128, which wraps to 0. The
      buyer gets the credit for nothing and the offer is Filled. */
  lemma WrappedPriceCounterexample(d: Deployment, metadata: Credit, admin: Address, verifier: Address, seller: Address,
                                   buyer: Address, token: Address, env: Env)
    returns (txs: seq<Tx>)
    requires ValidMetadata(metadata) && d.market !in {seller, buyer} && {admin, verifier, seller, buyer} <= env.auth
    ensures forall i | 0 <= i < |txs| :: txs[i].env == env
    ensures var w := Run(d, Genesis(admin, 1, 1, map[]), txs);
            && 1 in w.market.offers && w.market.offers[1].status == Filled && w.market.offers[1].price == QUARTER_RANGE
            && w.registry.ReadOwner(w.market.offers[1].creditId) == Ok(buyer)
            && BalanceOf(w.tokens, token, seller) == 0
  {
    var w0 := Genesis(admin, 1, 1, map[]);
    txs := VotedInCredit(d, w0, metadata, admin, verifier, seller, env);
    var w := Run(d, w0, txs);
    var offer := Tx(env, CreateOffer(seller, 1, QUARTER_RANGE, 4, token, None));
    var buy := Tx(env, BuyCredits(buyer, 1, 4));
    RunSnoc(d, w0, txs, offer);
    RunSnoc(d, w0, txs + [offer], buy);
    FreeBuy(d, w, seller, buyer, token, env);
    txs := txs + [offer] + [buy];
  }

  const QUARTER_RANGE: i128 := 0x4000_0000_0000_0000_0000_0000_0000_0000

  lemma FreeBuy(d: Deployment, w: World, seller: Address, buyer: Address, token: Address, env: Env)
    requires w.market == NO_OFFERS && w.tokens == map[]
    requires w.registry.ReadOwner(1) == Ok(seller) && w.registry.HasStatus(1, Active)
    requires d.market !in {seller, buyer} && {seller, buyer} <= env.auth
    ensures var listed := Apply(d, w, Tx(env, CreateOffer(seller, 1, QUARTER_RANGE, 4, token, None)));
            var w' := Apply(d, listed, Tx(env, BuyCredits(buyer, 1, 4)));
            && 1 in w'.market.offers && w'.market.offers[1].status == Filled
            && w'.market.offers[1].price == QUARTER_RANGE
            && w'.market.offers[1].creditId == 1
            && w'.registry.ReadOwner(1) == Ok(buyer) && BalanceOf(w'.tokens, token, seller) == 0
  {
    var listed := Apply(d, w, Tx(env, CreateOffer(seller, 1, QUARTER_RANGE, 4, token, None)));
    assert listed.market.offers == map[1 := Offer(seller, 1, QUARTER_RANGE, 4, 0, token, None, env.now, Listed)];
    assert Payment(4, QUARTER_RANGE) == 0;
  }
}
