/** Verifier staking: collateral held by the contract, slashing, and solvency. */
module Stake {
  import opened Common
  import opened Tokens

  datatype Verifier = Verifier(
    totalStaked: int, reputation: nat, lastHeartbeat: u64, registeredAt: u64)

  /** `u32::saturating_sub` */
  function SaturatingSub(a: nat, b: nat): nat {
    if a >= b then a - b else 0
  }

  /** The records of the listed verifiers that exist, in the order of the list. */
  function RecordsIn(records: map<Address, Verifier>, list: seq<Address>): seq<Verifier> {
    if list == [] then []
    else
      var a := list[|list| - 1];
      RecordsIn(records, list[..|list| - 1]) + (if a in records then [records[a]] else [])
  }

  datatype StakeCall =
    | Register(verifier: Address)
    | AddStake(verifier: Address, amount: int)
    | Slash(admin: Address, verifier: Address, amount: int)
    | Unregister(verifier: Address)
    | TransferToken(token: Address, from: Address, to: Address, amount: int)

  datatype StakeState = StakeState(admin: Address, asset: Address, records: map<Address, Verifier>, list: seq<Address>)
  {
    function ReadVerifier(v: Address): Result<Verifier> {
      if v in records then Ok(records[v]) else Err(VerifierNotFound)
    }

    function Register(self: Address, tokens: Balances, env: Env, v: Address): Result<((StakeState, Balances), bool)> {
      var _ :- env.RequireAuth(v);
      :- Need(v !in records, VerifierAlreadyRegistered);
      var tokens :- Transferred(tokens, env.CallFrom(self), asset, v, self, MIN_STAKE_AMOUNT);
      var record := Verifier(MIN_STAKE_AMOUNT, 100, env.now, env.now);
      Ok(((this.(records := records[v := record], list := list + [v]), tokens), true))
    }

    function AddStake(self: Address, tokens: Balances, env: Env, v: Address, amount: int)
      : Result<((StakeState, Balances), bool)> {
      var _ :- env.RequireAuth(v);
      :- Need(amount > 0, InvalidInput);
      var record :- ReadVerifier(v);
      var tokens :- Transferred(tokens, env.CallFrom(self), asset, v, self, amount);
      :- Need(InI128(record.totalStaked + amount), InvalidInput);
      Ok(((this.(records := records[v := record.(totalStaked := record.totalStaked + amount)]), tokens), true))
    }

    function Slash(env: Env, caller: Address, v: Address, amount: int): Result<(StakeState, bool)> {
      var _ :- env.RequireAuth(caller);
      :- Need(caller == admin, NotAuthorized);
      :- Need(amount > 0, InvalidInput);
      var record :- ReadVerifier(v);
      :- Need(amount <= record.totalStaked, InsufficientStake);
      Ok((this.(records := records[v := record.(totalStaked := record.totalStaked - amount,
                                                reputation := SaturatingSub(record.reputation, 10))]), true))
    }

    function Unregister(self: Address, tokens: Balances, env: Env, v: Address): Result<((StakeState, Balances), bool)> {
      var _ :- env.RequireAuth(v);
      var record :- ReadVerifier(v);
      :- Need(Elapsed(env.now, record.registeredAt) >= COOLDOWN_PERIOD_SECONDS, CooldownActive);
      var tokens :- Transferred(tokens, env.CallFrom(self), asset, self, v, record.totalStaked);
      Ok(((this.(records := records - {v}, list := Without(list, v)), tokens), true))
    }
  }

  /** The contract. */
  class VerifierStake {
    const self: Address
    const tokens: TokenLedger
    const admin: Address
    const asset: Address
    var records: map<Address, Verifier>
    var list: seq<Address>

    function State(): StakeState
      reads this
    {
      StakeState(admin, asset, records, list)
    }

    constructor (self: Address, tokens: TokenLedger, admin: Address, asset: Address)
      ensures State() == StakeState(admin, asset, map[], []) && this.self == self && this.tokens == tokens
    {
      this.self, this.tokens, this.admin, this.asset := self, tokens, admin, asset;
      records, list := map[], [];
    }

    method Restore(s: StakeState)
      requires s.admin == admin && s.asset == asset
      modifies this
      ensures State() == s
    {
      records, list := s.records, s.list;
    }

    method Register(env: Env, v: Address) returns (r: Result<bool>)
      modifies this, tokens
      ensures Commits(r, (State(), tokens.balances), old(State()).Register(self, old(tokens.balances), env, v))
    {
      var _ :- env.RequireAuth(v);
      :- Need(v !in records, VerifierAlreadyRegistered);
      var _ :- tokens.Transfer(env.CallFrom(self), asset, v, self, MIN_STAKE_AMOUNT);
      records := records[v := Verifier(MIN_STAKE_AMOUNT, 100, env.now, env.now)];
      list := list + [v];
      return Ok(true);
    }

    method AddStake(env: Env, v: Address, amount: int) returns (r: Result<bool>)
      modifies this, tokens
      ensures Commits(r, (State(), tokens.balances), old(State()).AddStake(self, old(tokens.balances), env, v, amount))
    {
      var _ :- env.RequireAuth(v);
      :- Need(amount > 0, InvalidInput);
      var record :- State().ReadVerifier(v);
      var _ :- tokens.Transfer(env.CallFrom(self), asset, v, self, amount);
      :- Need(InI128(record.totalStaked + amount), InvalidInput);
      records := records[v := record.(totalStaked := record.totalStaked + amount)];
      return Ok(true);
    }

    method Slash(env: Env, caller: Address, v: Address, amount: int) returns (r: Result<bool>)
      modifies this
      ensures Commits(r, State(), old(State()).Slash(env, caller, v, amount))
    {
      var _ :- env.RequireAuth(caller);
      :- Need(caller == admin, NotAuthorized);
      :- Need(amount > 0, InvalidInput);
      var record :- State().ReadVerifier(v);
      :- Need(amount <= record.totalStaked, InsufficientStake);
      record := record.(totalStaked := record.totalStaked - amount);
      record := record.(reputation := SaturatingSub(record.reputation, 10));
      records := records[v := record];
      return Ok(true);
    }

    method Unregister(env: Env, v: Address) returns (r: Result<bool>)
      modifies this, tokens
      ensures Commits(r, (State(), tokens.balances), old(State()).Unregister(self, old(tokens.balances), env, v))
    {
      var _ :- env.RequireAuth(v);
      var record :- State().ReadVerifier(v);
      var elapsed := Elapsed(env.now, record.registeredAt);
      :- Need(elapsed >= COOLDOWN_PERIOD_SECONDS, CooldownActive);
      var _ :- tokens.Transfer(env.CallFrom(self), asset, self, v, record.totalStaked);
      records := records - {v};
      var remaining: seq<Address> := [];
      for i := 0 to |list|
        invariant remaining == Without(list[..i], v)
      {
        assert list[..i + 1][..i] == list[..i];
        if list[i] != v {
          remaining := remaining + [list[i]];
        }
      }
      assert list[..|list|] == list;
      list := remaining;
      return Ok(true);
    }

    method AllVerifiers() returns (result: seq<Verifier>)
      ensures result == RecordsIn(records, list)
    {
      result := [];
      for i := 0 to |list|
        invariant result == RecordsIn(records, list[..i])
      {
        assert list[..i + 1][..i] == list[..i];
        if list[i] in records {
          result := result + [records[list[i]]];
        }
      }
      assert list[..|list|] == list;
    }
  }

  // ---------- Runs ----------

  datatype StakeWorld = StakeWorld(stake: StakeState, tokens: Balances)
  datatype StakeTx = StakeTx(env: Env, call: StakeCall)

  function Step(self: Address, w: StakeWorld, tx: StakeTx): Result<(StakeWorld, ())> {
    match tx.call
    case Register(v) =>
      var ((s, t), _) :- w.stake.Register(self, w.tokens, tx.env, v); Ok((StakeWorld(s, t), ()))
    case AddStake(v, amount) =>
      var ((s, t), _) :- w.stake.AddStake(self, w.tokens, tx.env, v, amount); Ok((StakeWorld(s, t), ()))
    case Slash(admin, v, amount) =>
      var (s, _) :- w.stake.Slash(tx.env, admin, v, amount); Ok((w.(stake := s), ()))
    case Unregister(v) =>
      var ((s, t), _) :- w.stake.Unregister(self, w.tokens, tx.env, v); Ok((StakeWorld(s, t), ()))
    case TransferToken(token, from, to, amount) =>
      var t :- Transferred(w.tokens, tx.env, token, from, to, amount); Ok((w.(tokens := t), ()))
  }

  function Apply(self: Address, w: StakeWorld, tx: StakeTx): StakeWorld {
    match Step(self, w, tx)
    case Ok((w', _)) => w'
    case Err(_) => w
  }

  function Run(self: Address, w: StakeWorld, txs: seq<StakeTx>): StakeWorld {
    if txs == [] then w else Apply(self, Run(self, w, txs[..|txs| - 1]), txs[|txs| - 1])
  }

  // ---------- Solvency ----------

  /** The host with the contract and the tokens it holds. */
  class StakeHost {
    const staking: VerifierStake
    const tokens: TokenLedger

    ghost predicate Valid() { staking.tokens == tokens }

    function State(): StakeWorld
      reads staking, tokens
    {
      StakeWorld(staking.State(), tokens.balances)
    }

    constructor (self: Address, admin: Address, asset: Address, balances: Balances)
      ensures Valid() && staking.self == self
      ensures State() == StakeWorld(StakeState(admin, asset, map[], []), balances)
    {
      var t := new TokenLedger(balances);
      tokens := t;
      staking := new VerifierStake(self, t, admin, asset);
    }

    /** Runs one transaction. A failed one, such as a stake whose sum overflows after the
        transfer, leaves nothing behind. */
    method Invoke(tx: StakeTx) returns (r: Result<()>)
      requires Valid()
      modifies staking, tokens
      ensures State() == Apply(staking.self, old(State()), tx)
      ensures r == match Step(staking.self, old(State()), tx) case Ok(_) => Ok(()) case Err(e) => Err(e)
    {
      var saved := State();
      r := Dispatch(tx);
      if r.Err? {
        staking.Restore(saved.stake);
        tokens.balances := saved.tokens;
      }
    }

    method Dispatch(tx: StakeTx) returns (r: Result<()>)
      requires Valid()
      modifies staking, tokens
      ensures Commits(r, State(), Step(staking.self, old(State()), tx))
    {
      match tx.call {
        case Register(v) =>
          var _ :- staking.Register(tx.env, v);
        case AddStake(v, amount) =>
          var _ :- staking.AddStake(tx.env, v, amount);
        case Slash(admin, v, amount) =>
          var _ :- staking.Slash(tx.env, admin, v, amount);
        case Unregister(v) =>
          var _ :- staking.Unregister(tx.env, v);
        case TransferToken(token, from, to, amount) =>
          var _ :- tokens.Transfer(tx.env, token, from, to, amount);
      }
      return Ok(());
    }
  }

  /** The sum of the stakes of the listed verifiers. */
  function TotalStaked(records: map<Address, Verifier>, list: seq<Address>): int {
    if list == [] then 0
    else
      var a := list[|list| - 1];
      TotalStaked(records, list[..|list| - 1]) + (if a in records then records[a].totalStaked else 0)
  }

  /** What the contract holds beyond what it owes: slashed stakes and outside deposits. */
  function Surplus(self: Address, w: StakeWorld): int {
    BalanceOf(w.tokens, w.stake.asset, self) - TotalStaked(w.stake.records, w.stake.list)
  }

  /** The list names every registered verifier once and nobody else; stakes are not
      negative; the contract can pay all of them back. */
  ghost predicate StakeInv(self: Address, w: StakeWorld) {
    && Distinct(w.stake.list)
    && (forall a :: a in w.stake.list <==> a in w.stake.records)
    && (forall a | a in w.stake.records :: w.stake.records[a].totalStaked >= 0)
    && Surplus(self, w) >= 0
  }

  lemma {:induction false} TotalFrame(r: map<Address, Verifier>, r': map<Address, Verifier>, list: seq<Address>)
    requires forall i | 0 <= i < |list| ::
               (list[i] in r <==> list[i] in r') && (list[i] in r ==> r[list[i]].totalStaked == r'[list[i]].totalStaked)
    ensures TotalStaked(r, list) == TotalStaked(r', list)
  {
    if list != [] {
      TotalFrame(r, r', list[..|list| - 1]);
    }
  }

  lemma {:induction false} TotalUpdate(r: map<Address, Verifier>, list: seq<Address>, a: Address, v: Verifier)
    requires Distinct(list) && a in list && a in r
    ensures TotalStaked(r[a := v], list) == TotalStaked(r, list) - r[a].totalStaked + v.totalStaked
  {
    var front, last := list[..|list| - 1], list[|list| - 1];
    if last == a {
      TotalFrame(r, r[a := v], front);
    } else {
      TotalUpdate(r, front, a, v);
    }
  }

  lemma {:induction false} TotalRemove(r: map<Address, Verifier>, list: seq<Address>, a: Address)
    requires Distinct(list) && (forall i | 0 <= i < |list| :: list[i] in r)
    ensures TotalStaked(r - {a}, Without(list, a)) == TotalStaked(r, list) - (if a in list then r[a].totalStaked else 0)
  {
    if list != [] {
      var front, last := list[..|list| - 1], list[|list| - 1];
      TotalRemove(r, front, a);
      assert list == front + [last] && last !in front;
      if last == a {
        assert Without(list, a) == Without(front, a);
      } else {
        TotalSnoc(r - {a}, Without(front, a), last);
      }
    }
  }

  lemma TotalSnoc(r: map<Address, Verifier>, list: seq<Address>, a: Address)
    ensures TotalStaked(r, list + [a]) == TotalStaked(r, list) + (if a in r then r[a].totalStaked else 0)
  {
    assert (list + [a])[..|list|] == list;
  }

  /** One transaction signed by anyone but the contract keeps the invariant and never
      shrinks the surplus. */
  lemma TxKeepsStake(self: Address, w: StakeWorld, tx: StakeTx)
    requires StakeInv(self, w) && self !in tx.env.auth
    ensures StakeInv(self, Apply(self, w, tx)) && Surplus(self, Apply(self, w, tx)) >= Surplus(self, w)
    ensures Apply(self, w, tx).stake.asset == w.stake.asset
  {
    if Step(self, w, tx).Ok? {
      match tx.call {
        case Register(v) => RegisterKeeps(self, w, tx.env, v);
        case AddStake(v, amount) => AddStakeKeeps(self, w, tx.env, v, amount);
        case Slash(admin, v, amount) =>
          var record := w.stake.records[v];
          TotalUpdate(w.stake.records, w.stake.list, v, Apply(self, w, tx).stake.records[v]);
        case Unregister(v) => UnregisterKeeps(self, w, tx.env, v);
        case TransferToken(token, from, to, amount) =>
          TransferMoves(w.tokens, tx.env, token, from, to, amount, Apply(self, w, tx).tokens);
      }
    }
  }

  lemma DistinctAppend(list: seq<Address>, v: Address)
    requires Distinct(list) && v !in list
    ensures Distinct(list + [v])
    ensures forall a :: a in list + [v] <==> a in list || a == v
  {
  }

  lemma TotalAppend(r: map<Address, Verifier>, list: seq<Address>, a: Address, v: Verifier)
    requires a !in list
    ensures TotalStaked(r[a := v], list + [a]) == TotalStaked(r, list) + v.totalStaked
  {
    assert (list + [a])[..|list|] == list;
    TotalFrame(r, r[a := v], list);
  }

  lemma NewRecordKeeps(self: Address, w: StakeWorld, v: Address, record: Verifier, tokens: Balances)
    requires StakeInv(self, w) && v !in w.stake.records && record.totalStaked >= 0
    requires BalanceOf(tokens, w.stake.asset, self) == BalanceOf(w.tokens, w.stake.asset, self) + record.totalStaked
    ensures var w' := StakeWorld(w.stake.(records := w.stake.records[v := record], list := w.stake.list + [v]), tokens);
            StakeInv(self, w') && Surplus(self, w') == Surplus(self, w)
  {
    DistinctAppend(w.stake.list, v);
    TotalAppend(w.stake.records, w.stake.list, v, record);
  }

  lemma RegisterKeeps(self: Address, w: StakeWorld, env: Env, v: Address)
    requires StakeInv(self, w) && v != self && w.stake.Register(self, w.tokens, env, v).Ok?
    ensures var (s, t) := w.stake.Register(self, w.tokens, env, v).value.0;
            StakeInv(self, StakeWorld(s, t)) && Surplus(self, StakeWorld(s, t)) == Surplus(self, w)
  {
    var (s, t) := w.stake.Register(self, w.tokens, env, v).value.0;
    TransferMoves(w.tokens, env.CallFrom(self), w.stake.asset, v, self, MIN_STAKE_AMOUNT, t);
    NewRecordKeeps(self, w, v, Verifier(MIN_STAKE_AMOUNT, 100, env.now, env.now), t);
  }

  lemma AddStakeKeeps(self: Address, w: StakeWorld, env: Env, v: Address, amount: int)
    requires StakeInv(self, w) && v != self && w.stake.AddStake(self, w.tokens, env, v, amount).Ok?
    ensures var (s, t) := w.stake.AddStake(self, w.tokens, env, v, amount).value.0;
            StakeInv(self, StakeWorld(s, t)) && Surplus(self, StakeWorld(s, t)) == Surplus(self, w)
  {
    var (s, t) := w.stake.AddStake(self, w.tokens, env, v, amount).value.0;
    TransferMoves(w.tokens, env.CallFrom(self), w.stake.asset, v, self, amount, t);
    TotalUpdate(w.stake.records, w.stake.list, v, s.records[v]);
  }

  lemma UnregisterKeeps(self: Address, w: StakeWorld, env: Env, v: Address)
    requires StakeInv(self, w) && v != self && w.stake.Unregister(self, w.tokens, env, v).Ok?
    ensures var (s, t) := w.stake.Unregister(self, w.tokens, env, v).value.0;
            StakeInv(self, StakeWorld(s, t)) && Surplus(self, StakeWorld(s, t)) == Surplus(self, w)
  {
    var (s, t) := w.stake.Unregister(self, w.tokens, env, v).value.0;
    TransferMoves(w.tokens, env.CallFrom(self), w.stake.asset, self, v, w.stake.records[v].totalStaked, t);
    RemovedRecordKeeps(self, w, v, t);
  }

  lemma RemovedRecordKeeps(self: Address, w: StakeWorld, v: Address, tokens: Balances)
    requires StakeInv(self, w) && v in w.stake.records
    requires BalanceOf(tokens, w.stake.asset, self)
             == BalanceOf(w.tokens, w.stake.asset, self) - w.stake.records[v].totalStaked
    ensures var w' := StakeWorld(w.stake.(records := w.stake.records - {v}, list := Without(w.stake.list, v)), tokens);
            StakeInv(self, w') && Surplus(self, w') == Surplus(self, w)
  {
    WithoutKeepsDistinct(w.stake.list, v);
    TotalRemove(w.stake.records, w.stake.list, v);
  }

  /** In every run not signed by the contract itself, the contract stays solvent: its balance
      minus all stakes is never negative and never decreases. */
  lemma {:induction false} AlwaysSolvent(self: Address, w: StakeWorld, txs: seq<StakeTx>)
    requires StakeInv(self, w) && forall i | 0 <= i < |txs| :: self !in txs[i].env.auth
    ensures StakeInv(self, Run(self, w, txs)) && Surplus(self, Run(self, w, txs)) >= Surplus(self, w)
    decreases |txs|
  {
    if txs != [] {
      AlwaysSolvent(self, w, txs[..|txs| - 1]);
      TxKeepsStake(self, Run(self, w, txs[..|txs| - 1]), txs[|txs| - 1]);
    }
  }

  lemma {:induction false} StakeIsPartOfTotal(r: map<Address, Verifier>, list: seq<Address>, a: Address)
    requires a in list && a in r && Distinct(list)
    requires forall x | x in r :: r[x].totalStaked >= 0
    ensures r[a].totalStaked <= TotalStaked(r, list)
  {
    TotalUpdate(r, list, a, r[a].(totalStaked := 0));
    TotalNonNegative(r[a := r[a].(totalStaked := 0)], list);
  }

  lemma {:induction false} TotalNonNegative(r: map<Address, Verifier>, list: seq<Address>)
    requires forall x | x in r :: r[x].totalStaked >= 0
    ensures TotalStaked(r, list) >= 0
  {
    if list != [] {
      TotalNonNegative(r, list[..|list| - 1]);
    }
  }

  /** A registered verifier past the cooldown always gets its whole stake back. */
  lemma UnregisterNeverLacksFunds(self: Address, w: StakeWorld, env: Env, v: Address)
    requires StakeInv(self, w) && v in w.stake.records && v in env.auth && v != self
    requires env.now >= w.stake.records[v].registeredAt + COOLDOWN_PERIOD_SECONDS
    ensures w.stake.Unregister(self, w.tokens, env, v).Ok?
    ensures var (s, t) := w.stake.Unregister(self, w.tokens, env, v).value.0;
            && v !in s.records && v !in s.list
            && BalanceOf(t, w.stake.asset, v) == BalanceOf(w.tokens, w.stake.asset, v) + w.stake.records[v].totalStaked
  {
    StakeIsPartOfTotal(w.stake.records, w.stake.list, v);
    WithoutKeepsDistinct(w.stake.list, v);
  }

  /** `get_all_verifiers` returns every registered verifier's record, once each. */
  lemma {:induction false} AllRecordsReturned(records: map<Address, Verifier>, list: seq<Address>)
    requires forall i | 0 <= i < |list| :: list[i] in records
    ensures |RecordsIn(records, list)| == |list|
    ensures forall i | 0 <= i < |list| :: RecordsIn(records, list)[i] == records[list[i]]
  {
    if list != [] {
      AllRecordsReturned(records, list[..|list| - 1]);
    }
  }

  lemma InitialStake(self: Address, admin: Address, asset: Address, tokens: Balances)
    requires BalanceOf(tokens, asset, self) >= 0
    ensures StakeInv(self, StakeWorld(StakeState(admin, asset, map[], []), tokens))
  {
  }

  // ---------- When each call commits, and what it leaves behind ----------

  ghost predicate OtherStakersKept(s: StakeState, s': StakeState, v: Address) {
    && s'.admin == s.admin && s'.asset == s.asset
    && forall a | a != v :: s'.ReadVerifier(a) == s.ReadVerifier(a)
  }

  /** Balances before and after `amount` of `token` went from `from` to `to`. */
  ghost predicate Moved(b: Balances, b': Balances, token: Address, from: Address, to: Address, amount: int) {
    forall t, h :: BalanceOf(b', t, h) == BalanceOf(b, t, h)
                   + (if (t, h) == (token, to) then amount else 0) - (if (t, h) == (token, from) then amount else 0)
  }

  /** `register` commits if and only if the verifier signed it, has no record, and holds the
      minimum stake of 100 tokens, which it pays. It starts with reputation 100, last in the
      list. */
  lemma RegisterOutcome(self: Address, w: StakeWorld, env: Env, v: Address)
    ensures Step(self, w, StakeTx(env, Register(v))).Ok? <==>
              v in env.auth && v !in w.stake.records && BalanceOf(w.tokens, w.stake.asset, v) >= 1_000_000_000
    ensures Step(self, w, StakeTx(env, Register(v))).Ok? ==>
              var w' := Apply(self, w, StakeTx(env, Register(v)));
              && w'.stake.ReadVerifier(v) == Ok(Verifier(1_000_000_000, 100, env.now, env.now))
              && w'.stake.list == w.stake.list + [v] && OtherStakersKept(w.stake, w'.stake, v)
              && Moved(w.tokens, w'.tokens, w.stake.asset, v, self, 1_000_000_000)
  {
  }

  /** `stake` commits if and only if the verifier signed it, is registered, and holds the
      positive amount, and the sum fits an i128. It adds exactly the amount. */
  lemma AddStakeOutcome(self: Address, w: StakeWorld, env: Env, v: Address, amount: int)
    ensures Step(self, w, StakeTx(env, AddStake(v, amount))).Ok? <==>
              && v in env.auth && amount > 0 && v in w.stake.records
              && BalanceOf(w.tokens, w.stake.asset, v) >= amount && InI128(w.stake.records[v].totalStaked + amount)
    ensures Step(self, w, StakeTx(env, AddStake(v, amount))).Ok? ==>
              var w', r := Apply(self, w, StakeTx(env, AddStake(v, amount))), w.stake.records[v];
              && w'.stake.ReadVerifier(v)
                 == Ok(Verifier(r.totalStaked + amount, r.reputation, r.lastHeartbeat, r.registeredAt))
              && w'.stake.list == w.stake.list && OtherStakersKept(w.stake, w'.stake, v)
              && Moved(w.tokens, w'.tokens, w.stake.asset, v, self, amount)
  {
  }

  /** `slash` commits if and only if the stored admin signed it and the positive amount is at most
      the stake. It takes exactly the amount and ten points of reputation, down to zero, and
      moves no token. */
  lemma SlashOutcome(self: Address, w: StakeWorld, env: Env, caller: Address, v: Address, amount: int)
    ensures Step(self, w, StakeTx(env, Slash(caller, v, amount))).Ok? <==>
              && caller in env.auth && caller == w.stake.admin && amount > 0
              && v in w.stake.records && amount <= w.stake.records[v].totalStaked
    ensures Step(self, w, StakeTx(env, Slash(caller, v, amount))).Ok? ==>
              var w', r := Apply(self, w, StakeTx(env, Slash(caller, v, amount))), w.stake.records[v];
              && w'.stake.ReadVerifier(v)
                 == Ok(Verifier(r.totalStaked - amount, if r.reputation > 10 then r.reputation - 10 else 0,
                                r.lastHeartbeat, r.registeredAt))
              && w'.stake.list == w.stake.list && OtherStakersKept(w.stake, w'.stake, v) && w'.tokens == w.tokens
  {
  }

  /** `unregister` commits if and only if the verifier signed it, is registered, 30 days have
      passed since, and the contract holds the stake. It returns exactly the stake and forgets
      the verifier. */
  lemma UnregisterOutcome(self: Address, w: StakeWorld, env: Env, v: Address)
    requires v in w.stake.records ==> env.now >= w.stake.records[v].registeredAt
    ensures Step(self, w, StakeTx(env, Unregister(v))).Ok? <==>
              && v in env.auth && v in w.stake.records && env.now - w.stake.records[v].registeredAt >= 2_592_000
              && w.stake.records[v].totalStaked >= 0
              && BalanceOf(w.tokens, w.stake.asset, self) >= w.stake.records[v].totalStaked
    ensures Step(self, w, StakeTx(env, Unregister(v))).Ok? && Distinct(w.stake.list) ==>
              var w' := Apply(self, w, StakeTx(env, Unregister(v)));
              && w'.stake.ReadVerifier(v).Err? && OtherStakersKept(w.stake, w'.stake, v)
              && (forall a :: a in w'.stake.list <==> a in w.stake.list && a != v) && Distinct(w'.stake.list)
              && Moved(w.tokens, w'.tokens, w.stake.asset, self, v, w.stake.records[v].totalStaked)
  {
    if Distinct(w.stake.list) {
      WithoutKeepsDistinct(w.stake.list, v);
    }
  }

  function StakeFault(self: Address, w: StakeWorld, env: Env, call: StakeCall): Option<Error> {
    var records := w.stake.records;
    match call
    case Register(v) =>
      First(v !in env.auth, HostAuth,
      First(v in records, VerifierAlreadyRegistered,
      First(BalanceOf(w.tokens, w.stake.asset, v) < 1_000_000_000, HostTransfer, None)))
    case AddStake(v, amount) =>
      First(v !in env.auth, HostAuth,
      First(amount <= 0, InvalidInput,
            if v !in records then Some(VerifierNotFound)
            else
              First(BalanceOf(w.tokens, w.stake.asset, v) < amount, HostTransfer,
              First(!InI128(records[v].totalStaked + amount), InvalidInput, None))))
    case Slash(caller, v, amount) =>
      First(caller !in env.auth, HostAuth,
      First(caller != w.stake.admin, NotAuthorized,
      First(amount <= 0, InvalidInput,
            if v !in records then Some(VerifierNotFound)
            else First(amount > records[v].totalStaked, InsufficientStake, None))))
    case Unregister(v) =>
      First(v !in env.auth, HostAuth,
            if v !in records then Some(VerifierNotFound)
            else
              First(0 <= env.now - records[v].registeredAt < 2_592_000, CooldownActive,
              First(records[v].totalStaked < 0
                    || BalanceOf(w.tokens, w.stake.asset, self) < records[v].totalStaked, HostTransfer, None)))
    case TransferToken(token, from, _, amount) =>
      First(from !in env.auth, HostAuth,
      First(amount < 0 || BalanceOf(w.tokens, token, from) < amount, HostTransfer, None))
  }

  /** A transaction fails with the first of its faults, and succeeds without any, if the clock
      has not gone back since the registration. */
  lemma StakeRefusals(self: Address, w: StakeWorld, tx: StakeTx)
    requires tx.call.Unregister? && tx.call.verifier in w.stake.records ==>
               tx.env.now >= w.stake.records[tx.call.verifier].registeredAt
    ensures Refused(Step(self, w, tx)) == StakeFault(self, w, tx.env, tx.call)
  {
  }
}
