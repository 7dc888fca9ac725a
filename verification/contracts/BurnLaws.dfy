/** No double counting: a credit is retired once, through the tracker or through the
    bridge, and its record names its owner for ever. */
module BurnLaws {
  import opened Common
  import opened Registry
  import opened RegistryLaws
  import opened Tracker
  import opened Bridge
  import opened World
  import opened WorldLaws

  // ---------- Who may act ----------

  /** The contracts' own addresses sign nothing: only their code acts for them. */
  predicate SignedByUsers(d: Deployment, tx: Tx) {
    d.market !in tx.env.auth && d.tracker !in tx.env.auth && d.bridge !in tx.env.auth
  }

  /** The admin authorizes no retirer but the tracker and the bridge. */
  predicate RetirersTrusted(d: Deployment, tx: Tx) {
    tx.call.Direct? && tx.call.registryCall.AddRetirer? ==> tx.call.registryCall.retirer in {d.tracker, d.bridge}
  }

  ghost predicate OnlyTrustedRetirers(d: Deployment, s: RegistryState) {
    s.retirers <= {d.tracker, d.bridge}
  }

  // ---------- The invariant ----------

  function RetiredIds(s: RegistryState): set<nat> {
    set id | id in s.credits && s.credits[id].status == Retired
  }

  function ExportedIds(exports: seq<Export>): set<nat> {
    set i | 0 <= i < |exports| :: exports[i].creditId
  }

  ghost predicate ExportsDistinct(exports: seq<Export>) {
    forall i, j | 0 <= i < j < |exports| :: exports[i].creditId != exports[j].creditId
  }

  /** A credit is Retired exactly if it has one tracker record or one bridge-out, never
      both and never two; and whoever retired it is still its registered owner. */
  ghost predicate CountedOnce(w: World) {
    && RetiredIds(w.registry) == w.tracker.records.Keys + ExportedIds(w.bridge.exports)
    && w.tracker.records.Keys !! ExportedIds(w.bridge.exports)
    && ExportsDistinct(w.bridge.exports)
    && (forall id | id in w.tracker.records ::
          && w.tracker.records[id].creditId == id
          && w.registry.ReadOwner(id) == Ok(w.tracker.records[id].retiredBy))
    && (forall i | 0 <= i < |w.bridge.exports| ::
          w.registry.ReadOwner(w.bridge.exports[i].creditId) == Ok(w.bridge.exports[i].owner))
  }

  ghost predicate BurnInv(d: Deployment, w: World) {
    && RegistryInv(w.registry) && IndexInv(w.registry)
    && OnlyTrustedRetirers(d, w.registry) && CountedOnce(w)
  }

  // ---------- What the registry calls do to retirement ----------

  /** No registry call but `mark_retired` changes which credits are retired, or who owns a
      retired credit. */
  lemma OnlyMarkRetiredRetires(s: RegistryState, tx: RegistryTx)
    requires RegistryInv(s) && IndexInv(s) && !tx.call.MarkRetired?
    ensures RetiredIds(Commit(s, tx)) == RetiredIds(s)
    ensures forall id | id in RetiredIds(s) :: Commit(s, tx).ReadOwner(id) == s.ReadOwner(id)
  {
    StepKeepsInv(s, tx);
    var s' := Commit(s, tx);
    forall id: nat | id in s.credits ensures id in RetiredIds(s') <==> id in RetiredIds(s) {
      assert CreditEvolves(s, s', id);
      if s.credits[id].status != Retired { NoOtherCallRetires(s, tx, id); }
    }
    forall id: nat | id in s'.credits && id !in s.credits ensures id !in RetiredIds(s') {
      NoOtherCallRetires(s, tx, id);
    }
  }

  /** A credit that is not retired, or does not exist yet, is not retired by the call. */
  lemma NoOtherCallRetires(s: RegistryState, tx: RegistryTx, id: nat)
    requires !tx.call.MarkRetired? && !s.HasStatus(id, Retired)
    ensures !Commit(s, tx).HasStatus(id, Retired)
  {
    if IsAdminCall(tx.call) {
      AdminEffect(s, tx);
    } else if s.Perform(tx.env, tx.call).Ok? {
      match tx.call {
        case ApproveAndMint(v, k, text) => VoteNeverRetires(s, tx.env, v, k, text, true, id);
        case RejectCredit(v, k, text) => VoteNeverRetires(s, tx.env, v, k, text, false, id);
        case TransferCredit(_, _, _) =>
        case SubmitCredit(_, _, _) =>
        case MintBridged(_, _, _) =>
      }
    }
  }

  lemma VoteNeverRetires(s: RegistryState, env: Env, verifier: Address, k: nat, text: string, approve: bool, id: nat)
    requires var r := CastVote(s, env, verifier, k, text, approve);
             r.Ok? && !s.HasStatus(id, Retired)
    ensures var r := CastVote(s, env, verifier, k, text, approve);
            !r.value.0.HasStatus(id, Retired)
  {
    var r := CastVote(s, env, verifier, k, text, approve);
    var (s', b) := r.value;
    VoteShape(s, env, verifier, k, text, approve, s', b);
    RecordedNotRetired(s, k, Vote(verifier, approve, env.now, text), s'.credits[k].status, s'.credits[k].tokenId, id);
  }

  lemma RecordedNotRetired(s: RegistryState, k: nat, v: Vote, status: CreditStatus, token: TokenId, id: nat)
    requires k in s.credits && status != Retired && !s.HasStatus(id, Retired)
    ensures !Recorded(s, k, v, status, token).HasStatus(id, Retired)
  {
  }

  lemma MarkRetiredEffect(s: RegistryState, env: Env, caller: Address, id: nat, s': RegistryState)
    requires s.MarkRetired(env, caller, id) == Ok((s', ()))
    ensures id !in RetiredIds(s) && RetiredIds(s') == RetiredIds(s) + {id} && s'.owners == s.owners
    ensures s'.retirers == s.retirers
  {
  }

  /** Only the calls that add or remove retirers change the list. */
  lemma RetirersChange(s: RegistryState, tx: RegistryTx)
    ensures Commit(s, tx).retirers <= s.retirers + (if tx.call.AddRetirer? then {tx.call.retirer} else {})
  {
    if IsAdminCall(tx.call) {
      match tx.call {
        case UpdateConfig(_, _, _, _, _, _) =>
        case AddVerifier(_, _) =>
        case RemoveVerifier(_, _) =>
        case AddBridge(_, _) =>
        case RemoveBridge(_, _) =>
        case AddRetirer(_, _) =>
        case RemoveRetirer(_, _) =>
      }
    } else {
      match tx.call {
        case ApproveAndMint(_, _, _) =>
        case RejectCredit(_, _, _) =>
        case TransferCredit(_, _, _) =>
        case MarkRetired(_, _) =>
        case SubmitCredit(_, _, _) =>
        case MintBridged(_, _, _) =>
      }
    }
  }

  // ---------- One transaction ----------

  /** Anything but a retirement or a bridge-out. */
  lemma OtherTxKeepsBurn(d: Deployment, w: World, tx: Tx)
    requires BurnInv(d, w) && SignedByUsers(d, tx) && RetirersTrusted(d, tx)
    requires !tx.call.Retire? && !tx.call.BatchRetire? && !tx.call.BridgeOut?
    ensures BurnInv(d, Apply(d, w, tx))
  {
    RegistryOverRuns(d, w, [tx]);
    assert [tx][..0] == [] && Run(d, w, [tx]) == Apply(d, w, tx);
    OpsExplainRegistry(d, w, tx);
    var ops, w' := RegistryOps(d, w, tx), Apply(d, w, tx);
    OtherTxFrame(d, w, tx);
    if ops != [] {
      var op := ops[0];
      OneOp(w.registry, op);
      assert ops == [op];
      RetirersChange(w.registry, op);
      assert op in ops;
      OnlyMarkRetiredRetires(w.registry, op);
    }
  }

  /** Other transactions make at most one registry call, no successful `mark_retired`, and
      leave the records and the bridge-outs alone. */
  lemma OtherTxFrame(d: Deployment, w: World, tx: Tx)
    requires OnlyTrustedRetirers(d, w.registry) && SignedByUsers(d, tx) && RetirersTrusted(d, tx)
    requires !tx.call.Retire? && !tx.call.BatchRetire? && !tx.call.BridgeOut?
    ensures Apply(d, w, tx).tracker == w.tracker && Apply(d, w, tx).bridge.exports == w.bridge.exports
    ensures |RegistryOps(d, w, tx)| <= 1
    ensures forall op | op in RegistryOps(d, w, tx) ::
              && !op.call.MarkRetired?
              && (op.call.AddRetirer? ==> op.call.retirer in {d.tracker, d.bridge})
  {
  }

  /** A committed `mark_retired` by a contract keeps the registry's own invariants. */
  lemma MarkKeepsRegistry(s: RegistryState, env: Env, caller: Address, id: nat, s': RegistryState)
    requires RegistryInv(s) && IndexInv(s) && s.MarkRetired(env, caller, id) == Ok((s', ()))
    ensures RegistryInv(s') && IndexInv(s')
  {
    var op := RegistryTx(env, MarkRetired(caller, id));
    assert s' == Commit(s, op);
    StepKeepsInv(s, op);
    StepKeepsIndex(s, op);
  }

  lemma RetireKeepsBurn(d: Deployment, w: World, env: Env, owner: Address, input: RetireInput, t: TrackerState,
                        r: RegistryState, record: Record)
    requires BurnInv(d, w) && w.tracker.Retire(d.tracker, w.registry, env, owner, input) == Ok(((t, r), record))
    ensures BurnInv(d, w.(tracker := t, registry := r))
  {
    RetireEffect(w.tracker, d.tracker, w.registry, env, owner, input, t, r, record);
    RecordKeepsBurn(d, w, env.CallFrom(d.tracker), owner, input.creditId, t, r);
  }

  /** What a committed `retire` did in the two contracts. */
  lemma RetireEffect(t: TrackerState, self: Address, s: RegistryState, env: Env, owner: Address, input: RetireInput,
                     t': TrackerState, s': RegistryState, record: Record)
    requires t.Retire(self, s, env, owner, input) == Ok(((t', s'), record))
    ensures s.MarkRetired(env.CallFrom(self), self, input.creditId) == Ok((s', ()))
    ensures s.ReadOwner(input.creditId) == Ok(owner) && input.creditId !in t.records
    ensures t'.records == t.records[input.creditId := record] && record.creditId == input.creditId
            && record.retiredBy == owner
  {
  }

  lemma RecordKeepsBurn(d: Deployment, w: World, env: Env, owner: Address, id: nat, t: TrackerState, r: RegistryState)
    requires BurnInv(d, w) && w.registry.MarkRetired(env, d.tracker, id) == Ok((r, ()))
    requires w.registry.ReadOwner(id) == Ok(owner) && id !in w.tracker.records
    requires id in t.records && t.records == w.tracker.records[id := t.records[id]]
    requires t.records[id].creditId == id && t.records[id].retiredBy == owner
    ensures BurnInv(d, w.(tracker := t, registry := r))
  {
    MarkKeepsRegistry(w.registry, env, d.tracker, id, r);
    MarkRetiredEffect(w.registry, env, d.tracker, id, r);
    RecordIsCounted(w, owner, id, t, r);
  }

  lemma RecordIsCounted(w: World, owner: Address, id: nat, t: TrackerState, r: RegistryState)
    requires CountedOnce(w) && id !in w.tracker.records && id !in RetiredIds(w.registry)
    requires RetiredIds(r) == RetiredIds(w.registry) + {id} && r.owners == w.registry.owners
    requires r.ReadOwner(id) == Ok(owner)
    requires id in t.records && t.records == w.tracker.records[id := t.records[id]]
    requires t.records[id].creditId == id && t.records[id].retiredBy == owner
    ensures CountedOnce(w.(tracker := t, registry := r))
  {
  }

  lemma {:induction false} RetireEachKeepsBurn(d: Deployment, w: World, env: Env, owner: Address,
                                               inputs: seq<RetireInput>)
    requires BurnInv(d, w) && w.tracker.RetireEach(d.tracker, w.registry, env, owner, inputs).Ok?
    ensures var (t, r) := w.tracker.RetireEach(d.tracker, w.registry, env, owner, inputs).value.0;
            BurnInv(d, w.(tracker := t, registry := r))
    decreases |inputs|
  {
    if inputs != [] {
      var n := |inputs| - 1;
      RetireEachKeepsBurn(d, w, env, owner, inputs[..n]);
      var (t, r) := w.tracker.RetireEach(d.tracker, w.registry, env, owner, inputs[..n]).value.0;
      var ((t', r'), record) := t.Retire(d.tracker, r, env, owner, inputs[n]).value;
      RetireKeepsBurn(d, w.(tracker := t, registry := r), env, owner, inputs[n], t', r', record);
    }
  }

  lemma BridgeOutKeepsBurn(d: Deployment, w: World, env: Env, owner: Address, id: nat, b: BridgeState, r: RegistryState)
    requires BurnInv(d, w) && w.bridge.BridgeOut(d.bridge, w.registry, env, owner, id) == Ok(((b, r), true))
    ensures BurnInv(d, w.(bridge := b, registry := r))
  {
    BridgeOutEffect(w.bridge, d.bridge, w.registry, env, owner, id, b, r);
    ExportKeepsBurn(d, w, env.CallFrom(d.bridge), owner, id, b, r);
  }

  /** What a committed `bridge_out` did in the two contracts. */
  lemma BridgeOutEffect(b: BridgeState, self: Address, s: RegistryState, env: Env, owner: Address, id: nat,
                        b': BridgeState, s': RegistryState)
    requires b.BridgeOut(self, s, env, owner, id) == Ok(((b', s'), true))
    ensures s.MarkRetired(env.CallFrom(self), self, id) == Ok((s', ()))
    ensures s.ReadOwner(id) == Ok(owner) && b'.exports == b.exports + [Export(id, owner)]
  {
  }

  lemma ExportKeepsBurn(d: Deployment, w: World, env: Env, owner: Address, id: nat, b: BridgeState, r: RegistryState)
    requires BurnInv(d, w) && w.registry.MarkRetired(env, d.bridge, id) == Ok((r, ()))
    requires w.registry.ReadOwner(id) == Ok(owner) && b.exports == w.bridge.exports + [Export(id, owner)]
    ensures BurnInv(d, w.(bridge := b, registry := r))
  {
    MarkKeepsRegistry(w.registry, env, d.bridge, id, r);
    MarkRetiredEffect(w.registry, env, d.bridge, id, r);
    ExportIsCounted(w, owner, id, b, r);
  }

  lemma ExportIsCounted(w: World, owner: Address, id: nat, b: BridgeState, r: RegistryState)
    requires CountedOnce(w) && id !in RetiredIds(w.registry)
    requires RetiredIds(r) == RetiredIds(w.registry) + {id} && r.owners == w.registry.owners
    requires r.ReadOwner(id) == Ok(owner) && b.exports == w.bridge.exports + [Export(id, owner)]
    ensures CountedOnce(w.(bridge := b, registry := r))
  {
    ExportAppend(w.bridge.exports, Export(id, owner));
  }

  lemma ExportAppend(exports: seq<Export>, e: Export)
    ensures ExportedIds(exports + [e]) == ExportedIds(exports) + {e.creditId}
    ensures ExportsDistinct(exports) && e.creditId !in ExportedIds(exports) ==> ExportsDistinct(exports + [e])
  {
    var all := exports + [e];
    forall id ensures id in ExportedIds(all) <==> id in ExportedIds(exports) + {e.creditId} {
      if id in ExportedIds(exports) {
        var i :| 0 <= i < |exports| && exports[i].creditId == id;
        assert all[i].creditId == id;
      }
      assert all[|exports|] == e;
    }
  }

  lemma TxKeepsBurn(d: Deployment, w: World, tx: Tx)
    requires BurnInv(d, w) && SignedByUsers(d, tx) && RetirersTrusted(d, tx)
    ensures BurnInv(d, Apply(d, w, tx))
  {
    if Step(d, w, tx).Ok? {
      match tx.call {
        case Retire(owner, input) =>
          var ((t, r), record) := w.tracker.Retire(d.tracker, w.registry, tx.env, owner, input).value;
          RetireKeepsBurn(d, w, tx.env, owner, input, t, r, record);
        case BatchRetire(owner, inputs) =>
          RetireEachKeepsBurn(d, w, tx.env, owner, inputs);
        case BridgeOut(owner, id) =>
          var ((b, r), _) := w.bridge.BridgeOut(d.bridge, w.registry, tx.env, owner, id).value;
          BridgeOutKeepsBurn(d, w, tx.env, owner, id, b, r);
        case _ =>
          OtherTxKeepsBurn(d, w, tx);
      }
    }
  }

  /** In every run, whatever users and admin do within the two trust assumptions, each
      credit is counted once. */
  lemma {:induction false} NoDoubleCounting(d: Deployment, w: World, txs: seq<Tx>)
    requires BurnInv(d, w)
    requires forall i | 0 <= i < |txs| :: SignedByUsers(d, txs[i]) && RetirersTrusted(d, txs[i])
    ensures BurnInv(d, Run(d, w, txs))
    decreases |txs|
  {
    if txs != [] {
      var n := |txs| - 1;
      NoDoubleCounting(d, w, txs[..n]);
      TxKeepsBurn(d, Run(d, w, txs[..n]), txs[n]);
    }
  }

  lemma GenesisBurn(d: Deployment, admin: Address, threshold: nat, quorum: nat, tokens: map<(Address, Address), int>)
    requires 1 <= threshold <= quorum
    ensures BurnInv(d, Genesis(admin, threshold, quorum, tokens))
  {
    InitialisedInv(admin, threshold, quorum);
  }

  /** A retirement record keeps naming the owner in every later state, and the credit stays
      retired with the same tonnes. */
  lemma RecordIsPermanent(d: Deployment, w: World, txs: seq<Tx>, id: nat)
    requires BurnInv(d, w) && id in w.tracker.records
    requires forall i | 0 <= i < |txs| :: SignedByUsers(d, txs[i]) && RetirersTrusted(d, txs[i])
    ensures var w' := Run(d, w, txs);
            && id in w'.tracker.records
            && w'.registry.ReadOwner(id) == Ok(w.tracker.records[id].retiredBy)
            && w'.tracker.records[id].retiredBy == w.tracker.records[id].retiredBy
            && id in w.registry.credits && w'.registry.HasStatus(id, Retired)
            && w'.registry.credits[id].tonnes == w.registry.credits[id].tonnes
  {
    NoDoubleCounting(d, w, txs);
    RegistryOverRuns(d, w, txs);
    assert id in RetiredIds(w.registry);
    assert CreditEvolves(w.registry, Run(d, w, txs).registry, id);
    RecordsOnlyGrow(d, w, txs, id);
  }

  lemma {:induction false} RecordsOnlyGrow(d: Deployment, w: World, txs: seq<Tx>, id: nat)
    requires id in w.tracker.records
    ensures id in Run(d, w, txs).tracker.records
    decreases |txs|
  {
    if txs != [] {
      var n := |txs| - 1;
      RecordsOnlyGrow(d, w, txs[..n], id);
      var mid, tx := Run(d, w, txs[..n]), txs[n];
      if tx.call.BatchRetire? && Step(d, mid, tx).Ok? {
        BatchKeepsRecords(d, mid.tracker, mid.registry, tx.env, tx.call.owner, tx.call.inputs, id);
      }
    }
  }

  lemma {:induction false} BatchKeepsRecords(d: Deployment, t: TrackerState, r: RegistryState, env: Env, owner: Address,
                                             inputs: seq<RetireInput>, id: nat)
    requires id in t.records && t.RetireEach(d.tracker, r, env, owner, inputs).Ok?
    ensures id in t.RetireEach(d.tracker, r, env, owner, inputs).value.0.0.records
    decreases |inputs|
  {
    if inputs != [] {
      BatchKeepsRecords(d, t, r, env, owner, inputs[..|inputs| - 1], id);
    }
  }
}
