/** The beneficiary index, and what a batch retirement amounts to. */
module TrackerLaws {
  import opened Common
  import opened Registry
  import opened Tracker
  import opened World
  import opened Paging

  // ---------- Beneficiary index ----------

  /** The retired ids whose record names beneficiary `b`, in the order of retirement. */
  function RetiredFor(records: map<nat, Record>, retired: seq<nat>, b: string): seq<nat> {
    if retired == [] then []
    else
      var id := retired[|retired| - 1];
      RetiredFor(records, retired[..|retired| - 1], b)
      + (if id in records && records[id].beneficiary == b then [id] else [])
  }

  /** Every list is exactly the ids with that beneficiary in the order of retirement, and
      the records are exactly the retired ids, each retired once. */
  ghost predicate BeneficiaryInv(t: TrackerState) {
    && (forall b :: ListAt(t.byBeneficiary, b) == RetiredFor(t.records, t.retired, b))
    && (forall i, j | 0 <= i < j < |t.retired| :: t.retired[i] != t.retired[j])
    && (forall id :: id in t.records <==> id in t.retired)
    && (forall id | id in t.records :: t.records[id].creditId == id)
  }

  lemma {:induction false} RetiredForFrame(records: map<nat, Record>, id: nat, r: Record, retired: seq<nat>, b: string)
    requires id !in retired
    ensures RetiredFor(records[id := r], retired, b) == RetiredFor(records, retired, b)
  {
    if retired != [] {
      RetiredForFrame(records, id, r, retired[..|retired| - 1], b);
      assert retired[|retired| - 1] in retired;
    }
  }

  lemma RetireKeepsIndex(self: Address, t: TrackerState, s: RegistryState, env: Env, owner: Address, input: RetireInput)
    requires BeneficiaryInv(t) && t.Retire(self, s, env, owner, input).Ok?
    ensures BeneficiaryInv(t.Retire(self, s, env, owner, input).value.0.0)
  {
    RecordKeepsIndex(t, NewRecord(env, owner, input));
  }

  lemma RecordKeepsIndex(t: TrackerState, r: Record)
    requires BeneficiaryInv(t) && r.creditId !in t.records
    ensures BeneficiaryInv(TrackerState(t.records[r.creditId := r],
              t.byBeneficiary[r.beneficiary := ListAt(t.byBeneficiary, r.beneficiary) + [r.creditId]],
              t.retired + [r.creditId]))
  {
    var id, retired := r.creditId, t.retired + [r.creditId];
    var byBeneficiary := t.byBeneficiary[r.beneficiary := ListAt(t.byBeneficiary, r.beneficiary) + [id]];
    assert retired[..|t.retired|] == t.retired;
    forall b ensures ListAt(byBeneficiary, b) == RetiredFor(t.records[id := r], retired, b) {
      RetiredForFrame(t.records, id, r, t.retired, b);
      assert ListAt(t.byBeneficiary, b) == RetiredFor(t.records, t.retired, b);
    }
    forall i, j | 0 <= i < j < |retired| ensures retired[i] != retired[j] {
      assert retired[i] in t.retired;
    }
  }

  lemma {:induction false} RetireEachKeepsIndex(self: Address, t: TrackerState, s: RegistryState, env: Env,
                                                owner: Address, inputs: seq<RetireInput>)
    requires BeneficiaryInv(t) && t.RetireEach(self, s, env, owner, inputs).Ok?
    ensures BeneficiaryInv(t.RetireEach(self, s, env, owner, inputs).value.0.0)
    decreases |inputs|
  {
    if inputs != [] {
      var n := |inputs| - 1;
      RetireEachKeepsIndex(self, t, s, env, owner, inputs[..n]);
      var (t', s') := t.RetireEach(self, s, env, owner, inputs[..n]).value.0;
      RetireKeepsIndex(self, t', s', env, owner, inputs[n]);
    }
  }

  lemma {:induction false} BeneficiariesOverRuns(d: Deployment, w: World, txs: seq<Tx>)
    requires BeneficiaryInv(w.tracker)
    ensures BeneficiaryInv(Run(d, w, txs).tracker)
    decreases |txs|
  {
    if txs != [] {
      var n := |txs| - 1;
      BeneficiariesOverRuns(d, w, txs[..n]);
      TxKeepsIndex(d, Run(d, w, txs[..n]), txs[n]);
    }
  }

  lemma TxKeepsIndex(d: Deployment, w: World, tx: Tx)
    requires BeneficiaryInv(w.tracker)
    ensures BeneficiaryInv(Apply(d, w, tx).tracker)
  {
    if Step(d, w, tx).Ok? {
      match tx.call {
        case Retire(_, _) => RetireTxKeepsIndex(d, w, tx);
        case BatchRetire(_, _) => BatchTxKeepsIndex(d, w, tx);
        case _ => OtherTxKeepsTracker(d, w, tx);
      }
    }
  }

  lemma RetireTxKeepsIndex(d: Deployment, w: World, tx: Tx)
    requires BeneficiaryInv(w.tracker) && tx.call.Retire? && Step(d, w, tx).Ok?
    ensures BeneficiaryInv(Apply(d, w, tx).tracker)
  {
    RetireKeepsIndex(d.tracker, w.tracker, w.registry, tx.env, tx.call.owner, tx.call.input);
  }

  lemma BatchTxKeepsIndex(d: Deployment, w: World, tx: Tx)
    requires BeneficiaryInv(w.tracker) && tx.call.BatchRetire? && Step(d, w, tx).Ok?
    ensures BeneficiaryInv(Apply(d, w, tx).tracker)
  {
    RetireEachKeepsIndex(d.tracker, w.tracker, w.registry, tx.env, tx.call.owner, tx.call.inputs);
  }

  lemma OtherTxKeepsTracker(d: Deployment, w: World, tx: Tx)
    requires !tx.call.Retire? && !tx.call.BatchRetire?
    ensures Apply(d, w, tx).tracker == w.tracker
  {
  }

  lemma GenesisIndex()
    ensures BeneficiaryInv(NOTHING_RETIRED)
  {
  }

  /** A client reading the records of a beneficiary page by page. */
  function WalkRecords(t: TrackerState, b: string, offset: nat, limit: u32): seq<Record>
    requires 1 <= limit && |ListAt(t.byBeneficiary, b)| <= U32_MAX
    decreases |ListAt(t.byBeneficiary, b)| - offset
  {
    if offset >= |ListAt(t.byBeneficiary, b)| then []
    else RecordsOf(t.records, Page(ListAt(t.byBeneficiary, b), offset, limit))
         + WalkRecords(t, b, offset + limit, limit)
  }

  lemma {:induction false} RecordsConcat(records: map<nat, Record>, a: seq<nat>, b: seq<nat>)
    ensures RecordsOf(records, a + b) == RecordsOf(records, a) + RecordsOf(records, b)
    decreases |b|
  {
    if b == [] {
      assert a + b == a;
    } else {
      assert (a + b)[..|a + b| - 1] == a + b[..|b| - 1];
      RecordsConcat(records, a, b[..|b| - 1]);
    }
  }

  lemma {:induction false} RecordPagesCover(t: TrackerState, b: string, offset: nat, limit: u32)
    requires 1 <= limit && |ListAt(t.byBeneficiary, b)| <= U32_MAX
    ensures var list := ListAt(t.byBeneficiary, b);
            WalkRecords(t, b, offset, limit) == RecordsOf(t.records, if offset <= |list| then list[offset..] else [])
    decreases |ListAt(t.byBeneficiary, b)| - offset
  {
    var list := ListAt(t.byBeneficiary, b);
    if offset < |list| {
      RecordPagesCover(t, b, offset + limit, limit);
      PageThenRest(list, offset, limit);
      var rest := if offset + limit <= |list| then list[offset + limit..] else [];
      RecordsConcat(t.records, Page(list, offset, limit), rest);
    }
  }

  lemma {:induction false} AllRecordsPresent(records: map<nat, Record>, ids: seq<nat>)
    requires forall i | 0 <= i < |ids| :: ids[i] in records
    ensures |RecordsOf(records, ids)| == |ids|
    ensures forall i | 0 <= i < |ids| :: RecordsOf(records, ids)[i] == records[ids[i]]
  {
    if ids != [] {
      AllRecordsPresent(records, ids[..|ids| - 1]);
    }
  }

  lemma {:induction false} RetiredForHaveRecords(records: map<nat, Record>, retired: seq<nat>, b: string)
    ensures forall i | 0 <= i < |RetiredFor(records, retired, b)| ::
              var id := RetiredFor(records, retired, b)[i]; id in records && records[id].beneficiary == b
  {
    if retired != [] {
      RetiredForHaveRecords(records, retired[..|retired| - 1], b);
    }
  }

  /** Paging through a beneficiary yields one record for each of its retirements, in order
      of retirement, and each record names that beneficiary. */
  lemma BeneficiaryPages(t: TrackerState, b: string, limit: u32)
    requires BeneficiaryInv(t) && 1 <= limit && |ListAt(t.byBeneficiary, b)| <= U32_MAX
    ensures var ids, read := RetiredFor(t.records, t.retired, b), WalkRecords(t, b, 0, limit);
            && |read| == |ids|
            && forall i | 0 <= i < |ids| ::
                 ids[i] in t.records && read[i] == t.records[ids[i]] && read[i].beneficiary == b
  {
    RecordPagesCover(t, b, 0, limit);
    assert ListAt(t.byBeneficiary, b)[0..] == ListAt(t.byBeneficiary, b);
    RetiredForHaveRecords(t.records, t.retired, b);
    AllRecordsPresent(t.records, RetiredFor(t.records, t.retired, b));
  }

  // ---------- Batch retirement ----------

  /** What one input must satisfy in the state before the batch. */
  predicate Retirable(t: TrackerState, s: RegistryState, owner: Address, input: RetireInput) {
    && Complete(input) && input.creditId !in t.records
    && s.ReadOwner(input.creditId) == Ok(owner) && s.HasStatus(input.creditId, Active)
  }

  predicate DistinctIds(inputs: seq<RetireInput>) {
    forall i, j | 0 <= i < j < |inputs| :: inputs[i].creditId != inputs[j].creditId
  }

  predicate Fresh(done: seq<RetireInput>, id: nat) {
    forall i | 0 <= i < |done| :: done[i].creditId != id
  }

  /** The state in the middle of a batch: the ids done so far have records and are Retired,
      all other credits are as before. */
  ghost predicate MidBatch(t: TrackerState, s: RegistryState, done: seq<RetireInput>, t': TrackerState,
                           s': RegistryState) {
    && s'.owners == s.owners && s'.retirers == s.retirers
    && (forall i | 0 <= i < |done| :: done[i].creditId in t'.records && !s'.HasStatus(done[i].creditId, Active))
    && (forall id | Fresh(done, id) ::
          && (id in t'.records <==> id in t.records)
          && (id in s'.credits <==> id in s.credits)
          && (id in s.credits ==> s'.credits[id] == s.credits[id]))
  }

  /** A batch succeeds exactly if every input qualifies, and leaves the state of `MidBatch`. */
  ghost predicate BatchAsPromised(self: Address, t: TrackerState, s: RegistryState, env: Env, owner: Address,
                                  inputs: seq<RetireInput>) {
    var r := t.RetireEach(self, s, env, owner, inputs);
    && (r.Ok? <==> BatchRetirable(t, s, owner, inputs))
    && (r.Ok? ==> MidBatch(t, s, inputs, r.value.0.0, r.value.0.1))
  }

  lemma {:induction false} BatchPrefix(self: Address, t: TrackerState, s: RegistryState, env: Env, owner: Address,
                                       inputs: seq<RetireInput>)
    requires owner in env.auth && self in s.retirers
    ensures BatchAsPromised(self, t, s, env, owner, inputs)
    decreases |inputs|
  {
    if inputs != [] {
      var front, last := inputs[..|inputs| - 1], inputs[|inputs| - 1];
      BatchPrefix(self, t, s, env, owner, front);
      assert inputs == front + [last];
      OneMoreInput(self, t, s, env, owner, front, last);
    }
  }

  lemma OneMoreInput(self: Address, t: TrackerState, s: RegistryState, env: Env, owner: Address,
                     front: seq<RetireInput>, last: RetireInput)
    requires owner in env.auth && self in s.retirers && BatchAsPromised(self, t, s, env, owner, front)
    ensures BatchAsPromised(self, t, s, env, owner, front + [last])
  {
    var before := t.RetireEach(self, s, env, owner, front);
    RetireEachSnoc(self, t, s, env, owner, front, last);
    BatchRetirableSnoc(t, s, owner, front, last);
    if before.Ok? {
      BatchStep(self, t, s, env, owner, front, last, before.value.0.0, before.value.0.1);
    }
  }

  lemma RetireEachSnoc(self: Address, t: TrackerState, s: RegistryState, env: Env, owner: Address,
                       front: seq<RetireInput>, last: RetireInput)
    ensures var before, after := t.RetireEach(self, s, env, owner, front),
              t.RetireEach(self, s, env, owner, front + [last]);
            && (before.Err? ==> after.Err?)
            && (before.Ok? ==> var one := before.value.0.0.Retire(self, before.value.0.1, env, owner, last);
                               (after.Ok? <==> one.Ok?) && (one.Ok? ==> after.value.0 == one.value.0))
  {
    assert (front + [last])[..|front|] == front;
  }

  predicate BatchRetirable(t: TrackerState, s: RegistryState, owner: Address, inputs: seq<RetireInput>) {
    DistinctIds(inputs) && forall i | 0 <= i < |inputs| :: Retirable(t, s, owner, inputs[i])
  }

  lemma BatchRetirableSnoc(t: TrackerState, s: RegistryState, owner: Address, front: seq<RetireInput>,
                           last: RetireInput)
    ensures BatchRetirable(t, s, owner, front + [last])
            <==> BatchRetirable(t, s, owner, front) && Retirable(t, s, owner, last) && Fresh(front, last.creditId)
  {
    var inputs := front + [last];
    assert inputs[|front|] == last;
    assert forall i | 0 <= i < |front| :: inputs[i] == front[i];
    if BatchRetirable(t, s, owner, inputs) {
      forall i | 0 <= i < |front| ensures Retirable(t, s, owner, front[i]) && front[i].creditId != last.creditId {
        assert inputs[i].creditId != inputs[|front|].creditId;
      }
    }
  }

  lemma BatchStep(self: Address, t: TrackerState, s: RegistryState, env: Env, owner: Address,
                  front: seq<RetireInput>, last: RetireInput, t': TrackerState, s': RegistryState)
    requires owner in env.auth && self in s.retirers && MidBatch(t, s, front, t', s')
    ensures t'.Retire(self, s', env, owner, last).Ok?
            <==> Retirable(t, s, owner, last) && Fresh(front, last.creditId)
    ensures t'.Retire(self, s', env, owner, last).Ok? ==>
              var after := t'.Retire(self, s', env, owner, last).value.0;
              MidBatch(t, s, front + [last], after.0, after.1)
  {
    if Fresh(front, last.creditId) {
      assert last.creditId in t'.records <==> last.creditId in t.records;
      if t'.Retire(self, s', env, owner, last).Ok? {
        var (t2, s2) := t'.Retire(self, s', env, owner, last).value.0;
        OneMoreDone(t, s, front, last, t', s', t2, s2);
      }
    }
  }

  lemma OneMoreDone(t: TrackerState, s: RegistryState, front: seq<RetireInput>, last: RetireInput,
                    t': TrackerState, s': RegistryState, t2: TrackerState, s2: RegistryState)
    requires MidBatch(t, s, front, t', s') && last.creditId in s'.credits && last.creditId in t2.records
    requires t2.records == t'.records[last.creditId := t2.records[last.creditId]]
    requires s2 == s'.SetStatus(last.creditId, Retired)
    ensures MidBatch(t, s, front + [last], t2, s2)
  {
    var done := front + [last];
    forall i | 0 <= i < |done| ensures done[i].creditId in t2.records && !s2.HasStatus(done[i].creditId, Active) {
      assert i < |front| ==> done[i] == front[i];
    }
    forall k | Fresh(done, k)
      ensures (k in t2.records <==> k in t.records) && (k in s2.credits <==> k in s.credits)
              && (k in s.credits ==> s2.credits[k] == s.credits[k])
    {
      assert done[|front|] == last;
      forall i | 0 <= i < |front| ensures front[i].creditId != k { assert done[i] == front[i]; }
      assert Fresh(front, k);
    }
  }

  /** `batch_retire` on up to 100 inputs succeeds exactly when `retire` on each in turn does,
      with the same state and records; and that is exactly when the owner signed, the ids are
      distinct, and each input could be retired on its own before the batch. */
  lemma BatchRefinesRetire(self: Address, t: TrackerState, s: RegistryState, env: Env, owner: Address,
                           inputs: seq<RetireInput>)
    ensures owner in env.auth && |inputs| <= 100 ==>
              t.BatchRetire(self, s, env, owner, inputs) == t.RetireEach(self, s, env, owner, inputs)
    ensures t.BatchRetire(self, s, env, owner, inputs).Ok? <==>
            && owner in env.auth && |inputs| <= 100 && DistinctIds(inputs)
            && forall i | 0 <= i < |inputs| :: t.Retire(self, s, env, owner, inputs[i]).Ok?
  {
    if owner in env.auth && self in s.retirers {
      BatchPrefix(self, t, s, env, owner, inputs);
      forall i | 0 <= i < |inputs|
        ensures t.Retire(self, s, env, owner, inputs[i]).Ok? <==> Retirable(t, s, owner, inputs[i])
      {}
    } else if inputs != [] {
      OnlyRetirersRetire(self, t, s, env, owner, inputs);
      assert t.Retire(self, s, env, owner, inputs[0]).Err?;
    }
  }

  /** Without the owner's signature, or if the tracker is no authorized retirer, no batch
      gets past its first input. */
  lemma {:induction false} OnlyRetirersRetire(self: Address, t: TrackerState, s: RegistryState, env: Env,
                                              owner: Address, inputs: seq<RetireInput>)
    requires inputs != [] && (owner !in env.auth || self !in s.retirers)
    ensures t.RetireEach(self, s, env, owner, inputs).Err?
    decreases |inputs|
  {
    var n := |inputs| - 1;
    if n > 0 {
      OnlyRetirersRetire(self, t, s, env, owner, inputs[..n]);
    } else {
      assert inputs[..n] == [];
    }
  }

  /** One `retire` transaction for each input. */
  function RetireTxs(env: Env, owner: Address, inputs: seq<RetireInput>): seq<Tx> {
    seq(|inputs|, i requires 0 <= i < |inputs| => Tx(env, Retire(owner, inputs[i])))
  }

  /** As transactions: a batch is the same as a sequence of retirements by the same owner at
      the same time, or it changes nothing at all. */
  lemma {:induction false} BatchIsSequence(d: Deployment, w: World, env: Env, owner: Address, inputs: seq<RetireInput>)
    requires |inputs| <= 100
    ensures var batch, each := Tx(env, BatchRetire(owner, inputs)), RetireTxs(env, owner, inputs);
            && (Step(d, w, batch).Ok? ==> Apply(d, w, batch) == Run(d, w, each))
            && (Step(d, w, batch).Err? ==> Apply(d, w, batch) == w)
  {
    if Step(d, w, Tx(env, BatchRetire(owner, inputs))).Ok? {
      SequenceOfRetires(d, w, env, owner, inputs);
    }
  }

  lemma {:induction false} SequenceOfRetires(d: Deployment, w: World, env: Env, owner: Address,
                                             inputs: seq<RetireInput>)
    requires w.tracker.RetireEach(d.tracker, w.registry, env, owner, inputs).Ok?
    ensures var (t, s) := w.tracker.RetireEach(d.tracker, w.registry, env, owner, inputs).value.0;
            Run(d, w, RetireTxs(env, owner, inputs)) == w.(tracker := t, registry := s)
    decreases |inputs|
  {
    if inputs != [] {
      var n := |inputs| - 1;
      SequenceOfRetires(d, w, env, owner, inputs[..n]);
      RetireTxsSnoc(d, w, env, owner, inputs);
      var (t, s) := w.tracker.RetireEach(d.tracker, w.registry, env, owner, inputs[..n]).value.0;
      RetireTx(d, w.(tracker := t, registry := s), env, owner, inputs[n]);
    }
  }

  lemma RetireTxsSnoc(d: Deployment, w: World, env: Env, owner: Address, inputs: seq<RetireInput>)
    requires inputs != []
    ensures var n := |inputs| - 1;
            Run(d, w, RetireTxs(env, owner, inputs))
            == Apply(d, Run(d, w, RetireTxs(env, owner, inputs[..n])), Tx(env, Retire(owner, inputs[n])))
  {
    var n := |inputs| - 1;
    assert RetireTxs(env, owner, inputs)[..n] == RetireTxs(env, owner, inputs[..n]);
  }

  lemma RetireTx(d: Deployment, w: World, env: Env, owner: Address, input: RetireInput)
    requires w.tracker.Retire(d.tracker, w.registry, env, owner, input).Ok?
    ensures var (t, s) := w.tracker.Retire(d.tracker, w.registry, env, owner, input).value.0;
            Apply(d, w, Tx(env, Retire(owner, input))) == w.(tracker := t, registry := s)
  {
  }
}
