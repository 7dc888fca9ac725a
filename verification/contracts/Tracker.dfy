/** The retirement tracker: retirement records and the index by beneficiary. */
module Tracker {
  import opened Common
  import opened Registry
  import opened Paging

  datatype Record = Record(
    creditId: nat, retiredBy: Address, beneficiary: string, reason: string, accountingPeriod: string,
    tonnesRetired: int, ledgerSequence: nat, timestamp: nat)

  datatype RetireInput = RetireInput(creditId: nat, reason: string, beneficiary: string, accountingPeriod: string)

  predicate Complete(input: RetireInput) {
    input.reason != "" && input.beneficiary != "" && input.accountingPeriod != ""
  }

  function NewRecord(env: Env, owner: Address, input: RetireInput): Record {
    Record(input.creditId, owner, input.beneficiary, input.reason, input.accountingPeriod, 0, env.sequence, env.now)
  }

  /** The records of `ids` that exist, in order. */
  function RecordsOf(records: map<nat, Record>, ids: seq<nat>): seq<Record> {
    if ids == [] then []
    else
      var id := ids[|ids| - 1];
      RecordsOf(records, ids[..|ids| - 1]) + (if id in records then [records[id]] else [])
  }

  datatype TrackerState = TrackerState(
    records: map<nat, Record>, byBeneficiary: map<string, seq<nat>>, retired: seq<nat>)
  {
    function Retire(self: Address, registry: RegistryState, env: Env, owner: Address, input: RetireInput)
      : Result<((TrackerState, RegistryState), Record)>
    {
      var _ :- env.RequireAuth(owner);
      :- Need(Complete(input), InvalidInput);
      :- Need(input.creditId !in records, CreditAlreadyRetired);
      var owned :- registry.ReadOwner(input.creditId);
      :- Need(owned == owner, CreditNotOwned);
      var (registry, _) :- registry.MarkRetired(env.CallFrom(self), self, input.creditId);
      var record := NewRecord(env, owner, input);
      Ok(((TrackerState(records[input.creditId := record],
                        byBeneficiary[input.beneficiary := ListAt(byBeneficiary, input.beneficiary) + [input.creditId]],
                        retired + [input.creditId]), registry), record))
    }

    /** `Retire` on each input in turn; the first failure fails the whole sequence. */
    function RetireEach(self: Address, registry: RegistryState, env: Env, owner: Address, inputs: seq<RetireInput>)
      : Result<((TrackerState, RegistryState), seq<Record>)>
    {
      if inputs == [] then Ok(((this, registry), []))
      else
        var n := |inputs| - 1;
        var (state, done) :- RetireEach(self, registry, env, owner, inputs[..n]);
        var (state, record) :- state.0.Retire(self, state.1, env, owner, inputs[n]);
        Ok((state, done + [record]))
    }

    function BatchRetire(self: Address, registry: RegistryState, env: Env, owner: Address, inputs: seq<RetireInput>)
      : Result<((TrackerState, RegistryState), seq<Record>)>
    {
      var _ :- env.RequireAuth(owner);
      :- Need(|inputs| <= MAX_BATCH_RETIRE, InvalidInput);
      RetireEach(self, registry, env, owner, inputs)
    }
  }

  const NOTHING_RETIRED := TrackerState(map[], map[], [])

  /** The contract. `retired` is the log of the `Retired` events it has published. */
  class RetirementTracker {
    const self: Address
    const registry: CreditRegistry
    var records: map<nat, Record>
    var byBeneficiary: map<string, seq<nat>>
    var retired: seq<nat>

    function State(): TrackerState
      reads this
    {
      TrackerState(records, byBeneficiary, retired)
    }

    constructor (self: Address, registry: CreditRegistry)
      ensures State() == NOTHING_RETIRED && this.self == self && this.registry == registry
    {
      this.self, this.registry := self, registry;
      records, byBeneficiary, retired := map[], map[], [];
    }

    method Restore(s: TrackerState)
      modifies this
      ensures State() == s
    {
      records, byBeneficiary, retired := s.records, s.byBeneficiary, s.retired;
    }

    method Retire(env: Env, owner: Address, input: RetireInput) returns (r: Result<Record>)
      modifies this, registry
      ensures Commits(r, (State(), registry.State()),
                      old(State()).Retire(self, old(registry.State()), env, owner, input))
    {
      var _ :- env.RequireAuth(owner);
      :- Need(Complete(input), InvalidInput);
      :- Need(input.creditId !in records, CreditAlreadyRetired);
      var owned :- registry.State().ReadOwner(input.creditId);
      :- Need(owned == owner, CreditNotOwned);
      var _ :- registry.MarkRetired(env.CallFrom(self), self, input.creditId);
      var record := NewRecord(env, owner, input);
      records := records[input.creditId := record];
      var list := ListAt(byBeneficiary, record.beneficiary);
      byBeneficiary := byBeneficiary[record.beneficiary := list + [input.creditId]];
      retired := retired + [input.creditId];
      return Ok(record);
    }

    /** The loop of `batch_retire` does what calling `retire` on each input in turn would. */
    method BatchRetire(env: Env, owner: Address, inputs: seq<RetireInput>) returns (r: Result<seq<Record>>)
      modifies this, registry
      ensures Commits(r, (State(), registry.State()),
                      old(State()).BatchRetire(self, old(registry.State()), env, owner, inputs))
    {
      var _ :- env.RequireAuth(owner);
      :- Need(|inputs| <= MAX_BATCH_RETIRE, InvalidInput);
      ghost var s, reg := State(), registry.State();
      var results: seq<Record> := [];
      for i := 0 to |inputs|
        invariant s.RetireEach(self, reg, env, owner, inputs[..i]) == Ok(((State(), registry.State()), results))
      {
        var input := inputs[i];
        assert inputs[..i + 1][..i] == inputs[..i];
        if !State().Retire(self, registry.State(), env, owner, input).Ok? {
          FirstFailure(s, self, reg, env, owner, inputs, i);
        }
        :- Need(Complete(input), InvalidInput);
        :- Need(input.creditId !in records, CreditAlreadyRetired);
        var owned :- registry.State().ReadOwner(input.creditId);
        :- Need(owned == owner, CreditNotOwned);
        var _ :- registry.MarkRetired(env.CallFrom(self), self, input.creditId);
        var record := NewRecord(env, owner, input);
        records := records[input.creditId := record];
        var list := ListAt(byBeneficiary, record.beneficiary);
        byBeneficiary := byBeneficiary[record.beneficiary := list + [input.creditId]];
        retired := retired + [input.creditId];
        results := results + [record];
      }
      assert inputs[..|inputs|] == inputs;
      return Ok(results);
    }

    method ByBeneficiary(beneficiary: string, offset: u32, limit: u32) returns (page: seq<Record>)
      ensures page == RecordsOf(records, Page(ListAt(byBeneficiary, beneficiary), offset, limit))
    {
      var ids := ListAt(byBeneficiary, beneficiary);
      var end := Min(SaturatingAdd(offset, limit), |ids|);
      if offset >= |ids| {
        return [];
      }
      page := [];
      for i := offset to end
        invariant page == RecordsOf(records, ids[offset..i])
      {
        if ids[i] in records {
          page := page + [records[ids[i]]];
        }
        assert ids[offset..i + 1][..i - offset] == ids[offset..i];
      }
    }
  }

  /** If the k-th retirement of a sequence fails, so does the sequence, with the same error. */
  lemma {:induction false} FirstFailure(s: TrackerState, self: Address, registry: RegistryState, env: Env,
                                        owner: Address, inputs: seq<RetireInput>, k: nat)
    requires k < |inputs|
    requires var before := s.RetireEach(self, registry, env, owner, inputs[..k]);
             before.Ok? && before.value.0.0.Retire(self, before.value.0.1, env, owner, inputs[k]).Err?
    ensures var before := s.RetireEach(self, registry, env, owner, inputs[..k]);
            s.RetireEach(self, registry, env, owner, inputs)
            == Err(before.value.0.0.Retire(self, before.value.0.1, env, owner, inputs[k]).error)
    decreases |inputs|
  {
    var n := |inputs| - 1;
    if k < n {
      assert inputs[..n][..k] == inputs[..k];
      FirstFailure(s, self, registry, env, owner, inputs[..n], k);
    }
  }
}
