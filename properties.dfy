/** What follows from validating before persisting, over any sequence of
    service calls: the repository never receives an entity that fails
    validation, a call that is rejected touches nothing, and records are
    never removed. */
module ServiceProperties {
  import opened ProductValues
  import opened Repositories
  import opened Services

  /** One call of the service: `insert(dto)` or `update(id, dto)`. */
  datatype Request = InsertRequest(dto: ProductData) | UpdateRequest(id: int, dto: ProductData)

  function Serve(s: StoreState, req: Request): (r: Step)
    requires WellFormed(s)
    ensures WellFormed(r.post)
  {
    match req
    case InsertRequest(dto) => InsertSpec(s, dto)
    case UpdateRequest(id, dto) => UpdateSpec(s, id, dto)
  }

  /** The store after serving `reqs` in order, and every repository call made. */
  function Run(s: StoreState, reqs: seq<Request>): (r: (StoreState, seq<RepositoryCall>))
    requires WellFormed(s)
    ensures WellFormed(r.0)
    decreases |reqs|
  {
    if reqs == [] then (s, [])
    else
      var step := Serve(s, reqs[0]);
      var rest := Run(step.post, reqs[1..]);
      (rest.0, step.calls + rest.1)
  }

  /** Every stored record would pass `validateData`. */
  predicate AllStoredValid(s: StoreState) {
    forall k :: k in s.records ==> ValidateData(s.records[k]) == None
  }

  /** Every entity handed to `save` would pass `validateData`. */
  predicate SavesValidated(calls: seq<RepositoryCall>) {
    forall i :: 0 <= i < |calls| && calls[i].SaveCall? ==> ValidateData(calls[i].entity) == None
  }

  /** One insert or update saves only validated entities, and keeps a store
      of valid records valid. */
  lemma ServePersistsOnlyValidData(s: StoreState, req: Request)
    requires WellFormed(s)
    ensures SavesValidated(Serve(s, req).calls)
    ensures AllStoredValid(s) ==> AllStoredValid(Serve(s, req).post)
  {
  }

  /** Starting from a store of valid records, the service only ever saves
      validated entities, so the store holds valid records only. */
  lemma {:induction false} RunPersistsOnlyValidData(s: StoreState, reqs: seq<Request>)
    requires WellFormed(s)
    ensures SavesValidated(Run(s, reqs).1)
    ensures AllStoredValid(s) ==> AllStoredValid(Run(s, reqs).0)
    decreases |reqs|
  {
    if reqs != [] {
      var step := Serve(s, reqs[0]);
      ServePersistsOnlyValidData(s, reqs[0]);
      RunPersistsOnlyValidData(step.post, reqs[1..]);
      var rest := Run(step.post, reqs[1..]);
      assert Run(s, reqs).1 == step.calls + rest.1;
      forall i | 0 <= i < |Run(s, reqs).1| && Run(s, reqs).1[i].SaveCall?
        ensures ValidateData(Run(s, reqs).1[i].entity) == None
      {
        if i >= |step.calls| {
          assert Run(s, reqs).1[i] == rest.1[i - |step.calls|];
        }
      }
    }
  }

  /** Requests whose views all fail validation reach the repository not at
      all and leave the store exactly as it was. */
  lemma {:induction false} RejectedRequestsChangeNothing(s: StoreState, reqs: seq<Request>)
    requires WellFormed(s)
    requires forall i :: 0 <= i < |reqs| ==> ValidateData(reqs[i].dto).Some?
    ensures Run(s, reqs) == (s, [])
    decreases |reqs|
  {
    if reqs != [] {
      assert Serve(s, reqs[0]) == Step(Err(ValidateData(reqs[0].dto).value), s, []);
      assert forall i :: 0 <= i < |reqs[1..]| ==> reqs[1..][i] == reqs[i + 1];
      RejectedRequestsChangeNothing(s, reqs[1..]);
      var rest := Run(s, reqs[1..]);
      assert Run(s, reqs) == (rest.0, [] + rest.1);
      assert [] + rest.1 == [];
    }
  }

  /** No service call deletes a record, and the id counter never goes back. */
  lemma {:induction false} RecordsAreNeverDeleted(s: StoreState, reqs: seq<Request>)
    requires WellFormed(s)
    ensures s.records.Keys <= Run(s, reqs).0.records.Keys
    ensures s.nextId <= Run(s, reqs).0.nextId
    decreases |reqs|
  {
    if reqs != [] {
      var step := Serve(s, reqs[0]);
      RecordsAreNeverDeleted(step.post, reqs[1..]);
    }
  }

  /** The view's id plays no part in `insert` or `update`. */
  lemma ViewIdIsIgnored(s: StoreState, id: int, dto: ProductData, other: Option<int>)
    requires WellFormed(s)
    ensures InsertSpec(s, dto.(id := other)) == InsertSpec(s, dto)
    ensures UpdateSpec(s, id, dto.(id := other)) == UpdateSpec(s, id, dto)
  {
  }

  /** Copying a record's own projection back onto it changes nothing, and
      copying a view onto any entity and projecting the result back gives
      the view's name and price. */
  lemma ProjectionRoundTrip(record: ProductData, view: ProductData, entity: ProductData)
    ensures Copied(record, record) == record
    ensures Copied(view, entity).name == view.name && Copied(view, entity).price == view.price
  {
  }

  /** The unit tests' scenario, on a real store instead of mocks. The view is
      a projection of product 1 ("Playstation" at 10.0). Inserting it into an
      empty store answers with id 1, updating
      id 1 answers with id 1, updating the missing id 2 is `ResourceNotFound`,
      and a blank name or a negative price is `InvalidData` whether or not
      the id exists. */
  lemma PlaystationScenario()
    ensures var empty := StoreState(map[], 1);
            var view := ProductData(Some(1), Some("Playstation"), Some(10.0));
            var saved := ProductData(Some(1), Some("Playstation"), Some(10.0));
            var inserted := InsertSpec(empty, view);
            && inserted.response == Ok(saved)
            && UpdateSpec(inserted.post, 1, view).response == Ok(saved)
            && UpdateSpec(inserted.post, 2, view).response == Err(ResourceNotFound)
            && InsertSpec(empty, view.(name := Some(""))).response == Err(InvalidData)
            && InsertSpec(empty, view.(price := Some(-5.0))).response == Err(InvalidData)
            && UpdateSpec(inserted.post, 1, view.(name := Some(""))).response == Err(InvalidData)
            && UpdateSpec(inserted.post, 1, view.(price := Some(-5.0))).response == Err(InvalidData)
            && UpdateSpec(inserted.post, 2, view.(name := Some(""))).response == Err(InvalidData)
            && UpdateSpec(inserted.post, 2, view.(price := Some(-5.0))).response == Err(InvalidData)
  {
    assert "Playstation"[0] == 'P' && !IsWhitespace('P');
  }
}
