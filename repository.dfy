/** The product repository the service depends on, modelled only as far as
    the service uses it, as an explicit store: a
    map from id to managed entity and the id the next insert will receive.
    `StoreState` and `SaveSpec` give the same behaviour on values; the ghost
    `log` records every call the service makes, in order. */
module Repositories {
  import opened ProductValues
  import Entities

  /** One call into the repository, with the entity's fields at call time. */
  datatype RepositoryCall = SaveCall(entity: ProductData) | GetReferenceByIdCall(id: int)

  /** The persisted records by id, and the id that `save` gives a new entity. */
  datatype StoreState = StoreState(records: map<int, ProductData>, nextId: int)

  /** Every record carries its own key as id, and every key is below the
      next id to be assigned, so a new id never clashes with a stored one. */
  predicate WellFormed(s: StoreState) {
    forall k :: k in s.records ==> s.records[k].id == Some(k) && k < s.nextId
  }

  /** `save(entity)`: an entity without id is stored under a newly assigned id;
      an entity with id `k` overwrites whatever is stored under `k`. The saved
      form keeps the entity's name and price. */
  function SaveSpec(s: StoreState, e: ProductData): (r: (ProductData, StoreState))
    requires WellFormed(s)
    ensures WellFormed(r.1)
    ensures r.0.name == e.name && r.0.price == e.price
    ensures e.id.Some? ==> r.0.id == e.id
    ensures e.id.None? ==> r.0.id == Some(s.nextId) && s.nextId !in s.records
    ensures r.0.id.Some? && r.1.records == s.records[r.0.id.value := r.0]
    ensures s.nextId <= r.1.nextId
  {
    match e.id
    case None =>
      var saved := e.(id := Some(s.nextId));
      (saved, StoreState(s.records[s.nextId := saved], s.nextId + 1))
    case Some(k) =>
      (e, StoreState(s.records[k := e], if k < s.nextId then s.nextId else k + 1))
  }

  class ProductRepository {
    var store: map<int, Entities.Product>
    var nextId: int
    ghost var Repr: set<Entities.Product>
    ghost var log: seq<RepositoryCall>

    /** The managed entities are in `Repr`, each one's id is its key, and
        every key lies below `nextId`. Distinct keys therefore hold distinct
        entities, so changing one entity changes one record only. */
    ghost predicate Valid()
      reads this, Repr
    {
      forall k :: k in store ==> store[k] in Repr && store[k].id == Some(k) && k < nextId
    }

    /** The store as values. */
    ghost function State(): (s: StoreState)
      reads this, Repr
      requires Valid()
      ensures WellFormed(s) && s.records.Keys == store.Keys
    {
      StoreState(map k | k in store :: store[k].Fields(), nextId)
    }

    /** An empty repository whose first assigned id is 1. */
    constructor ()
      ensures Valid() && State() == StoreState(map[], 1)
      ensures Repr == {} && log == []
    {
      store, nextId := map[], 1;
      Repr, log := {}, [];
    }

    method Save(entity: Entities.Product) returns (saved: Entities.Product)
      requires Valid()
      modifies this, entity
      ensures Valid() && Repr == old(Repr) + {entity}
      ensures saved == entity
      ensures saved.id.Some? && store == old(store)[saved.id.value := saved]
      ensures (saved.Fields(), State()) == SaveSpec(old(State()), old(entity.Fields()))
      ensures log == old(log) + [SaveCall(old(entity.Fields()))]
    {
      ghost var before := State();
      log := log + [SaveCall(entity.Fields())];
      if entity.id.None? {
        // No stored entity lacks an id, so this one is not in the store.
        assert forall k :: k in store ==> store[k] != entity;
        entity.id := Some(nextId);
        nextId := nextId + 1;
      } else if nextId <= entity.id.value {
        nextId := entity.id.value + 1;
      }
      store := store[entity.id.value := entity];
      Repr := Repr + {entity};
      saved := entity;
      assert State().records == before.records[entity.id.value := entity.Fields()];
    }

    /** `getReferenceById(id)`: the managed entity stored under `id`, or
        `None` where JPA would raise `EntityNotFoundException`. */
    method GetReferenceById(id: int) returns (r: Option<Entities.Product>)
      requires Valid()
      modifies this`log
      ensures Valid() && State() == old(State())
      ensures r.Some? <==> id in store
      ensures r.Some? ==> r.value == store[id] && r.value in Repr
      ensures log == old(log) + [GetReferenceByIdCall(id)]
    {
      log := log + [GetReferenceByIdCall(id)];
      if id in store {
        r := Some(store[id]);
      } else {
        r := None;
      }
    }
  }
}
