/** `ProductService`: validate the incoming view, then persist through the
    repository and answer with the projection of the saved entity.
    `ValidateData`, `Copied`, `InsertSpec` and `UpdateSpec` say on
    values what one call does: its response, the repository state after it,
    and the repository calls it makes, in order. The class `ProductService`
    does it on objects and is proved to agree with them. */
module Services {
  import opened ProductValues
  import opened Repositories
  import Entities
  import Dto

  /** `validateData`: the name is dereferenced and tested for blankness first,
      and only then is the price tested for null or non-positive.
      `None` means the check returns normally. */
  function ValidateData(dto: ProductData): (r: Option<Failure>)
    ensures dto.name.None? ==> r == Some(NullPointer)
    ensures dto.name.Some? && IsBlank(dto.name.value) ==> r == Some(InvalidData)
    ensures (dto.name.Some? && !IsBlank(dto.name.value) && (dto.price.None? || dto.price.value <= 0.0))
              ==> r == Some(InvalidData)
    ensures r == None <==>
              dto.name.Some? && !IsBlank(dto.name.value) && dto.price.Some? && dto.price.value > 0.0
    ensures r != Some(ResourceNotFound)
  {
    if dto.name.None? then Some(NullPointer)
    else if IsBlank(dto.name.value) then Some(InvalidData)
    else if dto.price.None? || dto.price.value <= 0.0 then Some(InvalidData)
    else None
  }

  /** What `copyDtoToEntity` makes of an entity: it takes the view's name and
      price and keeps its own id. */
  function Copied(dto: ProductData, entity: ProductData): (r: ProductData)
    ensures r.id == entity.id && r.name == dto.name && r.price == dto.price
  {
    entity.(name := dto.name, price := dto.price)
  }

  /** The outcome of one service call. */
  datatype Step = Step(response: Result<ProductData>, post: StoreState, calls: seq<RepositoryCall>)

  /** `insert(dto)`. A rejected view makes no repository call and leaves the
      store as it was. An accepted one is saved exactly once, as a new entity
      carrying the view's name and price and no id (the view's id is ignored),
      and the answer is the saved record under its newly assigned id. */
  function InsertSpec(s: StoreState, dto: ProductData): (r: Step)
    requires WellFormed(s)
    ensures WellFormed(r.post)
    ensures ValidateData(dto).Some? ==> r == Step(Err(ValidateData(dto).value), s, [])
    ensures ValidateData(dto).None? ==>
              && r.response == Ok(ProductData(Some(s.nextId), dto.name, dto.price))
              && s.nextId !in s.records
              && r.post.records == s.records[s.nextId := r.response.value]
              && r.calls == [SaveCall(ProductData(None, dto.name, dto.price))]
  {
    match ValidateData(dto)
    case Some(f) => Step(Err(f), s, [])
    case None =>
      var entity := Copied(dto, ProductData(None, None, None));
      var (saved, post) := SaveSpec(s, entity);
      Step(Ok(saved), post, [SaveCall(entity)])
  }

  /** `update(id, dto)`. A rejected view makes no repository call, whether or
      not `id` exists. An accepted view for a missing id ends in
      `ResourceNotFound` after the one failed lookup, with the store as it
      was. An accepted view for a stored id overwrites that record's name and
      price, keeps its id, leaves every other record and the id counter
      alone, and answers with the updated record. */
  function UpdateSpec(s: StoreState, id: int, dto: ProductData): (r: Step)
    requires WellFormed(s)
    ensures WellFormed(r.post)
    ensures ValidateData(dto).Some? ==> r == Step(Err(ValidateData(dto).value), s, [])
    ensures ValidateData(dto).None? && id !in s.records ==>
              r == Step(Err(ResourceNotFound), s, [GetReferenceByIdCall(id)])
    ensures ValidateData(dto).None? && id in s.records ==>
              && r.response == Ok(ProductData(Some(id), dto.name, dto.price))
              && r.post.records.Keys == s.records.Keys
              && r.post.records[id] == r.response.value
              && (forall k :: k in s.records && k != id ==> r.post.records[k] == s.records[k])
              && r.post.nextId == s.nextId
              && r.calls == [GetReferenceByIdCall(id), SaveCall(r.response.value)]
  {
    match ValidateData(dto)
    case Some(f) => Step(Err(f), s, [])
    case None =>
      if id !in s.records then Step(Err(ResourceNotFound), s, [GetReferenceByIdCall(id)])
      else
        var entity := Copied(dto, s.records[id]);
        var (saved, post) := SaveSpec(s, entity);
        Step(Ok(saved), post, [GetReferenceByIdCall(id), SaveCall(entity)])
  }

  /** The fields of a response, read from the returned view. */
  ghost function Response(r: Result<Dto.ProductDTO>): Result<ProductData>
    reads if r.Ok? then {r.value} else {}
  {
    match r
    case Ok(view) => Ok(view.Fields())
    case Err(f) => Err(f)
  }

  class ProductService {
    const repository: ProductRepository

    /** The repository is passed in rather than injected. */
    constructor (repository: ProductRepository)
      ensures this.repository == repository
    {
      this.repository := repository;
    }

    method CopyDtoToEntity(dto: Dto.ProductDTO, entity: Entities.Product)
      modifies entity
      ensures entity.Fields() == Copied(dto.Fields(), old(entity.Fields()))
    {
      entity.name := dto.name;
      entity.price := dto.price;
    }

    method Insert(dto: Dto.ProductDTO) returns (r: Result<Dto.ProductDTO>)
      requires repository.Valid()
      modifies repository, repository.Repr
      ensures repository.Valid() && fresh(repository.Repr - old(repository.Repr))
      ensures var step := InsertSpec(old(repository.State()), old(dto.Fields()));
              && Response(r) == step.response
              && repository.State() == step.post
              && repository.log == old(repository.log) + step.calls
      ensures r.Ok? ==> fresh(r.value)
    {
      var check := ValidateData(dto.Fields());
      if check.Some? {
        return Err(check.value);
      }
      var entity := new Entities.Product();
      CopyDtoToEntity(dto, entity);
      entity := repository.Save(entity);
      var view := new Dto.ProductDTO.FromEntity(entity);
      return Ok(view);
    }

    method Update(id: int, dto: Dto.ProductDTO) returns (r: Result<Dto.ProductDTO>)
      requires repository.Valid()
      modifies repository, repository.Repr
      ensures repository.Valid() && repository.Repr == old(repository.Repr)
      ensures repository.store == old(repository.store)
      ensures var step := UpdateSpec(old(repository.State()), id, old(dto.Fields()));
              && Response(r) == step.response
              && repository.State() == step.post
              && repository.log == old(repository.log) + step.calls
      ensures r.Ok? ==> fresh(r.value)
    {
      var check := ValidateData(dto.Fields());
      if check.Some? {
        return Err(check.value);
      }
      var fetched := repository.GetReferenceById(id);
      if fetched.None? {
        // EntityNotFoundException is rethrown as ResourceNotFoundException.
        return Err(ResourceNotFound);
      }
      var entity := fetched.value;
      ghost var before := repository.State();
      // The fetched entity is managed: changing it changes the stored record
      // under `id` and no other, since every other key holds another entity.
      assert forall k :: k in repository.store && k != id ==> repository.store[k] != entity;
      CopyDtoToEntity(dto, entity);
      assert repository.Valid();
      assert repository.State().records == before.records[id := entity.Fields()];
      entity := repository.Save(entity);
      var view := new Dto.ProductDTO.FromEntity(entity);
      return Ok(view);
    }
  }
}
