# Product service: validate, then persist

A Dafny model of the product service of `poc-example-mock-spy`. The service
takes a `ProductDTO` (a nullable id, name and price). `validateData` rejects a
blank name and then a missing or non-positive price. `insert` saves a new
`Product` entity. `update` fetches the stored entity, overwrites its name and
price in place, and saves it. Both answer with the DTO projection of the saved
entity. A missing id on update is reported as `ResourceNotFound`.

Layout, one module per file:

- `values.dfy` (`ProductValues`): `Option` for Java's nullable references; the
  failures `InvalidData`, `ResourceNotFound` and `NullPointer`; `Result`;
  `ProductData`, the three field values; Java's `Character.isWhitespace` and
  `String.isBlank`.
- `entities.dfy` (`Entities`): the `Product` entity as a class with mutable
  fields.
- `dto.dfy` (`Dto`): `ProductDTO` as a class with its three constructors and
  its setters.
- `repository.dfy` (`Repositories`): the repository as an explicit store. The
  class `ProductRepository` holds a `map<int, Product>` of managed entities
  and the next id to assign. A ghost log records every `save` and
  `getReferenceById` call in order. `StoreState` and `SaveSpec` describe the
  same store as values.
- `service.dfy` (`Services`): `ValidateData`, `Copied`, `InsertSpec` and
  `UpdateSpec` state on values what one call answers, the store after it, and
  the repository calls it makes. The class `ProductService` runs each call on
  objects. Its `Insert` and `Update` are proved to match these functions.
- `properties.dfy` (`ServiceProperties`): consequences over any sequence of
  calls, plus the unit tests' scenario run on a real store.

Validation coming before every repository access is stated through the call
log. If validation fails, the logged calls are `[]`. So `save` and
`getReferenceById` are never called. The unit tests check only the kind of
exception raised; the model also proves that no repository call is made.

A null name is not reported as invalid data. The message of the exception
raised by `validateData` (ProductService.java:51) reads "vazio ou nulo"
("empty or null"). Even so, `dto.getName().isBlank()` at line 50 dereferences
the name first, so a null name raises `NullPointerException` before that
exception can be thrown. The model reports this case as the failure
`NullPointer`. That failure is not translated in `update`, because only
`EntityNotFoundException` is caught there.

## Model

| member | source | states |
|---|---|---|
| `Services.ValidateData` | src/main/java/com/devsuperior/examplemockspy/services/ProductService.java:49-57 | a null name fails with NullPointer; a blank name fails with InvalidData whatever the price; a non-blank name with a null or non-positive price fails with InvalidData; the check passes exactly when the name is non-blank and the price is positive; it never reports ResourceNotFound |
| `Services.Copied` | src/main/java/com/devsuperior/examplemockspy/services/ProductService.java:44-47 | the entity takes the view's name and price and keeps its own id |
| `Services.ProductService.CopyDtoToEntity` | src/main/java/com/devsuperior/examplemockspy/services/ProductService.java:44-47 | the entity's fields become what `Copied` gives: name and price from the DTO, id kept; only that entity changes |
| `Services.InsertSpec` | src/main/java/com/devsuperior/examplemockspy/services/ProductService.java:22-28 | a rejected view gives the validation failure, no repository call and an unchanged store; an accepted view makes one save of an id-less entity with the view's name and price, adds exactly one record under a previously unused id, and answers with that record |
| `Services.UpdateSpec` | src/main/java/com/devsuperior/examplemockspy/services/ProductService.java:31-42 | a rejected view gives the validation failure with no repository call, even for a missing id; an accepted view for a missing id gives ResourceNotFound after one lookup, store unchanged; for a stored id it overwrites that record's name and price, keeps the id, keeps every other record, the key set and the id counter, and answers with id equal to the requested id |
| `Services.ProductService.Insert` | src/main/java/com/devsuperior/examplemockspy/services/ProductService.java:22-28 | the answer, the new store and the calls appended to the repository's log agree with `InsertSpec`; a returned DTO is a new object |
| `Services.ProductService.Update` | src/main/java/com/devsuperior/examplemockspy/services/ProductService.java:31-42 | the answer, the new store and the logged calls agree with `UpdateSpec`, the store keeps the same entity objects under the same ids, so the fetched managed entity is changed in place; EntityNotFound becomes ResourceNotFound |
| `Services.ProductService.constructor` | src/main/java/com/devsuperior/examplemockspy/services/ProductService.java:18-19 | the service uses the repository it is given |
| `Repositories.SaveSpec` | src/main/java/com/devsuperior/examplemockspy/services/ProductService.java:26 | save keeps name and price; an entity without id gets the next unused id; an entity with id k overwrites the record under k; the store stays well formed |
| `Repositories.ProductRepository.Save` | src/main/java/com/devsuperior/examplemockspy/services/ProductService.java:37 | the saved entity and the new store agree with `SaveSpec`; the entity object itself is stored under its id; one save is logged |
| `Repositories.ProductRepository.GetReferenceById` | src/main/java/com/devsuperior/examplemockspy/services/ProductService.java:35 | returns the managed entity exactly when the id is stored, and nothing otherwise (EntityNotFoundException); the store is unchanged; one lookup is logged |
| `Entities.Product.constructor` | src/main/java/com/devsuperior/examplemockspy/services/ProductService.java:24 | a new entity has null id, name and price |
| `Dto.ProductDTO.constructor` | src/main/java/com/devsuperior/examplemockspy/dto/ProductDTO.java:11-12 | id, name and price are all null |
| `Dto.ProductDTO.Of` | src/main/java/com/devsuperior/examplemockspy/dto/ProductDTO.java:14-19 | stores exactly the given id, name and price |
| `Dto.ProductDTO.FromEntity` | src/main/java/com/devsuperior/examplemockspy/dto/ProductDTO.java:21-25 | copies the entity's id, name and price exactly |
| `Dto.ProductDTO.SetId` | src/main/java/com/devsuperior/examplemockspy/dto/ProductDTO.java:31-33 | the id becomes the argument; name and price are unchanged |
| `Dto.ProductDTO.SetName` | src/main/java/com/devsuperior/examplemockspy/dto/ProductDTO.java:39-41 | the name becomes the argument, so reading it back gives the new value; id and price are unchanged |
| `Dto.ProductDTO.SetPrice` | src/main/java/com/devsuperior/examplemockspy/dto/ProductDTO.java:47-49 | the price becomes the argument; id and name are unchanged |
| `ServiceProperties.ServePersistsOnlyValidData` | src/main/java/com/devsuperior/examplemockspy/services/ProductService.java:22-42 | for one insert or update, every entity passed to save passes validation, and a store of valid records stays valid |
| `ServiceProperties.RunPersistsOnlyValidData` | src/main/java/com/devsuperior/examplemockspy/services/ProductService.java:22-42 | over any sequence of inserts and updates, every entity passed to save passes validation, and a store of valid records stays valid |
| `ServiceProperties.RejectedRequestsChangeNothing` | src/main/java/com/devsuperior/examplemockspy/services/ProductService.java:23-33 | a sequence of calls whose views all fail validation makes no repository call and leaves the store exactly as it was |
| `ServiceProperties.RecordsAreNeverDeleted` | src/main/java/com/devsuperior/examplemockspy/services/ProductService.java:22-42 | over any sequence of calls, no stored id disappears and the id counter never decreases |
| `ServiceProperties.ViewIdIsIgnored` | src/main/java/com/devsuperior/examplemockspy/services/ProductService.java:44-47 | changing the view's id changes nothing in what insert or update do |
| `ServiceProperties.ProjectionRoundTrip` | src/main/java/com/devsuperior/examplemockspy/dto/ProductDTO.java:21-25 | copying a record's projection back onto it changes nothing; copying a view onto an entity and projecting it back gives the view's name and price |
| `ServiceProperties.PlaystationScenario` | src/test/java/com/devsuperior/examplemockspy/services/ProductServiceTests.java:36-165 | on a real store, with the tests' view (id 1, "Playstation", 10.0): insert answers with the assigned id 1 and the input name; update of id 1 answers with id 1; update of the missing id 2 gives ResourceNotFound; a blank name or a negative price gives InvalidData on insert, on update of id 1 and on update of the missing id 2 |

## Left out

- Spring wiring: the repository is passed to the service's constructor instead of being injected. Each call is treated as one atomic step, with no separate transaction handling.
- The `Product` entity and the JPA repository are modelled only as far as the service uses them. The repository is an in-memory map of managed entities with an id counter starting at 1. Only the entity's id, name and price are modelled.
- `Repositories.SaveSpec`: an entity whose id is not stored is modelled as being inserted under that id. The service never saves such an entity, and what JPA's `merge` does then is up to the persistence provider.
- Deferred lookups: `getReferenceById` may raise `EntityNotFoundException` only when the reference is first used. Every such exception in the `try` block is translated the same way, so the model checks existence immediately.
- Null DTO: `insert(null)` and `update(id, null)` raise `NullPointerException` at `dto.getName()`. The model's `ProductDTO` parameters are non-null references, so this case is not modelled.
- Null id in `update`: the model's id is a plain integer. A null `Long` id would make the repository raise `IllegalArgumentException`, which is not modelled.
- Prices are real numbers, not `Double`. NaN, infinities and rounding are not modelled; NaN, for example, would pass the `<= 0` test.
- `IsWhitespace` follows `Character.isWhitespace` for every code point. Strings are sequences of Unicode scalar values, so unpaired surrogates cannot occur.
- Exception messages are not modelled; the failure kind is all that is kept.
- The unused `new Product()` in `update` is left out. It is overwritten immediately by the fetched entity.
- The Java getters `getId`, `getName` and `getPrice` are reads of the public `id`, `name` and `price` fields of `ProductDTO`, so they have no members of their own.
- Mockito spies and mocks: the tests replace `validateData` and the repository with stubs. `PlaystationScenario` runs all nine of their cases against the real validation and a real store instead.
- Failures from the persistence layer itself, which propagate unchanged, are not modelled.
