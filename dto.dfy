/** `ProductDTO`: a mutable holder of a nullable id, name and price. The Java
    getters are reads of the public fields `id`, `name` and `price`. */
module Dto {
  import opened ProductValues
  import Entities

  class ProductDTO {
    var id: Option<int>
    var name: Option<string>
    var price: Option<real>

    /** The default constructor leaves all three fields null. */
    constructor ()
      ensures Fields() == ProductData(None, None, None)
    {
      id, name, price := None, None, None;
    }

    /** The three-argument constructor stores exactly what it is given. */
    constructor Of(id: Option<int>, name: Option<string>, price: Option<real>)
      ensures this.id == id && this.name == name && this.price == price
    {
      this.id, this.name, this.price := id, name, price;
    }

    /** The projection of an entity: a field-for-field copy of its id, name
        and price. The entity itself is not changed. */
    constructor FromEntity(entity: Entities.Product)
      ensures Fields() == entity.Fields()
    {
      id, name, price := entity.id, entity.name, entity.price;
    }

    function Fields(): ProductData
      reads this
    {
      ProductData(id, name, price)
    }

    method SetId(id: Option<int>)
      modifies this
      ensures this.id == id && name == old(name) && price == old(price)
    {
      this.id := id;
    }

    method SetName(name: Option<string>)
      modifies this
      ensures this.name == name && id == old(id) && price == old(price)
    {
      this.name := name;
    }

    method SetPrice(price: Option<real>)
      modifies this
      ensures this.price == price && id == old(id) && name == old(name)
    {
      this.price := price;
    }
  }
}
