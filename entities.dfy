/** The `Product` entity, modelled only as far as the service uses it: the three nullable fields,
    the default constructor and (as plain field writes) the setters. */
module Entities {
  import opened ProductValues

  class Product {
    var id: Option<int>
    var name: Option<string>
    var price: Option<real>

    /** `new Product()`: every field is null. */
    constructor ()
      ensures id == None && name == None && price == None
    {
      id, name, price := None, None, None;
    }

    /** The entity's current field values. */
    function Fields(): ProductData
      reads this
    {
      ProductData(id, name, price)
    }
  }
}
