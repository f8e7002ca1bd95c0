/**
 * The product entity: a mutable record of five fields whose `id` is the primary
 * key. Every field may hold any value of its type; nothing is validated.
 */
module Model {
  import opened Common

  /** Java `int`. */
  newtype int32 = x: int | -0x8000_0000 <= x < 0x8000_0000

  /**
   * The discriminator value a stored row may carry (the three subclasses and
   * the base class). The subclasses add no fields and no behaviour.
   */
  datatype ProductType = BaseProduct | Clothing | Electronics | Grocery

  /** The five field values of a product at one moment. */
  datatype ProductData = ProductData(
    id: Option<string>,
    name: Option<string>,
    category: Option<string>,
    price: Option<real>,
    stockQuantity: int32)

  class Product {
    var id: Option<string>
    var name: Option<string>
    var category: Option<string>
    var price: Option<real>
    var stockQuantity: int32

    /** The no-argument constructor: every reference field null, the quantity 0. */
    constructor Empty()
      ensures Data() == ProductData(None, None, None, None, 0)
    {
      id, name, category, price, stockQuantity := None, None, None, None, 0;
    }

    /** Stores its five arguments unchanged; negative quantities and any price are accepted. */
    constructor (id: Option<string>, name: Option<string>, category: Option<string>,
                 price: Option<real>, stockQuantity: int32)
      ensures Data() == ProductData(id, name, category, price, stockQuantity)
    {
      this.id := id;
      this.name := name;
      this.category := category;
      this.price := price;
      this.stockQuantity := stockQuantity;
    }

    /** The current values of the five fields. */
    function Data(): ProductData
      reads this
    {
      ProductData(id, name, category, price, stockQuantity)
    }

    function GetId(): (r: Option<string>)
      reads this
      ensures r == Data().id
    {
      id
    }

    function GetName(): (r: Option<string>)
      reads this
      ensures r == Data().name
    {
      name
    }

    function GetCategory(): (r: Option<string>)
      reads this
      ensures r == Data().category
    {
      category
    }

    function GetPrice(): (r: Option<real>)
      reads this
      ensures r == Data().price
    {
      price
    }

    function GetStockQuantity(): (r: int32)
      reads this
      ensures r == Data().stockQuantity
    {
      stockQuantity
    }

    method SetId(id: Option<string>)
      modifies this
      ensures Data() == old(Data()).(id := id)
    {
      this.id := id;
    }

    method SetName(name: Option<string>)
      modifies this
      ensures Data() == old(Data()).(name := name)
    {
      this.name := name;
    }

    method SetCategory(category: Option<string>)
      modifies this
      ensures Data() == old(Data()).(category := category)
    {
      this.category := category;
    }

    method SetPrice(price: Option<real>)
      modifies this
      ensures Data() == old(Data()).(price := price)
    {
      this.price := price;
    }

    method SetStockQuantity(stockQuantity: int32)
      modifies this
      ensures Data() == old(Data()).(stockQuantity := stockQuantity)
    {
      this.stockQuantity := stockQuantity;
    }
  }
}
