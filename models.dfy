/**
 * The catalog's entities (NoticeAPI/Models/Product.cs).
 * Category.cs is not part of this model: only the id and name columns of a
 * category are used by the core, so only those are kept.
 */
module Models {
  import opened Wrappers

  /** A row of the categories table. */
  datatype Category = Category(id: int, name: string)

  /**
   * A product. `price` is the C# `decimal` expressed in cents. `category`
   * is the navigation property filled in by the join on reads; it is `None`
   * for a product that arrives in a request body without one.
   */
  datatype Product = Product(
    id: int,
    name: string,
    price: int,
    categoryId: int,
    category: Option<Category>,
    description: string,
    stock: int,
    imageUrl: string)

  /** The setter-less computed property (spelled `IsAvaiable` in the source). */
  predicate IsAvailable(p: Product)
  {
    p.stock > 0
  }

  /** Availability is a function of the stock alone. */
  lemma AvailabilityDependsOnlyOnStock(p: Product, q: Product)
    requires p.stock == q.stock
    ensures IsAvailable(p) == IsAvailable(q)
  {
  }

  /** Writing a stock value decides availability: zero or negative is unavailable, positive is available. */
  lemma AvailabilityAfterStockWrite(p: Product, stock: int)
    ensures IsAvailable(p.(stock := stock)) <==> stock > 0
    ensures !IsAvailable(p.(stock := 0))
    ensures stock < 0 ==> !IsAvailable(p.(stock := stock))
  {
  }
}
