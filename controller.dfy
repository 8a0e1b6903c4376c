/**
 * ProductsController (NoticeAPI/Controllers/ProductsController.cs): each
 * action checks its input, calls the repository at most once and maps the
 * outcome to an HTTP result.
 */
module Controller {
  import opened Wrappers
  import opened Models
  import opened Query
  import opened Table
  import opened Repository

  /** The `IActionResult` values the actions return. */
  datatype ActionResult =
    | Ok                                      // 200, no body
    | OkProducts(products: seq<Product>)      // 200 with the page
    | OkProduct(product: Product)             // 200 with one product
    | OkCategories(categories: seq<Category>) // 200 with the category list
    | NotFound                                // 404
    | BadRequest(message: string)             // 400 with a message
    | InvalidModelState                       // 400 with the model-state errors
    | CreatedAtGetById(id: int, product: Product)  // 201, Location is GetById(id)
    | NoContent                               // 204
    | StorageFailure                          // the statement failed; the exception leaves the action

  /** Defaults of the `[FromQuery]` parameters of GetAll. */
  const DefaultPage: int := 1
  const DefaultPageSize: int := 10

  function OrDefault(value: Option<int>, default: int): int
  {
    if value.Some? then value.value else default
  }

  class ProductsController {
    const repository: ProductRepository

    ghost predicate Valid()
      reads this, repository, repository.db
    {
      repository.Valid()
    }

    constructor (repository: ProductRepository)
      requires repository.Valid()
      ensures Valid() && this.repository == repository
    {
      this.repository := repository;
    }

    /**
     * GET: binds the defaults and hands every input to the repository
     * unchecked; a page size of 0 gives an empty page, and a negative LIMIT or
     * OFFSET makes the statement fail.
     */
    method GetAll(page: Option<int>, pageSize: Option<int>, filters: Filters, scan: seq<int>) returns (r: ActionResult)
      requires Valid()
      requires IsScanOf(scan, repository.db.products)
      ensures r == StorageFailure <==> LimitRejected(OrDefault(page, DefaultPage), OrDefault(pageSize, DefaultPageSize))
      ensures r != StorageFailure ==> r.OkProducts? && |r.products| <= OrDefault(pageSize, DefaultPageSize)
      ensures r.OkProducts? ==> forall p :: p in r.products ==> MatchesFilters(filters, p) && p.id in repository.db.products
      ensures OrDefault(page, DefaultPage) >= 1 && OrDefault(pageSize, DefaultPageSize) >= 1 ==>
                r == OkProducts(Window(Matching(scan, repository.db.products, repository.db.categories, BuildClauses(filters)),
                                       Offset(OrDefault(page, DefaultPage), OrDefault(pageSize, DefaultPageSize)),
                                       OrDefault(pageSize, DefaultPageSize)))
    {
      var products := repository.GetAll(OrDefault(page, DefaultPage), OrDefault(pageSize, DefaultPageSize), filters, scan);
      if products.None? {
        return StorageFailure;
      }
      r := OkProducts(products.value);
    }

    /** GET {id}: NotFound exactly when the repository finds nothing. */
    method GetById(id: int) returns (r: ActionResult)
      requires Valid()
      ensures r.NotFound? <==> FindById(repository.db.products, repository.db.categories, id).None?
      ensures !r.NotFound? ==> r == OkProduct(FindById(repository.db.products, repository.db.categories, id).value)
      ensures r.OkProduct? ==> r.product.id == id && IsAvailable(r.product) == (repository.db.products[id].stock > 0)
    {
      var product := repository.GetById(id);
      if product.None? {
        return NotFound;
      }
      r := OkProduct(product.value);
    }

    /** POST: rejects an invalid body before any write; otherwise creates and answers with the assigned id. */
    method Create(modelStateValid: bool, product: Product) returns (r: ActionResult)
      requires Valid()
      modifies repository.db
      ensures Valid()
      ensures !modelStateValid ==> r == InvalidModelState && unchanged(repository.db)
      ensures modelStateValid ==>
                && r == CreatedAtGetById(old(repository.db.nextId), product.(id := old(repository.db.nextId)))
                && repository.db.products == old(repository.db.products)[r.id := RowOf(product)]
                && repository.db.nextId == old(repository.db.nextId) + 1
                && repository.db.categories == old(repository.db.categories)
    {
      if !modelStateValid {
        return InvalidModelState;
      }
      var created := repository.Create(product);
      r := CreatedAtGetById(created.id, created);
    }

    /** PUT {id}: a route id that differs from the body's id is rejected without a write. */
    method Update(id: int, product: Product) returns (r: ActionResult)
      requires Valid()
      modifies repository.db
      ensures Valid()
      ensures id != product.id ==> r == BadRequest("ID mismatch") && unchanged(repository.db)
      ensures id == product.id ==>
                && r == NoContent
                && repository.db.products == (if id in old(repository.db.products)
                                              then old(repository.db.products)[id := RowOf(product)]
                                              else old(repository.db.products))
                && repository.db.nextId == old(repository.db.nextId)
                && repository.db.categories == old(repository.db.categories)
    {
      if id != product.id {
        return BadRequest("ID mismatch");
      }
      repository.Update(product);
      r := NoContent;
    }

    /** DELETE {id}: always NoContent, whether or not the row existed. */
    method Delete(id: int) returns (r: ActionResult)
      requires Valid()
      modifies repository.db
      ensures Valid()
      ensures r == NoContent && repository.db.products == old(repository.db.products) - {id}
      ensures repository.db.nextId == old(repository.db.nextId) && repository.db.categories == old(repository.db.categories)
    {
      repository.Delete(id);
      r := NoContent;
    }

    /** PUT {id}/stock: a negative stock is rejected without a write. */
    method UpdateStock(id: int, stock: int) returns (r: ActionResult)
      requires Valid()
      modifies repository.db
      ensures Valid()
      ensures stock < 0 ==> r == BadRequest("Stock cannot be negative") && unchanged(repository.db)
      ensures stock >= 0 ==>
                && r == NoContent && repository.db.products == SetStock(old(repository.db.products), id, stock)
                && repository.db.nextId == old(repository.db.nextId)
                && repository.db.categories == old(repository.db.categories)
    {
      if stock < 0 {
        return BadRequest("Stock cannot be negative");
      }
      repository.UpdateStock(id, stock);
      r := NoContent;
    }

    /** POST bulk: an empty list is rejected without a write. */
    method CreateBulk(products: seq<Product>) returns (r: ActionResult)
      requires Valid()
      modifies repository.db
      ensures Valid()
      ensures products == [] ==> r == BadRequest("No products provided") && unchanged(repository.db)
      ensures products != [] ==>
                && r == Ok
                && repository.db.products == InsertAll(old(repository.db.products), old(repository.db.nextId), products)
                && repository.db.nextId == old(repository.db.nextId) + |products|
                && repository.db.categories == old(repository.db.categories)
    {
      if products == [] {
        return BadRequest("No products provided");
      }
      repository.CreateBulk(products);
      r := Ok;
    }

    /** PUT stock/bulk: an empty list is rejected without a write. */
    method UpdateStockBulk(updates: seq<(int, int)>) returns (r: ActionResult)
      requires Valid()
      modifies repository.db
      ensures Valid()
      ensures updates == [] ==> r == BadRequest("No updates provided") && unchanged(repository.db)
      ensures updates != [] ==>
                && r == NoContent && repository.db.products == ApplyStockUpdates(old(repository.db.products), updates)
                && repository.db.nextId == old(repository.db.nextId)
                && repository.db.categories == old(repository.db.categories)
    {
      if updates == [] {
        return BadRequest("No updates provided");
      }
      repository.UpdateStockBulk(updates);
      r := NoContent;
    }

    /** GET categories: the category list, through the cache; a live entry is served as it is. */
    method GetCategories(now: int) returns (r: ActionResult)
      requires Valid()
      modifies repository.cache
      ensures Valid()
      ensures r == OkCategories(if IsLive(old(repository.cache.entry), now) then old(repository.cache.entry).value.categories
                                else repository.db.categories)
      ensures repository.cache.entry == Some(CacheEntry(r.categories, now))
    {
      var categories, _ := repository.GetCategories(now);
      r := OkCategories(categories);
    }
  }
}
