/**
 * The two tables the repository reads and writes, as values: the products
 * table keyed by id, the categories table, the inner join that attaches a
 * category to each product row, and the effect of the multi-row statements.
 */
module Table {
  import opened Wrappers
  import opened Models
  import opened Query

  /** The six columns of `products` that INSERT and UPDATE write (`id` is the map key). */
  datatype Row = Row(
    name: string,
    description: string,
    price: int,
    stock: int,
    categoryId: int,
    imageUrl: string)

  type Products = map<int, Row>

  /** The columns bound from a product's properties; its `Id` and `Category` are not among them. */
  function RowOf(p: Product): Row
  {
    Row(p.name, p.description, p.price, p.stock, p.categoryId, p.imageUrl)
  }

  /** `id` is the primary key of `categories`. */
  ghost predicate UniqueIds(categories: seq<Category>)
  {
    forall i, j :: 0 <= i < j < |categories| ==> categories[i].id != categories[j].id
  }

  /** The category row the join condition `p.category_id = c.id` selects, if any. */
  function CategoryById(categories: seq<Category>, id: int): (r: Option<Category>)
    ensures r.Some? ==> r.value in categories && r.value.id == id
    ensures r.None? ==> forall c :: c in categories ==> c.id != id
  {
    if categories == [] then None
    else if categories[0].id == id then Some(categories[0])
    else CategoryById(categories[1..], id)
  }

  /** With unique ids, the join finds exactly the category carrying that id. */
  lemma CategoryByIdFinds(categories: seq<Category>, c: Category)
    requires UniqueIds(categories) && c in categories
    ensures CategoryById(categories, c.id) == Some(c)
  {
  }

  /**
   * One row of the INNER JOIN, mapped as the source's lambda does: the
   * product columns with `Category` set to the joined row. A product row
   * whose category_id matches no category yields nothing.
   */
  function Join(id: int, row: Row, categories: seq<Category>): (r: Option<Product>)
    ensures r.Some? <==> exists c :: c in categories && c.id == row.categoryId
    ensures r.Some? ==> r.value.id == id && RowOf(r.value) == row
    ensures r.Some? ==> r.value.category.Some? && r.value.category.value in categories
                        && r.value.category.value.id == r.value.categoryId
  {
    match CategoryById(categories, row.categoryId)
    case None => None
    case Some(c) => Some(Product(id, row.name, row.price, row.categoryId, Some(c), row.description, row.stock, row.imageUrl))
  }

  /**
   * The same join as the source's default Dapper mapping performs it: a
   * column fills only the property whose name equals it up to case, so
   * `category_id` and `image_url` fill nothing, and `CategoryId` and
   * `ImageUrl` keep their defaults 0 and null (null strings are not
   * modelled; the empty string stands for it).
   */
  function JoinAsWritten(id: int, row: Row, categories: seq<Category>): Option<Product>
  {
    match CategoryById(categories, row.categoryId)
    case None => None
    case Some(c) => Some(Product(id, row.name, row.price, 0, Some(c), row.description, row.stock, []))
  }

  /** Read back under the default mapping, a row loses its `category_id` and `image_url`, unlike `Join`. */
  lemma ReadAsWrittenLosesColumns(id: int, row: Row, categories: seq<Category>)
    requires exists c :: c in categories && c.id == row.categoryId
    ensures var r := JoinAsWritten(id, row, categories);
            && r.Some? && RowOf(r.value) == row.(categoryId := 0, imageUrl := [])
            && (row.categoryId != 0 ==> RowOf(r.value) != row && r.value.category.value.id != r.value.categoryId)
            && RowOf(Join(id, row, categories).value) == row
  {
  }

  /** `... WHERE p.id = @Id` followed by `FirstOrDefault()`. */
  function FindById(products: Products, categories: seq<Category>, id: int): (r: Option<Product>)
    ensures r.Some? <==> id in products && exists c :: c in categories && c.id == products[id].categoryId
    ensures r.Some? ==> r.value.id == id && RowOf(r.value) == products[id]
  {
    if id in products then Join(id, products[id], categories) else None
  }

  ghost predicate DistinctIds(ps: seq<Product>)
  {
    forall i, j :: 0 <= i < j < |ps| ==> ps[i].id != ps[j].id
  }

  /**
   * The joined rows that satisfy every clause, in the order in which storage
   * produces the product ids (`scan`); the query has no ORDER BY, so that
   * order is the storage engine's choice.
   */
  function Matching(scan: seq<int>, products: Products, categories: seq<Category>, cs: seq<Clause>): (r: seq<Product>)
    ensures |r| <= |scan|
    ensures forall p :: p in r ==> p.id in scan && p.id in products && Qualifies(cs, p)
                                   && Join(p.id, products[p.id], categories) == Some(p)
    ensures Distinct(scan) ==> DistinctIds(r)
  {
    if scan == [] then []
    else
      var rest := Matching(scan[1..], products, categories, cs);
      var id := scan[0];
      if id !in products then rest
      else match Join(id, products[id], categories)
        case None => rest
        case Some(p) => if Qualifies(cs, p) then [p] + rest else rest
  }

  /** Every joined row of a scanned id that satisfies the clauses is in the result. */
  lemma {:induction false} MatchingComplete(scan: seq<int>, products: Products, categories: seq<Category>,
                                            cs: seq<Clause>, p: Product)
    requires p.id in scan && p.id in products
    requires Join(p.id, products[p.id], categories) == Some(p) && Qualifies(cs, p)
    ensures p in Matching(scan, products, categories, cs)
  {
    if scan[0] != p.id {
      MatchingComplete(scan[1..], products, categories, cs, p);
    }
  }

  // ---------------------------------------------------------------------------
  // Writes

  /** `UPDATE products SET stock = @Stock WHERE id = @Id` */
  function SetStock(products: Products, id: int, stock: int): (r: Products)
    ensures r.Keys == products.Keys
    ensures id in products ==> r[id].stock == stock && r[id].(stock := products[id].stock) == products[id]
    ensures forall k :: k in products && k != id ==> r[k] == products[k]
  {
    if id in products then products[id := products[id].(stock := stock)] else products
  }

  /** The stock statement executed once per (id, stock) pair, in order. */
  function ApplyStockUpdates(products: Products, updates: seq<(int, int)>): (r: Products)
    ensures r.Keys == products.Keys
  {
    if updates == [] then products
    else
      var last := updates[|updates| - 1];
      SetStock(ApplyStockUpdates(products, updates[..|updates| - 1]), last.0, last.1)
  }

  /** The stock statements add and remove no row and change no column but `stock`. */
  lemma {:induction false} StockUpdatesOnlyTouchStock(products: Products, updates: seq<(int, int)>)
    ensures var r := ApplyStockUpdates(products, updates);
            r.Keys == products.Keys
            && forall id :: id in products ==> r[id] == products[id].(stock := r[id].stock)
  {
    if updates != [] {
      StockUpdatesOnlyTouchStock(products, updates[..|updates| - 1]);
    }
  }

  /** A row no update names keeps its stock. */
  lemma {:induction false} StockUpdatesSkipUnnamed(products: Products, updates: seq<(int, int)>, id: int)
    requires id in products
    requires forall k :: 0 <= k < |updates| ==> updates[k].0 != id
    ensures id in ApplyStockUpdates(products, updates)
    ensures ApplyStockUpdates(products, updates)[id] == products[id]
  {
    if updates != [] {
      StockUpdatesSkipUnnamed(products, updates[..|updates| - 1], id);
    }
  }

  /** A named row ends with the stock of the last update naming it. */
  lemma {:induction false} StockUpdatesLastWins(products: Products, updates: seq<(int, int)>, k: int)
    requires 0 <= k < |updates| && updates[k].0 in products
    requires forall j :: k < j < |updates| ==> updates[j].0 != updates[k].0
    ensures updates[k].0 in ApplyStockUpdates(products, updates)
    ensures ApplyStockUpdates(products, updates)[updates[k].0].stock == updates[k].1
  {
    StockUpdatesOnlyTouchStock(products, updates);
    var init := updates[..|updates| - 1];
    if k < |updates| - 1 {
      StockUpdatesLastWins(products, init, k);
      StockUpdatesOnlyTouchStock(products, init);
    } else {
      StockUpdatesOnlyTouchStock(products, init);
    }
  }

  /** The INSERT executed once per product, storage assigning ids `next`, `next + 1`, ... */
  function InsertAll(products: Products, next: int, ps: seq<Product>): (r: Products)
    ensures products.Keys <= r.Keys
    ensures forall id :: id in r && id !in products ==> next <= id < next + |ps|
  {
    if ps == [] then products
    else InsertAll(products, next, ps[..|ps| - 1])[next + |ps| - 1 := RowOf(ps[|ps| - 1])]
  }

  /** One new row per product under consecutive fresh ids; the existing rows are untouched. */
  lemma {:induction false} InsertAllContents(products: Products, next: int, ps: seq<Product>)
    requires forall id :: id in products ==> id < next
    ensures var r := InsertAll(products, next, ps);
            && (forall id :: id in r <==> id in products || next <= id < next + |ps|)
            && (forall i :: 0 <= i < |ps| ==> r[next + i] == RowOf(ps[i]))
            && (forall id :: id in products ==> r[id] == products[id])
  {
    if ps != [] {
      var init := ps[..|ps| - 1];
      InsertAllContents(products, next, init);
      forall i | 0 <= i < |init| ensures init[i] == ps[i] { }
    }
  }

  // ---------------------------------------------------------------------------
  // What reads see after writes

  /** A created product is found under its new id with every column as given, unless its category is missing. */
  lemma InsertThenFind(products: Products, categories: seq<Category>, id: int, p: Product)
    requires UniqueIds(categories)
    ensures var found := FindById(products[id := RowOf(p)], categories, id);
            && (found.Some? <==> exists c :: c in categories && c.id == p.categoryId)
            && (found.Some? ==> found.value == p.(id := id, category := found.value.category))
  {
  }

  /** Setting the stock to zero makes the product read back as unavailable. */
  lemma ZeroStockReadsUnavailable(products: Products, categories: seq<Category>, id: int)
    ensures var found := FindById(SetStock(products, id, 0), categories, id);
            found.Some? ==> !IsAvailable(found.value)
  {
  }

  /** A deleted id is not found again. */
  lemma DeleteThenFind(products: Products, categories: seq<Category>, id: int)
    ensures FindById(products - {id}, categories, id) == None
  {
  }
}
