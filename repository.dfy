/**
 * ProductRepository (NoticeAPI/Repositories/ProductRepository.cs) over an
 * in-memory model of its storage and of the shared in-memory cache.
 */
module Repository {
  import opened Wrappers
  import opened Models
  import opened Query
  import opened Table

  /** The MariaDB database: the products table, the categories table and the AUTO_INCREMENT counter of `products.id`. */
  class Database {
    var products: Products
    var categories: seq<Category>
    var nextId: int

    /** Ids are positive and below the counter, so the next id is fresh; category ids are a primary key. */
    ghost predicate Valid()
      reads this
    {
      && nextId >= 1
      && (forall id :: id in products ==> 1 <= id < nextId)
      && UniqueIds(categories)
    }

    constructor (categories: seq<Category>)
      requires UniqueIds(categories)
      ensures Valid()
      ensures products == map[] && this.categories == categories && nextId == 1
    {
      products := map[];
      this.categories := categories;
      nextId := 1;
    }
  }

  /** `TimeSpan.FromMinutes(10)`, with time measured in milliseconds. */
  const SlidingExpiration: int := 10 * 60 * 1000

  datatype CacheEntry = CacheEntry(categories: seq<Category>, lastAccess: int)

  /** An entry with sliding expiration is expired once the time since its last access reaches the window. */
  predicate IsLive(entry: Option<CacheEntry>, now: int)
    ensures entry.Some? && entry.value.lastAccess <= now < entry.value.lastAccess + 10 * 60 * 1000 ==> IsLive(entry, now)
    ensures entry.Some? && now >= entry.value.lastAccess + 10 * 60 * 1000 ==> !IsLive(entry, now)
    ensures entry.None? ==> !IsLive(entry, now)
  {
    entry.Some? && now - entry.value.lastAccess < SlidingExpiration
  }

  /** The process-wide IMemoryCache, restricted to the one key "Categories" the repository uses. */
  class MemoryCache {
    var entry: Option<CacheEntry>

    constructor ()
      ensures entry == None
    {
      entry := None;
    }

    /** `TryGetValue`: a live entry is returned and its last access moves to `now`; an expired one is evicted. */
    method TryGetValue(now: int) returns (found: bool, value: seq<Category>)
      modifies this
      ensures found == IsLive(old(entry), now)
      ensures found ==> value == old(entry).value.categories && entry == Some(CacheEntry(value, now))
      ensures !found ==> entry == None
    {
      if IsLive(entry, now) {
        value := entry.value.categories;
        entry := Some(CacheEntry(value, now));
        found := true;
      } else {
        entry := None;
        found, value := false, [];
      }
    }

    /** `Set` with a sliding expiration: the entry is replaced and counts as accessed at `now`. */
    method Set(value: seq<Category>, now: int)
      modifies this
      ensures entry == Some(CacheEntry(value, now))
    {
      entry := Some(CacheEntry(value, now));
    }
  }

  /** The storage lists every product id exactly once, in an order of its own choosing. */
  ghost predicate IsScanOf(scan: seq<int>, products: Products)
  {
    Distinct(scan) && forall id :: id in scan <==> id in products
  }

  class ProductRepository {
    const db: Database
    const cache: MemoryCache

    /**
     * The storage invariant. The shared cache is not tied to the table: an
     * entry loaded before the table changed elsewhere is served while live.
     */
    ghost predicate Valid()
      reads this, db
    {
      db.Valid()
    }

    /** Stores the storage handle and the shared cache, whatever the cache holds. */
    constructor (db: Database, cache: MemoryCache)
      requires db.Valid()
      ensures Valid() && this.db == db && this.cache == cache
      ensures cache.entry == old(cache.entry)
    {
      this.db := db;
      this.cache := cache;
    }

    /**
     * The filtered search: the joined rows that satisfy the clauses built
     * from `filters`, after skipping `(page - 1) * pageSize` of them, at most
     * `pageSize` of them. `scan` is the order in which storage produces rows.
     * `None` is the statement failing on a negative LIMIT or OFFSET.
     */
    method GetAll(page: int, pageSize: int, filters: Filters, scan: seq<int>) returns (result: Option<seq<Product>>)
      requires Valid()
      requires IsScanOf(scan, db.products)
      ensures result.None? <==> LimitRejected(page, pageSize)
      ensures result.Some? ==> |result.value| <= pageSize
      ensures result.Some? ==> forall p :: p in result.value ==>
                && p.id in db.products && RowOf(p) == db.products[p.id]
                && MatchesFilters(filters, p)
                && p.category.Some? && p.category.value in db.categories && p.category.value.id == p.categoryId
      ensures result.Some? ==> DistinctIds(result.value)
      ensures page >= 1 && pageSize >= 1 ==>
                result == Some(Window(Matching(scan, db.products, db.categories, BuildClauses(filters)),
                                      Offset(page, pageSize), pageSize))
    {
      LimitRejectedCases(page, pageSize);
      if LimitRejected(page, pageSize) {
        return None;
      }
      if pageSize == 0 {
        // LIMIT 0, whatever the page
        return Some([]);
      }
      var clauses := BuildClauses(filters);
      var offset := Offset(page, pageSize);
      var rows := Matching(scan, db.products, db.categories, clauses);
      var window := Window(rows, offset, pageSize);
      forall p | p in window
        ensures MatchesFilters(filters, p)
      {
        BuildClausesMeaning(filters, p);
      }
      result := Some(window);
    }

    /** The product with that id joined with its category, or `None` (C#'s null) when there is no such joined row. */
    method GetById(id: int) returns (product: Option<Product>)
      requires Valid()
      ensures product == FindById(db.products, db.categories, id)
      ensures product.Some? <==> id in db.products && CategoryById(db.categories, db.products[id].categoryId).Some?
      ensures product.Some? ==> && product.value.id == id && RowOf(product.value) == db.products[id]
                                && product.value.category == CategoryById(db.categories, db.products[id].categoryId)
    {
      product := FindById(db.products, db.categories, id);
    }

    /** One `INSERT INTO products ...`: a new row under the next AUTO_INCREMENT value, which `LAST_INSERT_ID()` returns. */
    method Insert(row: Row) returns (id: int)
      requires Valid()
      modifies db
      ensures Valid()
      ensures id == old(db.nextId) && id >= 1 && id !in old(db.products)
      ensures db.products == old(db.products)[id := row]
      ensures db.nextId == old(db.nextId) + 1 && db.categories == old(db.categories)
    {
      id := db.nextId;
      db.products := db.products[id := row];
      db.nextId := db.nextId + 1;
    }

    /** Stores the six columns (any incoming id is ignored) and returns the product with its new id written in. */
    method Create(product: Product) returns (created: Product)
      requires Valid()
      modifies db
      ensures Valid()
      ensures created == product.(id := old(db.nextId))
      ensures created.id >= 1 && created.id !in old(db.products)
      ensures db.products == old(db.products)[created.id := RowOf(product)]
      ensures db.nextId == old(db.nextId) + 1 && db.categories == old(db.categories)
    {
      var id := Insert(RowOf(product));
      created := product.(id := id);
    }

    /** Overwrites the six columns of the row with `product.id`; no row, no change. */
    method Update(product: Product)
      requires Valid()
      modifies db
      ensures Valid()
      ensures db.products == if product.id in old(db.products) then old(db.products)[product.id := RowOf(product)]
                             else old(db.products)
      ensures db.nextId == old(db.nextId) && db.categories == old(db.categories)
    {
      if product.id in db.products {
        db.products := db.products[product.id := RowOf(product)];
      }
    }

    /** Removes the row with that id, if any. */
    method Delete(id: int)
      requires Valid()
      modifies db
      ensures Valid()
      ensures db.products == old(db.products) - {id}
      ensures db.nextId == old(db.nextId) && db.categories == old(db.categories)
    {
      db.products := db.products - {id};
    }

    /** Sets the stock column of the row with that id, if any. */
    method UpdateStock(id: int, stock: int)
      requires Valid()
      modifies db
      ensures Valid()
      ensures db.products == SetStock(old(db.products), id, stock)
      ensures db.nextId == old(db.nextId) && db.categories == old(db.categories)
    {
      if id in db.products {
        db.products := db.products[id := db.products[id].(stock := stock)];
      }
    }

    /** The INSERT executed once per product, in order; the assigned ids are not written back. */
    method CreateBulk(products: seq<Product>)
      requires Valid()
      modifies db
      ensures Valid()
      ensures db.products == InsertAll(old(db.products), old(db.nextId), products)
      ensures db.nextId == old(db.nextId) + |products| && db.categories == old(db.categories)
    {
      var i := 0;
      while i < |products|
        invariant 0 <= i <= |products|
        invariant Valid()
        invariant db.products == InsertAll(old(db.products), old(db.nextId), products[..i])
        invariant db.nextId == old(db.nextId) + i && db.categories == old(db.categories)
      {
        assert products[..i + 1][..i] == products[..i];
        var _ := Insert(RowOf(products[i]));
        i := i + 1;
      }
      assert products[..i] == products;
    }

    /** The stock UPDATE executed once per pair, in order, so a later pair for the same id wins. */
    method UpdateStockBulk(updates: seq<(int, int)>)
      requires Valid()
      modifies db
      ensures Valid()
      ensures db.products == ApplyStockUpdates(old(db.products), updates)
      ensures db.nextId == old(db.nextId) && db.categories == old(db.categories)
    {
      var i := 0;
      while i < |updates|
        invariant 0 <= i <= |updates|
        invariant Valid()
        invariant db.products == ApplyStockUpdates(old(db.products), updates[..i])
        invariant db.nextId == old(db.nextId) && db.categories == old(db.categories)
      {
        assert updates[..i + 1][..i] == updates[..i];
        UpdateStock(updates[i].0, updates[i].1);
        i := i + 1;
      }
      assert updates[..i] == updates;
    }

    /**
     * Read-through cache in front of `SELECT * FROM categories`: a live entry
     * is returned without a query, even when the table has changed since it
     * was loaded; otherwise the table is loaded and cached. Either way the
     * entry ends up holding the returned list, last accessed at `now`.
     */
    method GetCategories(now: int) returns (categories: seq<Category>, ghost queried: bool)
      requires Valid()
      modifies cache
      ensures Valid()
      ensures queried <==> !IsLive(old(cache.entry), now)
      ensures !queried ==> categories == old(cache.entry).value.categories
      ensures queried ==> categories == db.categories
      ensures cache.entry == Some(CacheEntry(categories, now))
    {
      var found, cached := cache.TryGetValue(now);
      if found {
        categories, queried := cached, false;
      } else {
        categories := db.categories;
        cache.Set(categories, now);
        queried := true;
      }
    }
  }

  /**
   * Two reads of the category list: the second is served from the cache, and
   * equals the first, exactly when it comes less than ten minutes after it.
   */
  method GetCategoriesTwice(repository: ProductRepository, first: int, second: int)
    returns (list1: seq<Category>, list2: seq<Category>, ghost secondQueried: bool)
    requires repository.Valid()
    modifies repository.cache
    ensures repository.Valid()
    ensures list1 == if IsLive(old(repository.cache.entry), first) then old(repository.cache.entry).value.categories
                     else repository.db.categories
    ensures secondQueried <==> second - first >= SlidingExpiration
    ensures !secondQueried ==> list2 == list1
    ensures secondQueried ==> list2 == repository.db.categories
    ensures repository.cache.entry == Some(CacheEntry(list2, second))
  {
    ghost var q1;
    list1, q1 := repository.GetCategories(first);
    list2, secondQueried := repository.GetCategories(second);
  }

  /**
   * For one storage order shared by all page requests, every product the
   * query selects is on exactly one page: the page given by its position
   * among the matches. The query has no ORDER BY, so storage need not keep
   * that order from one request to the next.
   */
  lemma EveryMatchOnOnePage(products: Products, categories: seq<Category>, scan: seq<int>, filters: Filters,
                            pageSize: int, p: Product)
    requires IsScanOf(scan, products) && pageSize >= 1
    requires p.id in products && Join(p.id, products[p.id], categories) == Some(p) && MatchesFilters(filters, p)
    ensures var rows := Matching(scan, products, categories, BuildClauses(filters));
            exists page :: page >= 1 && p in Window(rows, Offset(page, pageSize), pageSize)
              && forall other :: other >= 1 && other != page ==> p !in Window(rows, Offset(other, pageSize), pageSize)
  {
    var cs := BuildClauses(filters);
    var rows := Matching(scan, products, categories, cs);
    BuildClausesMeaning(filters, p);
    MatchingComplete(scan, products, categories, cs, p);
    var k :| 0 <= k < |rows| && rows[k] == p;
    assert Distinct(rows) by {
      forall i, j | 0 <= i < j < |rows| ensures rows[i] != rows[j] {
        assert rows[i].id != rows[j].id;
      }
    }
    OnExactlyOnePage(rows, pageSize, k);
  }
}
