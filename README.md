# NoticeAPI product catalog — a Dafny model

This project models the product-catalog core of NoticeAPI, an ASP.NET Core
e-commerce backend over MariaDB:

- **Models** — the `Product` record, prices in cents (the C# `decimal`), and
  its derived availability (`IsAvaiable => Stock > 0`).
- **Query** — how `ProductRepository.GetAll` turns the optional filters
  `category`, `minPrice`, `maxPrice`, `search` and `inStock` into a list of
  AND-ed WHERE clauses. Each clause carries its bound parameter. The module
  gives each clause its row meaning, including SQL `LIKE` with `%` and `_`
  wildcards. It also models `LIMIT pageSize OFFSET (page - 1) * pageSize`.
- **Table** — the products table as a map from id to row. The categories
  table is a list with unique ids. The module also holds the inner join that
  attaches a product's category and the effect of the bulk statements.
- **Repository** — the repository as classes:
  - `Database`: the two tables and the AUTO_INCREMENT counter.
  - `MemoryCache`: the shared `IMemoryCache`, holding the one
    `"Categories"` entry with a 10-minute sliding expiration.
  - `ProductRepository`: methods whose contracts say exactly what each
    statement reads or changes.
- **Controller** — the input guards of `ProductsController` and the HTTP
  result each action returns.
- **ApiKey** — the reject-or-forward decision of `ApiKeyMiddleware`.

Storage order is not specified: the query has no `ORDER BY`. So `GetAll`
takes the order in which storage produces rows as an input (`scan`, every
product id exactly once). It promises a window of at most `pageSize`
qualifying rows in that order, never a particular order.

Behaviour of the code worth knowing, which the model follows:

- The search text is bound as `"%" + search + "%"` without escaping, so a
  user's `%` and `_` act as wildcards (`Query.UnderscoreSearchMatchesAnyName`,
  `Query.PercentSearchMatchesAnyName`).
- No core file calls the notification service: creating a product or
  changing its stock sends nothing.
- Only the single-product stock action rejects a negative stock. `Create`,
  `Update`, `CreateBulk` and `UpdateStockBulk` store whatever stock they are
  given.
- The clause `p.stock > 0 = @InStock` parses as `(p.stock > 0) = @InStock`:
  `>` and `=` share one precedence level in MariaDB and associate to the
  left. `inStock = false` therefore keeps the rows with `stock <= 0`.
- `page` and `pageSize` are not checked. A page size of 0 gives `LIMIT 0`, an
  empty page; a negative page size, or a page below 1 with a positive page
  size, gives a negative `LIMIT` or `OFFSET`, which MariaDB refuses, and the
  statement fails.
- The category cache is shared by every request and is not invalidated. A
  live entry is served even when the categories table has changed since it
  was loaded, for as long as it is read at least once every 10 minutes.

## Model

| member | source | states |
|---|---|---|
| `Models.AvailabilityDependsOnlyOnStock` | NoticeAPI/Models/Product.cs:5-13 | two products with the same stock have the same availability, whatever their other fields |
| `Models.AvailabilityAfterStockWrite` | NoticeAPI/Models/Product.cs:11-13 | after a stock write, the product is available iff the new stock is positive; stock 0 and negative stock are both unavailable |
| `Query.BuildClauses` | NoticeAPI/Repositories/ProductRepository.cs:37-46 | one clause per supplied filter; a null filter, an empty category and an empty search add none; each clause carries exactly that filter's value (search as `"%" + search + "%"`) |
| `Query.WhereFragment` | NoticeAPI/Repositories/ProductRepository.cs:38-46 | a clause's SQL text is one of five fixed strings naming a parameter, so no filter value ever becomes query text |
| `Query.Like` | NoticeAPI/Repositories/ProductRepository.cs:43-44 | SQL `LIKE`; a pattern without `%` or `_` matches exactly the string equal to it |
| `Query.Holds` | NoticeAPI/Repositories/ProductRepository.cs:38-46 | the stock clause holds iff the product's availability equals `inStock`; the category clause needs a joined category; a wildcard-free `LIKE` is name equality |
| `Query.BuildClausesMeaning` | NoticeAPI/Repositories/ProductRepository.cs:37-46 | a product satisfies the AND of the built clauses iff it meets every supplied filter: exact category name, inclusive price bounds, `LIKE` on the name, availability equal to `inStock` |
| `Query.NoFiltersAdmitAll` | NoticeAPI/Repositories/ProductRepository.cs:37-46 | with no price or stock filter and null or empty category and search, no clause is built and every joined product qualifies |
| `Query.SearchIsSubstring` | NoticeAPI/Repositories/ProductRepository.cs:43-44 | when the search text has no `%` or `_`, the `LIKE` test keeps a product iff the text occurs in its name |
| `Query.UnderscoreSearchMatchesAnyName` | NoticeAPI/Repositories/ProductRepository.cs:43-44 | because `_` is not escaped, searching for "_" keeps exactly the products with a non-empty name |
| `Query.PercentSearchMatchesAnyName` | NoticeAPI/Repositories/ProductRepository.cs:43-44 | because `%` is not escaped, searching for "%" keeps every product |
| `Query.Window` | NoticeAPI/Repositories/ProductRepository.cs:29-35 | `LIMIT l OFFSET o` returns at most `l` rows: those at positions `o`, `o+1`, ... of the input, and none when `o` is past the end |
| `Query.Offset` | NoticeAPI/Repositories/ProductRepository.cs:26 | the exact offset is 0 exactly on page 1 |
| `Query.LimitRejectedCases` | NoticeAPI/Repositories/ProductRepository.cs:26-35 | the statement has a negative LIMIT or OFFSET exactly for a negative page size, or a page below 1 with a positive page size |
| `Query.PageOf` | NoticeAPI/Repositories/ProductRepository.cs:26-35 | the row at position `k` is on page `k / pageSize + 1`, at index `k % pageSize` |
| `Query.PagesDisjoint` | NoticeAPI/Repositories/ProductRepository.cs:26-35 | two different pages of a duplicate-free row list share no row |
| `Query.OnExactlyOnePage` | NoticeAPI/Repositories/ProductRepository.cs:26-35 | each row of a duplicate-free row list is on one page and on no other |
| `Query.WrapInt32` | NoticeAPI/Repositories/ProductRepository.cs:26 | C# unchecked `int` arithmetic gives a value in the 32-bit range that is congruent to the exact result modulo 2^32 |
| `Query.OffsetAsWritten` | NoticeAPI/Repositories/ProductRepository.cs:26 | the offset as C# computes it is a 32-bit value, and equals the exact offset whenever that fits in 32 bits |
| `Query.OffsetAsWrittenWraps` | NoticeAPI/Repositories/ProductRepository.cs:26 | the 32-bit offset of page 65537 of size 65536 is 0, the offset of page 1; page 32769 of size 65536 gets a negative offset |
| `Table.CategoryById` | NoticeAPI/Repositories/ProductRepository.cs:29-32 | the join finds a category carrying the requested id, or reports that none carries it |
| `Table.CategoryByIdFinds` | NoticeAPI/Repositories/ProductRepository.cs:29-32 | with unique category ids, the join returns exactly the category with that id |
| `Table.Join` | NoticeAPI/Repositories/ProductRepository.cs:48-56 | a product row yields a product iff some category has its `category_id`; the product keeps the row's id and six columns, and `Category` is that category (the intended mapping; see Findings) |
| `Table.ReadAsWrittenLosesColumns` | NoticeAPI/Repositories/ProductRepository.cs:48-56 | under Dapper's default mapping a joined row reads back with `CategoryId` 0 and `ImageUrl` unset, so a nonzero `category_id` does not survive the read, while `Join` keeps every column |
| `Table.FindById` | NoticeAPI/Repositories/ProductRepository.cs:62-76 | finds a product iff the id is stored and a category has its `category_id`; the product has that id and the stored columns |
| `Table.Matching` | NoticeAPI/Repositories/ProductRepository.cs:29-56 | the query result holds at most one product per scanned id; each one is the joined row of a stored id and satisfies every clause; distinct scanned ids give distinct products |
| `Table.MatchingComplete` | NoticeAPI/Repositories/ProductRepository.cs:29-56 | every scanned, stored, joinable product that satisfies the clauses is in the result |
| `Table.SetStock` | NoticeAPI/Repositories/ProductRepository.cs:109 | keeps the keys; the named row gets the new stock and keeps its other columns; every other row is unchanged |
| `Table.ApplyStockUpdates` | NoticeAPI/Repositories/ProductRepository.cs:125-126 | the per-pair updates keep the set of stored ids |
| `Table.StockUpdatesOnlyTouchStock` | NoticeAPI/Repositories/ProductRepository.cs:122-127 | the bulk stock update adds and removes no rows and changes no column except `stock` |
| `Table.StockUpdatesSkipUnnamed` | NoticeAPI/Repositories/ProductRepository.cs:122-127 | a row that no update names keeps its stock |
| `Table.StockUpdatesLastWins` | NoticeAPI/Repositories/ProductRepository.cs:122-127 | a named row ends with the stock of the last update that names it |
| `Table.InsertAll` | NoticeAPI/Repositories/ProductRepository.cs:116-119 | the per-product inserts keep every stored id and add only ids from `next` up to, not including, `next` plus the number of products |
| `Table.InsertAllContents` | NoticeAPI/Repositories/ProductRepository.cs:113-120 | the bulk insert adds exactly one row per product, under consecutive fresh ids, with that product's columns; existing rows are unchanged |
| `Table.InsertThenFind` | NoticeAPI/Repositories/ProductRepository.cs:59-87 | a product inserted under an id is found under that id, equal to the input except the id and the attached category, iff its category exists |
| `Table.ZeroStockReadsUnavailable` | NoticeAPI/Repositories/ProductRepository.cs:106-111 | after the stock of a product is set to 0, reading it back gives an unavailable product |
| `Table.DeleteThenFind` | NoticeAPI/Repositories/ProductRepository.cs:100-104 | a deleted id is not found again |
| `Repository.MemoryCache.TryGetValue` | NoticeAPI/Repositories/ProductRepository.cs:132 | a hit happens iff an entry exists and was last accessed less than 10 minutes ago; a hit returns the cached list and moves the last access to now; an expired entry is evicted |
| `Repository.MemoryCache.Set` | NoticeAPI/Repositories/ProductRepository.cs:137-139 | the entry is replaced by the list, accessed now |
| `Repository.IsLive` | NoticeAPI/Repositories/ProductRepository.cs:137-138 | an entry is live from its last access until just before 10 minutes later, and expired from then on; no entry is never live |
| `Repository.ProductRepository.constructor` | NoticeAPI/Repositories/ProductRepository.cs:16-20 | the repository holds the given storage and the given shared cache, whatever the cache holds, and leaves the cache as it was |
| `Repository.ProductRepository.GetAll` | NoticeAPI/Repositories/ProductRepository.cs:22-56 | fails exactly when the LIMIT or OFFSET is negative; otherwise returns at most `pageSize` products, the qualifying joined rows after skipping `(page-1)*pageSize` of them; each product has a stored id, the stored columns, meets the filters and carries the category with its `category_id`; no product appears twice |
| `Repository.ProductRepository.GetById` | NoticeAPI/Repositories/ProductRepository.cs:59-77 | returns a product iff the id is stored and its category exists; the product has that id, the stored columns and that category; otherwise returns null, not an error |
| `Repository.ProductRepository.Insert` | NoticeAPI/Repositories/ProductRepository.cs:82-86 | the row is stored under the next AUTO_INCREMENT value, which is positive, was not in use, and is returned |
| `Repository.ProductRepository.Create` | NoticeAPI/Repositories/ProductRepository.cs:79-87 | stores the six columns under a fresh positive id, ignoring the incoming id, and returns the product with that id written in; no other row changes |
| `Repository.ProductRepository.Update` | NoticeAPI/Repositories/ProductRepository.cs:89-98 | overwrites the six columns of exactly the row with the product's id; an unknown id changes nothing |
| `Repository.ProductRepository.Delete` | NoticeAPI/Repositories/ProductRepository.cs:100-104 | removes only the row with that id; other rows, the counter and the categories are unchanged |
| `Repository.ProductRepository.UpdateStock` | NoticeAPI/Repositories/ProductRepository.cs:106-111 | sets only the stock of the row with that id; an unknown id changes nothing |
| `Repository.ProductRepository.CreateBulk` | NoticeAPI/Repositories/ProductRepository.cs:113-120 | inserts one row per product, in order, each under the next id; the ids are not written back |
| `Repository.ProductRepository.UpdateStockBulk` | NoticeAPI/Repositories/ProductRepository.cs:122-127 | applies the stock updates one after another in order, so the table is the fold of the single-row update |
| `Repository.ProductRepository.GetCategories` | NoticeAPI/Repositories/ProductRepository.cs:129-142 | a live entry is returned as cached, without a query, even if the table changed since; otherwise the table is queried and returned; afterwards the entry holds the returned list, last accessed now |
| `Repository.GetCategoriesTwice` | NoticeAPI/Repositories/ProductRepository.cs:129-142 | the first read gives the cached list if live, else the table; the second read gives the same list iff it comes less than 10 minutes after the first, and otherwise reloads the table |
| `Repository.EveryMatchOnOnePage` | NoticeAPI/Repositories/ProductRepository.cs:26-56 | for one storage order shared by all page requests, every stored product that joins and meets the filters is on exactly one page |
| `Controller.ProductsController.GetAll` | NoticeAPI/Controllers/ProductsController.cs:23-34 | passes its inputs through unchecked, with missing `page` and `pageSize` bound to 1 and 10; fails exactly when the LIMIT or OFFSET is negative; otherwise answers Ok with at most `pageSize` products, all meeting the filters, and for positive `page` and `pageSize` exactly that page of the query |
| `Controller.ProductsController.GetById` | NoticeAPI/Controllers/ProductsController.cs:37-42 | NotFound exactly when the repository returns null, otherwise Ok with that product |
| `Controller.ProductsController.Create` | NoticeAPI/Controllers/ProductsController.cs:45-50 | invalid model state gives BadRequest and changes nothing; otherwise Created carries the repository-assigned id and the stored product, the counter advances by one and the categories are unchanged |
| `Controller.ProductsController.Update` | NoticeAPI/Controllers/ProductsController.cs:53-58 | a route id that differs from the body id gives BadRequest("ID mismatch") and changes nothing; otherwise updates that row, keeps the counter and the categories, and gives NoContent |
| `Controller.ProductsController.Delete` | NoticeAPI/Controllers/ProductsController.cs:61-65 | deletes the row and answers NoContent whether or not it existed; the counter and the categories are unchanged |
| `Controller.ProductsController.UpdateStock` | NoticeAPI/Controllers/ProductsController.cs:68-73 | a negative stock gives BadRequest and changes nothing; otherwise sets the stock, keeps the counter and the categories, and gives NoContent |
| `Controller.ProductsController.CreateBulk` | NoticeAPI/Controllers/ProductsController.cs:76-81 | an empty list gives BadRequest and changes nothing; otherwise inserts all, advances the counter by their number, keeps the categories and gives Ok |
| `Controller.ProductsController.UpdateStockBulk` | NoticeAPI/Controllers/ProductsController.cs:84-89 | an empty list gives BadRequest and changes nothing; otherwise applies all updates, keeps the counter and the categories, and gives NoContent |
| `Controller.ProductsController.GetCategories` | NoticeAPI/Controllers/ProductsController.cs:92-96 | answers Ok with the live cached list if there is one, else with the table; afterwards the cache holds that list, accessed now |
| `ApiKey.Invoke` | NoticeAPI/Middleware/ApiKeyMiddleware.cs:17-30 | only a protected request can be rejected, always with 401 and the same message; a forwarded request is unprotected or carries exactly the configured key |
| `ApiKey.IsProtected` | NoticeAPI/Middleware/ApiKeyMiddleware.cs:19-21 | an endpoint is protected iff it has method metadata listing POST, PUT or DELETE |
| `ApiKey.KeyMatches` | NoticeAPI/Middleware/ApiKeyMiddleware.cs:23 | the key matches iff the header is present with exactly one value, the configured key |
| `ApiKey.UnprotectedPasses` | NoticeAPI/Middleware/ApiKeyMiddleware.cs:19-29 | with no endpoint, no method metadata, or no POST/PUT/DELETE method, the request is forwarded whatever its headers |
| `ApiKey.MissingKeyRejected` | NoticeAPI/Middleware/ApiKeyMiddleware.cs:23-27 | a protected request without an `X-Api-Key` header gets 401 and is not forwarded |
| `ApiKey.WrongKeyRejected` | NoticeAPI/Middleware/ApiKeyMiddleware.cs:23-27 | a protected request whose header is not exactly the configured key gets 401 and is not forwarded |
| `ApiKey.MatchingKeyPasses` | NoticeAPI/Middleware/ApiKeyMiddleware.cs:23-29 | a request carrying exactly the configured key is forwarded |

## Left out

- `Repository.ProductRepository.GetAll` uses the exact offset `(page - 1) * pageSize`. The source's 32-bit wrap-around is modelled on its own, in `Query.OffsetAsWritten` (see Findings); a wrapped offset that is negative, which makes the statement fail, is not reflected in `GetAll`.
- Storage row order: the query has no `ORDER BY`, so the order is an input (`scan`), not a model of MariaDB's plan.
- Storage failures other than a negative LIMIT or OFFSET are not modelled: connectivity, other SQL errors and foreign-key violations. Those statements are modelled as succeeding. The exception middleware that answers a failed request is not part of this model; `Controller.ActionResult.StorageFailure` stands for the exception leaving the action.
- Foreign keys: the schema is not part of the source. A product row may name a category that does not exist; the inner join then drops it from reads.
- Category.cs is not part of this model. A category has only the `id` and `name` columns used by the join and the category filter.
- Collation: `=` and `LIKE` compare exactly. MariaDB's case-insensitive collations and the backslash escape inside `LIKE` are not modelled.
- `Table.Join`: the reads in `Repository.ProductRepository.GetAll` and `Repository.ProductRepository.GetById` fill `CategoryId` and `ImageUrl` from `category_id` and `image_url`. No source file turns on the Dapper setting that does this, so as written they stay 0 and null; that mapping is modelled separately in `Table.JoinAsWritten` (see Findings). `splitOn: "id"` is assumed to split the product and category columns at the categories' `id`.
- `Repository.ProductRepository.Create`: the source writes the new id into the caller's `Product` object. The model returns the updated product value instead, so aliasing of that object is not modelled.
- Bulk writes have no transaction. Each row is its own statement, so a failure midway would leave a prefix applied; failures are not modelled, so neither is that prefix.
- Async/await, concurrent requests, and concurrent cache misses are not modelled. Neither is cache eviction under memory pressure.
- The clock is an explicit input `now` in milliseconds.
- Connection acquisition and disposal (`IDbConnectionFactory`, `MariaDbConnectionFactory`) are not modelled.
- Application wiring (`Program.cs`) is not modelled.
- Push notifications: NotificationService.cs is not part of this model. No core file calls it.
- Model binding: `ModelState.IsValid` is an input flag. JSON binding of the request bodies is not modelled; that includes the `(int Id, int Stock)` tuples.
- `ApiKey.Invoke`: header names are matched exactly, not case-insensitively as ASP.NET does. A missing `ApiKey` configuration value (null) is not modelled. Setting the status and writing the body are reduced to the returned decision.
- Null strings in `Product` (name, description, image URL) are not modelled; strings are always present.

## Findings

| source | as written | input that shows it | evidently intended | confidence | as-written member | corrected member |
|---|---|---|---|---|---|---|
| NoticeAPI/Repositories/ProductRepository.cs:26 | `var offset = (page - 1) * pageSize;` computed in unchecked 32-bit `int`, with `page` and `pageSize` unvalidated | `page = 65537, pageSize = 65536`: the offset wraps to 0 and page 1 is returned again. `page = 32769, pageSize = 65536`: the offset is negative and MariaDB rejects the query. | the offset is `(page - 1) * pageSize` exactly, so that, for one storage order shared by all page requests, every qualifying row is on exactly one page | not executed; high | `Query.OffsetAsWrittenWraps` | `Query.PagesDisjoint` |
| NoticeAPI/Repositories/ProductRepository.cs:48-56 | `QueryAsync<Product, Category, Product>` over `p.*` with Dapper's default column mapping, which matches a column to a property only by name up to case; nothing sets `DefaultTypeMap.MatchNamesWithUnderscores` | a product stored with `category_id = 3` and an `image_url` reads back from `GetById` or `GetAll` with `CategoryId = 0` and `ImageUrl = null`; a client that reads a product and sends it back through PUT overwrites both columns | every read product carries the row's `category_id` and `image_url` | not executed; medium | `Table.ReadAsWrittenLosesColumns` | `Table.Join` |
