# Category/Product CRUD backend with server-side pagination — a Dafny model

The system is a small Spring Boot REST backend. It stores two JPA entities,
`Category` (id, name) and `Product` (id, name, many-to-one category). Service
classes and REST controllers offer create, get-by-id, update and delete on
them, and a `PaginationUtil` turns a page of content into a
`PaginationResponse` with a page count and navigation flags.

The model has three parts:

- **Pagination** (`pagination.dfy`, pure). `Paginate` is the
  `paginate(List, Pageable, long)` computation in exact integer arithmetic.
  It is proved against `PagesNeeded`, a reference definition that fills one
  page at a time. It is also proved against `PageOf`, the content slice a
  paged scan yields.
- **Persistence** (`persistence.dfy`, imperative). `Repository<D>` is a class
  holding the stored rows as a `map<Key, D>` and the database identity counter
  `nextId`. It has `findById`, `existsById`, `save` (as an upsert),
  `deleteById` and `delete`.
- **Services and controllers** (`services.dfy`, `controllers.dfy`,
  imperative). `CategoryService` and `ProductService` get a row or fail with
  not-found. `Controller<D>` covers the identical category and product
  controllers. Every contract says how the rows change: not at all on
  not-found, and otherwise in exactly one key. `scenarios.dfy` proves call
  sequences from those contracts.

Records are `Entity(id, data)`. `id` is `None` where Java holds a `null` id.
A product's category is kept as the referenced category's key, which is the
`category_id` join column.

The product service's update copies only the name (`src/Main.java:266`), so
`ProductService.Update` keeps the stored category. The controller update
(`src/Main.java:156-157`) saves the request body, and so replaces it.

## Model

| member | source | states |
|---|---|---|
| `Pagination.TotalPages` | src/Main.java:297 | the page count is the ceiling of totalElements / pageSize: the pages hold every element, and when there are any pages the last one is non-empty |
| `Pagination.PagesNeededIsCeiling` | src/Main.java:297 | filling pages of pageSize elements one at a time also gives the fewest pages that hold every element with a non-empty last page |
| `Pagination.CeilingIsUnique` | src/Main.java:297 | at most one page count has both ceiling properties |
| `Pagination.TotalPagesCountsPages` | src/Main.java:297 | the arithmetic page count equals the page-by-page count for every total and every positive size, including 0 pages for 0 elements |
| `Pagination.Paginate` | src/Main.java:294-308 | content, page number, page size and total are passed through unchanged; totalPages is the ceiling; hasPreviousPage holds exactly when pageNumber > 0; hasNextPage holds exactly when some element lies beyond the end of this page |
| `Pagination.NoElementsNoPages` | src/Main.java:297-306 | with 0 elements there are 0 pages and no next page, on any page number |
| `Pagination.FlagsAgainstPageCount` | src/Main.java:305-306 | hasNextPage holds exactly when pageNumber + 1 < totalPages, so it is false on the last page and beyond; hasPreviousPage depends only on pageNumber |
| `Pagination.PageOf` | src/Main.java:198-199 | the page content of a paged scan is at most pageSize elements: the run of the scan from offset pageNumber * pageSize, full unless it reaches the end, empty past the end |
| `Pagination.PaginateScan` | src/Main.java:294-308 | over a paged scan, the content is non-empty exactly on pages below totalPages; a page with a next page is full; the last page holds the remaining elements |
| `Pagination.Scenarios` | src/Main.java:294-308 | 25 elements, size 10: page 0 gives 3 pages, no previous, a next; page 2 has 5 elements, a previous, no next; 0 elements gives 0 pages, empty content, no flags |
| `Pagination.PaginateAsWritten` | src/Main.java:325-332 | with the empty seven-argument constructor, the response shows 0 elements, 0 pages and neither flag, whatever the arguments |
| `Pagination.AsWrittenDropsFields` | src/Main.java:325-332 | for 25 elements in pages of 10, the as-written response reports 0 pages and no next page, while the intended one reports 3 pages and a next page |
| `Persistence.Repository.constructor` | src/Main.java:19-21 | an empty table whose identity counter starts at 1 |
| `Persistence.Repository.FindById` | src/Main.java:88 | finds a record exactly when the id is stored, and returns it with that id and the stored columns |
| `Persistence.Repository.ExistsById` | src/Main.java:110 | true exactly when the id is stored |
| `Persistence.Repository.Save` | src/Main.java:100 | upsert: a record whose id is stored replaces that row only; anything else goes under the counter's key, which was free, and the counter advances; the result carries the key |
| `Persistence.Repository.DeleteById` | src/Main.java:111 | removes exactly the key; a missing key changes nothing |
| `Persistence.Repository.Delete` | src/Main.java:226 | removes exactly the record's key; a record without an id changes nothing |
| `Services.CategoryService.GetById` | src/Main.java:203-206 | returns the stored category exactly when the id is present, else not-found for that id; reads only |
| `Services.CategoryService.Create` | src/Main.java:209-212 | the body's columns are stored under the returned key, a new one unless the body names a stored id; no other row changes; the identity counter advances exactly when a new key is drawn |
| `Services.CategoryService.Update` | src/Main.java:215-221 | a missing id gives not-found and the rows stay as they were; otherwise only that row changes, taking the body's name under the path id |
| `Services.CategoryService.Delete` | src/Main.java:224-227 | a missing id gives not-found and the rows stay as they were; otherwise exactly that key is removed |
| `Services.ProductService.GetById` | src/Main.java:251-254 | returns the stored product exactly when the id is present, else not-found for that id; reads only |
| `Services.ProductService.Create` | src/Main.java:257-260 | the body's columns are stored under the returned key, a new one unless the body names a stored id; no other row changes; the identity counter advances exactly when a new key is drawn |
| `Services.ProductService.Update` | src/Main.java:263-269 | a missing id gives not-found and the rows stay as they were; otherwise only that row changes, taking the body's name and keeping its id and category |
| `Services.ProductService.Delete` | src/Main.java:272-275 | a missing id gives not-found and the rows stay as they were; otherwise exactly that key is removed |
| `Controllers.Response.Status` | src/Main.java:82-114 | the status code of each reply kind: 200 with a body, 201 after a create, 204 after a delete, 404 for a missing id |
| `Controllers.Controller.GetById` | src/Main.java:86-91 | 200 with the stored record exactly when the id is present, else 404; reads only (the product handler at :143-148 is the same) |
| `Controllers.Controller.Create` | src/Main.java:79-83 | 201 with the record as stored; its columns are under the returned key, no other row changes, and the identity counter advances exactly when a new key is drawn (products: :136-140) |
| `Controllers.Controller.Update` | src/Main.java:94-105 | 404 and no save for a missing id; otherwise the body replaces the whole row under the path id, whatever id the body carried, and the reply carries that id (products: :151-162, where the category is replaced too) |
| `Controllers.Controller.Delete` | src/Main.java:108-116 | 204 after removing exactly that key, or 404 with the rows unchanged (products: :165-173) |
| `Scenarios.CreateThenGet` | src/Main.java:251-260 | a created product gets a key, and get-by-id on that key returns the created record |
| `Scenarios.DeleteThenGet` | src/Main.java:203-206 | after a service delete, a get-by-id of that id fails with not-found; the delete succeeded exactly when the id was stored |
| `Scenarios.ControllerDeleteThenGet` | src/Main.java:86-116 | after a controller DELETE, a GET of that id answers 404 |
| `Scenarios.ProductUpdatesDisagree` | src/Main.java:151-162 | from the same rows and request, the service update keeps the stored category, the controller update stores the body's category, and both store the body's name; so the results differ when the categories differ |

## Left out

- HTTP routing, request-parameter defaults (`page=0`, `size=10`), `ResponseEntity` building and Spring dependency injection. These are framework plumbing. A handler's reply is modelled only as its status kind and body.
- The list endpoints and the services' `getAll…` methods. They return Spring's `Page` or its content from `findAll(pageable)`, and the scan order of the database is not visible. `PageOf` models the slice such a scan returns, over a given order.
- `paginate(Page<T>)`: it only forwards the getters of Spring's `Page`.
- The controller that calls the undefined `YourService`, and the application's `main`.
- The source's compile problems. There are two classes named `ProductController`, and the first holds the category handlers over an undeclared `categoryRepository`. Imports are also missing. The handlers are modelled as the code is written, one controller per repository.
- Pagination.TotalPages: exact integer ceiling division. The source divides in `double` and narrows to `int`. That gives a different count for totals above 2^53 or counts above 2^31 - 1, and these widths are not modelled.
- Pagination.Paginate: `pageSize > 0`, a non-negative page number and a non-negative total are preconditions. Spring's `PageRequest.of` rejects a bad page size or page number before `paginate` is reached. A negative `long` total is accepted by the source, for example -25 elements in pages of 10 gives `Math.ceil(-2.5)` = -2 pages, and is not modelled.
- Persistence.Repository.Save: a record that carries an id that is not stored is inserted under a fresh key. That is what a Hibernate merge of a detached record does. Some Hibernate versions throw instead, and that path is not modelled.
- Keys and names: `Long` keys are unbounded integers. A `null` name is not modelled. The not-found exception keeps the entity kind and the id but not its message text.
- The in-place update of the fetched Java object (`setName`, `setId`) is modelled as a copy that is then saved. Aliasing and the JPA persistence context are not modelled.
- Foreign-key enforcement by the database is not modelled. Deleting a category that products refer to succeeds in the model and leaves those products' category keys in place.
- Transactions and concurrent requests. Each call is atomic in the model.

## Findings

| source | as written | input that shows it | evidently intended | confidence | as-written member | corrected member |
|---|---|---|---|---|---|---|
| src/Main.java:325-332 | the seven-argument `PaginationResponse` constructor has an empty body, so `paginate` returns a response whose fields all keep their defaults (null, 0, false); it also clashes with the constructor `@AllArgsConstructor` generates | 25 elements in pages of 10, page 0: totalPages 0 and hasNextPage false instead of 3 and true | assign each argument to its field, as the generated all-arguments constructor would | medium: not executed; the clash stops the file from compiling as it stands | `Pagination.AsWrittenDropsFields` | `Pagination.Paginate` |
