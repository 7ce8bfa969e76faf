# Products catalogue service, modelled in Dafny

This project models `ProductsService` of the products microservice
(`16-NMAEM/products-ms/src/products/products.service.ts`). The service keeps
product rows in an ORM table called `product`. Each row has an integer `id`, a
soft-delete flag `available` and domain fields. The service offers six
operations:

- `create` inserts a row.
- `findAll` lists the available rows one page at a time.
- `findOne` looks up one available row.
- `update` patches the fields of a visible row.
- `remove` soft-deletes a visible row by setting `available` to false.
- `validateProducts` checks that every id in a list has a row.

The modules are:

- `Catalog` (`catalog.dfy`) holds the table: `Product`, and `Table` (a map from
  `id` to row). It also holds the set of available ids, the listing in
  ascending-id order, and `Dedupe`, which models `Array.from(new Set(ids))`.
- `Pagination` (`pagination.dfy`) holds the arithmetic of `findAll`: `LastPage`
  (ceiling division), `Offset`, and `Window` (which models Prisma's
  `skip`/`take`).
- `Rpc` (`rpc.dfy`) holds the two errors, `NotFound(id)` and `ValidationError`.
  It returns them in a `Result` value instead of throwing. It also holds their
  message text and their status, BAD_REQUEST (400).
- `ProductsService` (`products_service.dfy`) holds the operations.
  - The queries `FindAll`, `FindOne` and `ValidateProducts` are functions of
    the table value, so they cannot change the table.
  - The writes are methods of class `Service`, which holds the table in its
    field `rows` and has a `modifies this` clause. Each write's whole effect is
    given by a step function of the old table: `UpdateStep` or `RemoveStep`
    give the new table and the reply. `Service.Create` states its effect
    directly.
- `ServiceProperties` (`service_properties.dfy`) holds lemmas that relate the
  operations to one another.

Choices where the source leaves room:

- `findMany` has no `orderBy` in the source. The model returns rows in
  ascending `id` order, so that `skip`/`take` is well defined.
- The product fields are a map from field name to an opaque value of type `V`.
  An update patch is such a map, and applying it is a right-biased map union.
  This matches Prisma, which leaves fields that are absent from the data
  untouched. `id` and `available` sit outside the fields, so a patch cannot
  change them.
- `create` stores the row with `available = true` and a fresh id taken from
  `Service.nextId`, a counter. Both are assumptions: the database schema gives
  that default and that auto-increment, and the schema is not part of this
  model.
- `findAll` requires `page >= 1` and `limit >= 1`. The validation of
  `PaginationDto` is not part of this model.

The bulk-check error message is "Some products were not found",
as written at line 76.

## Model

| member | source | states |
|---|---|---|
| `ServiceProperties.ListingIsAvailableRows` | 16-NMAEM/products-ms/src/products/products.service.ts:22-29 | the rows `findAll` counts and lists are exactly the stored rows with `available = true`: a stored row is in the unpaged listing iff it is available, every listed row is a stored available row, and `total` is the listing's length |
| `Catalog.SortedIds` | 16-NMAEM/products-ms/src/products/products.service.ts:25-29 | the order chosen for `findMany` results: each id of the set once, strictly ascending |
| `Catalog.Visible` | 16-NMAEM/products-ms/src/products/products.service.ts:25-29 | `findMany({where: {available: true}})` without paging: one entry per available row, each the stored row and available |
| `Catalog.VisibleAscending` | 16-NMAEM/products-ms/src/products/products.service.ts:25-29 | in a table whose rows sit under their own id, the listing is strictly ascending by id |
| `Catalog.Dedupe` | 16-NMAEM/products-ms/src/products/products.service.ts:70 | `Array.from(new Set(ids))` has no duplicates, the same elements as `ids`, and as many entries as `ids` has distinct elements |
| `Pagination.LastPage` | 16-NMAEM/products-ms/src/products/products.service.ts:23 | `lastPage = ceil(total / limit)`: `total <= lastPage * limit`, `(lastPage - 1) * limit < total` when `lastPage > 0`, and `lastPage = 0` exactly when `total = 0` |
| `Pagination.LastPageUnique` | 16-NMAEM/products-ms/src/products/products.service.ts:23 | those two bounds determine `lastPage`: no other page count satisfies them |
| `Pagination.Offset` | 16-NMAEM/products-ms/src/products/products.service.ts:26 | `skip = (page - 1) * limit` is a multiple of `limit` whose quotient is `page - 1` |
| `Pagination.Window` | 16-NMAEM/products-ms/src/products/products.service.ts:26-27 | `skip`/`take` returns `min(take, remaining)` records, the ones starting `skip` in, and none past the end |
| `Pagination.BeyondLastPage` | 16-NMAEM/products-ms/src/products/products.service.ts:23-27 | a page after `lastPage` starts at or past the last record |
| `Pagination.PageOfRecord` | 16-NMAEM/products-ms/src/products/products.service.ts:23-27 | record `i` is on page `i / limit + 1`, which lies in `1..lastPage`, at position `i % limit` |
| `ProductsService.FindAll` | 16-NMAEM/products-ms/src/products/products.service.ts:20-32 | `total` counts the available rows whatever `page` and `limit` are; `page` is echoed; `lastPage = LastPage(total, limit)`; `data` holds at most `limit` rows, all available table rows, the listing's rows from `(page - 1) * limit` on; `data` is empty, with no error, when `page > lastPage` |
| `ProductsService.FindOne` | 16-NMAEM/products-ms/src/products/products.service.ts:34-45 | succeeds iff row `id` exists and is available, and then returns that row; otherwise fails with `NotFound(id)`, the same for a missing row and a soft-deleted one |
| `ProductsService.Patch` | 16-NMAEM/products-ms/src/products/products.service.ts:49-52 | a patched row keeps its `id` and `available`; patched fields take the new values; the other fields keep theirs |
| `ProductsService.UpdateStep` | 16-NMAEM/products-ms/src/products/products.service.ts:47-53 | `update` fails exactly when `findOne` fails, and then changes nothing; on success only row `id` changes, to the patched row that is returned, and the set of ids stays the same |
| `ProductsService.RemoveStep` | 16-NMAEM/products-ms/src/products/products.service.ts:55-67 | `remove` fails exactly when `findOne` fails, and then changes nothing; on success row `id` stays, with the same id and fields and `available = false`; it is returned, and no other row changes |
| `ProductsService.FindMany` | 16-NMAEM/products-ms/src/products/products.service.ts:71-73 | `findMany({where: {id: {in}}})` returns one table row for each listed id that has a row, whatever its `available` flag, each once, ascending by id |
| `ProductsService.CountMatchesIffAllPresent` | 16-NMAEM/products-ms/src/products/products.service.ts:70-74 | the rows found are as many as the deduplicated ids exactly when every requested id has a row |
| `ProductsService.ValidateProducts` | 16-NMAEM/products-ms/src/products/products.service.ts:69-80 | succeeds iff every requested id has a row (availability ignored); otherwise fails with `ValidationError`; on success returns as many rows as there are distinct ids, the row of every requested id, in ascending id order |
| `ProductsService.Service.Create` | 16-NMAEM/products-ms/src/products/products.service.ts:16-18 | inserts and returns a new row under a fresh id with `available = true` and the given fields; no other row changes |
| `ProductsService.Service.Update` | 16-NMAEM/products-ms/src/products/products.service.ts:47-53 | the new table and the reply are those of `UpdateStep` on the old table; the table invariant is kept |
| `ProductsService.Service.Remove` | 16-NMAEM/products-ms/src/products/products.service.ts:55-67 | the new table and the reply are those of `RemoveStep` on the old table; the table invariant is kept |
| `ProductsService.RemoveTwice` | 16-NMAEM/products-ms/src/products/products.service.ts:55-62 | after two `remove(id)` calls in a row, the second has failed with `NotFound(id)` and `findOne(id)` fails |
| `ServiceProperties.EveryAvailableRowIsListed` | 16-NMAEM/products-ms/src/products/products.service.ts:20-30 | every available row is on a page in `1..lastPage`: row `i` of the listing is entry `i % limit` of page `i / limit + 1` |
| `ServiceProperties.PageIsAscending` | 16-NMAEM/products-ms/src/products/products.service.ts:25-29 | a page lists its rows strictly ascending by id, so no row occurs twice on it |
| `ServiceProperties.FindOneAgreesWithListing` | 16-NMAEM/products-ms/src/products/products.service.ts:34-44 | `findOne(id)` succeeds iff the listing contains a row with that id, and then returns a row of the listing |
| `ServiceProperties.UpdateKeepsListingShape` | 16-NMAEM/products-ms/src/products/products.service.ts:47-53 | `update` leaves the set of available ids unchanged, so `total` and `lastPage` of every `findAll` stay the same |
| `ServiceProperties.UpdateThenFindOne` | 16-NMAEM/products-ms/src/products/products.service.ts:47-53 | a `findOne` right after `update` returns what `update` returned, or the same `NotFound` |
| `ServiceProperties.RemoveHidesRow` | 16-NMAEM/products-ms/src/products/products.service.ts:55-67 | after a successful `remove` the row is still stored, `findOne` fails with `NotFound`, and the available ids lose exactly that id |
| `ServiceProperties.SecondRemoveFails` | 16-NMAEM/products-ms/src/products/products.service.ts:55-62 | `remove` is not idempotent: a second `remove(id)` fails with `NotFound(id)` and changes nothing, whatever the first did |
| `ServiceProperties.RemovedRowStillValidates` | 16-NMAEM/products-ms/src/products/products.service.ts:69-79 | `remove` never changes whether `validateProducts` succeeds; a removed row fails `findOne` but passes `validateProducts([id])`, which returns it |
| `ServiceProperties.CreatedRowIsVisible` | 16-NMAEM/products-ms/src/products/products.service.ts:16-18 | a created row is returned by `findOne`, and the available ids gain exactly its id |
| `ServiceProperties.CreatedRowValidates` | 16-NMAEM/products-ms/src/products/products.service.ts:16-18 | `validateProducts([id])` of a created row returns exactly that row |
| `ServiceProperties.ValidateDependsOnlyOnIdSet` | 16-NMAEM/products-ms/src/products/products.service.ts:70-79 | lists with the same elements (such as `[3, 3, 5]` and `[3, 5]`) get the same reply |
| `ServiceProperties.ValidateOneRowPerId` | 16-NMAEM/products-ms/src/products/products.service.ts:71-79 | on success, each requested id has exactly one row in the reply, and it is the stored row |
| `Rpc.Status` | 16-NMAEM/products-ms/src/products/products.service.ts:39-42 | both exceptions carry status `HttpStatus.BAD_REQUEST`, 400 |
| `Rpc.Message` | 16-NMAEM/products-ms/src/products/products.service.ts:39-42 | a NotFound message is "Product with id ", the id's text, then " not found", and that text reads back as the id; the bulk-check message is "Some products were not found" (line 76) |
| `Rpc.DecimalRoundTrip` | 16-NMAEM/products-ms/src/products/products.service.ts:40 | reading back the decimal text of a natural number gives the number |
| `Rpc.IdTextRoundTrip` | 16-NMAEM/products-ms/src/products/products.service.ts:40 | reading back the text `${id}` of any integer id gives the id |
| `Rpc.ErrorsDifferOnlyInMessage` | 16-NMAEM/products-ms/src/products/products.service.ts:39-42 | NotFound and ValidationError carry the same status and differ in message; a NotFound message reads "Product with id … not found" |
| `Rpc.NotFoundMessageNamesId` | 16-NMAEM/products-ms/src/products/products.service.ts:39-42 | two NotFound messages are equal only for the same id |

## Left out

- `onModuleInit`, with `$connect()` and the logger (lines 10-15): this is connection lifecycle and logging I/O.
- The Prisma client itself: it is modelled as a map-valued table. Storage failures (connectivity, constraint violations), which the service lets propagate, are not modelled.
- `RpcException` and its transport: each exception is an `Err` value with the same message and status.
- The response envelope, `{ data: product }` for `findOne` and `remove`: the model returns the row itself in `Ok`.
- Concurrency: the gap between the `findOne` check and the following write in `update` and `remove`. Calls are modelled one after another only.
- Floating point: `Math.ceil(total / limit)` becomes exact integer ceiling division. JavaScript's number precision limits on `total`, `page`, `limit` and ids are not modelled.
- ProductsService.FindAll: does not model `page < 1` or `limit < 1`. It requires both to be at least 1, which the pagination DTO is expected to ensure. That DTO is not part of this model.
- Product domain fields are opaque values. DTO shape validation (`CreateProductDto`, `UpdateProductDto`) is not part of this model. `UpdateProductDto` is assumed not to carry `id` or `available`.
- ProductsService.Service.Create: `available = true` and the fresh id are assumptions about the database schema, which is not part of this model. They are not proved properties of the code.
- `findMany` result order: the source does not fix it. The model uses ascending id.
- Prisma `update` on a missing row: it would throw, but the preceding `findOne` check rules that out when calls run one after another.
- `14-NCALBS/src/videos/videos.controller.ts`: HTTP routing, console logging and a file-upload interceptor, with no logic of its own.
- `41-auth-backend/src/utils/PasswordUtils.ts`: a thin wrapper over bcrypt's `hash` and `compare`, which is a foreign cryptographic library.
