# Expense service: a verified model of the record store and its handlers

This project models the expense-record service of a small expense tracker.
The service keeps one collection of expense records and has three request
handlers:

- **list** (`GET /expenses`): filters by exact category, sorts by `date` and
  then `created_at` (or by `created_at` alone), and returns each record with
  `id` in place of `_id` and without the idempotency key.
- **create** (`POST /expenses`): rejects a request with a falsy `amount`,
  `category`, `description` or `date` (400). It looks up a truthy
  idempotency key and echoes the stored record (200). Otherwise it saves a
  new record (201). The store's sparse unique index on `idempotency_key`
  rejects a duplicate key (409).
- **delete** (`DELETE /expenses/:id`): removes the record with that id (200,
  echoing the id), or answers 404.

Layout:

- `expense.dfy` (module `ExpenseModel`) holds the data model. It has the
  stored `Record`, the request body `Request`, the listed item `Listed`, and
  the two response types with their HTTP status codes. It also states the
  JavaScript truthiness the required-field check uses: an absent field, the
  amount 0 and the empty string are falsy.
- `string_order.dfy` (module `StringOrder`) defines lexicographic order on
  strings by code point. This is the order the document store uses for the
  `date` field.
- `listing.dfy` (module `Listing`) models the list handler as pure functions.
  `Select` is the filter, `SortBy` is an insertion sort proved to return a
  sorted permutation, `Project` is the projection, and `List` composes them.
- `store.dfy` (module `Store`) models the collection as a value `Db`. The
  handlers `Create` and `Delete` are transitions on it. `Valid` is the sparse
  unique index plus fresh ids. The file holds the lemmas about repeated,
  unkeyed and interleaved creations and about deletion.
- `service.dfy` (module `Service`) holds the class `ExpenseStore`. Its fields
  `records` and `nextId` are changed in place by `Save`, `Create` and
  `Delete`. `Create` and `Delete` are proved to perform the transitions of
  the same name in `Store`. `Save` is proved to append exactly when no
  stored record carries the key. All three keep `Valid`.

Modelling choices:

- `_id` is a natural number drawn from a counter (`nextId`). The counter
  advances only when a save succeeds.
- `created_at` is the `now` argument of a creation. The clock is outside the
  model.
- `amount` is an integer number of cents. The server only tests whether it
  is truthy.
- A request field that the JSON body leaves out is `None`. A key of `None`
  is stored as "no field", and the sparse index ignores such records.
- Where the prose description and the code differ, the model follows the
  code:
  - The code accepts any non-zero amount, negative ones included, although
    the description calls the amount positive.
  - The code treats only a truthy key as a key for the lookup, but it stores
    any key it was sent. A request with the empty key `""` is therefore
    never echoed. It is stored with key `""`, and the index rejects a second
    such request with 409 (`Store.EmptyKeyRepeatConflicts`). For keys that
    are absent or strings, this is the only way to reach 409 sequentially
    (`Store.Create`). Deduplication by
    replay applies to non-empty keys only.
- The race between the lookup and the save is not modelled as concurrency.
  Creation is split into its two phases, `Store.Lookup` (the `findOne`) and
  `Store.Persist` (the `save` under the index).
  `Store.InterleavedKeyedCreates` runs two handlers' lookups before either
  save. It shows that the second save gets 409 and that one record carries
  the key. `Store.Persist` keeps the index valid whatever the lookup found,
  so the index, not the lookup, is what keeps keys unique.

## Model

| member | source | states |
|---|---|---|
| `Listing.Select` | backend/server.js:36-40 | the filter keeps every record whose category equals a truthy query category, as often as it is stored, and drops all others; a falsy category keeps everything |
| `Listing.Insert` | backend/server.js:42-48 | inserting into a sequence sorted in the listing order gives a sorted sequence holding the old elements plus the new one |
| `Listing.SortBy` | backend/server.js:42-51 | the sort returns a permutation of its input that is ordered by the requested sort order |
| `Listing.ProjectPreservesPermutation` | backend/server.js:53-60 | projecting two permutations of each other to listed items gives permutations of each other |
| `Listing.SortedOrder` | backend/server.js:42-48 | a sequence sorted in the requested mode has non-increasing dates with ties in non-increasing `created_at` when the sort is `date_desc`; otherwise it has non-increasing `created_at` |
| `Listing.List` | backend/server.js:34-61 | the listing is a permutation of the projections of the matching records; with `date_desc` it is non-increasing by date and then by `created_at`, otherwise non-increasing by `created_at` |
| `Listing.Project` | backend/server.js:53-60 | the projection gives one listed item per record, in the records' order, item i being the projection of record i; the `Listed` type and `Show` are what make each item carry `id` in place of `_id` and no idempotency key |
| `Listing.ProjectMember` | backend/server.js:53-60 | an item is in a projection exactly when some record projects to it |
| `Listing.ListMembership` | backend/server.js:36-40 | an item is listed if and only if some stored record that the filter admits projects to it |
| `Listing.ListByCategory` | backend/server.js:38-40 | with a non-empty category every listed item has that category exactly, and every stored record of that category is listed |
| `Listing.ListAll` | backend/server.js:36-51 | without a truthy category the listing is a permutation of all stored records, projected, and has one item per record |
| `StringOrder.StrLeTotal` | backend/server.js:44 | any two date strings are comparable in the sort order |
| `StringOrder.StrLeTrans` | backend/server.js:44 | the date order is transitive |
| `StringOrder.StrLeAntisym` | backend/server.js:44 | two dates that each sort at or before the other are equal |
| `Store.UniqueKeyCount` | backend/server.js:25 | under the sparse unique index a key is carried by exactly one record when it is taken and by none otherwise |
| `Store.KeyDeterminesRecord` | backend/server.js:25 | under the index two stored records with the same non-null key are the same record |
| `Store.FindByKey` | backend/server.js:79 | the lookup by key returns a stored record carrying that key, or reports that no record carries it |
| `Store.IndexOfId` | backend/server.js:129 | the lookup by id returns a position holding that id, or reports that no record has it |
| `Store.Lookup` | backend/server.js:78-92 | a found record is stored and carries the request's truthy key; a truthy key that is not found is carried by no record |
| `Store.Persist` | backend/server.js:94-118 | saving yields 409 with the collection unchanged exactly when the key is taken; otherwise 201 with a new record of the request's fields and a fresh id appended; the index stays valid whatever the lookup did |
| `Store.Create` | backend/server.js:69-122 | 400 exactly when a required field is falsy, with nothing changed; a truthy key already stored yields 200 with that very record and nothing changed; an untaken key or no key yields 201 and appends one record with the request's fields and an id no stored record has; 409 only for the empty key, with nothing changed; the index and fresh ids are preserved |
| `Store.ReplaysChangeNothing` | backend/server.js:78-91 | once a record carries the key, any number of retries each return 200 with that record and leave the collection unchanged |
| `Store.KeyedRetries` | backend/server.js:78-112 | submitting one keyed request N times leaves exactly one record with that key; the first response is 201 exactly when the key was not stored, and every later one is 200 with the same record |
| `Store.UnkeyedCreatesAllInsert` | backend/server.js:94-112 | N requests without a key, even identical ones, each answer 201 and append one record, with ids nextId, nextId+1, …; the earlier records stay as they were |
| `Store.EmptyKeyRepeatConflicts` | backend/server.js:78-118 | a request with the empty key is saved with that key without a lookup, so an identical second request is rejected with 409 and changes nothing |
| `Store.InterleavedKeyedCreates` | backend/server.js:79-118 | when two requests with the same key both looked up before either saved, the first save answers 201, the second 409 and changes nothing, and exactly one record carries the key |
| `Store.RemoveAt` | backend/server.js:129 | removing one position keeps every other record in order and removes exactly that one from the multiset |
| `Store.RemoveAtValid` | backend/server.js:129 | removing a record keeps the index and the ids valid |
| `Store.Delete` | backend/server.js:125-139 | 200 echoing the id exactly when some record has the id, with one record carrying the id removed and the rest kept in order; 404 with nothing changed otherwise; validity is preserved |
| `Store.DeleteRemovesExactlyOne` | backend/server.js:129-135 | deleting an existing id answers 200, removes exactly that record, leaves no record with the id, and keeps every other record |
| `Store.DeleteThenListOmits` | backend/server.js:51-60 | after a deletion no listing, under any filter or sort, contains the deleted id |
| `Service.ExpenseStore.constructor` | backend/server.js:19-28 | a new collection is empty and valid |
| `Service.ExpenseStore.Save` | backend/server.js:102 | the save appends the document and takes its id exactly when no stored record carries its key; otherwise nothing changes |
| `Service.ExpenseStore.Create` | backend/server.js:69-122 | the in-place creation handler returns the response of `Store.Create` and leaves the collection that `Store.Create` gives, keeping the index valid |
| `Service.ExpenseStore.Delete` | backend/server.js:125-139 | the in-place deletion handler returns the response of `Store.Delete` and leaves the collection that `Store.Delete` gives, keeping the index valid |

## Left out

- Database connection, express middleware, CORS, environment loading,
  `app.listen` and console logging (backend/server.js:1-17, 81, 141-143):
  these are input/output plumbing.
- Store failures and other exceptions answered with 500
  (backend/server.js:62-63, 119-120, 136-137). This includes an id that
  cannot be cast to the store's identifier type. These come from the
  database library, which is outside the model.
- The store's `_id` generation and `Date.now`: ids come from a counter and
  the creation time is a parameter.
- Concurrent execution: only the interleaving of two creations' phases is
  modelled, as the sequential composition `Store.InterleavedKeyedCreates`.
- The text of the JSON error and success messages. Responses are modelled
  by kind and status code.
- JSON `null` and values of the wrong type in request fields, and the
  casting the schema applies to them. Query parameters given more than once
  are also left out. Each field is either absent or of its schema type.
- `Listing.SortBy`: the order among records with equal sort fields is
  whatever the insertion sort gives. The store promises no particular order
  for such ties, so the model states only sortedness and permutation.
- Floating-point amounts and the client's totals and formatting: amounts are
  integer cents.
- The browser client (frontend/src/App.jsx), including its rotation of the
  idempotency key after a success.
