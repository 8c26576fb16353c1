# Store and manager administration: validation-then-write rules

This project models the three form handlers of the store administration web
application that change data:

- adding a manager (`POST /managers/add`),
- editing a store (`POST /stores/edit/:sid`),
- deleting a product (`GET /products/delete/:pid`).

Each handler runs an ordered chain of guards with early return, then issues one
write. The datastores are the MongoDB `managers` collection and the MySQL
tables `store`, `product` and `product_store`. The model holds them as
sequences of rows in a `Database` class (`handlers.dfy`). Each handler is a
method written with the source's early returns. It is proved to return what a
pure validation function decides (`validation.dfy`), and to write exactly what
the source writes. The `UPDATE` and the `DELETE` are functions in `schema.dfy`.
The insert is the append `managers + [m]` in `AddManager`, with its lemma
`InsertKeepsManagers` in `handlers.dfy`.

Layout:

- `rules.dfy` (`Rules`): `Outcome` (accepted, or rejected with a reason) and
  `FirstFailure`, the reference meaning of "run the checks in order; the first
  failing one decides".
- `tables.dfy` (`Tables`): `Where`, the row filter behind `SELECT ... WHERE` and
  `DELETE ... WHERE`.
- `schema.dfy` (`Schema`): the records and constants, plus the key and
  cross-table constraints. It also holds the queries the handlers issue, with
  lemmas on what the writes preserve.
- `validation.dfy` (`Validation`): one rejection-reason datatype per handler,
  with one reason per early return in the source. Also the ordered check lists
  and the three `Validate*` functions, with lemmas on check order and
  boundaries.
- `handlers.dfy` (`Handlers`): the `Database` class and its three handler
  methods. It also has two client methods that run a handler twice.

The `Database` class has two object invariants:

- `Valid()`: the key constraints the datastores enforce themselves. These are
  unique manager `_id`s, unique store `sid`s and unique product `pid`s. Every
  handler requires and keeps them.
- `Consistent()`: the cross-table rules that only the guards protect. Every
  manager record is well formed, a manager runs at most one store, every
  store has a non-empty location, every store's manager exists, and every
  `product_store` row names an existing product. Each handler keeps them (`old(Consistent()) ==> Consistent()`).

The existence test `ManagerExists` is membership by `_id` in the collection.
It stands for both definitions of `exists` in `MongoDAO.js`: `findOne` at line
28 and `countDocuments` at line 51. Both answer the same question.

Behaviours modelled as the code has them:

- A stored `mgrid` may be SQL NULL (`Option`). `mgrid = ?` never matches a NULL
  row, so a store without a manager never conflicts.
- Editing a `sid` that no row has passes the guards. The `UPDATE` then touches
  no row, and the handler still redirects as on success. The model returns
  `Accepted` with the table unchanged (`Schema.UpdateAbsentStore`).
- Deleting a `pid` that no row has is accepted and changes nothing
  (`Schema.WithoutAbsentProduct`).
- The add-manager id rule is one check, "4 characters and not present", with
  one message. So a bad length and a taken id give the same reason
  (`IdInvalidOrTaken`).

## Model

| member | source | states |
|---|---|---|
| `Rules.FirstFailure` | index.js:153-165 | accepted iff every check passes; a rejection carries the reason of a failing check all of whose predecessors pass |
| `Rules.FirstFailureAt` | index.js:421-440 | a failing check whose predecessors all pass decides the outcome, whatever the later checks say |
| `Tables.Where` | index.js:354 | the filtered table holds exactly the rows of the table that satisfy the WHERE condition, and is no longer than the table |
| `Tables.WhereCounts` | index.js:354 | the filtered table holds each row that satisfies the condition exactly as often as the table does, and no other row |
| `Tables.WhereIdempotent` | index.js:363 | filtering twice by the same condition gives the same table as filtering once |
| `Schema.ManagerExistsAfterInsert` | MongoDAO.js:28-38 | after the insert of a record, the lookup by `_id` finds exactly the ids it found before plus the inserted id, and no other |
| `Schema.SalesOf` | index.js:354 | the query returns exactly the `product_store` rows whose `pid` is the given one |
| `Schema.StoresManagedElsewhere` | index.js:437 | the query returns exactly the stores whose `mgrid` is the given id (never a NULL one) and whose `sid` differs from the edited one |
| `Schema.WithoutProduct` | index.js:363 | after the DELETE, the table holds exactly the old rows with a different `pid`, and no row with the deleted `pid` |
| `Schema.UpdateStore` | index.js:443 | the UPDATE keeps the row count and every row's `sid`; rows of store `sid` get the new location and manager; every other row is unchanged |
| `Schema.WithoutProductKeepsKeys` | index.js:363 | deleting a product keeps the product keys unique |
| `Schema.UpdateStoreKeepsOneStorePerManager` | index.js:436-443 | if the conflict query found nothing, the UPDATE keeps "a manager runs at most one store", and only store `sid` carries the new manager |
| `Schema.UpdateStoreKeepsLocations` | index.js:421-423 | an UPDATE with a non-empty location, as the first guard ensures, keeps every store's location non-empty |
| `Schema.WithoutProductIdempotent` | index.js:363 | deleting the same product again leaves the product table as the first delete left it |
| `Schema.WithoutAbsentProduct` | index.js:363 | deleting a `pid` no row has leaves the product table unchanged |
| `Schema.UpdateAbsentStore` | index.js:443 | updating a `sid` no row has leaves the store table unchanged |
| `Validation.ValidateNewManager` | index.js:152-165 | accepted iff the record is well formed (4-character id, name longer than 5, salary from 30000 to 70000) and the id is new; the id rule is reported first, then the name rule, then the salary rule, each exactly when the earlier rules pass and it fails |
| `Validation.ValidateStoreEdit` | index.js:420-440 | accepted iff the location is non-empty, `mgrid` has 4 characters, `mgrid` names an existing manager and no store with a different `sid` has it; each rejection reason is reported exactly when the earlier rules pass and its own fails |
| `Validation.ValidateProductDelete` | index.js:353-360 | refused iff some `product_store` row has the `pid`; accepted iff none has |
| `Validation.IdRuleWinsOverName` | index.js:153-165 | an id of the wrong length or already taken is reported as `IdInvalidOrTaken` whatever the name and salary are |
| `Validation.NewManagerBoundaries` | index.js:158-165 | a 5-character name is rejected and a 6-character one accepted; salaries 30000 and 70000 are accepted, 29999 and 70001 rejected |
| `Validation.InsertedIdIsTaken` | index.js:153-167 | once a manager is inserted, any new add with its id is rejected for the id |
| `Validation.EmptyLocationRejected` | index.js:421-423 | an empty location is rejected as `LocationEmpty` whatever the manager id and the stores are |
| `Validation.ResaveOwnManagerAccepted` | index.js:436-440 | with every manager at one store at most, re-saving a store with its own valid manager is accepted: its own row is excluded from the conflict |
| `Validation.TakenManagerRejected` | index.js:436-440 | giving store B the valid manager of a different store A is rejected as `ManagerAssignedElsewhere` |
| `Handlers.Database.AddManager` | index.js:148-173 | returns `ValidateNewManager` of the old collection; on acceptance appends exactly `{id, name, salary}`, otherwise changes nothing; the id then exists; no table changes; keeps `Valid` and `Consistent` |
| `Handlers.Database.EditStore` | index.js:415-449 | returns `ValidateStoreEdit` of the old state; on acceptance the store table becomes the UPDATE of the old one and only store `sid` has the new manager, otherwise nothing changes; keeps `Valid` and `Consistent` |
| `Handlers.Database.DeleteProduct` | index.js:349-371 | returns `ValidateProductDelete`; on acceptance removes exactly the rows with that `pid`, otherwise the product table is unchanged; `product_store` and the other tables never change; keeps `Valid` and `Consistent` |
| `Handlers.InsertKeepsManagers` | index.js:167 | appending a manager with a new id keeps ids unique and the new id present; all earlier managers stay, so every store's manager still exists |
| `Handlers.AddManagerTwice` | index.js:153-167 | a first add is accepted exactly for a well-formed record with a new id, and then an identical second add is rejected for the id |
| `Handlers.DeleteProductTwice` | index.js:354-366 | when the first delete is accepted, the second is accepted too and the table is what one delete leaves; a refused delete stays refused and changes nothing |

## Left out

- HTML rendering and page scaffolding: the header template, the listing pages and the form pages (`index.js:11-145`, `179-229`, `242-345`, `376-412`). This is string templating with no stated behaviour. Each handler's response (redirect or 400 message) is the `Outcome` the method returns.
- Express setup, the MySQL pool configuration, `app.listen` and the MongoDB connection in `MongoDAO.js`. These are framework and I/O plumbing.
- The 500 paths: datastore failures and exceptions. This includes a missing form field (reading `.length` of `undefined`) and the duplicate-key error of `insertOne`. In the model each handler is one atomic step, so the guard has already ruled that error out.
- Concurrency. The source's check-then-write sequences (`index.js:153`/`167`, `index.js:437`/`443`) are not atomic, so concurrent requests can admit a duplicate id or a doubly assigned manager. The model runs each handler as one atomic step.
- Handlers.Database.AddManager: the salary is an unbounded `int`. The source compares the raw form string with `<` and `>` after JavaScript's numeric coercion, and stores that string. So a non-numeric salary (NaN) passes both comparisons, and the stored value is a string. Neither is modelled.
- Form fields are modelled as strings. The urlencoded body parser can also deliver an array (`location[]=`) or an object (`name[k]=v`), and those are not modelled. Two consequences are missed: `location[]=` has length 1, passes the empty-location guard and is written as an empty location; an object-valued name has no length, passes the name guard and is inserted as a non-string. So `Consistent()` holds for the source only when every field is a string.
- String lengths are `seq<char>` lengths, not JavaScript's UTF-16 code-unit counts.
- MySQL comparison rules: the model compares `sid`, `pid` and `mgrid` as exact strings. Collation, case-insensitive comparison and the conversion of URL strings to numeric keys are not modelled.
- `product_store.price` is a `real`; nothing in the handlers reads it.
- Row order in the tables has no meaning in SQL. The model keeps rows in sequence order, and its updates and deletes keep the remaining rows in that order.
