# ubermarketapi request handlers, modelled in Dafny

The service is a small HTTP API over a MySQL database. It offers CRUD on
users, read access to a product catalogue, a password check, and placing
and "verifying" orders. This project models how each handler decides
what to do. The database handle the handlers share is replaced by an
in-memory store, `Api.Store`:

- `users` is the user table. The handlers spell its name both `user`
  and `User`; the model takes both to be one table.
- `orders` is the `order_Product` table.
- `products` is the read-only `Product` table.
- Each writable table has an auto-increment counter (`nextUserId`,
  `nextOrderId`). It supplies the id that `LastInsertId` reports. The
  model starts it at 1 and, while the server runs, never reuses an id.
  The program declares an auto-increment key only for `User`; for
  `order_Product` this is assumed (see "Left out").

A table is a sequence of rows in primary-key order (`Tables`). The
statements the handlers issue become functions over that sequence:

- `Find` for `SELECT ... WHERE id=?`
- `Remove` for `DELETE`
- `Replace` for gorp's whole-row `UPDATE`
- appending under the counter for `INSERT`
- `Records.FindLogin` for the email-and-password query

`Store.Valid()` is the table invariant: keys are strictly increasing, so
they are unique, and every key is below its counter. Every writing
handler preserves it.

Each handler is a method of the store. It takes the decoded request: the
path id as an integer and the bound JSON body as a record. It also takes
a `Fault` telling how the database behaves on this request. It returns a
`Response`, which is one of:

- `Reply(status, body)`: the handler answered.
- `NoReply`: the handler wrote nothing. This happens when an `INSERT`
  fails, because its error is discarded and its nil result skips the
  reply. It also happens in `authentication` with an empty field, and in
  `verifyOrder` when its lookup succeeds.
- `Fatal(message)`: `checkErr` ended the process through `log.Fatalln`.
  This happens after a failed `LastInsertId`, `Update` or `Delete`.

The module `Scenarios` holds client methods. They chain handlers and
prove what a caller can rely on:

- creating a user and then fetching it
- deleting the same id twice
- logging in right after registering
- updating a row, fetching it, then updating it after deletion
- the concrete create-then-fetch exchange on a fresh database
- placing an order that references nothing that exists

Behaviours of the code worth knowing:

- `authentication` with an empty field sends no response at all.
- Write errors in `postUser`, `updateUser`, `deleteUser` and `postOrder`
  end the process (or send nothing). They are not turned into an error
  reply. A failed lookup in `updateUser` and `deleteUser` does answer 404.
- `getProduct` answers a missing product with the message
  "user not found".
- `verifyOrder` answers 200 exactly when its lookup *fails*, and has no
  fulfilment transition.

## Model

| member | source | states |
|---|---|---|
| `Tables.Find` | src/api/main.go:119 | the row found has the requested key and is stored; no row is found exactly when no stored row has that key |
| `Tables.Remove` | src/api/main.go:205 | the result keeps exactly the stored rows whose key differs from the deleted one |
| `Tables.Replace` | src/api/main.go:180 | same length; each row with the updated key becomes the new row as a whole, every other row is unchanged |
| `Tables.FindStored` | src/api/main.go:119-129 | in a table with unique keys, looking a stored row up by its key returns that very row |
| `Tables.Append` | src/api/main.go:142-143 | inserting under the next counter value keeps the table ordered and below the advanced counter, the id was not present before, the new row is found under it, and every other key's lookup is as before |
| `Tables.FindAppendOther` | src/api/main.go:275 | after an insert, the lookup of every key other than the new row's is as before |
| `Tables.RemoveOrdered` | src/api/main.go:202-205 | deleting keeps the table in strictly increasing key order |
| `Tables.RemoveBelow` | src/api/main.go:202-205 | deleting keeps every key below the table's counter |
| `Tables.RemoveAbsent` | src/api/main.go:202-205 | deleting an absent key leaves the table exactly as it was |
| `Tables.RemovePresent` | src/api/main.go:202-205 | deleting a present key from a table with unique keys removes exactly one row |
| `Tables.RemoveKeepsOthers` | src/api/main.go:205 | after a delete, every other key's lookup is as before |
| `Tables.ReplaceOrdered` | src/api/main.go:180 | an update keeps the table ordered and below its counter |
| `Tables.ReplaceFinds` | src/api/main.go:172-180 | after updating a present key, that key finds the new row |
| `Tables.ReplaceKeepsOthers` | src/api/main.go:180 | after an update, every other key's lookup is as before |
| `Records.FindLogin` | src/api/main.go:259 | the row found has exactly the given email and password; none is found exactly when no stored user has both |
| `Api.Store.constructor` | src/api/main.go:53 | a fresh store has no users and no orders, holds the given catalogue, starts both counters at 1, and satisfies the table invariant |
| `Api.Store.GetUsers` | src/api/main.go:104-112 | 200 with every stored user in key order, or 404 with the store's error when the select fails |
| `Api.Store.GetUser` | src/api/main.go:116-132 | 404 "user not found" for an absent id or a failed lookup; otherwise 200 with the stored row's email and password under that id, every other field empty |
| `Api.Store.PostUser` | src/api/main.go:136-157 | an empty email or password gives 422 with no write; otherwise exactly one row is appended under a fresh id, holding the email and password with empty name, phone and confirmation, and every other row's lookup is unchanged; that record comes back with 201; a failed INSERT gives no reply and no row; a failed LastInsertId ends the process after the write; orders are untouched |
| `Api.Store.UpdateUser` | src/api/main.go:161-193 | existence is checked first, so an absent id gives 404 whatever the body holds; then an empty email or password gives 422 with the row unchanged; otherwise the row becomes the body's email, password and name with empty phone and confirmation, returned with 200, and every other row's lookup is unchanged; a failed UPDATE ends the process with nothing changed |
| `Api.Store.DeleteUser` | src/api/main.go:198-214 | an absent id gives 404 with nothing changed; a present id is removed, exactly one row fewer, other lookups unchanged, 200 acknowledging the id; a failed DELETE ends the process with nothing changed |
| `Api.Store.GetProducts` | src/api/main.go:218-226 | 200 with the whole catalogue, or 404 with the store's error when the select fails |
| `Api.Store.GetProduct` | src/api/main.go:230-251 | 404 "user not found" for an absent id or a failed lookup; otherwise 200 with the stored product, every field copied |
| `Api.Store.Authentication` | src/api/main.go:254-267 | with either field empty, no lookup and no reply; otherwise 200 "authenticated" iff some stored user has exactly that email and password (and the lookup works), and 404 "User and/or password is incorrect" iff not; the store is never modified |
| `Api.Store.PostOrder` | src/api/main.go:269-291 | product id 0 gives 422 with no write; otherwise one order row is appended under a fresh id, mirroring the body's user id, product id and order number, leaving every other order's lookup unchanged, and comes back with 201; neither reference is checked; a failed INSERT gives no reply and no row; users are untouched |
| `Api.Store.VerifyOrder` | src/api/main.go:295-303 | 200 "Verify Complete" exactly when the order lookup errs, no reply otherwise; the store is never modified |
| `Scenarios.CreateThenGet` | src/api/main.go:116-159 | after a successful registration, fetching the returned id gives 200 with that id (at least 1) and the same email and password |
| `Scenarios.DeleteTwice` | src/api/main.go:198-214 | deleting a present id twice gives 200 and then 404; the table is exactly the first delete's result, one row fewer and no longer holding the id |
| `Scenarios.RegisterThenLogin` | src/api/main.go:136-150 | a user just registered authenticates with the same email and password |
| `Scenarios.UpdateThenGet` | src/api/main.go:161-196 | a fetch after an update shows the new email and password; an update after the row is deleted gives 404, even with an empty body |
| `Scenarios.RegisterThenFetch` | src/api/main.go:140-150 | on a fresh database, registering a@x.com / p gives 201 with id 1, and GET /user/1 then returns id 1 with the same email and password |
| `Scenarios.OrderWithoutReferences` | src/api/main.go:273-284 | on an empty database, an order naming an unknown user and product is still accepted with 201 and id 1 |

## Left out

- HTTP plumbing. Gin routing and `main` (src/api/main.go:81-102) and the `Cors` middleware are not modelled, because they make no decision about the data. When a handler writes nothing (`NoReply`), what the framework then sends is not modelled either.
- Database setup. `initDb` (connecting, registering the `User` table, creating tables) is not modelled: it runs before any request. `checkErr` is modelled only as the `Fatal` response.
- `c.Bind`. The body arrives as an already-decoded record. What Gin does when decoding fails is not modelled. It sets a 400 status, and the handler still runs on whatever part of the body did decode: nothing after a syntax error or an empty body, the other fields after a type error in one field. So a write can still happen, and its reply body follows the 400 header. The mis-spelled `json"id"` tag on `Order.Id` is not modelled either.
- Id parsing. `strconv.ParseInt(id, 0, 64)`, with its ignored error, is not modelled: path ids are integers already. As a result, `DeletedBody` carries this integer and not the raw path text of the reply key.
- SQL and gorp. Every statement is a function over the in-memory tables, and every database error is the `Fault` input. The store does not tell a missing row of `SelectOne` from a query error: both become the same error reply.
- Api.Store.Authentication: when several rows match, this model answers 200 ("some row matches"). What `SelectOne` does when several rows match belongs to gorp, which is not part of this model.
- Api.Store.VerifyOrder: whether the lookup errs is an input. The call passes the SQL text where the result holder belongs, so its real outcome depends on gorp. The commented-out fulfilment update is inert and not modelled. The order id is accepted but not used.
- Api.Store.GetUsers: an empty `users` table is returned as an empty sequence. The JSON difference between an empty array and `null` for an empty Go slice is not modelled.
- Column defaults. A row inserted by `postUser` has empty name, phone and confirmation. The columns gorp creates are nullable and the INSERT names only email and password. If they hold NULL, every later `SELECT *` into the Go `string` fields fails to scan. `getUser`, `updateUser`, `authentication` and `getUsers` then behave as on a read error. This NULL case is not modelled. `Scenarios.CreateThenGet`, `Scenarios.RegisterThenLogin` and `Scenarios.RegisterThenFetch` assume the empty-string case.
- Id reuse after a restart is not modelled. Before MySQL 8.0, InnoDB resets AUTO_INCREMENT to the largest id plus one when the server restarts, so a deleted top id can come back.
- Records.FindLogin: the store's collation is not modelled. The model compares email and password exactly. MySQL compares them by the column collation. With the UTF8 charset (src/api/main.go:64) the default collation ignores case and trailing spaces, so the database could accept credentials that differ only in case or trailing spaces, where the model answers 404.
- Api.Store.constructor: the model assumes four things the visible code does not guarantee. First, `id` is the primary key of every table, so keys are unique; this matters for products, whose table this program never creates (src/api/main.go:67). Second, a full `SELECT *` with no ORDER BY (src/api/main.go:106, 220) returns rows in key order. A catalogue with a duplicate product id cannot be built in this model. With such a catalogue the real `SelectOne` would err and `getProduct` would answer 404. Third, `order_Product`, which this program also never creates (it only inserts into it, src/api/main.go:275), has an `id` column that auto-increments from 1; the fresh-id clause of `Api.Store.PostOrder` and the id 1 in `Scenarios.OrderWithoutReferences` rest on this. Fourth, the names `user` (src/api/main.go:106, 119, 142, 164, 259) and `User` (src/api/main.go:67, 180, 202, 205) denote the same table. That holds only when MySQL compares table names case-insensitively (`lower_case_table_names` set to 1 or 2). Under the Linux default of 0, every statement on `user` would reach a table the program never creates.
- The `Client` and `Authenticator` records are not modelled, because no handler uses them (`authentication` binds into a `User`).
- Concurrency on the shared handle is not modelled: each handler runs as one step. Plaintext password storage is reproduced as it is.
