# Pickup-order service: a Dafny model of its request handlers

The service takes pickup orders for a moving/delivery business. It has three
tables:

- `admins`: staff accounts;
- `users`: one row per pickup order, keyed by a generated 20-character order id;
- `status`: one status line per order id.

An intake handler stores an order under an order id of the form `SSON` + upper-case
hexadecimal and sends two notification emails. Admins register and log in for a
signed session token. Anyone can set the status of an order id, list all orders
with their status, or look one order up by its order id.

The model follows the handlers one by one.

- `Server.Store` is a class whose fields are the three tables and their SERIAL
  sequences. Each handler is a method that returns the HTTP status code it sends.
- The SQL each handler issues is written as pure functions:
  - `StatusUpsert`: the `ON CONFLICT … DO UPDATE` upsert;
  - `ReadViews`: the full outer join, its `ORDER BY users.id DESC`, and the two projections;
  - `AdminAuth`: the admin lookup and the login decision;
  - `OrderIds`: the order-id generator.
- The table constraints (NOT NULL, UNIQUE, VARCHAR widths, ascending SERIAL ids)
  are the predicates of `Tables`. `Store.Valid()` is their conjunction, and every
  handler preserves it.
- `Lifecycle` relates the writes to what the read views show afterwards.
- `Server.IntakeThenTwoStatusUpdates` is a client of the handlers. It takes an
  order, sets its status twice, and reads it back.

A failure inside a handler's `try` block that the model does not decide itself
(a lost connection, a value PostgreSQL cannot convert, a rejected password
comparison, a throwing token signer) is the parameter `dbError`. Constraint
violations and PostgreSQL's rule for assigning a string to a VARCHAR(n) column
are decided by the model: a value that fits is kept, a longer one whose excess
is all spaces is cut to n characters, and any other longer one fails the
statement.
The random bytes behind an order id, today's date, the company mailbox and
whether email delivery succeeded are parameters too. The password hasher, the
password comparison and the token signer are function parameters with no
properties assumed.

## Model

| member | source | states |
|---|---|---|
| OrderIds.GenerateOrderId | server.js:142-145 | the id is always exactly 20 characters long |
| OrderIds.OrderIdLayout | server.js:142-145 | a prefix of at most 20 characters comes first, followed by the first 20-minus-prefix characters of the upper-case hex encoding (only hex digits); a longer prefix is cut to its first 20 characters |
| OrderIds.ToHexUpper | server.js:143 | the hex rendering of the random bytes has two characters per byte, all of them upper-case hexadecimal digits |
| OrderIds.ParseHexInvertsToHexUpper | server.js:143 | the upper-case hex encoding of the random bytes is injective: decoding it gives the bytes back |
| OrderIds.ToHexUpperPrefix | server.js:143 | the first 2k hex characters encode exactly the first k bytes |
| OrderIds.OrderIdDeterminedByLeadingBytes | server.js:142-145 | with an even-length prefix, two ids are equal if and only if the random bytes agree on the first (20 - prefix length)/2 bytes; the other bytes are cut off |
| OrderIds.SsonOrderIdUsesEightBytes | server.js:158 | an intake id starts with "SSON", and two intake ids are equal exactly when the first 8 of the 10 random bytes agree |
| Common.StoreVarchar | createTable.js:18-42 | assigning a string to a VARCHAR(n) column succeeds exactly when every character past n is a space; the stored value is then the string itself when it fits, otherwise its first n characters |
| Tables.NewUserRow | server.js:161-165 | the inserted users row takes the sequence id and today's date as entry_date, and fits every VARCHAR width. Pickup date, pickup time, addresses and purpose are the request's values. Name, email, phone and order_id are each the value cut to its column width, so the value itself when it fits |
| Tables.Insertable | createTable.js:23-36 | the intake insert is accepted only when every NOT NULL field is present, every VARCHAR value can be assigned, and the stored email and order_id collide with no existing row |
| Tables.InsertableIffConstraintsHold | createTable.js:23-36 | the intake insert is accepted exactly when its values can be assigned to their columns and the users table with the new row still satisfies NOT NULL, the VARCHAR widths, UNIQUE email, UNIQUE order_id and ascending ids |
| AdminAuth.FindAdmin | server.js:48-49 | the lookup by username finds an admin with that name, and finds none exactly when no admin has it |
| AdminAuth.NewAdminRow | server.js:35 | the inserted admins row takes the sequence id; the username and the password hash are each cut to their VARCHAR(50)/(255) widths, so each is the value itself when it fits |
| AdminAuth.Registrable | createTable.js:15-20 | registration is accepted only when a username is given, both values can be assigned to their columns, and the stored username is not taken |
| AdminAuth.RegistrableIffConstraintsHold | createTable.js:15-20 | registration is accepted exactly when both values can be assigned to their columns and the admins table with the new row still satisfies NOT NULL, VARCHAR(50)/(255) and UNIQUE username |
| AdminAuth.Authenticate | server.js:48-57 | login gives 200 exactly when an admin with that username accepts the password. The body is then the token signed over that admin's id with a "1h" expiry, and the Authorization header is "Bearer " + token. Otherwise it gives 400 with no header: "Username or password is incorrect" for an unknown username, "Invalid password" for a known one |
| AdminAuth.RegisterThenLogin | server.js:29-57 | after a successful registration, logging in under the stored username (the username itself when it fits) with the same password, when the comparison accepts the stored hash, returns a token for the new admin's id |
| StatusUpsert.StatusIndex | server.js:124-130 | gives the first position whose order_id equals the key, and none exactly when no row carries it |
| StatusUpsert.FindStatus | server.js:85 | the status row joined to an order id carries that id, and there is none exactly when no status row has it |
| StatusUpsert.Upsert | server.js:124-130 | the upsert keeps every existing row's id and order_id and leaves rows of other keys untouched; it appends exactly one row, with the fresh id, key and status, exactly when no row had the key; afterwards a row with the key carries the new status |
| StatusUpsert.UpsertLeavesExactlyOneRow | server.js:124-130 | after the upsert the status table still has unique order ids and ascending ids, a row for the key exists, and every row for the key carries the new status |
| StatusUpsert.UpsertKeepsOtherRows | server.js:124-130 | every other order id keeps its status row. The table grows by one row exactly when the key was absent. An existing row keeps its id; a new row takes the sequence value |
| StatusUpsert.UpsertLastWriteWins | server.js:127-128 | two upserts of the same key equal one upsert with the second status (the row id is that of the first) |
| StatusUpsert.UpsertIdempotent | server.js:124-130 | repeating the same upsert changes nothing |
| ReadViews.FindUserById | server.js:68-71 | the lookup by primary key returns a row with that id, and none exactly when no row has it |
| ReadViews.OrphanRows | server.js:85 | the status-side rows of the full outer join are exactly the status rows whose order id no users row carries, with a NULL users side |
| ReadViews.UserRowsDescending | server.js:84-86 | position m of the users side is the m-th newest users row together with its status row |
| ReadViews.FullOuterJoin | server.js:84-86 | the join has at least one row per users row and at most one more per status row, and no row is NULL on both sides |
| ReadViews.ListRowOf | server.js:82-83 | a listed row has order columns and an entry date exactly when its users side is present, takes order_id from the users side, and has a status exactly when its status side is present |
| ReadViews.ListView | server.js:81-91 | the listing has one row per joined row, and a row without order columns is an orphan that still lists a status |
| ReadViews.InfoRowOf | server.js:103-104 | a per-order row carries the users side's order_id and email, and a status exactly when the status side is present |
| ReadViews.CompleteInfoView | server.js:102-108 | every row of the per-order view belongs to the requested order id |
| ReadViews.WhereOrderId | server.js:107 | the WHERE clause keeps exactly the joined rows whose users-side order_id equals the key, and keeps no row whose users side is NULL |
| ReadViews.JoinListsEveryUserOnce | server.js:84-86 | every users row appears in the join once, paired with the status row of its own order id |
| ReadViews.JoinListsOrphans | server.js:85 | every status row without an order appears NULL-extended, and every NULL-extended row is one of them |
| ReadViews.JoinListsEveryStatus | server.js:85 | every status row appears in the join |
| ReadViews.JoinListsEveryStatusOnce | server.js:85 | no status row appears twice in the join |
| ReadViews.JoinOrderedByIdDescending | server.js:86 | rows with a NULL users.id come first, and users ids strictly decrease after them |
| ReadViews.ListViewEmptyIff | server.js:81-90 | the listing is empty exactly when both tables are empty |
| ReadViews.CompleteInfoAtMostOneRow | server.js:102-111 | with no order for the key the per-order view is empty; otherwise it is exactly one row, that order's columns with its status (NULL if none) |
| Lifecycle.StatusOnUnknownOrderIsOrphan | server.js:120-136 | setting a status for an order id no order carries creates a status row that the listing shows with NULL order columns and the per-order view never shows |
| Lifecycle.StatusUpdateShowsInCompleteInfo | server.js:98-136 | after a status update of an existing order, the per-order view shows that order with the new status |
| Lifecycle.SubmittedOrderIsVisible | server.js:154-165 | after a successful intake the constraints still hold, the order is found by its id and by its order id, and its status is NULL unless a status row already had that id |
| Server.Store.constructor | createTable.js:14-50 | the three tables start empty, every sequence starts at 1, and the constraints hold |
| Server.Store.RegisterAdmin | server.js:29-40 | 201 and the row (next id, username and hash of the password as their columns store them) appended exactly when the insert passes the admins constraints; otherwise 400 and the table unchanged. The admins sequence advances unless the call failed or a given value is refused by its VARCHAR column, which happens while the statement is planned; a NULL username or a duplicate still draws the sequence value. The other tables are untouched |
| Server.Store.Login | server.js:44-61 | 500 "Error logging in" when anything inside the try block fails, otherwise the login decision of Authenticate |
| Server.Store.GetUserById | server.js:64-76 | 200 with a row of that id exactly when one exists, 404 otherwise, 400 on failure |
| Server.Store.GetUsers | server.js:79-95 | the full-outer-join listing; 404 exactly when both tables are empty, 200 otherwise, 400 on failure |
| Server.Store.CompleteInfo | server.js:98-117 | the per-order view; 404 exactly when no order carries the id (even if a status row does); on 200 it is that order's single row with its status |
| Server.Store.SetStatus | server.js:120-136 | 200 and the upsert applied under the order id as VARCHAR(20) stores it when a status is given and the column accepts the id, even if no order has that id; otherwise 400 and the table unchanged. The status sequence advances exactly when the call did not fail and the column accepts the id, including on conflict and on a NULL status |
| Server.Store.SubmitOrder | server.js:142-183 | the order id is the generated "SSON" id. An insertable order is appended and two emails are queued, the confirmation to the customer and the notice to the company; the reply is 201 if both were delivered, 500 otherwise. A rejected insert gives 400 and sends nothing. The users sequence advances exactly when the call did not fail and every given VARCHAR value is accepted by its column, so a NULL field or a duplicate email still draws it |

## Left out

- HTTP and Express plumbing are not modelled: JSON parsing, CORS, the response bodies' texts beyond the login messages, console logging, and listening on port 4000.
- The connection pool, its configuration and the start-up call to `createTablesIfNotExists` are not modelled. The model starts from the tables it creates, with empty contents.
- Randomness is not modelled: the 10 random bytes are a parameter. The model does not reason about the probability of an order-id collision. A collision is a UNIQUE violation and gives 400.
- `auth.js` and `jsonwebtoken` are not part of this model. Hashing, comparison and signing are opaque functions, so there are no properties about cryptography or token expiry.
- `authenticateToken` is imported but guards no route, so no handler checks a session and the model checks none either.
- `email.js` is not part of this model. Sending is a queued (recipient, subject) pair plus a flag saying whether both deliveries succeeded. The body text is not modelled.
- Server.Store.SetStatus: a missing `order_id` is not modelled. The model takes a string, while the source would insert SQL NULL, which the UNIQUE index does not deduplicate.
- Server.Store.GetUserById: the model takes an integer id. A non-integer path parameter is a type error in PostgreSQL, which gives 400; in the model it is part of `dbError`.
- Date and time columns are strings, and their format validation is part of `dbError`. `entry_date` is the `today` parameter.
- Server.Store.Login: a rejected `comparePassword` (for instance, no password in the body) and a throwing `jwt.sign` (for instance, no signing secret configured) are not separate inputs. Both land in the same 500 reply as a failed query, so the model folds them into `dbError`, and `Authenticate` treats the comparison and the signer as total.
- Server.Store.RegisterAdmin: a failing `hashPassword` is not modelled. It rejects outside the handler's try block, so the request gets no reply.
- Concurrency is not modelled. Handlers run one at a time, so interleaved requests and the atomicity of the upsert are out of scope.
- ReadViews.FullOuterJoin: SQL leaves the relative order of the NULL-id rows unspecified. The model fixes it to status-table order.
- ReadViews.ListRowOf: the listing takes `order_id` from the users side. A status row without an order therefore lists with a NULL order id, as the source's query does.
- SERIAL sequences are modelled as advancing on every statement whose VARCHAR values are all accepted, including statements that a NOT NULL or UNIQUE check then rejects. The model treats PostgreSQL refusing an over-long VARCHAR value as happening while the statement is planned, before the SERIAL default is evaluated, so that refusal advances nothing. A failure of the call (`dbError`) advances nothing either.
- The login handler's two 400 messages differ, so they reveal whether a username exists. `Authenticate` models this as written.
- Registration accepts an empty username: NOT NULL does not exclude "". The model follows the code.
