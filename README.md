# Pizza ordering store — a Dafny model

This project models the data layer of a small pizza-ordering HTTP API. It
covers the three tables of its SQLite database (customers, pizzas and
orders), the constraints the schema declares on them, the start-up seeding
of a sample menu, and the sixteen request handlers that validate a request,
read or change those tables and answer with a status code.

- `common.dfy` (module `Common`) holds:
  - optional request fields and JavaScript truthiness;
  - table rows;
  - the outcome of a handler. It is `Created` (201) or `Ok` (200) with a
    record, or `Fail` with a failure. A failure is a 400 with its reason, a
    404 naming the table, or a 409.
- `schema.dfy` (module `Schema`) holds the three records and the order
  statuses. It states each schema constraint as a predicate:
  - e-mails are unique;
  - prices, quantities and totals are positive;
  - both foreign keys of an order resolve;
  - AUTOINCREMENT keys are positive and below the next key.
- `listing.dfy` (module `Listing`) describes how a table is listed:
  - a primary-key scan (`RowsOf`);
  - `ORDER BY` as a stable insertion sort of that scan (`SortBy`);
  - `WHERE` as a filter (`Filter`).

  It also proves the generic facts the handlers need. A sort is a
  permutation that is ordered and keeps distinct rows distinct. Filtering
  commutes with sorting. Two key-ordered listings with the same rows are
  equal.
- `customers.dfy`, `pizzas.dfy` and `orders.dfy` (modules `CustomerRules`,
  `PizzaRules` and `OrderRules`) hold the parts of each controller that do
  not change the store. These are the validation chains, the e-mail check,
  the price computation, the status check, the in-use count, the joins and
  the list and single-row reads. Each read comes with the lemmas that tie
  its result to the tables.
- `store.dfy` (module `OrderStore`) has the class `Store`. Its fields are:
  - the three tables as maps;
  - their three AUTOINCREMENT counters;
  - a logical `clock` that `CURRENT_TIMESTAMP` reads.

  Every handler that writes is a method of `Store`. Each method keeps the
  invariant `Valid()`, meaning every schema constraint and every counter
  ahead of its keys. Each method also states the new value of every field
  on every path. The start-up seeding is a loop (`InsertAll`) driven by
  `SeedSampleData`. `FirstDay` runs several handlers in sequence.

Prices are integer cents: the sample price 12.99 is `1299`. A request field
that is absent is `None`. JavaScript's `!x` treats `0` and `""` as missing,
and `TruthyInt` and `TruthyText` model that.

The model follows the handlers where their behaviour is more specific than
a summary of the API would suggest:
- `getOrdersByCustomer` joins only the pizzas table. The model joins both
  catalog tables. The customer's existence is checked first, so the two
  joins give the same rows.
- `deletePizza` counts the orders that use the pizza before it looks the
  pizza up. A used id therefore answers 409, never 404.
- `updateOrderStatus` checks the requested status before it looks the
  order up.

## Model

| member | source | states |
|---|---|---|
| Common.Outcome.StatusCode | controllers/customerController.js:12-109 | a created record answers 201 and a record read 200; a rejected request answers 400, a missing row 404 and an e-mail conflict 409 |
| Common.TruthyInt | controllers/orderController.js:16 | JavaScript's `!x` on a numeric field: false for a missing field and for 0 |
| Common.TruthyText | controllers/customerController.js:16 | JavaScript's `!s` on a text field: false for a missing field and for the empty string |
| Schema.EmailsUnique | db.js:42 | no two customers share an e-mail (`UNIQUE`) |
| Schema.PricesPositive | db.js:53 | every pizza price is positive (`CHECK(price > 0)`) |
| Schema.OrderAmountsPositive | db.js:63-64 | every order quantity and total is positive (the two `CHECK`s) |
| Schema.ReferencesResolve | db.js:68-69 | every order's customer and pizza exist (the two foreign keys) |
| Schema.Consistent | db.js:39-70 | every schema constraint at once |
| Schema.KeysBelow | db.js:40 | AUTOINCREMENT keys are positive and below the next key to be issued |
| Schema.StatusText | db.js:65 | the text stored for each of the five statuses, the same five `StatusTexts` lists and the update handler admits |
| Schema.ValidSize | controllers/pizzaController.js:30-31 | a size is accepted exactly when it is small, medium or large |
| Schema.ParseStatus | db.js:65 | a status text is accepted exactly when it is one of the five the `status` CHECK lists, and is read back as the status it names |
| Schema.StatusRoundTrip | db.js:65 | every status is read back as itself from the text stored for it |
| Listing.Ascending | db.js:40 | the keys of a table, strictly increasing, each key exactly once |
| Listing.RowsOf | db.js:40 | a scan lists every row of the table exactly once, in ascending key order |
| Listing.SortBy | controllers/customerController.js:66 | an `ORDER BY` result is a permutation of its input: same multiset, same length |
| Listing.SortByOrdered | controllers/orderController.js:113 | for a total, transitive ordering the sorted result is ordered pairwise |
| Listing.SortByDistinct | controllers/orderController.js:113 | sorting rows that are pairwise distinct keeps them pairwise distinct |
| Listing.Filter | controllers/orderController.js:192 | a `WHERE` keeps exactly the rows its condition accepts, and no more rows than it is given |
| Listing.FilterKeepsAscending | controllers/orderController.js:192 | selecting rows from a key-ordered scan leaves them in key order |
| Listing.FilterSortBy | controllers/orderController.js:193 | selecting rows and then sorting gives the same list as sorting and then selecting |
| Listing.SameAscendingRows | db.js:40 | two key-ordered listings holding the same rows are the same listing |
| Listing.RowsOfPart | db.js:68 | the scan of a table with some rows removed is the scan of the full table with those rows filtered out |
| CustomerRules.IsSpace | controllers/customerController.js:23 | JavaScript's `\s` class: the ASCII blanks, NBSP, the Unicode space separators, the line and paragraph separators and the BOM |
| CustomerRules.MatchesAt | controllers/customerController.js:23 | the regular expression matched with its `@` and its literal `.` at the given positions |
| CustomerRules.MatchesEmailPattern | controllers/customerController.js:23 | the regular expression matches the string at some positions of its `@` and `.` |
| CustomerRules.FirstAt | controllers/customerController.js:23 | the position of the first `@`, or the length when there is none |
| CustomerRules.IsValidEmail | controllers/customerController.js:23-24 | the e-mail test: a non-empty local part and a domain split at the first `@`, neither holding a blank or another `@`, the domain holding an inner `.` |
| CustomerRules.EmailInUse | controllers/customerController.js:35 | some customer row already holds the e-mail, which makes the `UNIQUE` constraint fail |
| CustomerRules.NewerCustomerFirst | controllers/customerController.js:66 | `ORDER BY created_at DESC`: a row may come before another when it is at least as recent |
| CustomerRules.EmailCheckMatchesPattern | controllers/customerController.js:23-24 | the e-mail check accepts exactly the strings `^[^\s@]+@[^\s@]+\.[^\s@]+$` matches; an accepted address has exactly one `@` |
| CustomerRules.CustomerInputError | controllers/customerController.js:16-28 | rejected exactly when a field is missing or empty (reported first) or the e-mail has the wrong shape; accepted otherwise |
| CustomerRules.FreshEmailKeepsUnique | db.js:42 | writing a customer whose e-mail no other row holds keeps e-mails unique |
| CustomerRules.NewestFirst | controllers/customerController.js:66 | the customer list is ordered by creation time, newest first |
| CustomerRules.AllCustomers | controllers/customerController.js:63-80 | the customer list holds every customer exactly once, newest first, as many rows as the table |
| CustomerRules.CustomerById | controllers/customerController.js:87-109 | the customer with that key, or 404 exactly when there is none |
| CustomerRules.DeletedCustomerLeavesList | controllers/customerController.js:178-196 | after a customer is deleted the list is the old list without that customer, the others in the same order |
| PizzaRules.PizzaInputError | controllers/pizzaController.js:16-35 | missing fields (a price of 0 counts as missing), then a non-positive price, then a size outside small, medium and large; accepted exactly when all three pass |
| PizzaRules.StoredDescription | controllers/pizzaController.js:40 | a missing description is stored as the empty text and a given one unchanged |
| PizzaRules.UsesPizza | controllers/pizzaController.js:183 | `WHERE pizza_id = ?`: the order refers to the pizza |
| PizzaRules.InUseCount | controllers/pizzaController.js:183-196 | the count is positive exactly when some order refers to the pizza, and is at most the number of orders |
| PizzaRules.TextBefore | controllers/pizzaController.js:68 | SQLite's BINARY text order: code point by code point, a prefix first |
| PizzaRules.PizzaBefore | controllers/pizzaController.js:68 | `ORDER BY name, size`: by name, then by size among equal names |
| PizzaRules.TextBeforeTotal | controllers/pizzaController.js:68 | any two texts are comparable in code-point order |
| PizzaRules.TextBeforeAntisymmetric | controllers/pizzaController.js:68 | texts that each come before the other are equal |
| PizzaRules.TextBeforeTransitive | controllers/pizzaController.js:68 | the text order is transitive |
| PizzaRules.PizzaBeforeIsPreorder | controllers/pizzaController.js:68 | ordering by name and then size is total and transitive |
| PizzaRules.ByNameThenSize | controllers/pizzaController.js:66-68 | the menu is ordered by name, and by size among pizzas with the same name |
| PizzaRules.AllPizzas | controllers/pizzaController.js:65-82 | the menu holds every pizza exactly once, by name then size, as many rows as the table |
| PizzaRules.PizzaById | controllers/pizzaController.js:89-111 | the pizza with that key, or 404 exactly when there is none |
| PizzaRules.DeletedPizzaLeavesMenu | controllers/pizzaController.js:198-216 | after a pizza is deleted the menu is the old menu without it, the rest in the same order |
| OrderRules.OrderRequestError | controllers/orderController.js:16-56 | missing fields (a quantity of 0 counts as missing) are reported first, then a non-positive quantity, then an unknown pizza, then an unknown customer; accepted exactly when none applies |
| OrderRules.TotalPricePositive | controllers/orderController.js:59 | a positive unit price times a positive quantity is at least the unit price, so the stored total meets `total_price > 0` |
| OrderRules.RequestedStatus | controllers/orderController.js:222-234 | 400 for a missing status, 400 for a status outside the five, accepted exactly for the five texts, which name the status returned |
| OrderRules.EveryStatusAccepted | controllers/orderController.js:229-236 | every status may be requested, whatever state the order is in |
| OrderRules.TotalPrice | controllers/orderController.js:59 | the total of an order: unit price in cents times quantity |
| OrderRules.IsOrderView | controllers/orderController.js:106-112 | a joined row is an order of the table with its own customer and its own pizza |
| OrderRules.Join | controllers/orderController.js:110-112 | a joined row is an order row together with its customer and its pizza; every order whose customer and pizza exist is joined |
| OrderRules.JoinKeepsEveryRow | controllers/orderController.js:110-112 | when every order's customer and pizza exist, the join drops no row |
| OrderRules.JoinKeepsAscending | controllers/orderController.js:110-112 | the join keeps the rows in scan order |
| OrderRules.NewerOrderFirst | controllers/orderController.js:113 | `ORDER BY o.order_date DESC`: an order may come before another when it is at least as recent |
| OrderRules.NewestOrderFirst | controllers/orderController.js:113 | joined rows sorted by order date come most recent first |
| OrderRules.JoinOfTable | controllers/orderController.js:106-112 | the joined rows of the orders table are exactly the joined views of its orders |
| OrderRules.JoinOfPlaced | controllers/orderController.js:187-192 | the joined rows of one customer's orders are exactly the views of that customer's orders |
| OrderRules.SortedViews | controllers/orderController.js:106-113 | sorting the joined scan gives the most recent first, with no order listed twice |
| OrderRules.AllOrders | controllers/orderController.js:105-128 | the order list holds exactly the joined views of the orders, most recent first, each order once |
| OrderRules.AllOrdersListsEveryOrder | controllers/orderController.js:123-126 | when the foreign keys hold, the list's count equals the number of orders and every order appears in it |
| OrderRules.OrderById | controllers/orderController.js:135-163 | the joined view of that order, or 404 exactly when the order or its customer or pizza is missing |
| OrderRules.PlacedBy | controllers/orderController.js:192 | `WHERE o.customer_id = ?`: the order was placed by that customer |
| OrderRules.NotPlacedBy | db.js:68 | the orders `ON DELETE CASCADE` keeps when a customer is deleted |
| OrderRules.OrdersByCustomer | controllers/orderController.js:170-210 | 404 exactly when the customer does not exist; otherwise exactly that customer's orders, most recent first, each once |
| OrderRules.JoinFilter | controllers/orderController.js:187-192 | selecting order rows before the join gives the same rows as selecting after it |
| OrderRules.OrdersByCustomerFiltersAllOrders | controllers/orderController.js:187-194 | a customer's order list is the full order list with other customers' orders left out, in the same order |
| OrderRules.WithoutCustomer | db.js:68 | the cascade keeps exactly the orders of other customers, unchanged |
| OrderRules.JoinWithoutCustomer | db.js:68 | orders of other customers join the same once the customer is gone |
| OrderRules.CascadeLeavesOtherOrders | db.js:68 | deleting a customer removes exactly that customer's orders from the order list and leaves the others in the same order |
| OrderRules.DeletedOrderLeavesList | controllers/orderController.js:284-302 | after an order is deleted the list is the old list without it, the rest in the same order |
| OrderStore.SampleMenu | db.js:105-115 | nine sample pizzas, each with a positive price, one of the three sizes and the current time |
| OrderStore.Numbered | db.js:117-125 | items inserted one after another take the consecutive keys from the first free key on |
| OrderStore.NumberedMenuValid | db.js:117-125 | a numbered menu of valid items meets the price and size constraints, with the counter just past its last key |
| OrderStore.SizesValid | controllers/pizzaController.js:137-138 | every pizza has one of the three sizes the writers admit |
| OrderStore.Store.Valid | db.js:39-70 | the class invariant every handler keeps: the schema constraints, every counter ahead of the keys it issued, and every pizza of one of the three sizes |
| OrderStore.Store.constructor | db.js:37-78 | freshly created tables are empty and every counter is at its first key |
| OrderStore.Store.Tick | db.js:45 | the clock moves forward and no table changes |
| OrderStore.Store.CreateOrder | controllers/orderController.js:12-98 | a rejected request changes nothing; otherwise one `Pending` order under a fresh key, larger than every existing key, priced at unit price times quantity and stamped with the current time, answered 201 with its joined view; the invariant is kept |
| OrderStore.Store.UpdateOrderStatus | controllers/orderController.js:217-274 | 400 for the status before 404 for the order; otherwise only that order's status changes and its joined view is returned |
| OrderStore.Store.DeleteOrder | controllers/orderController.js:281-303 | 404, or exactly that order removed and nothing else changed |
| OrderStore.Store.CreatePizza | controllers/pizzaController.js:12-58 | a rejected request changes nothing; otherwise one pizza under a fresh key with the stored description, answered 201 |
| OrderStore.Store.UpdatePizza | controllers/pizzaController.js:118-172 | 400 before 404; otherwise the four fields replaced, the creation time and every order (with its stored total) unchanged |
| OrderStore.Store.DeletePizza | controllers/pizzaController.js:179-218 | 409 while any order uses the pizza, then 404, otherwise exactly that pizza removed and no order touched |
| OrderStore.Store.CreateCustomer | controllers/customerController.js:12-56 | 400, then 409 when the e-mail is taken, otherwise one customer under a fresh key, answered 201; e-mails stay unique |
| OrderStore.Store.UpdateCustomer | controllers/customerController.js:116-168 | 400, then 404, then 409 when another customer holds the e-mail; otherwise the four fields replaced and the creation time kept |
| OrderStore.Store.DeleteCustomer | controllers/customerController.js:175-197 | 404, or that customer removed together with exactly their orders (`ON DELETE CASCADE`) |
| OrderStore.Store.InsertAll | db.js:117-127 | on an empty menu, the items stored one after another under consecutive keys, with nothing else changed and the invariant kept |
| OrderStore.Store.SeedSampleData | db.js:94-133 | a non-empty menu is left alone; an empty one receives the nine sample pizzas under consecutive fresh keys |
| OrderStore.FirstDay | controllers/orderController.js:12-274 | for any valid e-mail and positive price, after `createPizza` and `createCustomer`: an order of three answers 201, `Pending`, at three times the price; `updateOrderStatus` to `Delivered` answers 200 with the same order, only its status changed; a second `createCustomer` with the same e-mail answers 409 |

## Left out

- The HTTP server, the routes, JSON parsing and the response bodies are not modelled. Messages and the exact set of columns each response projects are left out too. A handler's answer is modelled as its status code together with the record the response is built from.
- The connection to SQLite, `PRAGMA foreign_keys`, the indexes and the console logging are left out. The schema's constraints are modelled as the invariant `Valid()`.
- Every 500 branch is left out, because a database error cannot be modelled without the database engine.
- The timestamps of `CURRENT_TIMESTAMP` are left out. Time is the store's logical `clock`, read when a row is inserted and moved forward by `Tick`. The wall clock and its one-second resolution are not modelled.
- Prices are not modelled as floating point. The `REAL` prices are integer cents, so `price * quantity` is exact, with none of the rounding of JavaScript numbers.
- JavaScript coercion of request fields is not modelled: a string where a number is expected, `parseInt` of a path parameter, and comparison of a text with `0`. Numeric fields are integers and text fields are strings.
- The order in which SQLite returns rows that tie under `ORDER BY` is left out, because SQLite does not fix it. The model sorts stably over the primary-key scan.
- Concurrency is not modelled. The handlers issue several statements through callbacks, and other requests can interleave with them. Each handler is modelled as one atomic step.
- `ON DELETE CASCADE` on the pizza reference is not modelled as a separate step. `deletePizza` refuses while any order refers to the pizza, so the cascade has nothing to remove.
- OrderStore.SizesValid: the three sizes are part of the invariant although the schema has no CHECK on `size`. Every handler that writes a pizza checks the size. The seeding writes only the three sizes (db.js:106-114), as `SampleMenu`'s ensures states.
- OrderRules.TotalPrice: has no ensures of its own. `TotalPricePositive` states the property the schema needs of it.
- The e-mail check is modelled on strings of Unicode code points. JavaScript regular expressions see UTF-16 code units, which differ only for characters outside the Basic Multilingual Plane, and none of those is a `\s` character or `@`.
