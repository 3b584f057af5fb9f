# Shop database layer — a Dafny model

This project models `android/app/src/components/database.ts`, the data-access layer of a small
React Native shop app. It sits on an embedded SQLite file with seven tables:

- `categories`
- `products` (with a UNIQUE `name`)
- `users` (with a UNIQUE `username`)
- `cart`
- `orders` (with a UNIQUE `orderCode`)
- `orderItems`
- `userProfiles` (with a UNIQUE `userId`)

The layer exports one async function per operation:

- seeding at start-up
- category, product and user administration
- the cart
- order placement with compensating deletes
- the order listing
- the profile upsert and the account/profile merge

How the model is built:

- Every table is a sequence of `Row(id, value)` kept in rowid order.
- A table declared with AUTOINCREMENT also carries its `sqlite_sequence` counter (`Table.lastId`).
  So ids of deleted rows are never handed out again.
- `categories` has no AUTOINCREMENT. It gets the next id as "largest rowid + 1", so the id of a
  deleted newest category is reused.
- Each statement is a pure function, in modules that follow the file's sections. Its contract says
  what the statement does to its table:
  - `Tables`: rows, keys, and the INSERT / UPDATE / DELETE / SELECT-by-id shared by every table
  - `Catalog`: categories and products
  - `Identity`: users
  - `CartStore`: the cart
  - `Orders`: orders and their items
  - `Profiles`: user profiles
  - `Schema`: the start-up seeding
  - `Text`: LIKE and the BINARY collation
- `Store.Database` is a class holding the seven tables as fields. It has one method per exported
  function, and the loops of the source are written as loops.
- Every state-changing method states its complete new state in terms of the old one.
  `Store.Invariant` holds the primary keys, the UNIQUE constraints, and "every order item points at
  an existing order". Every method preserves it.
- Values the source takes from outside become parameters:
  - the clock (`'ORD' + Date.now()` and `new Date().toISOString()`)
  - which item insert of createOrder fails, if any (`failAt`)
- A JavaScript optional `userId` is an `Option<int>`. It counts as given only when it is truthy
  (`Records.Given`: present and not 0).

## Model

| member | source | states |
|---|---|---|
| Tables.Insert | android/app/src/components/database.ts:95-102 | an INSERT into an AUTOINCREMENT table appends one row whose id is the counter plus one, an id no row had; the counter advances and the table stays ordered with ids in range |
| Tables.Get | android/app/src/components/database.ts:443-456 | the row returned by id lookup is in the table and has that id; null exactly when no row has the id |
| Tables.Delete | android/app/src/components/database.ts:323-331 | `DELETE ... WHERE id = ?` keeps exactly the rows with another id, and never grows the table |
| Tables.DeleteIsWhere | android/app/src/components/database.ts:323-331 | `DELETE ... WHERE id = ?` keeps what the generic WHERE filter on `id <> ?` selects |
| Tables.DeleteOrdered | android/app/src/components/database.ts:323-331 | deleting by id keeps the rows in rowid order |
| Tables.Where | android/app/src/components/database.ts:333-351 | a `SELECT * ... WHERE` filter returns exactly the rows that satisfy the condition, never more rows than the table |
| Tables.WhereOrdered | android/app/src/components/database.ts:333-351 | a `WHERE` filter keeps the rows in rowid order |
| Tables.DeleteAppended | android/app/src/components/database.ts:603-604 | deleting the row just appended gives back the previous table |
| Tables.Replace | android/app/src/components/database.ts:250-261 | `UPDATE ... WHERE id = ?` changes the values of the row with that id only, keeps every id and keeps rowid order |
| Tables.RaiseLastId | android/app/src/components/database.ts:603-604 | a table whose rows were deleted after ids were consumed is still well formed with the advanced counter |
| Catalog.NextRowId | android/app/src/components/database.ts:241 | the rowid SQLite picks for a table without AUTOINCREMENT is 1 for an empty table and above every rowid in use |
| Catalog.AddCategory | android/app/src/components/database.ts:237-248 | the new category is appended under max(rowid)+1 (1 for an empty table), an id no existing category has; earlier rows are untouched and rowid order is kept |
| Catalog.DeletedNewestIdReused | android/app/src/components/database.ts:90 | without AUTOINCREMENT, after adding and deleting a category the next category added gets the same id |
| Catalog.AddProduct | android/app/src/components/database.ts:297-308 | the table is unchanged exactly when the name is already used (UNIQUE violation swallowed); otherwise the product is appended under the AUTOINCREMENT counter plus one, an id no row holds; names stay unique |
| Catalog.UpdateProduct | android/app/src/components/database.ts:310-321 | when another row holds the new name nothing changes; otherwise exactly the row with that id takes the new values; names stay unique and order is kept |
| Catalog.InCategory | android/app/src/components/database.ts:333-351 | the result holds exactly the products whose categoryId is the one asked for, in rowid order |
| Catalog.Search | android/app/src/components/database.ts:353-378 | the result holds exactly the products that join a category and whose name or whose category's name contains the keyword, ignoring ASCII case, in rowid order |
| Catalog.EmptyKeywordListsJoinedProducts | android/app/src/components/database.ts:357-362 | an empty keyword lists exactly the products whose category exists (inner join) |
| Catalog.DeletedCategoryHidesProducts | android/app/src/components/database.ts:263-274 | after deleteCategory, none of that category's products is found by the search, whatever the keyword |
| Text.Like | android/app/src/components/database.ts:360-362 | `LIKE '%keyword%'`: the empty keyword (pattern `%%`) matches every text, and a keyword longer than the text never matches |
| Text.LikeIgnoresAsciiCase | android/app/src/components/database.ts:360-362 | LIKE matches a text against a keyword that differs from it only in ASCII letter case |
| Text.LeTotal | android/app/src/components/database.ts:630 | the text ordering is total |
| Text.LeTransitive | android/app/src/components/database.ts:630 | the text ordering is transitive |
| Identity.AddUser | android/app/src/components/database.ts:380-390 | returns true exactly when the username was free, and then appends the account under the AUTOINCREMENT counter plus one, an id no row holds; returns false and changes nothing otherwise; usernames stay unique |
| Identity.UpdateUser | android/app/src/components/database.ts:392-400 | when another account holds the new username nothing changes; otherwise exactly the account with that id takes the new values |
| Identity.Credentials | android/app/src/components/database.ts:428-441 | the account returned has exactly that username and password; null exactly when no account has both |
| Identity.AddedUserCanSignIn | android/app/src/components/database.ts:380-441 | right after a successful addUser, a sign-in with the same username and password returns the new account |
| Identity.CredentialsUnique | android/app/src/components/database.ts:428-441 | with unique usernames, the account found is the only one holding that username |
| CartStore.AddQuantity | android/app/src/components/database.ts:476-484 | `UPDATE cart SET quantity = quantity + ?` grows exactly the lines matching the product (and the user, when one is given) and keeps every id and every other line |
| CartStore.NewLine | android/app/src/components/database.ts:487-499 | the inserted line matches the product and the user it was added for, snapshots the product's name, price and image, and leaves the user NULL when none is given |
| CartStore.AddToCart | android/app/src/components/database.ts:460-507 | when some line matches the product (and the user, when one is given) every matching line grows by the quantity and nothing is added; otherwise exactly one line is appended under the AUTOINCREMENT counter plus one, with the product snapshot and the user (NULL when none is given) |
| CartStore.AddTwiceMerges | android/app/src/components/database.ts:460-507 | adding the same product twice in the same scope leaves a single line whose quantity is the sum |
| CartStore.AnonymousAddTouchesEveryOwner | android/app/src/components/database.ts:464-484 | without a user id the match ignores the owner, so another user's line for the product is incremented |
| CartStore.AddToCartMayStoreNonPositive | android/app/src/components/database.ts:486-501 | addToCart does not reject a quantity of 0: the stored line has quantity 0 |
| CartStore.UpdateCartQuantity | android/app/src/components/database.ts:533-545 | a quantity of 0 or less removes line `id` and keeps the others; a positive one sets the quantity of line `id` and changes nothing else |
| CartStore.UpdateKeepsPositive | android/app/src/components/database.ts:533-545 | when every line's quantity is positive, every line's quantity stays positive after updateCartQuantity, whatever quantity it is given |
| CartStore.UpdatedLinePositive | android/app/src/components/database.ts:533-545 | on any cart, afterwards no line with the updated id has a quantity of 0 or less: it is deleted or holds the positive quantity given |
| CartStore.CartOf | android/app/src/components/database.ts:509-531 | without a user id the whole cart; with one, exactly the lines of that user, in rowid order |
| Orders.Total | android/app/src/components/database.ts:579 | the `reduce` total of a cart whose prices and quantities are not negative is not negative |
| Orders.Header | android/app/src/components/database.ts:584-586 | the header row carries the orderCode, the cart total as totalPrice, the customer's four fields, status 'pending' and createdAt |
| Orders.ItemRowsSnoc | android/app/src/components/database.ts:593-599 | one more turn of the item loop appends the next line's item under the next id |
| Orders.ItemsTotalMatchesTotal | android/app/src/components/database.ts:579-599 | the items inserted for a cart add up to the totalPrice computed by `reduce` |
| Orders.ItemsOf | android/app/src/components/database.ts:638-640 | the items selected are exactly those whose orderId is the one asked for |
| Orders.DeleteItemsOf | android/app/src/components/database.ts:603 | the items kept are exactly those of other orders |
| Orders.ItemsInOrder | android/app/src/components/database.ts:638-640 | selecting one order's items, and deleting them, keep the rows in rowid order |
| Orders.ItemsOfIsWhere | android/app/src/components/database.ts:638-640 | selecting one order's items is the generic WHERE filter on `orderId = ?`, and deleting them is the filter on `orderId <> ?` |
| Orders.SelectNewItems | android/app/src/components/database.ts:593-599 | selecting the new order's items finds exactly the items inserted for it, in cart order |
| Orders.DeleteNewItems | android/app/src/components/database.ts:603 | deleting the new order's items gives back the item table as it was before the order |
| Orders.NoItemsForNextOrder | android/app/src/components/database.ts:589 | no existing item points at the id the next order will get |
| Orders.PlaceHeaderConsistent | android/app/src/components/database.ts:582-589 | inserting a header with an unused orderCode keeps the tables consistent |
| Orders.AppendItemsConsistent | android/app/src/components/database.ts:593-599 | the inserted items keep the item table well formed and point at an existing order |
| Orders.Complete | android/app/src/components/database.ts:582-612 | given a header that carries the cart's total, as createOrder builds it: when all inserts succeed the header and one item per cart line are added, the returned id is the header's id and the item counter advances by the number of lines; selecting by that id gives exactly the cart lines' items in order, and they add up to the header's totalPrice |
| Orders.CompensationRestores | android/app/src/components/database.ts:600-608 | the two compensating deletes remove exactly the header and the items that were added |
| Orders.Abandon | android/app/src/components/database.ts:600-608 | after a failed item insert both tables hold their old rows, the result is null, and the AUTOINCREMENT counters stay advanced |
| Orders.CreateOrder | android/app/src/components/database.ts:569-617 | a used orderCode changes nothing and returns null; a failing item insert returns null and leaves the rows as they were; otherwise the header (cart total, status 'pending') and one item per line are added, the id is returned and the item counter advances by the number of lines; the tables stay consistent in every case |
| Orders.AbandonedCase | android/app/src/components/database.ts:600-608 | with a free orderCode and a failing item insert, createOrder is the compensated attempt |
| Orders.CompletedCase | android/app/src/components/database.ts:582-612 | with a free orderCode and no failing item insert, createOrder is the completed attempt |
| Orders.AbandonSteps | android/app/src/components/database.ts:582-608 | a compensated createOrder is the header insert, the items written before the failure, then the two deletes by the new id |
| Orders.CompleteSteps | android/app/src/components/database.ts:582-612 | a completed createOrder is the header insert followed by one item insert per cart line |
| Orders.InsertByDate | android/app/src/components/database.ts:630 | inserting an order into the listing is a permutation that adds exactly that order |
| Orders.NewestFirst | android/app/src/components/database.ts:630 | the sorted listing is a permutation of the orders table |
| Orders.PrependNewest | android/app/src/components/database.ts:630 | an order no older than the head of a newest-first list can be put in front of it |
| Orders.InsertByDateSorted | android/app/src/components/database.ts:630 | inserting into a newest-first list keeps it newest-first |
| Orders.NewestFirstSorted | android/app/src/components/database.ts:630 | the listing is sorted newest first by createdAt |
| Orders.FetchOrders | android/app/src/components/database.ts:619-651 | with a truthy user id the query fails on the missing column and the result is empty; otherwise every order exactly once, newest first, each with exactly its own items |
| Orders.SetStatus | android/app/src/components/database.ts:653-661 | the status update keeps every row and every id; exactly the row with that id gets the new status and every other value is unchanged |
| Orders.SetStatusConsistent | android/app/src/components/database.ts:653-661 | a status change keeps the tables consistent; any status text is accepted |
| Orders.StatusChangeListed | android/app/src/components/database.ts:619-661 | after updateOrderStatus the listing shows the order with the new status and all other columns unchanged |
| Orders.ListedWithItems | android/app/src/components/database.ts:636-645 | every order row is listed with exactly its own items |
| Orders.PlacedOrderListed | android/app/src/components/database.ts:569-651 | an order createOrder reports as placed is listed with exactly the items created for it, and they add up to its totalPrice |
| Orders.CompletedOrderListed | android/app/src/components/database.ts:582-651 | after a completed order placement the new header is listed with exactly its items, which add up to its totalPrice |
| Orders.CompletedItemsListed | android/app/src/components/database.ts:582-651 | wherever the listing shows the new header, it shows exactly the items made for it |
| Profiles.SetFields | android/app/src/components/database.ts:678-681 | the UPDATE by userId gives the user's rows the new fields and leaves every id and every other user's row as it was |
| Profiles.UpdateUserProfile | android/app/src/components/database.ts:665-695 | afterwards exactly one profile belongs to the user and it holds the new fields; an existing profile is updated in place (same ids, no row added, other users untouched); otherwise one row is appended under the AUTOINCREMENT counter plus one, an id no row holds |
| Profiles.UpsertTwiceUpdatesInPlace | android/app/src/components/database.ts:665-695 | a second save for the same user updates the same row in place and the latest fields win |
| Profiles.ProfileOf | android/app/src/components/database.ts:705-708 | the profile returned belongs to that user; none exactly when the user has no profile |
| Profiles.Merge | android/app/src/components/database.ts:709 | `{ ...user, ...profile }` keeps the account's name, password and role; without a profile the id is the account's and the profile columns are null; with one, every profile column wins, its row id included |
| Profiles.GetUserProfile | android/app/src/components/database.ts:697-716 | null exactly for an unknown account; otherwise the account's name, password and role, overlaid with the profile's columns, including the profile row's own id, when there is a profile |
| Profiles.MergedIdSavesOtherProfile | android/app/src/components/database.ts:707-709 | concrete case: saving through the merged id writes another account's profile (see Findings) |
| Profiles.GetUserProfileKeepingId | android/app/src/components/database.ts:697-716 | the merge with the account's id kept: same result except that the id is the account's |
| Profiles.KeepingIdSavesOwnProfile | android/app/src/components/database.ts:665-716 | with the corrected merge, saving through the returned id leaves the account with exactly one profile holding the saved fields |
| Schema.InsertOrIgnore | android/app/src/components/database.ts:91-93 | `INSERT OR IGNORE` with an explicit id changes nothing when the id is taken; otherwise it adds exactly that row and keeps rowid order |
| Schema.SeedCategories | android/app/src/components/database.ts:91-93 | the INSERT OR IGNORE of each default category in turn keeps rowid order |
| Schema.SeedCategoriesEffect | android/app/src/components/database.ts:69-93 | seeding keeps every existing category unchanged (a renamed seed keeps its new name), leaves every seed id present and adds nothing but seeds |
| Schema.SeedCategoriesNoop | android/app/src/components/database.ts:91-93 | once every seed id is present, seeding changes nothing |
| Schema.SeedCategoriesIdempotent | android/app/src/components/database.ts:85-93 | running the category seeding twice gives the same table as running it once |
| Schema.DeletedSeedCategoryReturns | android/app/src/components/database.ts:91-93 | a seed category that was deleted is back after the next start-up |
| Schema.InsertAll | android/app/src/components/database.ts:117-122 | inserting the products one after another keeps the table well formed |
| Schema.InsertAllRows | android/app/src/components/database.ts:117-122 | the forEach of INSERTs appends the products in order under consecutive ids after the counter |
| Schema.InitialNamesDistinct | android/app/src/components/database.ts:77-83 | the five default product names are distinct |
| Schema.SeedProducts | android/app/src/components/database.ts:114-123 | the product seeding keeps the table well formed |
| Schema.SeedProductsEffect | android/app/src/components/database.ts:114-123 | a non-empty product table is left alone; an empty one gets exactly the five defaults under ids after the counter, with unique names |
| Schema.SeedProductsIdempotent | android/app/src/components/database.ts:114-123 | running the product seeding twice gives the same table as running it once |
| Schema.SeedAdmin | android/app/src/components/database.ts:201-208 | afterwards an 'admin' account exists; the users table is unchanged when one already did, otherwise admin/123456/admin is appended |
| Schema.SeedAdminIdempotent | android/app/src/components/database.ts:201-208 | seeding the admin keeps usernames unique and is idempotent |
| Store.Collect | android/app/src/components/database.ts:224-229 | the copy loop over a query result returns exactly the result's rows, in order |
| Store.SeedCategoriesLoop | android/app/src/components/database.ts:91-93 | the forEach loop over the default categories computes the category seeding |
| Store.SeedProductsLoop | android/app/src/components/database.ts:114-123 | the COUNT check and forEach loop compute the product seeding |
| Store.InsertItems | android/app/src/components/database.ts:592-599 | the item loop inserts one item per cart line, in order, and stops exactly at the failing insert |
| Store.PlaceOrder | android/app/src/components/database.ts:582-612 | the header insert, item loop and compensating deletes compute createOrder's outcome |
| Store.AttachItems | android/app/src/components/database.ts:636-645 | the outer and inner loops of fetchOrders attach to each order exactly its items |
| Store.Database.constructor | android/app/src/components/database.ts:90-199 | a store with the seven tables created and empty satisfies the invariant |
| Store.Database.InitDatabase | android/app/src/components/database.ts:85-219 | categories, products and users become their seeded versions, the other tables are unchanged, and the invariant holds |
| Store.Database.FetchCategories | android/app/src/components/database.ts:221-235 | returns every category row in rowid order |
| Store.Database.AddCategory | android/app/src/components/database.ts:237-248 | only the categories change, as Catalog.AddCategory says |
| Store.Database.UpdateCategory | android/app/src/components/database.ts:250-261 | only the category with that id is renamed |
| Store.Database.DeleteCategory | android/app/src/components/database.ts:263-274 | only the categories change: the row goes and products keep their categoryId |
| Store.Database.FetchProducts | android/app/src/components/database.ts:277-295 | returns every product row |
| Store.Database.AddProduct | android/app/src/components/database.ts:297-308 | only the products change, as Catalog.AddProduct says; names stay unique |
| Store.Database.UpdateProduct | android/app/src/components/database.ts:310-321 | only the products change, as Catalog.UpdateProduct says |
| Store.Database.DeleteProduct | android/app/src/components/database.ts:323-331 | only the product with that id goes; the counter is unchanged |
| Store.Database.FetchProductsByCategory | android/app/src/components/database.ts:333-351 | returns the products of that category, as Catalog.InCategory says |
| Store.Database.SearchProductsByNameOrCategory | android/app/src/components/database.ts:353-378 | returns the search result of Catalog.Search |
| Store.Database.AddUser | android/app/src/components/database.ts:380-390 | only the users change, and the result reports whether the account was added |
| Store.Database.UpdateUser | android/app/src/components/database.ts:392-400 | only the users change, as Identity.UpdateUser says |
| Store.Database.DeleteUser | android/app/src/components/database.ts:402-410 | only the account goes; its cart lines and profile stay |
| Store.Database.FetchUsers | android/app/src/components/database.ts:412-426 | returns every account row |
| Store.Database.GetUserByCredentials | android/app/src/components/database.ts:428-441 | returns the account Identity.Credentials finds |
| Store.Database.GetUserById | android/app/src/components/database.ts:443-456 | returns the account with that id, or null |
| Store.Database.AddToCart | android/app/src/components/database.ts:460-507 | only the cart changes, as CartStore.AddToCart says |
| Store.Database.FetchCart | android/app/src/components/database.ts:509-531 | returns the lines CartStore.CartOf selects |
| Store.Database.UpdateCartQuantity | android/app/src/components/database.ts:533-545 | only the cart changes, as CartStore.UpdateCartQuantity says |
| Store.Database.RemoveFromCart | android/app/src/components/database.ts:547-555 | only the cart line with that id goes |
| Store.Database.ClearCart | android/app/src/components/database.ts:557-565 | every user's cart lines go; the counter and the other tables stay |
| Store.Database.CreateOrder | android/app/src/components/database.ts:569-617 | orders, items and the returned id are exactly those of Orders.CreateOrder; nothing else changes and the invariant holds |
| Store.Database.FetchOrders | android/app/src/components/database.ts:619-651 | returns the listing of Orders.FetchOrders |
| Store.Database.UpdateOrderStatus | android/app/src/components/database.ts:653-661 | only the status of that order changes |
| Store.Database.UpdateUserProfile | android/app/src/components/database.ts:665-695 | only the profiles change, as Profiles.UpdateUserProfile says, and the result is true |
| Store.Database.GetUserProfile | android/app/src/components/database.ts:697-716 | returns the merged record of Profiles.GetUserProfile |

## Left out

- The connection handling (`getDb`), the async plumbing and the transaction callbacks are not modelled. Console logging is not modelled either. Each call is one atomic step on the tables.
- The `CREATE TABLE IF NOT EXISTS` statements are not modelled one by one. The store starts with all seven tables present and empty, so a call made before the tables exist is not modelled.
- Prices are whole numbers. addProduct and updateProduct accept any JavaScript number, and the admin screens pass `parseFloat` of the typed text, so a fractional price or NaN can be stored; those prices, the REAL column type, the floating-point `reduce` total of createOrder (database.ts:579) and the `Number()` coercion in the product fetches are not modelled. On whole numbers the coercion changes nothing.
- Catalog.Search: LIKE wildcards `%` and `_` inside the keyword are treated as literal characters. Only ASCII letters are folded, as SQLite's built-in LIKE does.
- The clock is a parameter. createOrder's `orderCode` and `createdAt` are whatever `Date` gives, and they are passed in.
- Store.Database.CreateOrder: a failure of the header insert is modelled only for a duplicate orderCode. Item-insert failures come from the `failAt` parameter.
- Orders.Abandon: the compensating deletes are assumed to succeed. The source only logs their failure.
- Profiles.UpdateUserProfile: returns true in every modelled case. The false branch needs a database error that the model has no source for.
- Foreign keys are declared but SQLite does not enforce them without a pragma. The model does not enforce them either, so deleting a category, product or user leaves the rows that point at it.
- Store.Invariant covers only the keys and constraints the schema states. Order items pointing at existing orders is included because createOrder's compensation keeps it.
- Rowid overflow past 2^63 - 1 is not modelled.
- Orders.NewestFirst: among orders with the same `createdAt`, SQLite leaves the order unspecified. The model fixes one order. The properties proved hold for any order of ties.
- The screens that call these functions are not modelled. UserProfileScreen is used only for the finding below.

## Findings

| source | as written | input that shows it | evidently intended | confidence | as-written member | corrected member |
|---|---|---|---|---|---|---|
| android/app/src/components/database.ts:707-709 | getUserProfile returns `{ ...user, ...profile }`. The profile row's `id` overwrites the account's `id`. The profile screen (android/app/src/components/UserProfileScreen.tsx:61) then saves with that id as the userId. | Accounts 1 (admin) and 2. Account 2 has the profile row with id 1. Account 2 loads its profile (id becomes 1) and saves a new address. The new fields are written as a profile of account 1, and account 2's profile keeps the old address. | The merged record keeps the account's id. Saving through it updates the account's own single profile. | not executed | Profiles.MergedIdSavesOtherProfile | Profiles.GetUserProfileKeepingId, Profiles.KeepingIdSavesOwnProfile |

`Store.Database.GetUserProfile` models the function as written.
