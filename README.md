# Storefront cart, checkout and tables — a Dafny model

This project models the domain layer of a Flask storefront that sells spices:

- **The session cart.** `utils/helpers.py` keeps a dict from product id to quantity. Helpers add to it, overwrite entries, delete entries and clear it. Another helper resolves the cart into priced line items.
- **Cart routes.** `routes/products.py` puts guards in front of those helpers: unknown product, too little stock, a quantity of zero or less. It also serves the paged active listing and the related-products list.
- **Checkout.** `routes/main.py` checks, in order, the cart, the user's addresses, the form and the payment method. After those checks the code calls `create_order` with keywords that function does not accept, so the call fails and no order is written (see "## Findings"). `CheckoutStep` models the corrected transition: it writes the order and its items, and only after that clears the cart.
- **Address pages.** `routes/main.py` also has the edit and delete pages. Both only reach the signed-in user's own addresses, and editing keeps the single-default rule.
- **Table operations.** `models.py` holds the operations on the users, wishlist, products, orders, order items and addresses tables.
- **Client-side helpers.** `static/js/main.js` holds the password-strength meter and the toast icon choice.

Prices are `Numeric(10, 2)` columns, modelled as integer cents.

Files and modules:

| file | module | what it holds |
|---|---|---|
| wrappers.dfy | `Wrappers` | `Option` |
| catalog.dfy | `Catalog` | product rows, `get_by_id`, `get_all`, `update`, soft `delete` |
| accounts.dfy | `Accounts` | user rows, `create_user`, wishlist rows |
| addresses.dfy | `Addresses` | address rows, `create_address`, `get_user_addresses`, the edit and delete row updates |
| orders.dfy | `Orders` | order and item rows, the rows `create_order` writes, `get_user_orders` |
| store.dfy | `Store` | class `Database`: the tables as fields updated in place, one method per models.py operation |
| cart.dfy | `Cart` | the cart dict as a value: add, update, remove, count, line items, totals |
| helpers.dfy | `Helpers` | class `CartSession`: the session cart updated in place, and `get_cart_items` as a loop |
| product_routes.dfy | `ProductRoutes` | listing pages, product detail, the guarded cart routes, the wishlist routes |
| main_routes.dfy | `MainRoutes` | checkout as a transition and as a method; the edit and delete address pages |
| client_script.dfy | `ClientScript` | password strength; toast icon |

The code changes state in place in three places: the session cart dict, the database tables and the address edit. The model does the same there:

- The state-changing operations are `method`s of `CartSession` and `Database`, or methods on them.
- Each method's `ensures` ties the new state to a function of the old state.
- The properties are proved as lemmas about those functions.

`get_cart_items` and the item loop of `create_order` are loops with invariants.

## Model

| member | source | states |
|---|---|---|
| Catalog.FindProduct | models.py:134-136 | `get_by_id` returns a row carrying the key, or none exactly when no row has that key; status is not consulted |
| Catalog.FindProductAt | models.py:100 | with unique primary keys the lookup returns exactly the row that has the key |
| Catalog.Filtered | models.py:117-131 | the rows the query selects are exactly the active rows that pass the category and search filters |
| Catalog.Window | models.py:132 | OFFSET/LIMIT returns `min(limit, n - offset)` rows, the k-th being row `offset + k` |
| Catalog.SoftDelete | models.py:170-172 | `delete` turns the keyed row inactive and changes no other column or row |
| Catalog.UpdateProduct | models.py:158-168 | `update` never writes a key or a status and touches no row with another key |
| Catalog.WindowsTile | models.py:132 | two consecutive windows of one size make the window of twice the size |
| Catalog.GetAll | models.py:116-132 | `get_all` returns at most `limit` rows, each active and matching the given category and search |
| Catalog.SoftDeleteKeepsRow | models.py:170-172 | after `delete` the row is still found by `get_by_id`, now inactive; no listing shows it; keys stay unique |
| Catalog.CommitUpdate | models.py:158-168 | the commit fails, leaving the table as it was, exactly when another row holds the new SKU (`unique=True`, models.py:107); a committed update finds the same keys |
| Catalog.CommitUpdateKeepsSkusUnique | models.py:107 | a committed update keeps SKUs unique |
| Catalog.UpdateProductFinds | models.py:158-168 | an update keeps every key, so a key is found afterwards exactly when it was found before |
| Catalog.UpdateProductKeepsKeyAndStatus | models.py:158-168 | the row an update writes (kept only when the commit succeeds, see `CommitUpdate`) is the old row with name, description, price, original price, category, stock and sku written, and the image written only when a non-empty one is given; key and status stay; keys stay unique |
| Accounts.CreateUserKeepsEmailsUnique | models.py:28-43 | e-mails and keys stay unique after `create_user` |
| Accounts.CreateUser | models.py:28-43 | afterwards the e-mail is registered; the old rows stay in front; one row is added exactly when the e-mail was new |
| Accounts.AddToWishlist | models.py:58-62 | afterwards the pair is present; the old rows stay in front and at most one row is added |
| Accounts.RemoveFromWishlist | models.py:64-68 | only rows already present remain; one row goes exactly when the pair was present |
| Accounts.AddToWishlistIdempotent | models.py:58-62 | adding never creates a second row for a pair, so adding twice equals adding once; the pair is present; other pairs are unchanged |
| Accounts.RemoveFromWishlistDeletes | models.py:64-68 | removing deletes the pair if present and is a no-op otherwise; the pair is absent afterwards; removal is idempotent; other rows stay, in order |
| Addresses.UserAddresses | models.py:270-272 | `get_user_addresses` holds exactly the user's rows |
| Addresses.ClearDefaults | models.py:251-252 | the bulk update changes only the default flag: the user has no default afterwards, and every other user's flags stay |
| Addresses.CreateAddress | models.py:248-268 | the new row goes last with the next key and the given columns and flag; earlier rows differ at most in their flag |
| Addresses.EditAddress | routes/main.py:103-125 | 404 exactly when the user owns no address with the key; otherwise the table keeps its length |
| Addresses.DeleteAddress | routes/main.py:127-135 | 404 exactly when the user owns no address with the key; otherwise the remaining rows plus the found one are the old table |
| Addresses.CreateAddressDefaults | models.py:248-268 | one row is appended; with the flag set it is the user's only default; without it no row changes; other users' rows and all keys are kept; at most one default per user |
| Addresses.EditAddressDefaults | routes/main.py:103-125 | the edit finds only the user's own address (else 404); the edited row gets the new columns and flag and keeps key and owner; with the flag set it is the user's only default; other users' rows are unchanged |
| Addresses.DeleteAddressOwned | routes/main.py:127-135 | the delete finds only the user's own address (else 404) and removes exactly that row, the others staying in order; keys and the single-default rule still hold |
| Orders.CreateOrderItemsLinked | models.py:192-213 | the new order owns exactly one item row per input, in input order, with that input's product, quantity and price; no other order's items change; keys stay unique |
| Orders.CreateOrderKeys | models.py:193-200 | the order inserted under the next key keeps order keys unique |
| Orders.ItemsFor | models.py:202-210 | one item row per input, all pointing at the order, keys rising from the first free key and staying below first + count |
| Orders.InsertNewestFirst | models.py:217 | inserting into a newest-first list keeps it newest first and adds exactly that order |
| Orders.SortNewestFirst | models.py:217 | the sort returns a newest-first permutation of its input |
| Orders.GetUserOrders | models.py:215-217 | the result is newest first and a permutation of the user's orders in the table |
| Orders.GetUserOrdersExactly | models.py:215-217 | `get_user_orders` returns every order of the user and nothing else, each exactly as often as the table holds it |
| Store.Database.constructor | models.py:7-282 | an empty database over a catalog with unique keys and SKUs satisfies every table invariant |
| Store.Database.CreateUser | models.py:28-43 | returns None exactly when the e-mail is registered; otherwise the new row under the next key; only the users table changes |
| Store.Database.AddToWishlist | models.py:58-62 | the wishlist becomes `AddToWishlist` of the old one; nothing else changes; pairs stay unique |
| Store.Database.RemoveFromWishlist | models.py:64-68 | the wishlist becomes `RemoveFromWishlist` of the old one; nothing else changes |
| Store.Database.UpdateProduct | models.py:158-168 | commits exactly when no other row holds the new SKU; then the products table becomes `UpdateProduct` of the old one, otherwise nothing changes; nothing else changes either way; keys and SKUs stay unique |
| Store.Database.DeleteProduct | models.py:170-172 | the products table becomes `SoftDelete` of the old one; the row is still found, inactive |
| Store.StageItems | models.py:202-210 | the loop builds one item row per input, in order, with consecutive keys, all pointing at the order |
| Store.Database.CreateOrder | models.py:191-213 | returns the pending order under the next key; the order and its items are appended and nothing else changes; the table invariants hold |
| Store.Database.CreateAddress | models.py:248-268 | returns the new row; the addresses table becomes `CreateAddress` of the old one; the single-default rule holds |
| Cart.LookupAt | utils/helpers.py:25 | with distinct keys, `p in cart` finds the entry at its own position |
| Cart.Add | utils/helpers.py:20-30 | `add_to_cart`: p is a key afterwards and the count grows by exactly n |
| Cart.Update | utils/helpers.py:32-36 | `update_cart_item`: the keys and their order stay; the count moves from p's old quantity to n only when p was a key |
| Cart.Remove | utils/helpers.py:38-42 | `remove_from_cart`: one entry goes exactly when p was a key, and the count drops by its quantity |
| Cart.CountNonNegative | utils/helpers.py:48-51 | `get_cart_count`'s sum is never negative while every quantity is non-negative |
| Cart.AddLookup | utils/helpers.py:20-30 | `add_to_cart(p, n)`: p's quantity becomes old + n (n when absent); other keys unchanged; a new key goes last; keys stay distinct |
| Cart.AddAccumulates | utils/helpers.py:25-28 | adding a then b equals adding a + b |
| Cart.UpdateLookup | utils/helpers.py:32-36 | `update_cart_item(p, n)` sets n only when p is present and never inserts; other quantities are kept; keys stay distinct |
| Cart.RemoveLookup | utils/helpers.py:38-42 | `remove_from_cart(p)` deletes p if present and is a no-op otherwise; it is idempotent; others are kept; keys stay distinct |
| Cart.LineItems | utils/helpers.py:4-18 | at most one line item per entry; each subtotal is price × quantity |
| Cart.LineItemsResolve | utils/helpers.py:9-16 | a line item exists exactly when some entry's product is found, and it carries that product, that quantity and price × quantity |
| Cart.LineItemsAllFound | utils/helpers.py:9-16 | when every product is found, line items match entries one for one, in cart order |
| Cart.LineItemsDropMissing | utils/helpers.py:10-11 | an entry whose product is missing contributes no line item |
| Cart.AddRaisesTotal | utils/helpers.py:20-30 | adding n units of an existing product raises the cart total by price × n |
| Helpers.CartSession.constructor | utils/helpers.py:6 | a new session has no cart, no entries and a count of 0 |
| Helpers.CartSession.CartCount | utils/helpers.py:48-51 | 0 for a session without a cart (the `{}` default) |
| Helpers.CartSession.AddToCart | utils/helpers.py:20-30 | the cart becomes `Add` of the old entries (created if missing); p gains n; others unchanged; the count grows by n |
| Helpers.CartSession.UpdateCartItem | utils/helpers.py:32-36 | a missing cart stays missing; p's quantity is overwritten only when p is present; others unchanged |
| Helpers.CartSession.RemoveFromCart | utils/helpers.py:38-42 | p is absent afterwards; others unchanged; the count drops by p's old quantity |
| Helpers.CartSession.ClearCart | utils/helpers.py:44-46 | the cart is gone; no entries; count 0 |
| Helpers.CartSession.GetCartItems | utils/helpers.py:4-18 | the loop returns `LineItems` of the entries: one item per found product, in cart order |
| ProductRoutes.ProductsPage | routes/products.py:8-25 | a page exists exactly when page ≥ 1 (offset (page − 1) × 12 ≥ 0); it holds at most 12 active, matching products |
| ProductRoutes.ListingOffset | routes/products.py:14-15 | the offset is a multiple of 12, and non-negative exactly for page ≥ 1 |
| ProductRoutes.PagesTile | routes/products.py:14-17 | consecutive pages show consecutive listed products, with no gap or overlap, for one fixed row order (see "## Left out") |
| ProductRoutes.ListedProductPage | routes/products.py:14-17 | the k-th listed product is on page k / 12 + 1 at position k % 12, for one fixed row order (see "## Left out") |
| ProductRoutes.WithoutId | routes/products.py:36 | the filter keeps exactly the products with another key |
| ProductRoutes.ProductDetail | routes/products.py:27-40 | not found exactly when `get_by_id` fails; otherwise the related products are exactly the first 4 listed products of the product's category (of all categories when its id is 0) other than the product itself, so at most 4, all active |
| ProductRoutes.AddToCartStep | routes/products.py:42-59 | a refusal leaves the cart as it was; an add happens only for a found product with the quantity within its stock, and a cart exists afterwards |
| ProductRoutes.AddToCartGuards | routes/products.py:42-59 | not found iff no product; too little stock iff requested > stock; both leave the cart unchanged; otherwise p gains n and other entries are unchanged |
| ProductRoutes.AccumulatedQuantityCanExceedStock | routes/products.py:52-56 | the stock check ignores what the cart already holds, so the accumulated quantity can exceed stock |
| ProductRoutes.NonPositiveQuantityAccepted | routes/products.py:45-56 | a quantity ≤ 0 passes the guard and lowers the cart count |
| ProductRoutes.UpdateCartStep | routes/products.py:67-83 | a rejection leaves the cart as it was; a cart exists afterwards exactly when it existed before |
| ProductRoutes.UpdateCartNeverInserts | routes/products.py:67-83 | quantity ≤ 0 removes; the update is written exactly when the quantity is positive, the product is found and its stock covers the quantity, and then p takes that quantity if it was in the cart; no key is inserted and no cart is created; a rejection changes nothing |
| ProductRoutes.AddToCartRoute | routes/products.py:42-59 | performs `AddToCartStep` on the session |
| ProductRoutes.UpdateCartRoute | routes/products.py:67-83 | performs `UpdateCartStep` on the session |
| ProductRoutes.RemoveFromCartRoute | routes/products.py:85-89 | removes with no product lookup |
| ProductRoutes.CartView | routes/products.py:61-65 | the cart page shows the resolved line items and their total |
| ProductRoutes.AddToWishlistRoute | routes/products.py:91-101 | adds to the wishlist exactly when the product exists; otherwise nothing changes |
| ProductRoutes.RemoveFromWishlistRoute | routes/products.py:103-108 | removes without a product lookup |
| MainRoutes.CheckoutAborts | routes/main.py:140-158 | aborts in order: empty cart, no address, invalid form, payment method; each holds exactly under its condition; an order is placed exactly when none applies |
| MainRoutes.OrderItemsValue | routes/main.py:160-176 | the items written for the line items add up to the sum of the subtotals |
| MainRoutes.CheckoutStep | routes/main.py:137-190 | the corrected transition never fails; an abort leaves cart and tables as they were; placing appends exactly the order and clears the cart |
| MainRoutes.CheckoutPlacesOrder | routes/main.py:160-187 | a placed order is pending, belongs to the user and carries the cart total; its shipping and billing ids are the ones the form chose, both the user's own; one item row per line item, in cart order, with that line's product key, quantity and current price, adding up to the total; the cart is cleared; nothing else changes |
| MainRoutes.CheckoutExample | routes/main.py:137-190 | 2 × 10.00 plus 1 × 5.00 gives an order of 25.00 with rows worth 20.00 and 5.00, and an empty cart |
| MainRoutes.Checkout | routes/main.py:137-190 | performs `CheckoutStep` on the session and the database; writes the order before clearing the cart; keeps the table invariants |
| MainRoutes.CheckoutAsWrittenNeverPlaces | routes/main.py:168-183 | wherever the intended checkout places an order, the written one fails with the shop unchanged; elsewhere the two agree |
| MainRoutes.CheckoutStepAsWritten | routes/main.py:137-190 | as written, checkout never places an order and never changes the cart or a table |
| MainRoutes.EditAddressRoute | routes/main.py:103-125 | the field writes, the bulk clear and the rewritten flag leave the table as `EditAddress`; 404 changes nothing; the invariants hold |
| MainRoutes.DeleteAddressRoute | routes/main.py:127-135 | the table becomes `DeleteAddress` of the old one; 404 changes nothing; the invariants hold |
| ClientScript.Score | static/js/main.js:134-139 | the score is at most 5, and 0 exactly for the empty password |
| ClientScript.CalculatePasswordStrength | static/js/main.js:133-150 | the result is one of the five levels; the percentage is 20 × (min(score, 4) + 1); "Strong" iff the score is ≥ 4; "Very Weak" iff the password is empty |
| ClientScript.EmptyPasswordVeryWeak | static/js/main.js:134-149 | the empty password is "Very Weak" at 20% |
| ClientScript.LongPasswordScores | static/js/main.js:135 | 8 code units or more score at least 1 |
| ClientScript.PercentageMonotone | static/js/main.js:141-149 | the percentage never decreases as the score rises |
| ClientScript.AppendNeverWeakens | static/js/main.js:134-149 | typing more characters never lowers the score or the percentage |
| ClientScript.ToastIcon | static/js/main.js:270-278 | the four toast types map to their icons and anything else to "info" |
| ClientScript.ToastIconAsWritten | static/js/main.js:270-278 | as written, the lookup yields an inherited member exactly for the names of `Object.prototype`; otherwise one of the four icons |
| ClientScript.ToastIconInheritedMember | static/js/main.js:270-278 | as written, the lookup agrees with `ToastIcon` except on names inherited from `Object.prototype`, e.g. "toString" |

## Left out

- Flash messages, redirects, template rendering, CSRF and the WTForms field plumbing are not modelled. Each route's outcome is a datatype value naming the branch taken.
- Password hashing (werkzeug) is a library call. The hash enters `CreateUser` as a parameter.
- The clock behind `created_at` is a caller-supplied ordering key. Row timestamps other than `orders.created_at` are not modelled.
- The ilike search is a caller-supplied `matches` predicate. Its case folding and wildcard handling are not modelled.
- Query-string parsing is not modelled:
  - `type=int` falling back to 1;
  - `int(...)` on the form's quantity raising on non-numeric input;
  - a non-numeric category argument.
  The category argument is `None` when falsy and otherwise the id it names.
- Cart keys are the product-id strings the forms submit. The model keys the cart by the numeric id, so "5" and "05" are not told apart.
- The session is a signed cookie serialized between requests. Flask's session serializer writes the dict with sorted keys, so after a request the cart comes back in string order of its keys ("10" before "2"), not insertion order. The model keeps insertion order. Every "cart order" statement (`Cart.LineItemsAllFound`, `Helpers.CartSession.GetCartItems`, `MainRoutes.CheckoutPlacesOrder`) holds within one request; across requests the order is the sorted one.
- A negative listing offset (page ≤ 0) is passed to the database. Whether it fails depends on the database; the model shows it as no page.
- Deleting an address that an order still references violates a foreign key at commit. The model deletes the row.
- Transactions are not modelled. Neither is a failure between the writes of one commit, nor concurrency between requests.
- Categories, the admin pages, `get_admin_products`, `get_all_orders`, `create_product`, `update_profile`, `change_password` and the sample-data seeding are outside the modelled core.
- MainRoutes.CheckoutStep and Store.Database.CreateOrder: column widths are not modelled. Prices and totals are `Numeric(10, 2)` (models.py:103, 179, 230), and quantities and stock are `Integer` (models.py:106, 229). The model's integers are unbounded. The add route lets a cart quantity grow without limit across requests (`ProductRoutes.AccumulatedQuantityCanExceedStock`). So the model can report `Placed` for a total above 99,999,999.99 or a quantity above 2^31 − 1, where a database enforcing those column types would refuse the insert.
- Catalog.Filtered, Catalog.Window, Catalog.WindowsTile, ProductRoutes.PagesTile and ProductRoutes.ListedProductPage: the listing query (models.py:117-132) has no ORDER BY, unlike `get_user_orders` (models.py:217). SQL leaves the order of such a result unspecified, and a database may return different orders for different OFFSET/LIMIT values. The model takes one fixed row order, the table order. The tiling of pages (no gap, no overlap) and the position of a product on a page hold only if the database returns that same order for every offset.
- Catalog.GetAll: states that its rows are listed and bounded by `limit`, not that they are the first `limit` after `offset`. `Catalog.Window` and `ProductRoutes.ListedProductPage` state that.

Behaviours of the code worth knowing:

- **Inactive products in the cart.** `get_cart_items` drops only entries whose product is missing. `get_by_id` does not consult the status, so an inactive product stays in the cart and reaches checkout.
- **Updating to zero.** `update_cart_item(p, 0)` writes 0. Only the update route removes an entry, for quantities ≤ 0.
- **Checkout rechecks nothing.** There is no stock check at checkout.
- **Foreign address.** An address id that is not the user's fails form validation and the form is shown again (`ShowForm`).
- **Order item snapshots.** The item rows keep product, quantity and price only, not name or subtotal.

## Findings

| source | as written | input that shows it | evidently intended | confidence | as-written member | corrected member |
|---|---|---|---|---|---|---|
| routes/main.py:168-183 | `Order.create_order` is called with `payment_method`, `payment_status` and `status`. The function (models.py:192) declares none of them, so the call raises TypeError before any row is written and before the cart is cleared. | any valid cash-on-delivery checkout with a non-empty cart and an address | create the order with the declared parameters; status and payment status take their 'pending' defaults | not executed; high | MainRoutes.CheckoutAsWrittenNeverPlaces | MainRoutes.CheckoutPlacesOrder |
| static/js/main.js:277 | `icons[type] \|\| 'info'` also finds members inherited from `Object.prototype`. | `getToastIcon("toString")` yields the inherited function, not 'info' | any type other than the four own keys gives 'info' | not executed; high | ClientScript.ToastIconInheritedMember | ClientScript.ToastIcon |
