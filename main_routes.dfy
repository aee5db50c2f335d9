/**
 * routes/main.py: the `checkout` page and the `edit_address` and
 * `delete_address` pages.
 *
 * Checkout is described as a transition on a `Shop` (the session cart and
 * the stored tables) and performed by `Checkout` on a `CartSession` and a
 * `Database`, which is proved to make exactly that transition. The checks
 * run in the code's order: an empty cart, then a user without addresses,
 * then the form, then the payment method. After them the code calls
 * `Order.create_order` with keywords it does not declare, which fails
 * (`CheckoutStepAsWritten`); `CheckoutStep` is the transition that call is
 * meant to make: the order is written, and only after that is the cart
 * cleared.
 */
module MainRoutes {
  import opened Wrappers
  import Catalog
  import Cart
  import Accounts
  import Addresses
  import Orders
  import Helpers
  import Store

  /** The state checkout reads and writes. */
  datatype Shop = Shop(cart: Option<Cart.Cart>, db: Store.Tables)

  function ShopOf(db: Store.Database, session: Helpers.CartSession): Shop
    reads db, session
  {
    Shop(session.cart, db.Snapshot())
  }

  /** The payment choices of the checkout form. */
  const PaymentChoices: set<string> := {"card", "paypal", "cod"}
  const CashOnDelivery: string := "cod"

  /**
   * The submitted checkout form, already parsed: the address choices as the
   * address keys they name. `submitted` is false for a GET.
   */
  datatype CheckoutForm = CheckoutForm(
    submitted: bool,
    shippingAddressId: Addresses.AddressId,
    billingAddressId: Addresses.AddressId,
    paymentMethod: string)

  /** Some address in `addrs` has the key `id`. */
  predicate HasAddressId(addrs: seq<Addresses.Address>, id: Addresses.AddressId) {
    exists i :: 0 <= i < |addrs| && addrs[i].id == id
  }

  /**
   * `validate_on_submit` on the checkout form: both address choices must be
   * among the choices offered, the user's own addresses, and the payment
   * method among its three choices.
   */
  predicate FormValid(form: CheckoutForm, mine: seq<Addresses.Address>) {
    && form.submitted
    && HasAddressId(mine, form.shippingAddressId)
    && HasAddressId(mine, form.billingAddressId)
    && form.paymentMethod in PaymentChoices
  }

  /** The address with key `id` belongs to `user`. */
  predicate OwnsAddress(addrs: seq<Addresses.Address>, user: Accounts.UserId, id: Addresses.AddressId) {
    exists a :: a in addrs && a.userId == user && a.id == id
  }

  datatype CheckoutOutcome =
    | EmptyCart                      // redirected to the cart
    | NoAddress                      // redirected to the new-address page
    | ShowForm(total: Catalog.Cents) // the form is shown with the cart total
    | CashOnDeliveryOnly             // a valid form with another payment method
    | Placed(order: Orders.Order)    // the order was written and the cart cleared
    | ServerError                    // the request failed with an exception

  /** The per-item values the checkout passes on: product key, quantity, current price. */
  function OrderInputs(items: seq<Cart.LineItem>): seq<Orders.ItemInput>
  {
    seq(|items|, k requires 0 <= k < |items| =>
      Orders.ItemInput(items[k].product.id, items[k].quantity, items[k].product.price))
  }

  /**
   * The `checkout` transition, with `Order.create_order` as models.py
   * defines it: the order row with the cart total and the chosen addresses,
   * one item row per line item, then the cart is cleared. Nothing fails in
   * it: an abort leaves the shop as it was, and placing an order appends
   * exactly that order and clears the cart.
   */
  function CheckoutStep(shop: Shop, user: Accounts.UserId, form: CheckoutForm, now: nat): (r: (CheckoutOutcome, Shop))
    ensures r.0 != ServerError
    ensures !r.0.Placed? ==> r.1 == shop
    ensures r.0.Placed? ==> r.1.cart.None? && r.1.db.orders == shop.db.orders + [r.0.order]
  {
    var items := Cart.LineItems(Helpers.EntriesOf(shop.cart), shop.db.products);
    var mine := Addresses.UserAddresses(shop.db.addresses, user);
    if items == [] then (EmptyCart, shop)
    else if mine == [] then (NoAddress, shop)
    else if !FormValid(form, mine) then (ShowForm(Cart.CartTotal(items)), shop)
    else if form.paymentMethod != CashOnDelivery then (CashOnDeliveryOnly, shop)
    else
      var order := Orders.NewOrder(shop.db.nextOrderId, user, Cart.CartTotal(items),
                                   form.shippingAddressId, form.billingAddressId, now);
      (Placed(order), Shop(None, Store.AfterCreateOrder(shop.db, order, OrderInputs(items))))
  }

  /**
   * The aborts come in the code's order (and, by `CheckoutStep`'s contract,
   * each leaves the shop as it was): an empty resolved cart first, then a user without
   * addresses, then an invalid or unsubmitted form, then a payment method
   * other than cash on delivery. An order is placed exactly when none of
   * them applies.
   */
  lemma CheckoutAborts(shop: Shop, user: Accounts.UserId, form: CheckoutForm, now: nat)
    ensures var r := CheckoutStep(shop, user, form, now);
            var items := Cart.LineItems(Helpers.EntriesOf(shop.cart), shop.db.products);
            var mine := Addresses.UserAddresses(shop.db.addresses, user);
            && (r.0 == EmptyCart <==> items == [])
            && (r.0 == NoAddress <==> items != [] && !(exists a :: a in shop.db.addresses && a.userId == user))
            && (r.0.ShowForm? <==> items != [] && mine != [] && !FormValid(form, mine))
            && (r.0 == CashOnDeliveryOnly <==> items != [] && mine != [] && FormValid(form, mine) && form.paymentMethod != CashOnDelivery)
            && (r.0.Placed? <==> items != [] && mine != [] && FormValid(form, mine) && form.paymentMethod == CashOnDelivery)
  {
    var mine := Addresses.UserAddresses(shop.db.addresses, user);
    if mine != [] {
      assert mine[0] in mine;
    }
  }

  /** The summed value of the line items equals the summed value of the item rows written for them. */
  lemma {:induction false} OrderItemsValue(orderId: Orders.OrderId, firstId: nat, items: seq<Cart.LineItem>)
    requires forall k :: 0 <= k < |items| ==> items[k].subtotal == items[k].product.price * items[k].quantity
    ensures Orders.ItemsValue(Orders.ItemsFor(orderId, firstId, OrderInputs(items))) == Cart.CartTotal(items)
    decreases |items|
  {
    if items != [] {
      Orders.ItemsForCons(orderId, firstId, OrderInputs(items));
      assert OrderInputs(items)[1..] == OrderInputs(items[1..]);
      OrderItemsValue(orderId, firstId + 1, items[1..]);
    }
  }

  /**
   * A placed order belongs to the user, is pending, carries the cart total
   * (the sum of the line-item subtotals) and two addresses of the user's own.
   * Its item rows are one per line item, in cart order, carrying the line's
   * product key, quantity and current price, and add up to the order total.
   * No other order's items change, no other table changes, and the cart is
   * cleared.
   */
  lemma CheckoutPlacesOrder(shop: Shop, user: Accounts.UserId, form: CheckoutForm, now: nat)
    requires Orders.ItemKeysBelow(shop.db.orderItems, shop.db.nextOrderItemId, shop.db.nextOrderId)
    requires CheckoutStep(shop, user, form, now).0.Placed?
    ensures var r := CheckoutStep(shop, user, form, now);
            var order := r.0.order;
            var items := Cart.LineItems(Helpers.EntriesOf(shop.cart), shop.db.products);
            var written := Orders.ItemsOfOrder(r.1.db.orderItems, order.id);
            && order.id == shop.db.nextOrderId
            && order.userId == user
            && order.status == Orders.Pending && order.paymentStatus == Orders.Pending
            && order.totalAmount == Cart.CartValue(Helpers.EntriesOf(shop.cart), shop.db.products)
            && OwnsAddress(shop.db.addresses, user, order.shippingAddressId)
            && OwnsAddress(shop.db.addresses, user, order.billingAddressId)
            && order.shippingAddressId == form.shippingAddressId
            && order.billingAddressId == form.billingAddressId
            && r.1.cart.None?
            && r.1.db.orders == shop.db.orders + [order]
            && |written| == |items|
            && (forall k :: 0 <= k < |items| ==>
                  && written[k].productId == items[k].product.id
                  && written[k].quantity == items[k].quantity
                  && written[k].price == items[k].product.price)
            && Orders.ItemsValue(written) == order.totalAmount
            && (forall o :: o != order.id ==> Orders.ItemsOfOrder(r.1.db.orderItems, o) == Orders.ItemsOfOrder(shop.db.orderItems, o))
            && r.1.db.(orders := shop.db.orders, nextOrderId := shop.db.nextOrderId,
                       orderItems := shop.db.orderItems, nextOrderItemId := shop.db.nextOrderItemId) == shop.db
  {
    var items := Cart.LineItems(Helpers.EntriesOf(shop.cart), shop.db.products);
    var mine := Addresses.UserAddresses(shop.db.addresses, user);
    var inputs := OrderInputs(items);
    Orders.CreateOrderItemsLinked(shop.db.orderItems, shop.db.nextOrderItemId, shop.db.nextOrderId, inputs);
    OrderItemsValue(shop.db.nextOrderId, shop.db.nextOrderItemId, items);
    var i :| 0 <= i < |mine| && mine[i].id == form.shippingAddressId;
    assert mine[i] in mine;
    var j :| 0 <= j < |mine| && mine[j].id == form.billingAddressId;
    assert mine[j] in mine;
  }

  /**
   * A worked case: two units of a 10.00 product and one unit of a 5.00
   * product, paid cash on delivery to the user's only address, give an
   * order of 25.00 with item rows worth 20.00 and 5.00, and an empty cart.
   */
  lemma CheckoutExample()
    ensures var a := Catalog.Product(1, "A", "", 1000, None, 1, 10, "SKU-A", "", Catalog.Active);
            var b := Catalog.Product(2, "B", "", 500, None, 1, 10, "SKU-B", "", Catalog.Active);
            var home := Addresses.Address(1, 7, Addresses.AddressFields("Ann", "Lee", "1 Main St", "", "Town", "ST", "12345", "US"), true);
            var db := Store.Tables([], [], [a, b], [], [], [home], 8, 1, 1, 2);
            var shop := Shop(Some([Cart.CartEntry(1, 2), Cart.CartEntry(2, 1)]), db);
            var r := CheckoutStep(shop, 7, CheckoutForm(true, 1, 1, "cod"), 0);
            && r.0.Placed?
            && r.0.order.totalAmount == 2500
            && r.1.cart.None?
            && r.1.db.orderItems == [Orders.OrderItem(1, 1, 1, 2, 1000), Orders.OrderItem(2, 1, 2, 1, 500)]
            && r.1.db.orderItems[0].price * r.1.db.orderItems[0].quantity == 2000
  {
    var a := Catalog.Product(1, "A", "", 1000, None, 1, 10, "SKU-A", "", Catalog.Active);
    var b := Catalog.Product(2, "B", "", 500, None, 1, 10, "SKU-B", "", Catalog.Active);
    var home := Addresses.Address(1, 7, Addresses.AddressFields("Ann", "Lee", "1 Main St", "", "Town", "ST", "12345", "US"), true);
    var c := [Cart.CartEntry(1, 2), Cart.CartEntry(2, 1)];
    assert Catalog.FindProduct([a, b], 1) == Some(a);
    assert Catalog.FindProduct([a, b], 2) == Some(b);
    var tail := [Cart.CartEntry(2, 1)];
    assert c[1..] == tail && tail[1..] == [];
    assert Cart.LineItems(tail, [a, b]) == [Cart.LineItem(b, 1, 500)];
    var items := Cart.LineItems(c, [a, b]);
    assert items == [Cart.LineItem(a, 2, 2000), Cart.LineItem(b, 1, 500)];
    assert items[1..] == [Cart.LineItem(b, 1, 500)] && items[1..][1..] == [];
    assert Cart.CartTotal(items[1..]) == 500;
    assert Cart.CartTotal(items) == 2500;
    assert [home][1..] == [];
    assert Addresses.UserAddresses([home], 7) == [home];
    assert FormValid(CheckoutForm(true, 1, 1, "cod"), [home]) by {
      assert [home][0].id == 1;
    }
  }

  /**
   * `checkout`, performed on the session and the database: resolve the cart,
   * list the user's addresses, check the form and the payment method, write
   * the order, then clear the cart.
   */
  method Checkout(db: Store.Database, session: Helpers.CartSession, user: Accounts.UserId,
                  form: CheckoutForm, now: nat) returns (outcome: CheckoutOutcome)
    requires db.Valid() && session.Valid()
    modifies db, session
    ensures db.Valid() && session.Valid()
    ensures (outcome, ShopOf(db, session)) == CheckoutStep(old(ShopOf(db, session)), user, form, now)
  {
    var items := session.GetCartItems(db);
    if items == [] {
      return EmptyCart;
    }
    var mine := Addresses.UserAddresses(db.addresses, user);
    if mine == [] {
      return NoAddress;
    }
    var total := Cart.CartTotal(items);
    if !FormValid(form, mine) {
      return ShowForm(total);
    }
    if form.paymentMethod != CashOnDelivery {
      return CashOnDeliveryOnly;
    }
    var order := db.CreateOrder(user, OrderInputs(items), form.shippingAddressId, form.billingAddressId, total, now);
    session.ClearCart();
    outcome := Placed(order);
  }

  /** The keyword parameters `Order.create_order` declares; none has a default. */
  const CreateOrderParameters: set<string> :=
    {"user_id", "items", "shipping_address_id", "billing_address_id", "total_amount"}

  /** The keywords the checkout page passes to `Order.create_order`. */
  const CheckoutCallKeywords: set<string> :=
    {"user_id", "items", "shipping_address_id", "billing_address_id", "total_amount",
     "payment_method", "payment_status", "status"}

  /**
   * A Python call with keyword arguments only binds when every keyword names
   * a parameter and every parameter without a default is given; otherwise it
   * raises TypeError before the function body runs.
   */
  predicate KeywordsBind(keywords: set<string>, parameters: set<string>) {
    keywords == parameters
  }

  /**
   * `checkout` as written: identical up to the `create_order` call, which
   * passes keywords the function does not declare. When the call does not
   * bind, the request fails before any row is written and before the cart is
   * cleared.
   */
  function CheckoutStepAsWritten(shop: Shop, user: Accounts.UserId, form: CheckoutForm, now: nat): (r: (CheckoutOutcome, Shop))
    ensures !r.0.Placed?
    ensures r.1 == shop
  {
    assert "payment_method" in CheckoutCallKeywords && "payment_method" !in CreateOrderParameters;
    var r := CheckoutStep(shop, user, form, now);
    if r.0.Placed? && !KeywordsBind(CheckoutCallKeywords, CreateOrderParameters) then (ServerError, shop)
    else r
  }

  /**
   * As written, checkout can never place an order: wherever the intended
   * transition writes an order, the written one fails with the shop
   * unchanged, so the cart is never cleared; elsewhere the two agree.
   */
  lemma CheckoutAsWrittenNeverPlaces(shop: Shop, user: Accounts.UserId, form: CheckoutForm, now: nat)
    ensures var written := CheckoutStepAsWritten(shop, user, form, now);
            var intended := CheckoutStep(shop, user, form, now);
            && (intended.0.Placed? ==> written == (ServerError, shop))
            && (!intended.0.Placed? ==> written == intended)
  {
    assert "payment_method" in CheckoutCallKeywords && "payment_method" !in CreateOrderParameters;
  }

  /**
   * `edit_address` on a valid submission: 404 (false) unless the address is
   * the user's own; otherwise write the columns and the flag, clear the
   * user's defaults when the flag is set (the pending row is flushed first,
   * so the bulk update clears it too), write the flag back, and commit.
   */
  method EditAddressRoute(db: Store.Database, user: Accounts.UserId, id: Addresses.AddressId,
                          fields: Addresses.AddressFields, isDefault: bool) returns (found: bool)
    requires db.Valid()
    modifies db
    ensures db.Valid()
    ensures var r := Addresses.EditAddress(old(db.addresses), id, user, fields, isDefault);
            && (found <==> r.Some?)
            && db.Snapshot() == if found then old(db.Snapshot()).(addresses := r.value) else old(db.Snapshot())
  {
    var addrs := db.addresses;
    Addresses.EditAddressDefaults(addrs, id, user, fields, isDefault);
    var k := Addresses.OwnedIndex(addrs, id, user);
    if k == |addrs| {
      return false;
    }
    Addresses.EditInPlace(addrs, k, user, fields, isDefault);
    var table := addrs[k := Addresses.Address(addrs[k].id, user, fields, isDefault)];
    if isDefault {
      table := Addresses.ClearDefaults(table, user);
    }
    table := table[k := table[k].(isDefault := isDefault)];
    db.addresses := table;
    found := true;
  }

  /** `delete_address`: 404 (false) unless the address is the user's own; otherwise delete that row. */
  method DeleteAddressRoute(db: Store.Database, user: Accounts.UserId, id: Addresses.AddressId) returns (found: bool)
    requires db.Valid()
    modifies db
    ensures db.Valid()
    ensures var r := Addresses.DeleteAddress(old(db.addresses), id, user);
            && (found <==> r.Some?)
            && db.Snapshot() == if found then old(db.Snapshot()).(addresses := r.value) else old(db.Snapshot())
  {
    Addresses.DeleteAddressOwned(db.addresses, id, user, db.nextAddressId);
    var k := Addresses.OwnedIndex(db.addresses, id, user);
    if k == |db.addresses| {
      return false;
    }
    db.addresses := db.addresses[..k] + db.addresses[k + 1..];
    found := true;
  }
}
