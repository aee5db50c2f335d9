/**
 * The database behind models.py, as one object whose tables the model
 * methods update in place. Each table is a sequence of rows in insertion
 * order; each auto-increment key is a counter. A method's changes become
 * visible together, as at `db.session.commit()`.
 *
 * `Valid()` is what the schema and the methods keep true: unique e-mail
 * addresses, unique (user, product) wishlist pairs, unique keys, items that
 * point at existing orders, and at most one default address per user.
 */
module Store {
  import opened Wrappers
  import Catalog
  import Accounts
  import Orders
  import Addresses

  /** The whole stored state, as one value. */
  datatype Tables = Tables(
    users: seq<Accounts.User>,
    wishlist: seq<Accounts.WishlistItem>,
    products: seq<Catalog.Product>,
    orders: seq<Orders.Order>,
    orderItems: seq<Orders.OrderItem>,
    addresses: seq<Addresses.Address>,
    nextUserId: nat,
    nextOrderId: nat,
    nextOrderItemId: nat,
    nextAddressId: nat)

  /**
   * The tables after `Order.create_order` inserts `order` and one item row per
   * input item under the next item keys.
   */
  function AfterCreateOrder(t: Tables, order: Orders.Order, items: seq<Orders.ItemInput>): Tables {
    t.(orders := t.orders + [order],
       nextOrderId := t.nextOrderId + 1,
       orderItems := t.orderItems + Orders.ItemsFor(order.id, t.nextOrderItemId, items),
       nextOrderItemId := t.nextOrderItemId + |items|)
  }

  class Database {
    var users: seq<Accounts.User>
    var wishlist: seq<Accounts.WishlistItem>
    var products: seq<Catalog.Product>
    var orders: seq<Orders.Order>
    var orderItems: seq<Orders.OrderItem>
    var addresses: seq<Addresses.Address>
    var nextUserId: nat
    var nextOrderId: nat
    var nextOrderItemId: nat
    var nextAddressId: nat

    function Snapshot(): Tables
      reads this
    {
      Tables(users, wishlist, products, orders, orderItems, addresses,
             nextUserId, nextOrderId, nextOrderItemId, nextAddressId)
    }

    ghost predicate Valid()
      reads this
    {
      && Accounts.UniqueEmails(users)
      && Accounts.UserKeysBelow(users, nextUserId)
      && Accounts.NoDuplicatePairs(wishlist)
      && Catalog.DistinctIds(products)
      && Catalog.DistinctSkus(products)
      && Orders.OrderKeysBelow(orders, nextOrderId)
      && Orders.ItemKeysBelow(orderItems, nextOrderItemId, nextOrderId)
      && Addresses.AtMostOneDefault(addresses)
      && Addresses.AddressKeysBelow(addresses, nextAddressId)
    }

    /** A fresh database holding a catalog; every auto-increment key starts at 1. */
    constructor(catalog: seq<Catalog.Product>)
      requires Catalog.DistinctIds(catalog) && Catalog.DistinctSkus(catalog)
      ensures Valid()
      ensures Snapshot() == Tables([], [], catalog, [], [], [], 1, 1, 1, 1)
    {
      users, wishlist, products := [], [], catalog;
      orders, orderItems, addresses := [], [], [];
      nextUserId, nextOrderId, nextOrderItemId, nextAddressId := 1, 1, 1, 1;
    }

    /**
     * `User.create_user`: None, and nothing written, when the e-mail address is
     * already registered; otherwise exactly one new user under a fresh key.
     */
    method CreateUser(firstName: string, lastName: string, email: string,
                      passwordHash: string, phone: string) returns (user: Option<Accounts.User>)
      requires Valid()
      modifies this
      ensures Valid()
      ensures user.None? <==> Accounts.EmailTaken(old(users), email)
      ensures user.Some? ==> user.value == Accounts.NewUser(old(nextUserId), firstName, lastName, email, passwordHash, phone)
      ensures Snapshot() == old(Snapshot()).(
                users := Accounts.CreateUser(old(users), old(nextUserId), firstName, lastName, email, passwordHash, phone),
                nextUserId := if user.Some? then old(nextUserId) + 1 else old(nextUserId))
    {
      Accounts.CreateUserKeepsEmailsUnique(users, nextUserId, firstName, lastName, email, passwordHash, phone);
      if Accounts.EmailTaken(users, email) {
        return None;
      }
      var u := Accounts.NewUser(nextUserId, firstName, lastName, email, passwordHash, phone);
      users := users + [u];
      nextUserId := nextUserId + 1;
      user := Some(u);
    }

    /** `User.add_to_wishlist`: insert the (user, product) row unless it exists. */
    method AddToWishlist(user: Accounts.UserId, product: Catalog.ProductId)
      requires Valid()
      modifies this
      ensures Valid()
      ensures Snapshot() == old(Snapshot()).(wishlist := Accounts.AddToWishlist(old(wishlist), user, product))
    {
      Accounts.AddToWishlistIdempotent(wishlist, user, product);
      var item := Accounts.WishlistItem(user, product);
      if Accounts.FirstIndex(wishlist, item) == |wishlist| {
        wishlist := wishlist + [item];
      }
    }

    /** `User.remove_from_wishlist`: delete the (user, product) row if there is one. */
    method RemoveFromWishlist(user: Accounts.UserId, product: Catalog.ProductId)
      requires Valid()
      modifies this
      ensures Valid()
      ensures Snapshot() == old(Snapshot()).(wishlist := Accounts.RemoveFromWishlist(old(wishlist), user, product))
    {
      Accounts.RemoveFromWishlistDeletes(wishlist, user, product);
      var i := Accounts.FirstIndex(wishlist, Accounts.WishlistItem(user, product));
      if i < |wishlist| {
        wishlist := wishlist[..i] + wishlist[i + 1..];
      }
    }

    /**
     * `Product.update`, called on a product row that exists. The commit
     * fails, and nothing changes, when another row holds the new SKU.
     */
    method UpdateProduct(id: Catalog.ProductId, f: Catalog.ProductFields) returns (committed: bool)
      requires Valid() && Catalog.FindProduct(products, id).Some?
      modifies this
      ensures Valid()
      ensures committed <==> !Catalog.SkuHeldElsewhere(old(products), id, f.sku)
      ensures committed ==> Snapshot() == old(Snapshot()).(products := Catalog.UpdateProduct(old(products), id, f))
      ensures !committed ==> Snapshot() == old(Snapshot())
    {
      match Catalog.CommitUpdate(products, id, f)
      case None =>
        committed := false;
      case Some(updated) =>
        Catalog.UpdateProductKeepsKeyAndStatus(products, id, f);
        Catalog.CommitUpdateKeepsSkusUnique(products, id, f);
        products := updated;
        committed := true;
    }

    /** `Product.delete`, called on a product row that exists: a soft delete. */
    method DeleteProduct(id: Catalog.ProductId)
      requires Valid() && Catalog.FindProduct(products, id).Some?
      modifies this
      ensures Valid()
      ensures Snapshot() == old(Snapshot()).(products := Catalog.SoftDelete(old(products), id))
      ensures Catalog.FindProduct(products, id) == Some(old(Catalog.FindProduct(products, id)).value.(status := Catalog.Inactive))
    {
      Catalog.SoftDeleteKeepsRow(products, id, None, "", (s, p) => true, 0, 0);
      products := Catalog.SoftDelete(products, id);
    }

    /**
     * `Order.create_order`: insert the order (its key comes from the flush),
     * then one item row per input item, in input order, pointing at it.
     * Status and payment status take the 'pending' column defaults.
     */
    method CreateOrder(user: Accounts.UserId, items: seq<Orders.ItemInput>,
                       shipping: Addresses.AddressId, billing: Addresses.AddressId,
                       total: Catalog.Cents, now: nat) returns (order: Orders.Order)
      requires Valid()
      modifies this
      ensures Valid()
      ensures order == Orders.NewOrder(old(nextOrderId), user, total, shipping, billing, now)
      ensures order.status == Orders.Pending && order.paymentStatus == Orders.Pending
      ensures Snapshot() == AfterCreateOrder(old(Snapshot()), order, items)
    {
      Orders.CreateOrderItemsLinked(orderItems, nextOrderItemId, nextOrderId, items);
      Orders.CreateOrderKeys(orders, nextOrderId, Orders.NewOrder(nextOrderId, user, total, shipping, billing, now));
      order := Orders.NewOrder(nextOrderId, user, total, shipping, billing, now);
      var added := StageItems(order.id, nextOrderItemId, items);
      orders := orders + [order];
      nextOrderId := nextOrderId + 1;
      orderItems := orderItems + added;
      nextOrderItemId := nextOrderItemId + |items|;
    }

    /**
     * `Address.create_address`: with the default flag set, first clear the
     * user's defaults (one bulk update), then insert the new address.
     */
    method CreateAddress(user: Accounts.UserId, fields: Addresses.AddressFields, isDefault: bool)
      returns (address: Addresses.Address)
      requires Valid()
      modifies this
      ensures Valid()
      ensures address == Addresses.Address(old(nextAddressId), user, fields, isDefault)
      ensures Snapshot() == old(Snapshot()).(
                addresses := Addresses.CreateAddress(old(addresses), old(nextAddressId), user, fields, isDefault),
                nextAddressId := old(nextAddressId) + 1)
    {
      Addresses.CreateAddressDefaults(addresses, nextAddressId, user, fields, isDefault);
      if isDefault {
        addresses := Addresses.ClearDefaults(addresses, user);
      }
      address := Addresses.Address(nextAddressId, user, fields, isDefault);
      addresses := addresses + [address];
      nextAddressId := nextAddressId + 1;
    }
  }

  /**
   * The loop of `create_order`: one item row per input item, in input order,
   * pointing at `orderId`, each under the key the flush will give it.
   */
  method StageItems(orderId: Orders.OrderId, firstId: nat, items: seq<Orders.ItemInput>)
    returns (added: seq<Orders.OrderItem>)
    ensures added == Orders.ItemsFor(orderId, firstId, items)
  {
    added := [];
    var i := 0;
    while i < |items|
      invariant 0 <= i <= |items|
      invariant added == Orders.ItemsFor(orderId, firstId, items[..i])
    {
      var row := Orders.OrderItem(firstId + i, orderId, items[i].productId, items[i].quantity, items[i].price);
      assert Orders.ItemsFor(orderId, firstId, items[..i + 1]) == Orders.ItemsFor(orderId, firstId, items[..i]) + [row];
      added := added + [row];
      i := i + 1;
    }
    assert items[..i] == items;
  }
}
