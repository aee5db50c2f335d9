/**
 * The `orders` and `order_items` tables of models.py: the rows
 * `Order.create_order` writes (one order, then one item per input item, all
 * pointing at the new order's key) and `Order.get_user_orders`, a user's
 * orders newest first.
 *
 * `created_at` is a clock reading; here it is an abstract ordering key that
 * the caller supplies.
 */
module Orders {
  import Catalog
  import Accounts
  import Addresses

  type OrderId = nat

  /** The default of both the `status` and the `payment_status` columns. */
  const Pending: string := "pending"

  datatype Order = Order(
    id: OrderId,
    userId: Accounts.UserId,
    totalAmount: Catalog.Cents,
    status: string,
    paymentStatus: string,
    shippingAddressId: Addresses.AddressId,
    billingAddressId: Addresses.AddressId,
    createdAt: nat)

  datatype OrderItem = OrderItem(
    id: nat,
    orderId: OrderId,
    productId: Catalog.ProductId,
    quantity: int,
    price: Catalog.Cents)

  /** The three keys `create_order` reads from each item it is given. */
  datatype ItemInput = ItemInput(productId: Catalog.ProductId, quantity: int, price: Catalog.Cents)

  /** The order row `create_order` writes: status and payment status take their defaults. */
  function NewOrder(id: OrderId, user: Accounts.UserId, total: Catalog.Cents,
                    shipping: Addresses.AddressId, billing: Addresses.AddressId, now: nat): Order
  {
    Order(id, user, total, Pending, Pending, shipping, billing, now)
  }

  /** The item rows `create_order` writes for `orderId`, keyed from `firstId` on. */
  function ItemsFor(orderId: OrderId, firstId: nat, items: seq<ItemInput>): (r: seq<OrderItem>)
    ensures |r| == |items|
    ensures forall i, j :: 0 <= i < j < |r| ==> r[i].id < r[j].id
    ensures forall k :: 0 <= k < |r| ==> firstId <= r[k].id < firstId + |items| && r[k].orderId == orderId
  {
    seq(|items|, k requires 0 <= k < |items| =>
      OrderItem(firstId + k, orderId, items[k].productId, items[k].quantity, items[k].price))
  }

  /** Order keys are distinct and below the next one to be handed out. */
  predicate OrderKeysBelow(orders: seq<Order>, nextId: nat) {
    && (forall i :: 0 <= i < |orders| ==> orders[i].id < nextId)
    && (forall i, j :: 0 <= i < j < |orders| ==> orders[i].id != orders[j].id)
  }

  /** Item keys are distinct and below `nextItemId`; every item points at an order key already handed out. */
  predicate ItemKeysBelow(items: seq<OrderItem>, nextItemId: nat, nextOrderId: nat) {
    && (forall i :: 0 <= i < |items| ==> items[i].id < nextItemId && items[i].orderId < nextOrderId)
    && (forall i, j :: 0 <= i < j < |items| ==> items[i].id != items[j].id)
  }

  /** The items of one order, in table order (the `Order.items` relationship). */
  function ItemsOfOrder(items: seq<OrderItem>, orderId: OrderId): (r: seq<OrderItem>)
    ensures forall x :: x in r <==> x in items && x.orderId == orderId
  {
    if items == [] then []
    else
      var rest := ItemsOfOrder(items[1..], orderId);
      assert forall x :: x in items <==> x == items[0] || x in items[1..];
      if items[0].orderId == orderId then [items[0]] + rest else rest
  }

  lemma {:induction false} ItemsOfOrderAppend(a: seq<OrderItem>, b: seq<OrderItem>, orderId: OrderId)
    ensures ItemsOfOrder(a + b, orderId) == ItemsOfOrder(a, orderId) + ItemsOfOrder(b, orderId)
  {
    if a == [] {
      assert a + b == b;
    } else {
      assert (a + b)[0] == a[0] && (a + b)[1..] == a[1..] + b;
      ItemsOfOrderAppend(a[1..], b, orderId);
    }
  }

  lemma {:induction false} ItemsOfOrderNone(items: seq<OrderItem>, orderId: OrderId)
    requires forall i :: 0 <= i < |items| ==> items[i].orderId != orderId
    ensures ItemsOfOrder(items, orderId) == []
  {
    if items != [] {
      ItemsOfOrderNone(items[1..], orderId);
    }
  }

  lemma {:induction false} ItemsOfOrderAll(items: seq<OrderItem>, orderId: OrderId)
    requires forall i :: 0 <= i < |items| ==> items[i].orderId == orderId
    ensures ItemsOfOrder(items, orderId) == items
  {
    if items != [] {
      ItemsOfOrderAll(items[1..], orderId);
    }
  }

  /**
   * After `create_order` the new order owns exactly one item per input item,
   * in input order, each carrying that input's product, quantity and price;
   * no other order gains or loses an item, and the key invariants still hold.
   */
  lemma CreateOrderItemsLinked(items: seq<OrderItem>, nextItemId: nat, nextOrderId: nat, inputs: seq<ItemInput>)
    requires ItemKeysBelow(items, nextItemId, nextOrderId)
    ensures var created := ItemsFor(nextOrderId, nextItemId, inputs);
            var after := items + created;
            && ItemsOfOrder(after, nextOrderId) == created
            && |created| == |inputs|
            && (forall k :: 0 <= k < |inputs| ==>
                  && created[k].orderId == nextOrderId
                  && created[k].productId == inputs[k].productId
                  && created[k].quantity == inputs[k].quantity
                  && created[k].price == inputs[k].price)
            && (forall o :: o != nextOrderId ==> ItemsOfOrder(after, o) == ItemsOfOrder(items, o))
            && ItemKeysBelow(after, nextItemId + |inputs|, nextOrderId + 1)
  {
    var created := ItemsFor(nextOrderId, nextItemId, inputs);
    assert forall k :: 0 <= k < |created| ==> created[k].orderId == nextOrderId && created[k].id == nextItemId + k;
    AppendOrderItems(items, created, nextOrderId);
    AppendItemKeys(items, nextItemId, nextOrderId, created, |inputs|);
  }

  /**
   * Appending rows that all point at an order no existing row points at gives
   * that order exactly those rows and leaves every other order's rows alone.
   */
  lemma AppendOrderItems(items: seq<OrderItem>, created: seq<OrderItem>, orderId: OrderId)
    requires forall i :: 0 <= i < |items| ==> items[i].orderId != orderId
    requires forall k :: 0 <= k < |created| ==> created[k].orderId == orderId
    ensures ItemsOfOrder(items + created, orderId) == created
    ensures forall o :: o != orderId ==> ItemsOfOrder(items + created, o) == ItemsOfOrder(items, o)
  {
    ItemsOfOrderAppend(items, created, orderId);
    ItemsOfOrderNone(items, orderId);
    ItemsOfOrderAll(created, orderId);
    forall o | o != orderId ensures ItemsOfOrder(items + created, o) == ItemsOfOrder(items, o) {
      ItemsOfOrderAppend(items, created, o);
      ItemsOfOrderNone(created, o);
    }
  }

  /** Appending consecutive keys from `nextItemId` on keeps item keys distinct and bounded. */
  lemma AppendItemKeys(items: seq<OrderItem>, nextItemId: nat, nextOrderId: nat,
                       created: seq<OrderItem>, n: nat)
    requires ItemKeysBelow(items, nextItemId, nextOrderId)
    requires |created| == n
    requires forall k :: 0 <= k < n ==> created[k].id == nextItemId + k && created[k].orderId == nextOrderId
    ensures ItemKeysBelow(items + created, nextItemId + n, nextOrderId + 1)
  {
    var after := items + created;
    forall i, j | 0 <= i < j < |after| ensures after[i].id != after[j].id {
      if j >= |items| {
        assert after[j] == created[j - |items|];
        if i >= |items| {
          assert after[i] == created[i - |items|];
        } else {
          assert after[i] == items[i];
        }
      }
    }
    forall i | 0 <= i < |after| ensures after[i].id < nextItemId + n && after[i].orderId < nextOrderId + 1 {
      if i < |items| { assert after[i] == items[i]; } else { assert after[i] == created[i - |items|]; }
    }
  }

  /** Inserting an order under the next key keeps the order keys distinct and below the new next key. */
  lemma {:induction false} CreateOrderKeys(orders: seq<Order>, nextOrderId: nat, order: Order)
    requires OrderKeysBelow(orders, nextOrderId) && order.id == nextOrderId
    ensures OrderKeysBelow(orders + [order], nextOrderId + 1)
  {
    var after := orders + [order];
    forall i | 0 <= i < |after| ensures after[i].id < nextOrderId + 1 {
      if i < |orders| { assert after[i] == orders[i]; }
    }
    forall i, j | 0 <= i < j < |after| ensures after[i].id != after[j].id {
      assert after[i] == orders[i];
    }
  }

  /** The value of item rows: the sum of price times quantity. */
  function ItemsValue(items: seq<OrderItem>): Catalog.Cents {
    if items == [] then 0 else items[0].price * items[0].quantity + ItemsValue(items[1..])
  }

  /** The first row `create_order` writes for a non-empty input, then the rest. */
  lemma ItemsForCons(orderId: OrderId, firstId: nat, items: seq<ItemInput>)
    requires items != []
    ensures ItemsFor(orderId, firstId, items)
            == [OrderItem(firstId, orderId, items[0].productId, items[0].quantity, items[0].price)]
               + ItemsFor(orderId, firstId + 1, items[1..])
  {
  }

  /** Newest first: `ORDER BY created_at DESC`. */
  predicate NewestFirst(os: seq<Order>) {
    forall i, j :: 0 <= i < j < |os| ==> os[i].createdAt >= os[j].createdAt
  }

  /** The user's orders, in table order. */
  function OrdersOf(orders: seq<Order>, user: Accounts.UserId): (r: seq<Order>)
    ensures forall o :: o in r <==> o in orders && o.userId == user
  {
    if orders == [] then []
    else
      var rest := OrdersOf(orders[1..], user);
      assert forall o :: o in orders <==> o == orders[0] || o in orders[1..];
      if orders[0].userId == user then [orders[0]] + rest else rest
  }

  /** In a newest-first list the head is the newest. */
  lemma HeadIsNewest(s: seq<Order>)
    requires NewestFirst(s) && s != []
    ensures forall y :: y in multiset(s) ==> y.createdAt <= s[0].createdAt
  {
    forall y | y in multiset(s) ensures y.createdAt <= s[0].createdAt {
      assert y in s;
    }
  }

  lemma NewestFirstCons(x: Order, s: seq<Order>)
    requires NewestFirst(s)
    requires forall y :: y in multiset(s) ==> y.createdAt <= x.createdAt
    ensures NewestFirst([x] + s)
  {
    forall i, j | 0 <= i < j < |[x] + s| ensures ([x] + s)[i].createdAt >= ([x] + s)[j].createdAt {
      if i == 0 {
        assert s[j - 1] in multiset(s);
      }
    }
  }

  function InsertNewestFirst(o: Order, sorted: seq<Order>): (r: seq<Order>)
    requires NewestFirst(sorted)
    ensures NewestFirst(r)
    ensures multiset(r) == multiset(sorted) + multiset{o}
  {
    if sorted == [] then [o]
    else if o.createdAt >= sorted[0].createdAt then
      HeadIsNewest(sorted);
      NewestFirstCons(o, sorted);
      [o] + sorted
    else
      NewestFirstTail(sorted);
      var rest := InsertNewestFirst(o, sorted[1..]);
      InsertBelowHead(o, sorted, rest);
      [sorted[0]] + rest
  }

  lemma NewestFirstTail(s: seq<Order>)
    requires NewestFirst(s) && s != []
    ensures NewestFirst(s[1..])
  {
    forall i, j | 0 <= i < j < |s[1..]| ensures s[1..][i].createdAt >= s[1..][j].createdAt {
      assert s[1..][i] == s[i + 1] && s[1..][j] == s[j + 1];
    }
  }

  /** An order older than the head goes behind it: the head stays first. */
  lemma InsertBelowHead(o: Order, sorted: seq<Order>, rest: seq<Order>)
    requires NewestFirst(sorted) && sorted != [] && o.createdAt < sorted[0].createdAt
    requires NewestFirst(rest) && multiset(rest) == multiset(sorted[1..]) + multiset{o}
    ensures NewestFirst([sorted[0]] + rest)
    ensures multiset([sorted[0]] + rest) == multiset(sorted) + multiset{o}
  {
    assert sorted == [sorted[0]] + sorted[1..];
    HeadIsNewest(sorted);
    forall y | y in multiset(rest) ensures y.createdAt <= sorted[0].createdAt {
      if y != o {
        assert y in multiset(sorted[1..]);
        assert y in multiset(sorted);
      }
    }
    NewestFirstCons(sorted[0], rest);
  }

  function SortNewestFirst(os: seq<Order>): (r: seq<Order>)
    ensures NewestFirst(r)
    ensures multiset(r) == multiset(os)
  {
    if os == [] then []
    else
      assert os == [os[0]] + os[1..];
      InsertNewestFirst(os[0], SortNewestFirst(os[1..]))
  }

  /** `Order.get_user_orders`: the user's orders, each as often as stored, newest first. */
  function GetUserOrders(orders: seq<Order>, user: Accounts.UserId): (r: seq<Order>)
    ensures NewestFirst(r)
    ensures multiset(r) == multiset(OrdersOf(orders, user))
  {
    SortNewestFirst(OrdersOf(orders, user))
  }

  /** Filtering by user keeps every order of that user as often as it is stored. */
  lemma {:induction false} OrdersOfMultiplicity(orders: seq<Order>, user: Accounts.UserId, o: Order)
    requires o.userId == user
    ensures multiset(OrdersOf(orders, user))[o] == multiset(orders)[o]
  {
    if orders != [] {
      assert orders == [orders[0]] + orders[1..];
      OrdersOfMultiplicity(orders[1..], user, o);
    }
  }

  /**
   * A user's order list holds every order of that user and nothing else,
   * each exactly as often as in the table.
   */
  lemma GetUserOrdersExactly(orders: seq<Order>, user: Accounts.UserId)
    ensures var r := GetUserOrders(orders, user);
            && (forall o :: o in r <==> o in orders && o.userId == user)
            && (forall o: Order :: o.userId == user ==> multiset(r)[o] == multiset(orders)[o])
  {
    var r := GetUserOrders(orders, user);
    forall o ensures o in r <==> o in OrdersOf(orders, user) {
      assert o in r <==> o in multiset(r);
    }
    forall o: Order | o.userId == user ensures multiset(r)[o] == multiset(orders)[o] {
      OrdersOfMultiplicity(orders, user, o);
    }
  }
}
