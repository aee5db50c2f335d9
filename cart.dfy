/**
 * The session cart of utils/helpers.py as a value: a Python dict from product
 * id to quantity, which keeps insertion order, is a sequence of entries with
 * distinct product ids. These functions give the dict after each helper
 * (`add_to_cart`, `update_cart_item`, `remove_from_cart`), its item count
 * (`get_cart_count`) and the priced line items `get_cart_items` resolves
 * against the products table.
 */
module Cart {
  import opened Wrappers
  import Catalog

  datatype CartEntry = CartEntry(productId: Catalog.ProductId, quantity: int)

  type Cart = seq<CartEntry>

  /** A dict has each key once. */
  predicate KeysDistinct(c: Cart) {
    forall i, j :: 0 <= i < j < |c| ==> c[i].productId != c[j].productId
  }

  /** The dict's keys, in insertion order. */
  function Keys(c: Cart): seq<Catalog.ProductId> {
    seq(|c|, i requires 0 <= i < |c| => c[i].productId)
  }

  /** Position of the key `p`, or |c| when `p not in cart`. */
  function IndexOf(c: Cart, p: Catalog.ProductId): (i: nat)
    ensures i <= |c|
    ensures i < |c| ==> c[i].productId == p
    ensures forall j :: 0 <= j < i ==> c[j].productId != p
  {
    if c == [] then 0
    else if c[0].productId == p then 0
    else 1 + IndexOf(c[1..], p)
  }

  /** `cart.get(p)`. */
  function Lookup(c: Cart, p: Catalog.ProductId): Option<int> {
    var i := IndexOf(c, p);
    if i < |c| then Some(c[i].quantity) else None
  }

  lemma LookupAt(c: Cart, i: int)
    requires KeysDistinct(c) && 0 <= i < |c|
    ensures IndexOf(c, c[i].productId) == i
    ensures Lookup(c, c[i].productId) == Some(c[i].quantity)
  {
  }

  /**
   * `add_to_cart`: an existing quantity grows by `n`; a new key is appended
   * with `n`. Either way `p` is a key afterwards and the count grows by `n`.
   */
  function Add(c: Cart, p: Catalog.ProductId, n: int): (r: Cart)
    ensures IndexOf(r, p) < |r|
    ensures Count(r) == Count(c) + n
  {
    var i := IndexOf(c, p);
    if i < |c| then
      var r := c[i := CartEntry(p, c[i].quantity + n)];
      CountSplit(c, i);
      CountSplit(r, i);
      assert r[..i] == c[..i] && r[i + 1..] == c[i + 1..];
      r
    else
      var e := CartEntry(p, n);
      CountAppend(c, [e]);
      assert [e][1..] == [];
      assert (c + [e])[|c|].productId == p;
      c + [e]
  }

  /**
   * `update_cart_item`: overwrite an existing quantity; never insert. The
   * keys and their order stay, and the count moves from the old quantity to
   * `n` only when `p` was a key.
   */
  function Update(c: Cart, p: Catalog.ProductId, n: int): (r: Cart)
    ensures Keys(r) == Keys(c)
    ensures Count(r) == Count(c) + (if Lookup(c, p).Some? then n - Lookup(c, p).value else 0)
  {
    var i := IndexOf(c, p);
    if i < |c| then
      var r := c[i := CartEntry(p, n)];
      CountSplit(c, i);
      CountSplit(r, i);
      assert r[..i] == c[..i] && r[i + 1..] == c[i + 1..];
      r
    else c
  }

  /**
   * `remove_from_cart`: `del cart[p]` when present, otherwise nothing. One
   * entry goes exactly when `p` was a key, and the count drops by its quantity.
   */
  function Remove(c: Cart, p: Catalog.ProductId): (r: Cart)
    ensures |r| == |c| - (if Lookup(c, p).Some? then 1 else 0)
    ensures Count(r) == Count(c) - Lookup(c, p).GetOr(0)
  {
    var i := IndexOf(c, p);
    if i < |c| then
      CountSplit(c, i);
      CountAppend(c[..i], c[i + 1..]);
      c[..i] + c[i + 1..]
    else c
  }

  /** `sum(cart.values())`. */
  function Count(c: Cart): (r: int)
  {
    if c == [] then 0
    else
      c[0].quantity + Count(c[1..])
  }
  /** The count is never negative while every quantity is non-negative. */
  lemma {:induction false} CountNonNegative(c: Cart)
    requires forall k :: 0 <= k < |c| ==> c[k].quantity >= 0
    ensures Count(c) >= 0
  {
    if c != [] {
      assert forall k :: 0 <= k < |c[1..]| ==> c[1..][k] == c[k + 1];
      CountNonNegative(c[1..]);
    }
  }


  lemma {:induction false} CountAppend(a: Cart, b: Cart)
    ensures Count(a + b) == Count(a) + Count(b)
  {
    if a == [] {
      assert a + b == b;
    } else {
      assert (a + b)[0] == a[0] && (a + b)[1..] == a[1..] + b;
      CountAppend(a[1..], b);
    }
  }

  lemma {:induction false} CountSplit(c: Cart, i: int)
    requires 0 <= i < |c|
    ensures Count(c) == Count(c[..i]) + c[i].quantity + Count(c[i + 1..])
  {
    var pre, post := c[..i], c[i + 1..];
    var tail := [c[i]] + post;
    assert c == pre + tail;
    CountAppend(pre, tail);
    assert tail[0] == c[i] && tail[1..] == post;
  }

  /** Overwriting the entry at `i` under its own key changes only that key's quantity. */
  lemma SetAtLookup(c: Cart, i: int, e: CartEntry)
    requires KeysDistinct(c) && 0 <= i < |c| && e.productId == c[i].productId
    ensures var r := c[i := e];
            && KeysDistinct(r)
            && IndexOf(r, e.productId) == i
            && Lookup(r, e.productId) == Some(e.quantity)
            && (forall q :: q != e.productId ==> Lookup(r, q) == Lookup(c, q))
            && Keys(r) == Keys(c)
  {
    var r := c[i := e];
    LookupAt(r, i);
    forall q | q != e.productId ensures Lookup(r, q) == Lookup(c, q) {
      var j := IndexOf(c, q);
      if j < |c| { LookupAt(r, j); } else { assert forall k :: 0 <= k < |r| ==> r[k].productId != q; }
    }
  }

  /** Appending an entry under a new key makes it the last key and changes no other key. */
  lemma AppendLookup(c: Cart, e: CartEntry)
    requires KeysDistinct(c) && Lookup(c, e.productId).None?
    ensures var r := c + [e];
            && KeysDistinct(r)
            && IndexOf(r, e.productId) == |c|
            && Lookup(r, e.productId) == Some(e.quantity)
            && (forall q :: q != e.productId ==> Lookup(r, q) == Lookup(c, q))
            && Keys(r) == Keys(c) + [e.productId]
  {
    var r := c + [e];
    assert forall k :: 0 <= k < |c| ==> r[k] == c[k];
    LookupAt(r, |c|);
    forall q | q != e.productId ensures Lookup(r, q) == Lookup(c, q) {
      var j := IndexOf(c, q);
      if j < |c| { LookupAt(r, j); } else { assert forall k :: 0 <= k < |r| ==> r[k].productId != q; }
    }
  }

  /**
   * `add_to_cart(p, n)`: the quantity under `p` becomes the old one plus `n`,
   * or `n` when `p` was absent; every other key keeps its quantity; existing
   * keys keep their order and a new key comes last.
   */
  lemma AddLookup(c: Cart, p: Catalog.ProductId, n: int)
    requires KeysDistinct(c)
    ensures var r := Add(c, p, n);
            && KeysDistinct(r)
            && Lookup(r, p) == Some(if Lookup(c, p).Some? then Lookup(c, p).value + n else n)
            && (forall q :: q != p ==> Lookup(r, q) == Lookup(c, q))
            && Keys(r) == (if Lookup(c, p).Some? then Keys(c) else Keys(c) + [p])
  {
    var i := IndexOf(c, p);
    if i < |c| {
      SetAtLookup(c, i, CartEntry(p, c[i].quantity + n));
    } else {
      AppendLookup(c, CartEntry(p, n));
    }
  }

  /** Adding `a` and then `b` units is adding `a + b` units: quantities accumulate. */
  lemma AddAccumulates(c: Cart, p: Catalog.ProductId, a: int, b: int)
    requires KeysDistinct(c)
    ensures Add(Add(c, p, a), p, b) == Add(c, p, a + b)
  {
    var i := IndexOf(c, p);
    if i < |c| {
      var c1 := c[i := CartEntry(p, c[i].quantity + a)];
      SetAtLookup(c, i, CartEntry(p, c[i].quantity + a));
      assert Add(c, p, a) == c1;
      assert Add(c1, p, b) == c1[i := CartEntry(p, c1[i].quantity + b)];
      assert c1[i := CartEntry(p, c1[i].quantity + b)] == c[i := CartEntry(p, c[i].quantity + (a + b))];
      assert Add(c, p, a + b) == c[i := CartEntry(p, c[i].quantity + (a + b))];
    } else {
      var c1 := c + [CartEntry(p, a)];
      AppendLookup(c, CartEntry(p, a));
      assert Add(c, p, a) == c1;
      assert Add(c1, p, b) == c1[|c| := CartEntry(p, c1[|c|].quantity + b)];
      assert c1[|c| := CartEntry(p, a + b)] == c + [CartEntry(p, a + b)];
      assert Add(c, p, a + b) == c + [CartEntry(p, a + b)];
    }
  }

  /**
   * `update_cart_item(p, n)` sets `p`'s quantity to `n` only when `p` is
   * already a key: no key is inserted, other quantities stay.
   */
  lemma UpdateLookup(c: Cart, p: Catalog.ProductId, n: int)
    requires KeysDistinct(c)
    ensures var r := Update(c, p, n);
            && KeysDistinct(r)
            && Lookup(r, p) == (if Lookup(c, p).Some? then Some(n) else None)
            && (forall q :: q != p ==> Lookup(r, q) == Lookup(c, q))
  {
    var i := IndexOf(c, p);
    if i < |c| {
      SetAtLookup(c, i, CartEntry(p, n));
    }
  }

  /**
   * `remove_from_cart(p)` deletes the key `p` when present and is a no-op
   * otherwise, so removing twice is removing once; other keys keep their
   * quantities and order.
   */
  lemma RemoveLookup(c: Cart, p: Catalog.ProductId)
    requires KeysDistinct(c)
    ensures var r := Remove(c, p);
            && KeysDistinct(r)
            && Lookup(r, p) == None
            && (forall q :: q != p ==> Lookup(r, q) == Lookup(c, q))
            && (Lookup(c, p).None? ==> r == c)
            && Remove(r, p) == r
  {
    var i := IndexOf(c, p);
    if i < |c| {
      assert Remove(c, p) == c[..i] + c[i + 1..];
      CutAtLookup(c, i);
    }
  }

  /** Cutting out the entry at `i` drops its key and changes no other key. */
  lemma CutAtLookup(c: Cart, i: int)
    requires KeysDistinct(c) && 0 <= i < |c|
    ensures var r := c[..i] + c[i + 1..];
            && KeysDistinct(r)
            && IndexOf(r, c[i].productId) == |r|
            && (forall q :: q != c[i].productId ==> Lookup(r, q) == Lookup(c, q))
  {
    var p := c[i].productId;
    var r := c[..i] + c[i + 1..];
    assert forall k :: 0 <= k < |r| ==> r[k] == c[if k < i then k else k + 1];
    assert forall k :: 0 <= k < |r| ==> r[k].productId != p;
    forall q | q != p ensures Lookup(r, q) == Lookup(c, q) {
      var j := IndexOf(c, q);
      if j < |c| {
        LookupAt(r, if j < i then j else j - 1);
      } else {
        assert forall k :: 0 <= k < |r| ==> r[k].productId != q;
      }
    }
  }


  /** One resolved cart entry, as `get_cart_items` builds it. */
  datatype LineItem = LineItem(product: Catalog.Product, quantity: int, subtotal: Catalog.Cents)

  /**
   * `get_cart_items`: one line item per entry whose product `get_by_id` finds,
   * in cart order, priced at the product's current price; an entry whose
   * product is missing is dropped. An inactive product is still found.
   */
  function LineItems(c: Cart, ps: seq<Catalog.Product>): (items: seq<LineItem>)
    ensures |items| <= |c|
    ensures forall k :: 0 <= k < |items| ==> items[k].subtotal == items[k].product.price * items[k].quantity
  {
    if c == [] then []
    else
      var rest := LineItems(c[1..], ps);
      match Catalog.FindProduct(ps, c[0].productId)
      case None => rest
      case Some(p) => [LineItem(p, c[0].quantity, p.price * c[0].quantity)] + rest
  }

  lemma {:induction false} LineItemsAppend(a: Cart, b: Cart, ps: seq<Catalog.Product>)
    ensures LineItems(a + b, ps) == LineItems(a, ps) + LineItems(b, ps)
  {
    if a == [] {
      assert a + b == b;
    } else {
      assert (a + b)[0] == a[0] && (a + b)[1..] == a[1..] + b;
      LineItemsAppend(a[1..], b, ps);
    }
  }

  /**
   * A line item exists exactly when some cart entry's product is found, and
   * it carries that product, that entry's quantity and price times quantity.
   */
  lemma {:induction false} LineItemsResolve(c: Cart, ps: seq<Catalog.Product>, li: LineItem)
    ensures li in LineItems(c, ps) <==>
            exists i :: 0 <= i < |c| && Catalog.FindProduct(ps, c[i].productId) == Some(li.product)
                        && li.quantity == c[i].quantity && li.subtotal == li.product.price * li.quantity
  {
    if c != [] {
      LineItemsResolve(c[1..], ps, li);
      if exists i :: 0 <= i < |c[1..]| && Catalog.FindProduct(ps, c[1..][i].productId) == Some(li.product)
                     && li.quantity == c[1..][i].quantity && li.subtotal == li.product.price * li.quantity {
        var i :| 0 <= i < |c[1..]| && Catalog.FindProduct(ps, c[1..][i].productId) == Some(li.product)
                 && li.quantity == c[1..][i].quantity && li.subtotal == li.product.price * li.quantity;
        assert c[i + 1] == c[1..][i];
      }
      if exists i :: 0 <= i < |c| && Catalog.FindProduct(ps, c[i].productId) == Some(li.product)
                     && li.quantity == c[i].quantity && li.subtotal == li.product.price * li.quantity {
        var i :| 0 <= i < |c| && Catalog.FindProduct(ps, c[i].productId) == Some(li.product)
                 && li.quantity == c[i].quantity && li.subtotal == li.product.price * li.quantity;
        if i > 0 { assert c[1..][i - 1] == c[i]; }
      }
    }
  }

  /**
   * When every entry's product is found, the line items match the entries
   * one for one, in cart order.
   */
  lemma {:induction false} LineItemsAllFound(c: Cart, ps: seq<Catalog.Product>)
    requires forall i :: 0 <= i < |c| ==> Catalog.FindProduct(ps, c[i].productId).Some?
    ensures |LineItems(c, ps)| == |c|
    ensures forall k :: 0 <= k < |c| ==>
              && LineItems(c, ps)[k].product == Catalog.FindProduct(ps, c[k].productId).value
              && LineItems(c, ps)[k].quantity == c[k].quantity
  {
    if c != [] {
      assert forall i :: 0 <= i < |c[1..]| ==> c[1..][i] == c[i + 1];
      LineItemsAllFound(c[1..], ps);
    }
  }

  /** An entry whose product is missing contributes nothing: dropping it changes no line item. */
  lemma LineItemsDropMissing(c: Cart, ps: seq<Catalog.Product>, p: Catalog.ProductId)
    requires Catalog.FindProduct(ps, p).None?
    ensures LineItems(Remove(c, p), ps) == LineItems(c, ps)
  {
    var i := IndexOf(c, p);
    if i < |c| {
      assert c == c[..i] + ([c[i]] + c[i + 1..]);
      LineItemsAppend(c[..i], [c[i]] + c[i + 1..], ps);
      LineItemsAppend([c[i]], c[i + 1..], ps);
      LineItemsAppend(c[..i], c[i + 1..], ps);
      assert LineItems([c[i]], ps) == [];
    }
  }

  /** `sum(item['subtotal'] for item in cart_items)`. */
  function CartTotal(items: seq<LineItem>): Catalog.Cents {
    if items == [] then 0 else items[0].subtotal + CartTotal(items[1..])
  }

  lemma {:induction false} CartTotalAppend(a: seq<LineItem>, b: seq<LineItem>)
    ensures CartTotal(a + b) == CartTotal(a) + CartTotal(b)
  {
    if a == [] {
      assert a + b == b;
    } else {
      assert (a + b)[0] == a[0] && (a + b)[1..] == a[1..] + b;
      CartTotalAppend(a[1..], b);
    }
  }

  /** The priced total of the line items of `c`. */
  function CartValue(c: Cart, ps: seq<Catalog.Product>): Catalog.Cents {
    CartTotal(LineItems(c, ps))
  }

  lemma CartValueSplit(c: Cart, ps: seq<Catalog.Product>, i: int)
    requires 0 <= i < |c|
    ensures CartValue(c, ps) == CartValue(c[..i], ps) + CartValue([c[i]], ps) + CartValue(c[i + 1..], ps)
  {
    assert c == c[..i] + ([c[i]] + c[i + 1..]);
    LineItemsAppend(c[..i], [c[i]] + c[i + 1..], ps);
    LineItemsAppend([c[i]], c[i + 1..], ps);
    CartTotalAppend(LineItems(c[..i], ps), LineItems([c[i]] + c[i + 1..], ps));
    CartTotalAppend(LineItems([c[i]], ps), LineItems(c[i + 1..], ps));
  }

  lemma CartValueSingle(e: CartEntry, ps: seq<Catalog.Product>)
    requires Catalog.FindProduct(ps, e.productId).Some?
    ensures CartValue([e], ps) == Catalog.FindProduct(ps, e.productId).value.price * e.quantity
  {
    var prod := Catalog.FindProduct(ps, e.productId).value;
    assert [e][1..] == [];
    assert LineItems([e], ps) == [LineItem(prod, e.quantity, prod.price * e.quantity)];
    assert CartTotal([LineItem(prod, e.quantity, prod.price * e.quantity)]) == prod.price * e.quantity;
  }

  /**
   * Adding `n` units of a product that `get_by_id` finds raises the cart
   * total by exactly its current price times `n`, whether or not the product
   * was already in the cart.
   */
  lemma AddRaisesTotal(c: Cart, ps: seq<Catalog.Product>, p: Catalog.ProductId, n: int)
    requires Catalog.FindProduct(ps, p).Some?
    ensures CartValue(Add(c, p, n), ps) == CartValue(c, ps) + Catalog.FindProduct(ps, p).value.price * n
  {
    var i := IndexOf(c, p);
    if i < |c| {
      assert Add(c, p, n) == c[i := CartEntry(p, c[i].quantity + n)];
      ReplaceRaisesTotal(c, ps, i, n);
    } else {
      assert Add(c, p, n) == c + [CartEntry(p, n)];
      AppendRaisesTotal(c, ps, CartEntry(p, n));
    }
  }

  /** Appending an entry for a product the catalogue finds adds its price times the quantity. */
  lemma AppendRaisesTotal(c: Cart, ps: seq<Catalog.Product>, e: CartEntry)
    requires Catalog.FindProduct(ps, e.productId).Some?
    ensures CartValue(c + [e], ps) == CartValue(c, ps) + Catalog.FindProduct(ps, e.productId).value.price * e.quantity
  {
    CartValueAppend(c, ps, e);
    CartValueSingle(e, ps);
  }

  /** Raising the quantity of the entry at `i` by `n` adds its price times `n`. */
  lemma ReplaceRaisesTotal(c: Cart, ps: seq<Catalog.Product>, i: int, n: int)
    requires 0 <= i < |c| && Catalog.FindProduct(ps, c[i].productId).Some?
    ensures CartValue(c[i := CartEntry(c[i].productId, c[i].quantity + n)], ps)
         == CartValue(c, ps) + Catalog.FindProduct(ps, c[i].productId).value.price * n
  {
    var e := CartEntry(c[i].productId, c[i].quantity + n);
    CartValueReplace(c, ps, i, e);
    CartValueSingle(c[i], ps);
    CartValueSingle(e, ps);
    ScaleSum(Catalog.FindProduct(ps, c[i].productId).value.price, c[i].quantity, n);
  }

  /** Appending an entry adds that entry's value. */
  lemma CartValueAppend(c: Cart, ps: seq<Catalog.Product>, e: CartEntry)
    ensures CartValue(c + [e], ps) == CartValue(c, ps) + CartValue([e], ps)
  {
    LineItemsAppend(c, [e], ps);
    CartTotalAppend(LineItems(c, ps), LineItems([e], ps));
  }

  /** Replacing the entry at `i` swaps that entry's value for the new one's. */
  lemma CartValueReplace(c: Cart, ps: seq<Catalog.Product>, i: int, e: CartEntry)
    requires 0 <= i < |c|
    ensures CartValue(c[i := e], ps) == CartValue(c, ps) - CartValue([c[i]], ps) + CartValue([e], ps)
  {
    var r := c[i := e];
    CartValueSplit(c, ps, i);
    CartValueSplit(r, ps, i);
    assert r[..i] == c[..i] && r[i + 1..] == c[i + 1..] && r[i] == e;
  }

  lemma ScaleSum(price: int, q: int, n: int)
    ensures price * (q + n) == price * q + price * n
  {
  }
}
