/**
 * utils/helpers.py: the cart kept in the session under the key 'cart'. The
 * session either has no cart at all or holds a dict from product id to
 * quantity; the helpers update that dict in place.
 *
 * The product ids are the strings the forms submit; the model uses the
 * numeric id they name.
 */
module Helpers {
  import opened Wrappers
  import Catalog
  import Cart
  import Store

  /** A session cart is either absent or a dict, whose keys are distinct. */
  predicate WellFormed(cart: Option<Cart.Cart>) {
    cart.Some? ==> Cart.KeysDistinct(cart.value)
  }

  /** `session.get('cart', {})`: the entries, or none when there is no cart. */
  function EntriesOf(cart: Option<Cart.Cart>): Cart.Cart {
    cart.GetOr([])
  }

  /** The session cart after `add_to_cart(p, n)`: it exists afterwards. */
  function AfterAdd(cart: Option<Cart.Cart>, p: Catalog.ProductId, n: int): Option<Cart.Cart> {
    Some(Cart.Add(cart.GetOr([]), p, n))
  }

  /** The session cart after `update_cart_item(p, n)`: a missing cart stays missing. */
  function AfterUpdate(cart: Option<Cart.Cart>, p: Catalog.ProductId, n: int): Option<Cart.Cart> {
    if cart.Some? then Some(Cart.Update(cart.value, p, n)) else None
  }

  /** The session cart after `remove_from_cart(p)`: a missing cart stays missing. */
  function AfterRemove(cart: Option<Cart.Cart>, p: Catalog.ProductId): Option<Cart.Cart> {
    if cart.Some? then Some(Cart.Remove(cart.value, p)) else None
  }

  class CartSession {
    /** `session.get('cart')`: None while the session has no cart. */
    var cart: Option<Cart.Cart>

    ghost predicate Valid()
      reads this
    {
      WellFormed(cart)
    }

    function Entries(): Cart.Cart
      reads this
    {
      EntriesOf(cart)
    }

    /** `get_cart_count`: `sum(cart.values())`, 0 without a cart. */
    function CartCount(): (r: int)
      reads this
      ensures cart.None? ==> r == 0
    {
      Cart.Count(Entries())
    }

    /** A new session carries no cart. */
    constructor()
      ensures Valid() && cart.None?
      ensures Entries() == [] && CartCount() == 0
    {
      cart := None;
    }

    /**
     * `add_to_cart`: create the cart when missing, then add `n` to the
     * quantity under `p` (a new key gets `n`). The count grows by exactly `n`.
     */
    method AddToCart(p: Catalog.ProductId, n: int)
      requires Valid()
      modifies this
      ensures Valid()
      ensures cart == AfterAdd(old(cart), p, n)
      ensures Cart.Lookup(Entries(), p) == Some(old(Cart.Lookup(Entries(), p)).GetOr(0) + n)
      ensures forall q :: q != p ==> Cart.Lookup(Entries(), q) == old(Cart.Lookup(Entries(), q))
      ensures CartCount() == old(CartCount()) + n
    {
      if cart.None? {
        cart := Some([]);
      }
      Cart.AddLookup(cart.value, p, n);
      var c := cart.value;
      var i := Cart.IndexOf(c, p);
      if i < |c| {
        cart := Some(c[i := Cart.CartEntry(p, c[i].quantity + n)]);
      } else {
        cart := Some(c + [Cart.CartEntry(p, n)]);
      }
    }

    /**
     * `update_cart_item`: overwrite the quantity under `p` only when the cart
     * exists and already holds `p`; otherwise nothing changes.
     */
    method UpdateCartItem(p: Catalog.ProductId, n: int)
      requires Valid()
      modifies this
      ensures Valid()
      ensures cart == AfterUpdate(old(cart), p, n)
      ensures Cart.Lookup(Entries(), p) == if old(Cart.Lookup(Entries(), p)).Some? then Some(n) else None
      ensures forall q :: q != p ==> Cart.Lookup(Entries(), q) == old(Cart.Lookup(Entries(), q))
    {
      if cart.Some? {
        var c := cart.value;
        Cart.UpdateLookup(c, p, n);
        var i := Cart.IndexOf(c, p);
        if i < |c| {
          cart := Some(c[i := Cart.CartEntry(p, n)]);
        }
      }
    }

    /**
     * `remove_from_cart`: delete the key `p` when the cart holds it; otherwise
     * nothing changes. The count drops by the removed quantity.
     */
    method RemoveFromCart(p: Catalog.ProductId)
      requires Valid()
      modifies this
      ensures Valid()
      ensures cart == AfterRemove(old(cart), p)
      ensures Cart.Lookup(Entries(), p).None?
      ensures forall q :: q != p ==> Cart.Lookup(Entries(), q) == old(Cart.Lookup(Entries(), q))
      ensures CartCount() == old(CartCount()) - old(Cart.Lookup(Entries(), p)).GetOr(0)
    {
      if cart.Some? {
        var c := cart.value;
        Cart.RemoveLookup(c, p);
        var i := Cart.IndexOf(c, p);
        if i < |c| {
          cart := Some(c[..i] + c[i + 1..]);
        }
      }
    }

    /** `clear_cart`: `session.pop('cart', None)`; afterwards the cart is empty and counts 0. */
    method ClearCart()
      modifies this
      ensures Valid() && cart.None?
      ensures Entries() == [] && CartCount() == 0
    {
      cart := None;
    }

    /**
     * `get_cart_items`: walk the entries in cart order, look each product up
     * by key and, when found, append a line item priced at the product's
     * current price; entries whose product is missing are skipped.
     */
    method GetCartItems(db: Store.Database) returns (items: seq<Cart.LineItem>)
      ensures items == Cart.LineItems(Entries(), db.products)
    {
      var c := Entries();
      items := [];
      var i := 0;
      while i < |c|
        invariant 0 <= i <= |c|
        invariant items == Cart.LineItems(c[..i], db.products)
      {
        Cart.LineItemsAppend(c[..i], [c[i]], db.products);
        assert c[..i + 1] == c[..i] + [c[i]];
        assert [c[i]][1..] == [];
        var product := Catalog.FindProduct(db.products, c[i].productId);
        if product.Some? {
          items := items + [Cart.LineItem(product.value, c[i].quantity, product.value.price * c[i].quantity)];
        }
        i := i + 1;
      }
      assert c[..i] == c;
    }
  }
}
