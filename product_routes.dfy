/**
 * routes/products.py: the catalogue pages and the guards the cart routes put
 * in front of the session helpers.
 *
 * Each route is described twice: a function giving its outcome and the
 * session cart it leaves behind, and a method that performs it on a
 * `CartSession` and a `Database` and is proved to agree with that function.
 * Flash messages and redirects are not modelled; the outcome says which
 * branch was taken.
 */
module ProductRoutes {
  import opened Wrappers
  import Catalog
  import Cart
  import Helpers
  import Store
  import Accounts

  /** Products per listing page. */
  const PerPage: nat := 12

  /** `offset = (page - 1) * per_page`. */
  function ListingOffset(page: int): (r: int)
    ensures r >= 0 <==> page >= 1
    ensures r % PerPage == 0
  {
    (page - 1) * PerPage
  }

  /**
   * The `products` page: one page of the active listing. `page` is whatever
   * integer the query string carries (1 when absent); a page below 1 gives a
   * negative offset, whose effect depends on the database, shown here as None.
   */
  function ProductsPage(ps: seq<Catalog.Product>, category: Option<Catalog.CategoryId>, search: string,
                        matches: (string, Catalog.Product) -> bool, page: int): (r: Option<seq<Catalog.Product>>)
    ensures r.Some? <==> page >= 1
    ensures r.Some? ==> |r.value| <= PerPage
    ensures r.Some? ==> forall p :: p in r.value ==> p in ps && Catalog.Listed(p, category, search, matches)
  {
    var offset := ListingOffset(page);
    if offset < 0 then None else Some(Catalog.GetAll(ps, category, search, matches, PerPage, offset))
  }

  /** Two consecutive pages show consecutive listed products, with no gap and no overlap. */
  lemma PagesTile(ps: seq<Catalog.Product>, category: Option<Catalog.CategoryId>, search: string,
                  matches: (string, Catalog.Product) -> bool, page: int)
    requires page >= 1
    ensures ProductsPage(ps, category, search, matches, page).value
              + ProductsPage(ps, category, search, matches, page + 1).value
            == Catalog.Window(Catalog.Filtered(ps, category, search, matches), ListingOffset(page), 2 * PerPage)
  {
    assert ListingOffset(page + 1) == ListingOffset(page) + PerPage;
    Catalog.WindowsTile(Catalog.Filtered(ps, category, search, matches), ListingOffset(page), PerPage);
  }

  /** The listed product at position `k` appears on page `k / 12 + 1`, at position `k % 12`. */
  lemma ListedProductPage(ps: seq<Catalog.Product>, category: Option<Catalog.CategoryId>, search: string,
                          matches: (string, Catalog.Product) -> bool, k: nat)
    requires k < |Catalog.Filtered(ps, category, search, matches)|
    ensures var page := ProductsPage(ps, category, search, matches, k / PerPage + 1);
            && page.Some?
            && k % PerPage < |page.value|
            && page.value[k % PerPage] == Catalog.Filtered(ps, category, search, matches)[k]
  {
    var offset := ListingOffset(k / PerPage + 1);
    assert offset == (k / PerPage) * PerPage;
    assert k == offset + k % PerPage;
  }

  /** What the `product_detail` page shows. */
  datatype DetailPage = DetailPage(product: Catalog.Product, related: seq<Catalog.Product>)

  /** `[p for p in s if p.id != id]`. */
  function WithoutId(s: seq<Catalog.Product>, id: Catalog.ProductId): (r: seq<Catalog.Product>)
    ensures |r| <= |s|
    ensures forall p :: p in r <==> p in s && p.id != id
  {
    if s == [] then []
    else
      var rest := WithoutId(s[1..], id);
      assert forall p :: p in s <==> p == s[0] || p in s[1..];
      if s[0].id != id then [s[0]] + rest else rest
  }

  /** The search filter of a query that gives no search term; never consulted. */
  predicate AnyText(s: string, p: Catalog.Product) {
    true
  }

  /** `category=product.category_id` filters only when the id is truthy. */
  function RelatedCategory(product: Catalog.Product): Option<Catalog.CategoryId> {
    if product.categoryId == 0 then None else Some(product.categoryId)
  }

  /**
   * `product_detail`: None when `get_by_id` finds nothing. Otherwise the
   * product (active or not) and up to four related products: the first four
   * active products of its category, without the product itself.
   */
  function ProductDetail(ps: seq<Catalog.Product>, id: Catalog.ProductId): (r: Option<DetailPage>)
    ensures r.None? <==> Catalog.FindProduct(ps, id).None?
    ensures r.Some? ==> r.value.product == Catalog.FindProduct(ps, id).value
    ensures r.Some? ==> |r.value.related| <= 4
    ensures r.Some? ==> forall p :: p in r.value.related ==>
              && p in ps && p.id != id && p.status == Catalog.Active
              && (r.value.product.categoryId != 0 ==> p.categoryId == r.value.product.categoryId)
    ensures r.Some? ==> forall p :: p in r.value.related <==>
              && p in Catalog.Window(Catalog.Filtered(ps, RelatedCategory(r.value.product), "", AnyText), 0, 4)
              && p.id != id
  {
    match Catalog.FindProduct(ps, id)
    case None => None
    case Some(product) =>
      Some(DetailPage(product, WithoutId(Catalog.GetAll(ps, RelatedCategory(product), "", AnyText, 4, 0), product.id)))
  }

  datatype AddOutcome = ProductNotFound | NotEnoughStock | Added

  /**
   * `add_to_cart_route`: refuse an unknown product, refuse a requested
   * quantity above the stock, otherwise `add_to_cart`. Only the requested
   * quantity is compared with the stock, and it may be zero or negative.
   */
  function AddToCartStep(ps: seq<Catalog.Product>, cart: Option<Cart.Cart>,
                         p: Catalog.ProductId, n: int): (r: (AddOutcome, Option<Cart.Cart>))
    ensures r.0 != Added ==> r.1 == cart
    ensures r.0 == Added ==> r.1.Some? && Catalog.FindProduct(ps, p).Some? && n <= Catalog.FindProduct(ps, p).value.stock
  {
    match Catalog.FindProduct(ps, p)
    case None => (ProductNotFound, cart)
    case Some(product) =>
      if n > product.stock then (NotEnoughStock, cart)
      else (Added, Helpers.AfterAdd(cart, p, n))
  }

  /**
   * The add route's guards: it reports a missing product exactly when
   * `get_by_id` finds none, too little stock exactly when the product exists
   * and `n` exceeds its stock, and in both cases leaves the cart as it was;
   * otherwise the product's quantity grows by `n` and nothing else changes.
   */
  lemma AddToCartGuards(ps: seq<Catalog.Product>, cart: Option<Cart.Cart>, p: Catalog.ProductId, n: int)
    requires Helpers.WellFormed(cart)
    ensures var r := AddToCartStep(ps, cart, p, n);
            && (r.0 == ProductNotFound <==> Catalog.FindProduct(ps, p).None?)
            && (r.0 == NotEnoughStock <==> Catalog.FindProduct(ps, p).Some? && n > Catalog.FindProduct(ps, p).value.stock)
            && (r.0 != Added ==> r.1 == cart)
            && (r.0 == Added ==>
                  && Helpers.WellFormed(r.1)
                  && r.1.Some?
                  && Cart.Lookup(r.1.value, p) == Some(Cart.Lookup(Helpers.EntriesOf(cart), p).GetOr(0) + n)
                  && forall q :: q != p ==> Cart.Lookup(r.1.value, q) == Cart.Lookup(Helpers.EntriesOf(cart), q))
  {
    Cart.AddLookup(Helpers.EntriesOf(cart), p, n);
  }

  /**
   * The stock check ignores what the cart already holds: a product with `q`
   * units in the cart accepts `n <= stock` more even when `q + n` exceeds the
   * stock, and the cart then holds `q + n`.
   */
  lemma AccumulatedQuantityCanExceedStock(ps: seq<Catalog.Product>, cart: Option<Cart.Cart>,
                                          p: Catalog.ProductId, n: int)
    requires Helpers.WellFormed(cart)
    requires Catalog.FindProduct(ps, p).Some? && n <= Catalog.FindProduct(ps, p).value.stock
    requires Cart.Lookup(Helpers.EntriesOf(cart), p).Some?
    ensures var r := AddToCartStep(ps, cart, p, n);
            && r.0 == Added
            && Cart.Lookup(r.1.value, p) == Some(Cart.Lookup(Helpers.EntriesOf(cart), p).value + n)
  {
    var c := Helpers.EntriesOf(cart);
    assert AddToCartStep(ps, cart, p, n) == (Added, Some(Cart.Add(c, p, n)));
    Cart.AddLookup(c, p, n);
  }

  /**
   * A zero or negative quantity passes the guard whenever the product exists
   * with non-negative stock, and lowers the cart count by `-n`.
   */
  lemma NonPositiveQuantityAccepted(ps: seq<Catalog.Product>, cart: Option<Cart.Cart>,
                                    p: Catalog.ProductId, n: int)
    requires Helpers.WellFormed(cart)
    requires Catalog.FindProduct(ps, p).Some? && Catalog.FindProduct(ps, p).value.stock >= 0
    requires n <= 0
    ensures var r := AddToCartStep(ps, cart, p, n);
            && r.0 == Added
            && Cart.Count(r.1.value) == Cart.Count(Helpers.EntriesOf(cart)) + n
            && Cart.Count(r.1.value) <= Cart.Count(Helpers.EntriesOf(cart))
  {
    Cart.AddLookup(Helpers.EntriesOf(cart), p, n);
  }

  datatype UpdateOutcome = Removed | Updated | Rejected

  /**
   * `update_cart`: a quantity of 0 or less removes the entry; a positive one
   * overwrites it when the product exists and has that much stock; anything
   * else is rejected.
   */
  function UpdateCartStep(ps: seq<Catalog.Product>, cart: Option<Cart.Cart>,
                          p: Catalog.ProductId, n: int): (r: (UpdateOutcome, Option<Cart.Cart>))
    ensures r.0 == Rejected ==> r.1 == cart
    ensures r.1.Some? <==> cart.Some?
  {
    if n <= 0 then (Removed, Helpers.AfterRemove(cart, p))
    else
      match Catalog.FindProduct(ps, p)
      case Some(product) =>
        if n <= product.stock then (Updated, Helpers.AfterUpdate(cart, p, n)) else (Rejected, cart)
      case None => (Rejected, cart)
  }

  /**
   * The update route never inserts a product and never creates a cart; a
   * quantity of 0 or less leaves the product out of the cart; a quantity is
   * written exactly when it is positive, the product exists and its stock
   * covers it, and then only over an entry already there; other entries never
   * change; a rejected update changes nothing.
   */
  lemma UpdateCartNeverInserts(ps: seq<Catalog.Product>, cart: Option<Cart.Cart>, p: Catalog.ProductId, n: int)
    requires Helpers.WellFormed(cart)
    ensures var r := UpdateCartStep(ps, cart, p, n);
            && Helpers.WellFormed(r.1)
            && (r.1.Some? <==> cart.Some?)
            && (forall q :: Cart.Lookup(Helpers.EntriesOf(r.1), q).Some? ==> Cart.Lookup(Helpers.EntriesOf(cart), q).Some?)
            && (forall q :: q != p ==> Cart.Lookup(Helpers.EntriesOf(r.1), q) == Cart.Lookup(Helpers.EntriesOf(cart), q))
            && (r.0 == Removed <==> n <= 0)
            && (n <= 0 ==> Cart.Lookup(Helpers.EntriesOf(r.1), p).None?)
            && (r.0 == Updated <==> 0 < n && Catalog.FindProduct(ps, p).Some? && n <= Catalog.FindProduct(ps, p).value.stock)
            && (r.0 == Updated ==>
                  && Catalog.FindProduct(ps, p).Some?
                  && 0 < n <= Catalog.FindProduct(ps, p).value.stock
                  && Cart.Lookup(Helpers.EntriesOf(r.1), p) == (if Cart.Lookup(Helpers.EntriesOf(cart), p).Some? then Some(n) else None))
            && (r.0 == Rejected ==> r.1 == cart)
  {
    Cart.RemoveLookup(Helpers.EntriesOf(cart), p);
    Cart.UpdateLookup(Helpers.EntriesOf(cart), p, n);
  }

  /** `add_to_cart_route`, performed on the session. */
  method AddToCartRoute(session: Helpers.CartSession, db: Store.Database, p: Catalog.ProductId, n: int)
    returns (outcome: AddOutcome)
    requires session.Valid()
    modifies session
    ensures session.Valid()
    ensures (outcome, session.cart) == AddToCartStep(db.products, old(session.cart), p, n)
  {
    var product := Catalog.FindProduct(db.products, p);
    if product.None? {
      return ProductNotFound;
    }
    if n > product.value.stock {
      return NotEnoughStock;
    }
    session.AddToCart(p, n);
    outcome := Added;
  }

  /** `update_cart`, performed on the session. */
  method UpdateCartRoute(session: Helpers.CartSession, db: Store.Database, p: Catalog.ProductId, n: int)
    returns (outcome: UpdateOutcome)
    requires session.Valid()
    modifies session
    ensures session.Valid()
    ensures (outcome, session.cart) == UpdateCartStep(db.products, old(session.cart), p, n)
  {
    if n <= 0 {
      session.RemoveFromCart(p);
      return Removed;
    }
    var product := Catalog.FindProduct(db.products, p);
    if product.Some? && n <= product.value.stock {
      session.UpdateCartItem(p, n);
      outcome := Updated;
    } else {
      outcome := Rejected;
    }
  }

  /** `remove_from_cart_route`: removes without looking the product up. */
  method RemoveFromCartRoute(session: Helpers.CartSession, p: Catalog.ProductId)
    requires session.Valid()
    modifies session
    ensures session.Valid()
    ensures session.cart == Helpers.AfterRemove(old(session.cart), p)
  {
    session.RemoveFromCart(p);
  }

  /**
   * The `cart` page: the resolved line items and their total, the sum of the
   * subtotals.
   */
  method CartView(session: Helpers.CartSession, db: Store.Database)
    returns (items: seq<Cart.LineItem>, total: Catalog.Cents)
    ensures items == Cart.LineItems(session.Entries(), db.products)
    ensures total == Cart.CartValue(session.Entries(), db.products)
  {
    items := session.GetCartItems(db);
    total := Cart.CartTotal(items);
  }

  /** The wishlist `add` route: adds only a product `get_by_id` finds. */
  method AddToWishlistRoute(db: Store.Database, user: Accounts.UserId, p: Catalog.ProductId)
    returns (found: bool)
    requires db.Valid()
    modifies db
    ensures db.Valid()
    ensures found <==> Catalog.FindProduct(old(db.products), p).Some?
    ensures db.Snapshot() == if found then old(db.Snapshot()).(wishlist := Accounts.AddToWishlist(old(db.wishlist), user, p))
                             else old(db.Snapshot())
  {
    found := Catalog.FindProduct(db.products, p).Some?;
    if found {
      db.AddToWishlist(user, p);
    }
  }

  /** The wishlist `remove` route: removes without looking the product up. */
  method RemoveFromWishlistRoute(db: Store.Database, user: Accounts.UserId, p: Catalog.ProductId)
    requires db.Valid()
    modifies db
    ensures db.Valid()
    ensures db.Snapshot() == old(db.Snapshot()).(wishlist := Accounts.RemoveFromWishlist(old(db.wishlist), user, p))
  {
    db.RemoveFromWishlist(user, p);
  }
}
