/**
 * The `users` and `wishlist_items` tables of models.py: `User.create_user`,
 * which refuses an e-mail address that is already registered, and
 * `User.add_to_wishlist` / `User.remove_from_wishlist` over (user, product)
 * rows that the table's unique constraint keeps free of duplicates.
 *
 * Password hashing is done by a library the model does not see: the hash
 * enters as a parameter.
 */
module Accounts {
  import Catalog

  type UserId = nat

  datatype User = User(
    id: UserId,
    firstName: string,
    lastName: string,
    email: string,
    passwordHash: string,
    phone: string,
    role: string)

  /** The `role` column's default. */
  const DefaultRole: string := "user"

  /** The `email` column is unique. */
  predicate UniqueEmails(users: seq<User>) {
    forall i, j :: 0 <= i < j < |users| ==> users[i].email != users[j].email
  }

  /** Every key is below the next one the table will hand out, so keys never repeat. */
  predicate UserKeysBelow(users: seq<User>, nextId: nat) {
    && (forall i :: 0 <= i < |users| ==> users[i].id < nextId)
    && (forall i, j :: 0 <= i < j < |users| ==> users[i].id != users[j].id)
  }

  /** `User.query.filter_by(email=email).first()` finds a row. */
  predicate EmailTaken(users: seq<User>, email: string) {
    exists i :: 0 <= i < |users| && users[i].email == email
  }

  /** The row `create_user` inserts under the key `id`. */
  function NewUser(id: UserId, firstName: string, lastName: string, email: string,
                   passwordHash: string, phone: string): User
  {
    User(id, firstName, lastName, email, passwordHash, phone, DefaultRole)
  }

  /**
   * The users table after `create_user`: the e-mail is registered afterwards,
   * the old rows stay in front, and at most one row is added, only when the
   * e-mail was not yet registered.
   */
  function CreateUser(users: seq<User>, nextId: nat, firstName: string, lastName: string,
                      email: string, passwordHash: string, phone: string): (r: seq<User>)
    ensures EmailTaken(r, email)
    ensures |r| == (if EmailTaken(users, email) then |users| else |users| + 1)
    ensures r[..|users|] == users
  {
    if EmailTaken(users, email) then users
    else
      var r := users + [NewUser(nextId, firstName, lastName, email, passwordHash, phone)];
      assert r[|users|].email == email;
      r
  }

  /**
   * `create_user` inserts nothing when the address is registered and exactly
   * one row under the next key otherwise, so e-mail addresses and keys stay
   * unique.
   */
  lemma CreateUserKeepsEmailsUnique(users: seq<User>, nextId: nat, firstName: string, lastName: string,
                                    email: string, passwordHash: string, phone: string)
    requires UniqueEmails(users) && UserKeysBelow(users, nextId)
    ensures var r := CreateUser(users, nextId, firstName, lastName, email, passwordHash, phone);
            && UniqueEmails(r)
            && UserKeysBelow(r, nextId + 1)
  {
  }

  /** A row of `wishlist_items`; the row key and timestamp are not modelled. */
  datatype WishlistItem = WishlistItem(userId: UserId, productId: Catalog.ProductId)

  /** The unique constraint on (user_id, product_id). */
  predicate NoDuplicatePairs(w: seq<WishlistItem>) {
    forall i, j :: 0 <= i < j < |w| ==> w[i] != w[j]
  }

  /** Position of the first row equal to `item`, or |w| when there is none. */
  function FirstIndex(w: seq<WishlistItem>, item: WishlistItem): (i: nat)
    ensures i <= |w|
    ensures i < |w| ==> w[i] == item
    ensures forall j :: 0 <= j < i ==> w[j] != item
  {
    if w == [] then 0
    else if w[0] == item then 0
    else 1 + FirstIndex(w[1..], item)
  }

  /** `add_to_wishlist`: insert the row unless it is already there. */
  function AddToWishlist(w: seq<WishlistItem>, user: UserId, product: Catalog.ProductId): (r: seq<WishlistItem>)
    ensures WishlistItem(user, product) in r
    ensures w <= r && |r| <= |w| + 1
  {
    var item := WishlistItem(user, product);
    if FirstIndex(w, item) < |w| then w else w + [item]
  }

  /** `remove_from_wishlist`: delete the first matching row, if any. */
  function RemoveFromWishlist(w: seq<WishlistItem>, user: UserId, product: Catalog.ProductId): (r: seq<WishlistItem>)
    ensures multiset(r) <= multiset(w)
    ensures |r| == |w| - (if WishlistItem(user, product) in w then 1 else 0)
  {
    var i := FirstIndex(w, WishlistItem(user, product));
    if i < |w| then
      assert w == w[..i] + [w[i]] + w[i + 1..];
      w[..i] + w[i + 1..]
    else w
  }

  /**
   * Adding never creates a second row for a pair, so adding twice is adding
   * once; the pair is present afterwards and no other row changes.
   */
  lemma AddToWishlistIdempotent(w: seq<WishlistItem>, user: UserId, product: Catalog.ProductId)
    requires NoDuplicatePairs(w)
    ensures var w1 := AddToWishlist(w, user, product);
            && NoDuplicatePairs(w1)
            && WishlistItem(user, product) in w1
            && AddToWishlist(w1, user, product) == w1
            && forall x :: x != WishlistItem(user, product) ==> (x in w1 <==> x in w)
  {
    var item := WishlistItem(user, product);
    var w1 := AddToWishlist(w, user, product);
    if FirstIndex(w, item) == |w| {
      assert item !in w;
      assert w1[|w|] == item;
    }
    assert FirstIndex(w1, item) < |w1|;
  }

  /**
   * Removing deletes the pair's row when there is one and is a no-op
   * otherwise; with unique pairs the pair is then absent, removing again
   * changes nothing, and every other row stays, in order.
   */
  lemma RemoveFromWishlistDeletes(w: seq<WishlistItem>, user: UserId, product: Catalog.ProductId)
    requires NoDuplicatePairs(w)
    ensures var w1 := RemoveFromWishlist(w, user, product);
            && NoDuplicatePairs(w1)
            && WishlistItem(user, product) !in w1
            && RemoveFromWishlist(w1, user, product) == w1
            && (WishlistItem(user, product) !in w ==> w1 == w)
            && (forall x :: x != WishlistItem(user, product) ==> (x in w1 <==> x in w))
            && (FirstIndex(w, WishlistItem(user, product)) < |w| ==>
                  w1 == w[..FirstIndex(w, WishlistItem(user, product))] + w[FirstIndex(w, WishlistItem(user, product)) + 1..])
  {
    var item := WishlistItem(user, product);
    var i := FirstIndex(w, item);
    var w1 := RemoveFromWishlist(w, user, product);
    if i < |w| {
      assert w1 == w[..i] + w[i + 1..];
      RemoveAtKeepsUnique(w, i);
    } else {
      assert item !in w;
    }
    assert FirstIndex(w1, item) == |w1|;
  }

  /**
   * Cutting row `i` out of a wishlist without duplicate rows leaves no
   * duplicates, drops that row's pair entirely and keeps every other row.
   */
  lemma RemoveAtKeepsUnique(w: seq<WishlistItem>, i: int)
    requires NoDuplicatePairs(w) && 0 <= i < |w|
    ensures var w1 := w[..i] + w[i + 1..];
            && NoDuplicatePairs(w1)
            && w[i] !in w1
            && forall x :: x != w[i] ==> (x in w1 <==> x in w)
  {
    var item := w[i];
    var w1 := w[..i] + w[i + 1..];
    forall j | 0 <= j < |w1| ensures w1[j] != item {
      if j < i { assert w1[j] == w[j]; } else { assert w1[j] == w[j + 1]; }
    }
    forall a, b | 0 <= a < b < |w1| ensures w1[a] != w1[b] {
      var a', b' := if a < i then a else a + 1, if b < i then b else b + 1;
      assert w1[a] == w[a'] && w1[b] == w[b'];
    }
    forall x | x != item ensures x in w1 <==> x in w {
      if x in w {
        var k :| 0 <= k < |w| && w[k] == x;
        assert k != i;
        if k < i { assert w1[k] == x; } else { assert w1[k - 1] == x; }
      }
    }
  }
}
