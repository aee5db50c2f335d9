/**
 * The `addresses` table: `Address.create_address` and
 * `Address.get_user_addresses` (models.py), and the row updates behind the
 * `edit_address` and `delete_address` pages (routes/main.py), which only ever
 * touch an address of the signed-in user.
 *
 * The default flag: choosing an address as default first clears the flag on
 * every address of the same user, so a user never has two defaults.
 */
module Addresses {
  import opened Wrappers
  import Accounts

  type AddressId = nat

  /** The free-text columns, as the address form submits them. */
  datatype AddressFields = AddressFields(
    firstName: string,
    lastName: string,
    line1: string,
    line2: string,
    city: string,
    state: string,
    postalCode: string,
    country: string)

  datatype Address = Address(
    id: AddressId,
    userId: Accounts.UserId,
    fields: AddressFields,
    isDefault: bool)

  /** Every key is below the next one the table will hand out, and keys are distinct. */
  predicate AddressKeysBelow(addrs: seq<Address>, nextId: nat) {
    && (forall i :: 0 <= i < |addrs| ==> addrs[i].id < nextId)
    && (forall i, j :: 0 <= i < j < |addrs| ==> addrs[i].id != addrs[j].id)
  }

  /** No user has two default addresses. */
  predicate AtMostOneDefault(addrs: seq<Address>) {
    forall i, j :: 0 <= i < j < |addrs| && addrs[i].userId == addrs[j].userId ==>
      !(addrs[i].isDefault && addrs[j].isDefault)
  }

  /** The address at `k` is the one and only default of `user`. */
  predicate IsOnlyDefault(addrs: seq<Address>, user: Accounts.UserId, k: int) {
    && 0 <= k < |addrs|
    && addrs[k].userId == user
    && addrs[k].isDefault
    && forall j :: 0 <= j < |addrs| && j != k && addrs[j].userId == user ==> !addrs[j].isDefault
  }

  /** `UPDATE addresses SET is_default = false WHERE user_id = user AND is_default`. */
  function ClearDefaults(addrs: seq<Address>, user: Accounts.UserId): (r: seq<Address>)
    ensures |r| == |addrs|
    ensures forall i :: 0 <= i < |r| ==> r[i].(isDefault := addrs[i].isDefault) == addrs[i]
    ensures forall i :: 0 <= i < |r| ==> (r[i].isDefault <==> addrs[i].isDefault && addrs[i].userId != user)
  {
    seq(|addrs|, i requires 0 <= i < |addrs| =>
      if addrs[i].userId == user && addrs[i].isDefault then addrs[i].(isDefault := false) else addrs[i])
  }

  /** `Address.get_user_addresses`: the user's rows, in table order. */
  function UserAddresses(addrs: seq<Address>, user: Accounts.UserId): (r: seq<Address>)
    ensures forall a :: a in r <==> a in addrs && a.userId == user
  {
    if addrs == [] then []
    else
      var rest := UserAddresses(addrs[1..], user);
      assert forall a :: a in addrs <==> a == addrs[0] || a in addrs[1..];
      if addrs[0].userId == user then [addrs[0]] + rest else rest
  }

  /** The table after `Address.create_address` inserts under the key `nextId`. */
  function CreateAddress(addrs: seq<Address>, nextId: nat, user: Accounts.UserId,
                         fields: AddressFields, isDefault: bool): (r: seq<Address>)
    ensures |r| == |addrs| + 1 && r[|addrs|] == Address(nextId, user, fields, isDefault)
    ensures forall i :: 0 <= i < |addrs| ==> r[i].(isDefault := addrs[i].isDefault) == addrs[i]
  {
    (if isDefault then ClearDefaults(addrs, user) else addrs) + [Address(nextId, user, fields, isDefault)]
  }

  /**
   * `create_address` appends one row. With the default flag set, the new row
   * becomes the user's only default; without it, no existing row changes.
   * Other users' rows never change, only default flags ever change, and no
   * user ends up with two defaults.
   */
  lemma CreateAddressDefaults(addrs: seq<Address>, nextId: nat, user: Accounts.UserId,
                              fields: AddressFields, isDefault: bool)
    requires AtMostOneDefault(addrs) && AddressKeysBelow(addrs, nextId)
    ensures var r := CreateAddress(addrs, nextId, user, fields, isDefault);
            && |r| == |addrs| + 1
            && r[|addrs|] == Address(nextId, user, fields, isDefault)
            && AtMostOneDefault(r)
            && AddressKeysBelow(r, nextId + 1)
            && (isDefault ==> IsOnlyDefault(r, user, |addrs|))
            && (!isDefault ==> r[..|addrs|] == addrs)
            && (forall i :: 0 <= i < |addrs| && addrs[i].userId != user ==> r[i] == addrs[i])
            && (forall i :: 0 <= i < |addrs| ==> r[i].(isDefault := addrs[i].isDefault) == addrs[i])
  {
    var r := CreateAddress(addrs, nextId, user, fields, isDefault);
    forall i, j | 0 <= i < j < |r| && r[i].userId == r[j].userId
      ensures !(r[i].isDefault && r[j].isDefault)
    {
      if j < |addrs| {
        assert r[i].isDefault ==> addrs[i].isDefault;
        assert r[j].isDefault ==> addrs[j].isDefault;
      }
    }
  }

  /**
   * `Address.query.filter_by(id=id, user_id=user).first_or_404()`: the
   * position of the user's own address with key `id`, or |addrs| (not found).
   */
  function OwnedIndex(addrs: seq<Address>, id: AddressId, user: Accounts.UserId): (k: nat)
    ensures k <= |addrs|
    ensures k < |addrs| ==> addrs[k].id == id && addrs[k].userId == user
    ensures forall j :: 0 <= j < k ==> !(addrs[j].id == id && addrs[j].userId == user)
  {
    if addrs == [] then 0
    else if addrs[0].id == id && addrs[0].userId == user then 0
    else 1 + OwnedIndex(addrs[1..], id, user)
  }

  /**
   * The `edit_address` page: look the address up among the user's own (None
   * is the 404), overwrite its columns, and when the flag is set clear the
   * user's defaults before the row's own flag is written back.
   */
  function EditAddress(addrs: seq<Address>, id: AddressId, user: Accounts.UserId,
                       fields: AddressFields, isDefault: bool): (r: Option<seq<Address>>)
    ensures r.None? <==> OwnedIndex(addrs, id, user) == |addrs|
    ensures r.Some? ==> |r.value| == |addrs|
  {
    var k := OwnedIndex(addrs, id, user);
    if k == |addrs| then None
    else
      var cleared := if isDefault then ClearDefaults(addrs, user) else addrs;
      Some(cleared[k := Address(addrs[k].id, user, fields, isDefault)])
  }

  /**
   * Editing finds only an address the user owns. The edited row gets the new
   * columns and flag, keeps its key and owner; with the flag set it becomes
   * the user's only default, without it no other row changes; other users'
   * rows never change; nobody gets two defaults.
   */
  lemma EditAddressDefaults(addrs: seq<Address>, id: AddressId, user: Accounts.UserId,
                            fields: AddressFields, isDefault: bool)
    requires AtMostOneDefault(addrs)
    ensures var r := EditAddress(addrs, id, user, fields, isDefault);
            && (r.None? <==> forall i :: 0 <= i < |addrs| && addrs[i].id == id ==> addrs[i].userId != user)
            && (r.Some? ==>
                  var k := OwnedIndex(addrs, id, user);
                  && |r.value| == |addrs|
                  && r.value[k] == Address(id, user, fields, isDefault)
                  && AtMostOneDefault(r.value)
                  && (isDefault ==> IsOnlyDefault(r.value, user, k))
                  && (!isDefault ==> forall i :: 0 <= i < |addrs| && i != k ==> r.value[i] == addrs[i])
                  && (forall i :: 0 <= i < |addrs| && addrs[i].userId != user ==> r.value[i] == addrs[i])
                  && (forall i :: 0 <= i < |addrs| ==> r.value[i].id == addrs[i].id && r.value[i].userId == addrs[i].userId))
  {
    var k := OwnedIndex(addrs, id, user);
    if k < |addrs| {
      var r := EditAddress(addrs, id, user, fields, isDefault).value;
      forall i, j | 0 <= i < j < |r| && r[i].userId == r[j].userId
        ensures !(r[i].isDefault && r[j].isDefault)
      {
        if i != k && j != k {
          assert r[i].isDefault ==> addrs[i].isDefault;
          assert r[j].isDefault ==> addrs[j].isDefault;
        }
      }
    }
  }

  /**
   * The page's own order of writes (columns and flag, the bulk clear when the
   * flag is set, the flag written back) leaves the table as `EditAddress` says.
   */
  lemma EditInPlace(addrs: seq<Address>, k: nat, user: Accounts.UserId, fields: AddressFields, isDefault: bool)
    requires k < |addrs|
    ensures var written := addrs[k := Address(addrs[k].id, user, fields, isDefault)];
            var cleared := if isDefault then ClearDefaults(written, user) else written;
            cleared[k := cleared[k].(isDefault := isDefault)]
              == (if isDefault then ClearDefaults(addrs, user) else addrs)[k := Address(addrs[k].id, user, fields, isDefault)]
  {
    var written := addrs[k := Address(addrs[k].id, user, fields, isDefault)];
    var cleared := if isDefault then ClearDefaults(written, user) else written;
    var intended := (if isDefault then ClearDefaults(addrs, user) else addrs)[k := Address(addrs[k].id, user, fields, isDefault)];
    assert forall i :: 0 <= i < |addrs| ==> cleared[k := cleared[k].(isDefault := isDefault)][i] == intended[i];
  }

  /** The `delete_address` page: delete the user's own address with key `id`; None is the 404. */
  function DeleteAddress(addrs: seq<Address>, id: AddressId, user: Accounts.UserId): (r: Option<seq<Address>>)
    ensures r.None? <==> OwnedIndex(addrs, id, user) == |addrs|
    ensures r.Some? ==> multiset(r.value) + multiset{addrs[OwnedIndex(addrs, id, user)]} == multiset(addrs)
  {
    var k := OwnedIndex(addrs, id, user);
    if k == |addrs| then None
    else
      assert addrs == addrs[..k] + [addrs[k]] + addrs[k + 1..];
      Some(addrs[..k] + addrs[k + 1..])
  }

  /**
   * Deleting finds only an address the user owns and removes exactly that
   * row: with distinct keys no row with that key remains, every other row
   * stays in order, and the default and key invariants still hold.
   */
  lemma DeleteAddressOwned(addrs: seq<Address>, id: AddressId, user: Accounts.UserId, nextId: nat)
    requires AtMostOneDefault(addrs) && AddressKeysBelow(addrs, nextId)
    ensures var r := DeleteAddress(addrs, id, user);
            && (r.None? <==> forall i :: 0 <= i < |addrs| && addrs[i].id == id ==> addrs[i].userId != user)
            && (r.Some? ==>
                  && |r.value| == |addrs| - 1
                  && r.value == addrs[..OwnedIndex(addrs, id, user)] + addrs[OwnedIndex(addrs, id, user) + 1..]
                  && AtMostOneDefault(r.value)
                  && AddressKeysBelow(r.value, nextId)
                  && (forall a :: a in r.value <==> a in addrs && a.id != id))
  {
    var k := OwnedIndex(addrs, id, user);
    if k < |addrs| {
      DeleteAtKeepsInvariants(addrs, k, nextId);
      DeleteAtMembers(addrs, k);
    }
  }

  /** Deleting the row at `k` keeps distinct, bounded keys and the single default. */
  lemma DeleteAtKeepsInvariants(addrs: seq<Address>, k: nat, nextId: nat)
    requires k < |addrs|
    requires AtMostOneDefault(addrs) && AddressKeysBelow(addrs, nextId)
    ensures AtMostOneDefault(addrs[..k] + addrs[k + 1..])
    ensures AddressKeysBelow(addrs[..k] + addrs[k + 1..], nextId)
  {
    var r := addrs[..k] + addrs[k + 1..];
    assert forall i :: 0 <= i < |r| ==> r[i] == addrs[if i < k then i else i + 1];
  }

  /** With distinct keys, the rows left after deleting at `k` are all rows with another key. */
  lemma DeleteAtMembers(addrs: seq<Address>, k: nat)
    requires k < |addrs|
    requires forall i, j :: 0 <= i < j < |addrs| ==> addrs[i].id != addrs[j].id
    ensures forall a :: a in addrs[..k] + addrs[k + 1..] <==> a in addrs && a.id != addrs[k].id
  {
    var r := addrs[..k] + addrs[k + 1..];
    assert forall i :: 0 <= i < |r| ==> r[i] == addrs[if i < k then i else i + 1];
    forall a ensures a in r <==> a in addrs && a.id != addrs[k].id {
      if a in addrs && a.id != addrs[k].id {
        var m :| 0 <= m < |addrs| && addrs[m] == a;
        assert r[if m < k then m else m - 1] == a;
      }
    }
  }
}
