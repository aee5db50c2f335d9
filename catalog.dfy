/**
 * The `products` table of models.py: the Product row, the primary-key lookup
 * `Product.get_by_id`, the active-only listing `Product.get_all`, and the two
 * row updates `Product.update` and the soft `Product.delete`.
 *
 * Prices are `Numeric(10, 2)` columns and are modelled as integer cents.
 */
module Catalog {
  import opened Wrappers

  type ProductId = nat
  type CategoryId = nat
  type Cents = int

  /** The `status` column. Only 'active' (its default) and 'inactive' are ever written. */
  datatype ProductStatus = Active | Inactive

  datatype Product = Product(
    id: ProductId,
    name: string,
    description: string,
    price: Cents,
    originalPrice: Option<Cents>,
    categoryId: CategoryId,
    stock: int,
    sku: string,
    image: string,
    status: ProductStatus)

  /** The primary key is unique. */
  predicate DistinctIds(ps: seq<Product>) {
    forall i, j :: 0 <= i < j < |ps| ==> ps[i].id != ps[j].id
  }

  /** The `unique=True` constraint on `sku`: no two rows share a SKU. */
  predicate DistinctSkus(ps: seq<Product>) {
    forall i, j :: 0 <= i < j < |ps| ==> ps[i].sku != ps[j].sku
  }

  /** `Product.get_by_id`: lookup by primary key. The status is not consulted. */
  function FindProduct(ps: seq<Product>, id: ProductId): (r: Option<Product>)
    ensures r.Some? ==> r.value in ps && r.value.id == id
    ensures r.None? <==> forall p :: p in ps ==> p.id != id
  {
    if ps == [] then None
    else if ps[0].id == id then Some(ps[0])
    else FindProduct(ps[1..], id)
  }

  /** With unique keys, the lookup finds exactly the row that carries the key. */
  lemma {:induction false} FindProductAt(ps: seq<Product>, i: int)
    requires DistinctIds(ps) && 0 <= i < |ps|
    ensures FindProduct(ps, ps[i].id) == Some(ps[i])
  {
    if i > 0 {
      assert DistinctIds(ps[1..]) by {
        forall a, b | 0 <= a < b < |ps[1..]| ensures ps[1..][a].id != ps[1..][b].id {
          assert ps[1..][a] == ps[a + 1] && ps[1..][b] == ps[b + 1];
        }
      }
      assert ps[0].id != ps[i].id;
      FindProductAt(ps[1..], i - 1);
      assert ps[1..][i - 1] == ps[i];
    }
  }

  /**
   * The row filter of `Product.get_all`: active rows only, then the category
   * and the search filters. Both are applied only when the argument is truthy:
   * `None` stands for a falsy category (absent, an empty string, the integer
   * 0), and an empty search string filters nothing. `matches` stands for the
   * case-insensitive `ilike '%search%'` test on the name or the description.
   */
  predicate Listed(p: Product, category: Option<CategoryId>, search: string,
                   matches: (string, Product) -> bool)
  {
    && p.status == Active
    && (category.Some? ==> p.categoryId == category.value)
    && (search != "" ==> matches(search, p))
  }

  /**
   * The rows the `get_all` query selects, in table order. The query has no
   * ORDER BY, so table order stands for whatever order the database returns.
   */
  function Filtered(ps: seq<Product>, category: Option<CategoryId>, search: string,
                    matches: (string, Product) -> bool): (r: seq<Product>)
    ensures |r| <= |ps|
    ensures forall p :: p in r <==> p in ps && Listed(p, category, search, matches)
  {
    if ps == [] then []
    else
      var rest := Filtered(ps[1..], category, search, matches);
      assert forall p :: p in ps <==> p == ps[0] || p in ps[1..];
      if Listed(ps[0], category, search, matches) then [ps[0]] + rest else rest
  }

  function Min(a: int, b: int): int { if a <= b then a else b }

  /** SQL `OFFSET offset LIMIT limit` applied to a query result. */
  function Window<T>(s: seq<T>, offset: nat, limit: nat): (r: seq<T>)
    ensures |r| == if offset >= |s| then 0 else Min(limit, |s| - offset)
    ensures forall k :: 0 <= k < |r| ==> offset + k < |s| && r[k] == s[offset + k]
  {
    if offset >= |s| then []
    else if offset + limit <= |s| then s[offset..offset + limit]
    else s[offset..]
  }

  /** Two consecutive windows of one size are one window of twice that size. */
  lemma WindowsTile<T>(s: seq<T>, offset: nat, limit: nat)
    ensures Window(s, offset, limit) + Window(s, offset + limit, limit) == Window(s, offset, 2 * limit)
  {
    var a, b := Window(s, offset, limit), Window(s, offset + limit, limit);
    var w := Window(s, offset, 2 * limit);
    assert |a + b| == |w|;
    forall k | 0 <= k < |w| ensures (a + b)[k] == w[k] {
      if k < |a| {
        assert (a + b)[k] == s[offset + k];
      } else {
        assert (a + b)[k] == b[k - |a|] == s[offset + k];
      }
    }
  }

  /** `Product.get_all`: at most `limit` listed rows, skipping the first `offset`. */
  function GetAll(ps: seq<Product>, category: Option<CategoryId>, search: string,
                  matches: (string, Product) -> bool, limit: nat, offset: nat): (r: seq<Product>)
    ensures |r| <= limit
    ensures forall p :: p in r ==> p in ps && Listed(p, category, search, matches)
  {
    Window(Filtered(ps, category, search, matches), offset, limit)
  }

  /** `Product.delete`: the row stays; its status becomes 'inactive'. */
  function SoftDelete(ps: seq<Product>, id: ProductId): (r: seq<Product>)
    ensures |r| == |ps|
    ensures forall i :: 0 <= i < |ps| && ps[i].id == id ==> r[i] == ps[i].(status := Inactive)
    ensures forall i :: 0 <= i < |ps| && ps[i].id != id ==> r[i] == ps[i]
  {
    seq(|ps|, i requires 0 <= i < |ps| => if ps[i].id == id then ps[i].(status := Inactive) else ps[i])
  }

  /**
   * A soft-deleted product is still found by `get_by_id`, now inactive; no
   * listing shows it any more; every other row is as it was.
   */
  lemma SoftDeleteKeepsRow(ps: seq<Product>, id: ProductId, category: Option<CategoryId>,
                           search: string, matches: (string, Product) -> bool, limit: nat, offset: nat)
    requires DistinctIds(ps)
    requires FindProduct(ps, id).Some?
    ensures DistinctIds(SoftDelete(ps, id)) && |SoftDelete(ps, id)| == |ps|
    ensures FindProduct(SoftDelete(ps, id), id) == Some(FindProduct(ps, id).value.(status := Inactive))
    ensures forall p :: p in GetAll(SoftDelete(ps, id), category, search, matches, limit, offset) ==> p.id != id
  {
    var r := SoftDelete(ps, id);
    var p := FindProduct(ps, id).value;
    var i :| 0 <= i < |ps| && ps[i] == p;
    assert r[i] == p.(status := Inactive);
    FindProductAt(r, i);
  }

  /** The editable columns of `Product.update`; `image` is only written when truthy. */
  datatype ProductFields = ProductFields(
    name: string,
    description: string,
    price: Cents,
    originalPrice: Option<Cents>,
    categoryId: CategoryId,
    stock: int,
    sku: string,
    image: Option<string>)

  /** The column writes of `Product.update` on the row with key `id`, before its commit. */
  function UpdateProduct(ps: seq<Product>, id: ProductId, f: ProductFields): (r: seq<Product>)
    ensures |r| == |ps|
    ensures forall i :: 0 <= i < |ps| ==> r[i].id == ps[i].id && r[i].status == ps[i].status
    ensures forall i :: 0 <= i < |ps| && ps[i].id != id ==> r[i] == ps[i]
  {
    seq(|ps|, i requires 0 <= i < |ps| =>
      if ps[i].id != id then ps[i]
      else ps[i].(name := f.name, description := f.description, price := f.price,
                  originalPrice := f.originalPrice, categoryId := f.categoryId,
                  stock := f.stock, sku := f.sku,
                  image := if f.image.Some? && f.image.value != "" then f.image.value else ps[i].image))
  }

  /** Some row other than the one keyed `id` holds `sku`. */
  predicate SkuHeldElsewhere(ps: seq<Product>, id: ProductId, sku: string) {
    exists i :: 0 <= i < |ps| && ps[i].id != id && ps[i].sku == sku
  }

  /**
   * `Product.update` with its `commit`: the unique constraint on `sku`
   * refuses a SKU that another row holds, the commit fails and the table
   * keeps its old rows (None); otherwise the written row is committed.
   */
  function CommitUpdate(ps: seq<Product>, id: ProductId, f: ProductFields): (r: Option<seq<Product>>)
    ensures r.None? <==> SkuHeldElsewhere(ps, id, f.sku)
    ensures r.Some? ==> (FindProduct(r.value, id).Some? <==> FindProduct(ps, id).Some?)
  {
    if SkuHeldElsewhere(ps, id, f.sku) then None
    else
      UpdateProductFinds(ps, id, f);
      Some(UpdateProduct(ps, id, f))
  }

  /** An update keeps every key, so exactly the same keys are found afterwards. */
  lemma UpdateProductFinds(ps: seq<Product>, id: ProductId, f: ProductFields)
    ensures FindProduct(UpdateProduct(ps, id, f), id).Some? <==> FindProduct(ps, id).Some?
  {
    var r := UpdateProduct(ps, id, f);
    if FindProduct(ps, id).Some? {
      var i :| 0 <= i < |ps| && ps[i].id == id;
      assert r[i].id == id;
    }
    if FindProduct(r, id).Some? {
      var i :| 0 <= i < |r| && r[i].id == id;
      assert ps[i].id == id;
    }
  }

  /**
   * A committed update keeps SKUs unique: the only row it writes takes a SKU
   * that no other row holds.
   */
  lemma CommitUpdateKeepsSkusUnique(ps: seq<Product>, id: ProductId, f: ProductFields)
    requires DistinctIds(ps) && DistinctSkus(ps)
    ensures CommitUpdate(ps, id, f).Some? ==> DistinctSkus(CommitUpdate(ps, id, f).value)
  {
    if !SkuHeldElsewhere(ps, id, f.sku) {
      var r := UpdateProduct(ps, id, f);
      forall i, j | 0 <= i < j < |r| ensures r[i].sku != r[j].sku {
        if ps[i].id == id {
          assert ps[j].id != id && r[j] == ps[j];
        } else if ps[j].id == id {
          assert r[i] == ps[i];
        }
      }
    }
  }

  /**
   * An update writes every editable column of its row (name, description,
   * prices, category, stock, sku) and the image only when one is given; the
   * key and the status stay, so the row is still found under its key.
   */
  lemma UpdateProductKeepsKeyAndStatus(ps: seq<Product>, id: ProductId, f: ProductFields)
    requires DistinctIds(ps)
    requires FindProduct(ps, id).Some?
    ensures DistinctIds(UpdateProduct(ps, id, f))
    ensures var before := FindProduct(ps, id).value;
            var after := FindProduct(UpdateProduct(ps, id, f), id);
            after == Some(before.(name := f.name, description := f.description, price := f.price,
                                  originalPrice := f.originalPrice, categoryId := f.categoryId,
                                  stock := f.stock, sku := f.sku,
                                  image := if f.image.Some? && f.image.value != "" then f.image.value else before.image))
  {
    var r := UpdateProduct(ps, id, f);
    var i :| 0 <= i < |ps| && ps[i] == FindProduct(ps, id).value;
    FindProductAt(r, i);
  }
}
