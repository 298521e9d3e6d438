/** The cart state container of `src/hooks/cart.tsx` without its UI framework: the
    ordered in-memory product list together with the key-value store that persists one
    record per product, and the three transitions `addToCart`, `increment` and
    `decrement`. Each transition returns the new list and the new store. */
module Cart {
  import opened Wrappers
  import opened Products
  import opened ProductList

  /** The list shown to the UI and the persisted store (key to JSON record, with JSON
      taken as the record itself). */
  datatype Cart = Cart(products: seq<Product>, storage: map<string, Product>)

  /** The state before anything is loaded or added. */
  const Empty: Cart := Cart([], map[])

  /** The store `s` persists the id-to-entry map `v`: it holds a record under an id's key
      exactly when the id is in `v`, that record is the id's entry, and every record sits
      under the key of its own id (there are no other keys). */
  ghost predicate Mirrors(s: map<string, Product>, v: map<string, Product>) {
    && (forall id :: StorageKey(id) in s <==> id in v)
    && (forall id :: id in v ==> s[StorageKey(id)] == v[id])
    && (forall k :: k in s ==> k == StorageKey(s[k].id))
  }

  /** The store mirrors the list: one record per id in the list, under that id's key,
      holding the list's entry for the id. */
  ghost predicate Agrees(c: Cart) {
    Mirrors(c.storage, View(c.products))
  }

  /** The invariant the cart is meant to keep: ids distinct, quantities at least 1,
      and the store mirroring the list. */
  ghost predicate Valid(c: Cart) {
    DistinctIds(c.products) && AllPositive(c.products) && Agrees(c)
  }

  /** The entry `addToCart` builds from its argument: a set (truthy) quantity is bumped
      by one, a missing (falsy) one becomes 1. Every other field is the caller's. */
  function Added(p: Product): (e: Product)
    ensures SameItem(e, p)
    ensures p.quantity != 0 ==> e.quantity == p.quantity + 1
    ensures p.quantity == 0 ==> e.quantity == 1
  {
    if p.quantity != 0 then p.(quantity := p.quantity + 1) else p.(quantity := 1)
  }

  /** `addToCart(product)`. With a set quantity, every entry with the product's id is
      filtered out and the bumped product is appended; with a missing quantity, the
      product is appended at quantity 1 without filtering anything out. Either way the
      store's record for the id is overwritten with the new entry. */
  function AddToCart(c: Cart, p: Product): (r: Cart)
    ensures |r.products| > 0 && Last(r.products) == Added(p)
    ensures p.quantity == 0 ==> r.products[..|r.products| - 1] == c.products
    ensures p.quantity != 0 ==> r.products[..|r.products| - 1] == Without(c.products, p.id)
    ensures p.quantity != 0 ==> !HasId(r.products[..|r.products| - 1], p.id)
    ensures StorageKey(p.id) in r.storage && r.storage[StorageKey(p.id)] == Added(p)
    ensures forall k :: k != StorageKey(p.id) ==>
      (k in r.storage <==> k in c.storage) && (k in c.storage ==> r.storage[k] == c.storage[k])
  {
    var e := Added(p);
    var products := if p.quantity != 0 then Without(c.products, p.id) + [e] else c.products + [e];
    assert products[..|products| - 1] == if p.quantity != 0 then Without(c.products, p.id) else c.products;
    Cart(products, c.storage[StorageKey(p.id) := e])
  }

  /** `increment(id)`. The first entry with the id, if any, gets its quantity raised by
      one; every entry with the id is filtered out, the raised entry is appended, and its
      record is written to the store. An unknown id changes nothing. */
  function Increment(c: Cart, id: string): (r: Cart)
    ensures !HasId(c.products, id) ==> r == c
    ensures HasId(c.products, id) ==>
      var found := Find(c.products, id).value;
      && |r.products| > 0
      && r.products[..|r.products| - 1] == Without(c.products, id)
      && SameItem(Last(r.products), found)
      && Last(r.products).quantity == found.quantity + 1
      && r.storage == c.storage[StorageKey(id) := Last(r.products)]
  {
    match Find(c.products, id)
    case None => c
    case Some(found) =>
      var e := found.(quantity := found.quantity + 1);
      var products := Without(c.products, id) + [e];
      assert products[..|products| - 1] == Without(c.products, id);
      Cart(products, c.storage[StorageKey(found.id) := e])
  }

  /** `decrement(id)`. An entry at quantity exactly 1 is filtered out of the list and its
      record removed from the store; otherwise the first entry with the id gets its
      quantity lowered by one, every entry with the id is filtered out, the lowered entry
      is appended and its record written. An unknown id changes nothing. */
  function Decrement(c: Cart, id: string): (r: Cart)
    ensures !HasId(c.products, id) ==> r == c
    ensures HasId(c.products, id) && Find(c.products, id).value.quantity == 1 ==>
      && r.products == Without(c.products, id)
      && !HasId(r.products, id)
      && r.storage == c.storage - {StorageKey(id)}
      && StorageKey(id) !in r.storage
    ensures HasId(c.products, id) && Find(c.products, id).value.quantity != 1 ==>
      var found := Find(c.products, id).value;
      && |r.products| > 0
      && r.products[..|r.products| - 1] == Without(c.products, id)
      && SameItem(Last(r.products), found)
      && Last(r.products).quantity == found.quantity - 1
      && r.storage == c.storage[StorageKey(id) := Last(r.products)]
  {
    match Find(c.products, id)
    case None => c
    case Some(found) =>
      if found.quantity == 1 then
        Cart(Without(c.products, id), c.storage - {StorageKey(found.id)})
      else
        var e := found.(quantity := found.quantity - 1);
        var products := Without(c.products, id) + [e];
        assert products[..|products| - 1] == Without(c.products, id);
        Cart(products, c.storage[StorageKey(found.id) := e])
  }
}
