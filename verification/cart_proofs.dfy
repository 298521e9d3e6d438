/** What the three transitions preserve and what they refine. */
module CartProofs {
  import opened Wrappers
  import opened Products
  import opened ProductList
  import opened ProductListLemmas
  import opened Cart
  import opened CartSpec

  lemma UpdateAfterRemoveSame(v: map<string, Product>, k: string, x: Product)
    ensures (v - {k})[k := x] == v[k := x]
  {
  }

  /** Filtering an id out and appending a new entry for it replaces the id's view entry,
      whatever duplicates the list held before. */
  lemma ViewReplace(ps: seq<Product>, id: string, e: Product)
    requires e.id == id
    ensures View(Without(ps, id) + [e]) == View(ps)[id := e]
  {
    ViewAppend(Without(ps, id), e);
    ViewWithout(ps, id);
    UpdateAfterRemoveSame(View(ps), id, e);
  }

  /** What `increment` returns when it finds entry `f` for `id`. */
  lemma IncrementFound(c: Cart, id: string, f: Product)
    requires Find(c.products, id) == Some(f)
    ensures f.id == id
    ensures Increment(c, id) ==
      var e := f.(quantity := f.quantity + 1);
      Cart(Without(c.products, id) + [e], c.storage[StorageKey(id) := e])
  {
  }

  /** What `decrement` returns when it finds entry `f` for `id`. */
  lemma DecrementFound(c: Cart, id: string, f: Product)
    requires Find(c.products, id) == Some(f)
    ensures f.id == id
    ensures f.quantity == 1 ==> Decrement(c, id) == Cart(Without(c.products, id), c.storage - {StorageKey(id)})
    ensures f.quantity != 1 ==>
      && Decrement(c, id).products == Without(c.products, id) + [f.(quantity := f.quantity - 1)]
      && Decrement(c, id).storage == c.storage[StorageKey(id) := f.(quantity := f.quantity - 1)]
  {
  }

  /** Writing an entry's record under its id's key mirrors the updated map. */
  lemma MirrorsUpdate(s: map<string, Product>, v: map<string, Product>, id: string, e: Product)
    requires Mirrors(s, v)
    requires e.id == id
    ensures Mirrors(s[StorageKey(id) := e], v[id := e])
  {
    var s', v' := s[StorageKey(id) := e], v[id := e];
    forall x
      ensures StorageKey(x) in s' <==> x in v'
    {
      StorageKeyInjective(x, id);
    }
    forall x | x in v'
      ensures s'[StorageKey(x)] == v'[x]
    {
      StorageKeyInjective(x, id);
    }
    forall k | k in s'
      ensures k == StorageKey(s'[k].id)
    {
    }
  }

  /** Removing an id's record mirrors the map without the id. */
  lemma MirrorsRemove(s: map<string, Product>, v: map<string, Product>, id: string)
    requires Mirrors(s, v)
    ensures Mirrors(s - {StorageKey(id)}, v - {id})
  {
    forall x
      ensures StorageKey(x) == StorageKey(id) <==> x == id
    {
      StorageKeyInjective(x, id);
    }
  }

  // ---------------------------------------------------------------------------
  // Refinement of the map-level reference

  /** `addToCart` acts on the id-to-entry view as the reference addition does,
      duplicates or not: the newest entry for the id is the added one. */
  lemma AddToCartRefines(c: Cart, p: Product)
    ensures View(AddToCart(c, p).products) == AddSpec(View(c.products), p)
  {
    if p.quantity != 0 {
      ViewReplace(c.products, p.id, Added(p));
    } else {
      ViewAppend(c.products, Added(p));
    }
  }

  /** With distinct ids, `increment` acts on the view as the reference increment does. */
  lemma IncrementRefines(c: Cart, id: string)
    requires DistinctIds(c.products)
    ensures View(Increment(c, id).products) == IncrementSpec(View(c.products), id)
  {
    FindIsView(c.products, id);
    match Find(c.products, id)
    case None =>
    case Some(f) =>
      IncrementFound(c, id, f);
      ViewReplace(c.products, id, f.(quantity := f.quantity + 1));
  }

  /** With distinct ids, `decrement` acts on the view as the reference decrement does. */
  lemma DecrementRefines(c: Cart, id: string)
    requires DistinctIds(c.products)
    ensures View(Decrement(c, id).products) == DecrementSpec(View(c.products), id)
  {
    FindIsView(c.products, id);
    match Find(c.products, id)
    case None =>
    case Some(f) =>
      DecrementFound(c, id, f);
      if f.quantity == 1 {
        ViewWithout(c.products, id);
      } else {
        ViewReplace(c.products, id, f.(quantity := f.quantity - 1));
      }
  }

  // ---------------------------------------------------------------------------
  // The store keeps mirroring the list

  /** From a state whose store mirrors its list, `addToCart` reaches another such state. */
  lemma AddToCartAgrees(c: Cart, p: Product)
    requires Agrees(c)
    ensures Agrees(AddToCart(c, p))
  {
    AddToCartRefines(c, p);
    MirrorsUpdate(c.storage, View(c.products), p.id, Added(p));
  }

  /** From a state whose store mirrors its list, `increment` reaches another such state,
      even when the list holds duplicate ids. */
  lemma IncrementAgrees(c: Cart, id: string)
    requires Agrees(c)
    ensures Agrees(Increment(c, id))
  {
    match Find(c.products, id)
    case None =>
    case Some(f) =>
      var e := f.(quantity := f.quantity + 1);
      IncrementFound(c, id, f);
      ViewReplace(c.products, id, e);
      MirrorsUpdate(c.storage, View(c.products), id, e);
  }

  /** From a state whose store mirrors its list, `decrement` reaches another such state,
      even when the list holds duplicate ids. */
  lemma DecrementAgrees(c: Cart, id: string)
    requires Agrees(c)
    ensures Agrees(Decrement(c, id))
  {
    match Find(c.products, id)
    case None =>
    case Some(f) =>
      DecrementFound(c, id, f);
      if f.quantity == 1 {
        ViewWithout(c.products, id);
        MirrorsRemove(c.storage, View(c.products), id);
      } else {
        var e := f.(quantity := f.quantity - 1);
        ViewReplace(c.products, id, e);
        MirrorsUpdate(c.storage, View(c.products), id, e);
      }
  }

  /** In a valid state every entry's record sits under its key, and every record in the
      store is an entry of the list stored under that entry's key. */
  lemma ValidMirrors(c: Cart)
    requires Valid(c)
    ensures forall i :: 0 <= i < |c.products| ==>
      StorageKey(c.products[i].id) in c.storage && c.storage[StorageKey(c.products[i].id)] == c.products[i]
    ensures forall k :: k in c.storage ==> c.storage[k] in c.products && k == StorageKey(c.storage[k].id)
  {
    ViewDomain(c.products);
    forall i | 0 <= i < |c.products|
      ensures StorageKey(c.products[i].id) in c.storage && c.storage[StorageKey(c.products[i].id)] == c.products[i]
    {
      ViewOfDistinct(c.products, i);
    }
    forall k | k in c.storage
      ensures c.storage[k] in c.products
    {
      assert StorageKey(c.storage[k].id) in c.storage;
    }
  }

  // ---------------------------------------------------------------------------
  // Distinct ids and positive quantities

  /** From distinct ids, `addToCart` keeps the ids distinct exactly when the product's
      quantity is set or its id is new: a product with a missing quantity whose id is
      already in the list is appended beside the old entry. */
  lemma AddToCartDistinct(c: Cart, p: Product)
    requires DistinctIds(c.products)
    ensures DistinctIds(AddToCart(c, p).products) <==> p.quantity != 0 || !HasId(c.products, p.id)
  {
    if p.quantity != 0 {
      DistinctWithout(c.products, p.id);
      DistinctAppend(Without(c.products, p.id), Added(p));
    } else {
      DistinctAppend(c.products, Added(p));
    }
  }

  /** From positive quantities, `addToCart` keeps every quantity positive exactly when
      the caller's quantity is not negative: a negative quantity is truthy and is bumped,
      not reset. */
  lemma AddToCartPositive(c: Cart, p: Product)
    requires AllPositive(c.products)
    ensures AllPositive(AddToCart(c, p).products) <==> p.quantity >= 0
  {
    var r := AddToCart(c, p).products;
    assert Last(r) in r;
  }

  /** `addToCart` keeps the cart valid for a caller whose product has an unset quantity
      and a new id, or a non-negative set quantity. */
  lemma AddToCartValid(c: Cart, p: Product)
    requires Valid(c)
    requires p.quantity >= 0
    requires p.quantity != 0 || !HasId(c.products, p.id)
    ensures Valid(AddToCart(c, p))
  {
    AddToCartDistinct(c, p);
    AddToCartPositive(c, p);
    AddToCartAgrees(c, p);
  }

  /** `increment` keeps the cart valid. */
  lemma IncrementValid(c: Cart, id: string)
    requires Valid(c)
    ensures Valid(Increment(c, id))
  {
    IncrementAgrees(c, id);
    match Find(c.products, id)
    case None =>
    case Some(f) =>
      var e := f.(quantity := f.quantity + 1);
      IncrementFound(c, id, f);
      DistinctReplace(c.products, e);
      PositiveReplace(c.products, id, e);
  }

  /** `decrement` keeps the cart valid: an entry is removed rather than kept at
      quantity 0. */
  lemma DecrementValid(c: Cart, id: string)
    requires Valid(c)
    ensures Valid(Decrement(c, id))
  {
    DecrementAgrees(c, id);
    match Find(c.products, id)
    case None =>
    case Some(f) =>
      DecrementFound(c, id, f);
      DistinctWithout(c.products, id);
      if f.quantity == 1 {
        PositiveReplace(c.products, id, f);
      } else {
        var e := f.(quantity := f.quantity - 1);
        DistinctReplace(c.products, e);
        PositiveReplace(c.products, id, e);
      }
  }
}
