/** `loadProducts`: the cart list rebuilt from the store on start-up. The store's key
    order (`getAllKeys`) is not modelled; the keys arrive as a parameter. */
module Load {
  import opened Wrappers
  import opened Products
  import opened ProductList
  import opened ProductListLemmas
  import opened Cart
  import opened CartProofs

  /** `keys` lists every key of the store exactly once, in some order. */
  ghost predicate Enumerates(keys: seq<string>, s: map<string, Product>) {
    && (forall i :: 0 <= i < |keys| ==> keys[i] in s)
    && (forall k :: k in s ==> k in keys)
    && (forall i, j :: 0 <= i < j < |keys| ==> keys[i] != keys[j])
  }

  /** `multiGet(keys)` followed by `result[1] && JSON.parse(result[1])`: the record under
      each key, in key order, with `None` kept in place of a key that has no record. */
  function LoadProducts(s: map<string, Product>, keys: seq<string>): (results: seq<Option<Product>>)
    ensures |results| == |keys|
    ensures forall i :: 0 <= i < |keys| ==> (results[i].Some? <==> keys[i] in s)
    ensures forall i :: 0 <= i < |keys| && keys[i] in s ==> results[i].value == s[keys[i]]
    decreases |keys|
  {
    if |keys| == 0 then []
    else [if keys[0] in s then Some(s[keys[0]]) else None] + LoadProducts(s, keys[1..])
  }

  /** The entries of a load result that has no missing record. */
  function Entries(results: seq<Option<Product>>): (ps: seq<Product>)
    requires forall i :: 0 <= i < |results| ==> results[i].Some?
    ensures |ps| == |results|
    ensures forall i :: 0 <= i < |results| ==> ps[i] == results[i].value
    decreases |results|
  {
    if |results| == 0 then [] else [results[0].value] + Entries(results[1..])
  }

  /** Two lists with distinct ids and the same entries have the same view. */
  lemma ViewOfSameEntries(a: seq<Product>, b: seq<Product>)
    requires DistinctIds(a) && DistinctIds(b)
    requires forall x :: x in a <==> x in b
    ensures View(a) == View(b)
  {
    ViewDomain(a);
    ViewDomain(b);
    forall id
      ensures id in View(a) <==> id in View(b)
    {
      if id in View(a) {
        var i :| 0 <= i < |b| && b[i] == View(a)[id];
        assert HasId(b, id);
      }
      if id in View(b) {
        var i :| 0 <= i < |a| && a[i] == View(b)[id];
        assert HasId(a, id);
      }
    }
    forall id | id in View(a)
      ensures View(a)[id] == View(b)[id]
    {
      var i :| 0 <= i < |b| && b[i] == View(a)[id];
      ViewOfDistinct(b, i);
    }
  }

  /** A reload of the whole store finds the record under any of its keys. */
  lemma LoadFinds(s: map<string, Product>, keys: seq<string>, k: string)
    requires Enumerates(keys, s)
    requires k in s
    ensures forall i :: 0 <= i < |keys| ==> LoadProducts(s, keys)[i].Some?
    ensures s[k] in Entries(LoadProducts(s, keys))
  {
    var i :| 0 <= i < |keys| && keys[i] == k;
    assert Entries(LoadProducts(s, keys))[i] == s[k];
  }

  /** Every record a reload finds is an entry of the cart, read under its own id's key,
      given that every record of the store is an entry stored under its own id's key. */
  lemma LoadedFromCart(c: Cart, keys: seq<string>)
    requires forall k :: k in c.storage ==> c.storage[k] in c.products && k == StorageKey(c.storage[k].id)
    requires Enumerates(keys, c.storage)
    ensures forall i :: 0 <= i < |keys| ==> LoadProducts(c.storage, keys)[i].Some?
    ensures var ps := Entries(LoadProducts(c.storage, keys));
      forall i :: 0 <= i < |ps| ==> ps[i] in c.products && keys[i] == StorageKey(ps[i].id)
  {
    var s := c.storage;
    var ps := Entries(LoadProducts(s, keys));
    forall i | 0 <= i < |ps|
      ensures ps[i] in c.products && keys[i] == StorageKey(ps[i].id)
    {
      assert ps[i] == s[keys[i]];
    }
  }

  /** A reload finds every entry of the cart, given that every entry is stored under its
      own id's key. */
  lemma LoadedCoversCart(c: Cart, keys: seq<string>)
    requires forall i :: 0 <= i < |c.products| ==>
      StorageKey(c.products[i].id) in c.storage && c.storage[StorageKey(c.products[i].id)] == c.products[i]
    requires Enumerates(keys, c.storage)
    ensures forall i :: 0 <= i < |keys| ==> LoadProducts(c.storage, keys)[i].Some?
    ensures forall p :: p in c.products ==> p in Entries(LoadProducts(c.storage, keys))
  {
    forall p | p in c.products
      ensures p in Entries(LoadProducts(c.storage, keys))
    {
      var j :| 0 <= j < |c.products| && c.products[j] == p;
      LoadFinds(c.storage, keys, StorageKey(p.id));
    }
  }

  /** Reloading a valid cart's store, in any key order, finds a record under every key and
      rebuilds a permutation of the cart's list, which together with the same store is
      again a valid cart. */
  lemma LoadRestoresCart(c: Cart, keys: seq<string>)
    requires Valid(c)
    requires Enumerates(keys, c.storage)
    ensures forall i :: 0 <= i < |keys| ==> LoadProducts(c.storage, keys)[i].Some?
    ensures multiset(Entries(LoadProducts(c.storage, keys))) == multiset(c.products)
    ensures Valid(Cart(Entries(LoadProducts(c.storage, keys)), c.storage))
  {
    ValidMirrors(c);
    LoadedFromCart(c, keys);
    LoadedCoversCart(c, keys);
    var ps := Entries(LoadProducts(c.storage, keys));
    forall i, j | 0 <= i < j < |ps|
      ensures ps[i].id != ps[j].id
    {
      assert keys[i] != keys[j];
    }
    DistinctIdsPairwise(ps);
    DistinctIdsNoDuplicates(ps);
    DistinctIdsNoDuplicates(c.products);
    SameEntriesPermutation(ps, c.products);
    ViewOfSameEntries(ps, c.products);
  }

  /** After `addToCart` of a product with an unset quantity, a reload of the store, in any
      key order, contains that product at quantity 1. */
  lemma LoadAfterAdd(c: Cart, p: Product, keys: seq<string>)
    requires p.quantity == 0
    requires Enumerates(keys, AddToCart(c, p).storage)
    ensures Some(p.(quantity := 1)) in LoadProducts(AddToCart(c, p).storage, keys)
  {
    var s := AddToCart(c, p).storage;
    var i :| 0 <= i < |keys| && keys[i] == StorageKey(p.id);
    assert LoadProducts(s, keys)[i] == Some(p.(quantity := 1));
  }
}
