/** The `Product` record of the cart and the key under which the cart persists it. */
module Products {
  import opened Wrappers

  /** One cart entry, with the fields of its persisted JSON record. `price` is carried
      along but never computed on. A `quantity` of 0 stands for a missing (falsy) field,
      which is what `addToCart` receives from callers that pass a catalogue product. */
  datatype Product = Product(id: string, title: string, image_url: string, price: real, quantity: int)

  /** The namespace in front of every persisted product's key. */
  const KeyPrefix: string := "@GoMarketProduct:"

  /** The entry `e` is the entry `p` with only its quantity changed. */
  predicate SameItem(e: Product, p: Product) {
    e.id == p.id && e.title == p.title && e.image_url == p.image_url && e.price == p.price
  }

  /** The storage key of the product with id `id`: the namespace followed by the id.
      `KeyRoundTrip` and `StorageKeyInjective` state what the key determines. */
  function StorageKey(id: string): string
  {
    KeyPrefix + id
  }

  /** Reads the product id back out of a storage key; `None` for a key outside the namespace. */
  function IdOfKey(k: string): Option<string>
  {
    if |KeyPrefix| <= |k| && k[..|KeyPrefix|] == KeyPrefix then Some(k[|KeyPrefix|..]) else None
  }

  /** Every product key reads back as the id it was made from. */
  lemma KeyRoundTrip(id: string)
    ensures IdOfKey(StorageKey(id)) == Some(id)
  {
    var k := StorageKey(id);
    assert k[..|KeyPrefix|] == KeyPrefix;
    assert k[|KeyPrefix|..] == id;
  }

  /** A key that reads back as an id is exactly that id's key. */
  lemma KeyOfId(k: string, id: string)
    requires IdOfKey(k) == Some(id)
    ensures StorageKey(id) == k
  {
    assert k == k[..|KeyPrefix|] + k[|KeyPrefix|..];
  }

  /** Two products share a storage record exactly when they share an id. */
  lemma StorageKeyInjective(a: string, b: string)
    ensures StorageKey(a) == StorageKey(b) <==> a == b
  {
    if StorageKey(a) == StorageKey(b) {
      KeyRoundTrip(a);
      KeyRoundTrip(b);
    }
  }
}
