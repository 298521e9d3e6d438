/** Concrete runs of the cart. */
module CartScenarios {
  import opened Wrappers
  import opened Products
  import opened ProductList
  import opened Cart

  /** A cart holding one entry, stored under its id's key. */
  function Single(e: Product): Cart {
    Cart([e], map[StorageKey(e.id) := e])
  }

  /** Adding a product with an unset quantity to the empty cart stores it at quantity 1. */
  lemma AddToEmpty(p: Product)
    requires p.quantity == 0
    ensures AddToCart(Empty, p) == Single(p.(quantity := 1))
  {
  }

  /** Incrementing the only entry raises its quantity in the list and the store. */
  lemma IncrementSingle(e: Product)
    ensures Increment(Single(e), e.id) == Single(e.(quantity := e.quantity + 1))
  {
    assert Find([e], e.id) == Some(e);
    assert Without([e], e.id) == [];
  }

  /** Decrementing the only entry lowers its quantity, or empties the cart at quantity 1. */
  lemma DecrementSingle(e: Product)
    ensures Decrement(Single(e), e.id) ==
      if e.quantity == 1 then Empty else Single(e.(quantity := e.quantity - 1))
  {
    assert Find([e], e.id) == Some(e);
    assert Without([e], e.id) == [];
    if e.quantity == 1 {
      assert Single(e).storage - {StorageKey(e.id)} == map[];
    }
  }

  /** Add a fresh product, increment it, then decrement it twice: the quantity goes
      1, 2, 1, and the last decrement empties both the list and the store. */
  lemma AddIncrementDecrementRun()
    ensures var a := Product("A", "T", "u", 10.0, 0);
      var c1 := AddToCart(Empty, a);
      var c2 := Increment(c1, "A");
      var c3 := Decrement(c2, "A");
      var c4 := Decrement(c3, "A");
      && c1 == Cart([a.(quantity := 1)], map[StorageKey("A") := a.(quantity := 1)])
      && c2 == Cart([a.(quantity := 2)], map[StorageKey("A") := a.(quantity := 2)])
      && c3 == Cart([a.(quantity := 1)], map[StorageKey("A") := a.(quantity := 1)])
      && c4 == Empty
  {
    var a := Product("A", "T", "u", 10.0, 0);
    AddToEmpty(a);
    IncrementSingle(a.(quantity := 1));
    DecrementSingle(a.(quantity := 2));
    DecrementSingle(a.(quantity := 1));
  }

  /** Two separate product objects with the same id and no quantity, such as a catalogue
      item fetched again after the cart was reloaded from the store: adding both leaves two
      entries with that id in the list while the store holds one record. */
  lemma AddTwiceDuplicates()
    ensures var a := Product("A", "T", "u", 10.0, 0);
      var c := AddToCart(AddToCart(Empty, a), a);
      && c.products == [a.(quantity := 1), a.(quantity := 1)]
      && !DistinctIds(c.products)
      && c.storage == map[StorageKey("A") := a.(quantity := 1)]
  {
    var a := Product("A", "T", "u", 10.0, 0);
    AddToEmpty(a);
    var c := AddToCart(AddToCart(Empty, a), a);
    assert c.products[..1] == [a.(quantity := 1)];
    assert HasId(c.products[..1], "A");
  }

  /** Passing the same object twice: the first call sets that object's quantity to 1, so
      the second call sees a set quantity, filters the old entry out and leaves one entry
      at quantity 2. */
  lemma AddSameObjectTwice()
    ensures var a := Product("A", "T", "u", 10.0, 0);
      var c1 := AddToCart(Empty, a);
      var c2 := AddToCart(c1, Added(a));
      && c2 == Cart([a.(quantity := 2)], map[StorageKey("A") := a.(quantity := 2)])
      && DistinctIds(c2.products)
  {
    var a := Product("A", "T", "u", 10.0, 0);
    AddToEmpty(a);
    assert Without([a.(quantity := 1)], "A") == [];
  }
}
