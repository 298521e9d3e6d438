/** The list operations the cart is built from: `filter` by id, `find` by id, and the
    view of a list as a map from id to entry. */
module ProductList {
  import opened Wrappers
  import opened Products

  /** Some entry of `ps` has id `id`. */
  predicate HasId(ps: seq<Product>, id: string) {
    exists i :: 0 <= i < |ps| && ps[i].id == id
  }

  /** No two entries of `ps` share an id: each entry's id is new to the entries before it.
      (`DistinctIdsPairwise` states the same as a property of every pair of positions.) */
  predicate DistinctIds(ps: seq<Product>)
    decreases |ps|
  {
    |ps| == 0 || (DistinctIds(ps[..|ps| - 1]) && !HasId(ps[..|ps| - 1], ps[|ps| - 1].id))
  }

  /** No two entries of `ps` are equal. */
  predicate NoDuplicates(ps: seq<Product>) {
    forall i, j :: 0 <= i < j < |ps| ==> ps[i] != ps[j]
  }

  /** Every entry of `ps` has quantity at least 1. */
  predicate AllPositive(ps: seq<Product>) {
    forall p :: p in ps ==> p.quantity >= 1
  }

  /** `i` is the position of the first entry of `ps` with id `id`. */
  predicate FirstWithId(ps: seq<Product>, id: string, i: int) {
    0 <= i < |ps| && ps[i].id == id && forall j :: 0 <= j < i ==> ps[j].id != id
  }

  function Last(ps: seq<Product>): Product
    requires |ps| > 0
  {
    ps[|ps| - 1]
  }

  /** The entries of `ps` whose id is not `id`, in their original order:
      `products.filter(prod => prod.id !== id)`. */
  function Without(ps: seq<Product>, id: string): (r: seq<Product>)
    ensures forall p {:trigger p in r} :: p in r ==> p in ps && p.id != id
    ensures forall p {:trigger p in ps} :: p in ps && p.id != id ==> p in r
    ensures !HasId(r, id)
    ensures !HasId(ps, id) ==> r == ps
    decreases |ps|
  {
    if |ps| == 0 then []
    else
      var init, last := ps[..|ps| - 1], ps[|ps| - 1];
      assert ps == init + [last];
      assert HasId(ps, id) <==> HasId(init, id) || last.id == id by {
        if HasId(ps, id) && last.id != id {
          var i :| 0 <= i < |ps| && ps[i].id == id;
          assert init[i].id == id;
        }
        if HasId(init, id) {
          var i :| 0 <= i < |init| && init[i].id == id;
          assert ps[i].id == id;
        }
      }
      if last.id == id then Without(init, id)
      else
        Without(init, id) + [last]
  }

  /** The first entry of `ps` with id `id`, if any: `products.find(prod => prod.id === id)`.
      `FindFirst` states that no earlier entry carries the id. */
  function Find(ps: seq<Product>, id: string): (r: Option<Product>)
    ensures r.Some? <==> HasId(ps, id)
    ensures r.Some? ==> r.value in ps && r.value.id == id
    decreases |ps|
  {
    if |ps| == 0 then None
    else if ps[0].id == id then Some(ps[0])
    else
      assert HasId(ps, id) ==> HasId(ps[1..], id) by {
        if HasId(ps, id) {
          var i :| 0 <= i < |ps| && ps[i].id == id;
          assert ps[1..][i - 1].id == id;
        }
      }
      Find(ps[1..], id)
  }

  /** The list seen as a map from id to entry. When ids repeat, the LAST entry with an id
      wins, as it does in the store, where every later write overwrites an earlier one.
      `ViewDomain` states which ids it holds and what it maps them to. */
  function View(ps: seq<Product>): map<string, Product>
    decreases |ps|
  {
    if |ps| == 0 then map[]
    else View(ps[..|ps| - 1])[ps[|ps| - 1].id := ps[|ps| - 1]]
  }
}

module ProductListLemmas {
  import opened Wrappers
  import opened Products
  import opened ProductList

  /** `find` returns the entry at the first position that carries the id. */
  lemma {:induction false} FindFirst(ps: seq<Product>, id: string)
    requires HasId(ps, id)
    ensures exists i :: FirstWithId(ps, id, i) && ps[i] == Find(ps, id).value
    decreases |ps|
  {
    if ps[0].id == id {
      assert FirstWithId(ps, id, 0);
    } else {
      var i :| 0 <= i < |ps| && ps[i].id == id;
      assert ps[1..][i - 1].id == id;
      FindFirst(ps[1..], id);
      var j :| FirstWithId(ps[1..], id, j) && ps[1..][j] == Find(ps[1..], id).value;
      assert FirstWithId(ps, id, j + 1);
    }
  }

  /** The view holds exactly the ids present in the list, and maps each of them to an
      entry of the list that carries that id. */
  lemma {:induction false} ViewDomain(ps: seq<Product>)
    ensures forall id :: id in View(ps) <==> HasId(ps, id)
    ensures forall id :: id in View(ps) ==> View(ps)[id].id == id && View(ps)[id] in ps
    decreases |ps|
  {
    if |ps| > 0 {
      var init, last := ps[..|ps| - 1], ps[|ps| - 1];
      assert ps == init + [last];
      ViewDomain(init);
      forall id
        ensures HasId(ps, id) <==> HasId(init, id) || last.id == id
      {
        if HasId(init, id) {
          var i :| 0 <= i < |init| && init[i].id == id;
          assert ps[i].id == id;
        }
        if HasId(ps, id) && last.id != id {
          var i :| 0 <= i < |ps| && ps[i].id == id;
          assert init[i].id == id;
        }
      }
    }
  }

  /** Appending an entry to the list updates the view at that entry's id. */
  lemma ViewAppend(ps: seq<Product>, e: Product)
    ensures View(ps + [e]) == View(ps)[e.id := e]
  {
    assert (ps + [e])[..|ps|] == ps;
  }

  /** Filtering an id out of the list drops exactly that id from the view. */
  lemma {:induction false} ViewWithout(ps: seq<Product>, id: string)
    ensures View(Without(ps, id)) == View(ps) - {id}
    decreases |ps|
  {
    if |ps| > 0 {
      var init, last := ps[..|ps| - 1], ps[|ps| - 1];
      var v := View(init);
      assert View(ps) == v[last.id := last];
      ViewWithout(init, id);
      if last.id == id {
        assert Without(ps, id) == Without(init, id);
        RemoveAfterUpdate(v, id, last);
      } else {
        assert Without(ps, id) == Without(init, id) + [last];
        ViewAppend(Without(init, id), last);
        UpdateAfterRemove(v, id, last.id, last);
      }
    }
  }

  lemma RemoveAfterUpdate(v: map<string, Product>, k: string, x: Product)
    ensures v[k := x] - {k} == v - {k}
  {
  }

  lemma UpdateAfterRemove(v: map<string, Product>, k: string, k': string, x: Product)
    requires k != k'
    ensures (v - {k})[k' := x] == v[k' := x] - {k}
  {
  }

  /** Filtering entries by id out of an extended list filters the appended entry too. */
  lemma WithoutAppend(ps: seq<Product>, e: Product, id: string)
    ensures Without(ps + [e], id) == if e.id == id then Without(ps, id) else Without(ps, id) + [e]
  {
    assert (ps + [e])[..|ps|] == ps;
  }

  /** Filtering a one-entry list keeps the entry exactly when its id differs. */
  lemma WithoutSingle(e: Product, id: string)
    ensures Without([e], id) == if e.id == id then [] else [e]
  {
    WithoutAppend([], e, id);
  }

  /** The inductive step of `WithoutConcat`: one more entry at the end of the second part. */
  lemma WithoutConcatStep(a: seq<Product>, init: seq<Product>, last: Product, id: string)
    requires Without(a + init, id) == Without(a, id) + Without(init, id)
    ensures Without(a + (init + [last]), id) == Without(a, id) + Without(init + [last], id)
  {
    var x, y := Without(a, id), Without(init, id);
    var kept := if last.id == id then [] else [last];
    assert a + (init + [last]) == (a + init) + [last];
    WithoutAppend(a + init, last, id);
    WithoutAppend(init, last, id);
    assert (x + y) + kept == x + (y + kept);
  }

  /** Filtering distributes over concatenation: the kept entries stay in their order,
      each once. With `WithoutSingle` this pins `Without` down entry by entry. */
  lemma {:induction false} WithoutConcat(a: seq<Product>, b: seq<Product>, id: string)
    ensures Without(a + b, id) == Without(a, id) + Without(b, id)
    decreases |b|
  {
    if |b| == 0 {
      assert a + b == a;
    } else {
      var init, last := b[..|b| - 1], b[|b| - 1];
      assert b == init + [last];
      WithoutConcat(a, init, id);
      WithoutConcatStep(a, init, last, id);
    }
  }

  /** Filtering removes every copy of an entry with the id and keeps every other entry
      as often as it occurs. */
  lemma {:induction false} WithoutCount(ps: seq<Product>, id: string, x: Product)
    ensures multiset(Without(ps, id))[x] == if x.id == id then 0 else multiset(ps)[x]
    decreases |ps|
  {
    if |ps| > 0 {
      var init, last := ps[..|ps| - 1], ps[|ps| - 1];
      assert ps == init + [last];
      WithoutAppend(init, last, id);
      WithoutCount(init, id, x);
    }
  }

  /** An appended entry keeps the ids distinct exactly when its id is new. */
  lemma DistinctAppend(ps: seq<Product>, e: Product)
    ensures DistinctIds(ps + [e]) <==> DistinctIds(ps) && !HasId(ps, e.id)
  {
    assert (ps + [e])[..|ps|] == ps;
  }

  /** Entries at two different positions of a list with distinct ids have different ids. */
  lemma {:induction false} DistinctAt(ps: seq<Product>, i: int, j: int)
    requires DistinctIds(ps)
    requires 0 <= i < j < |ps|
    ensures ps[i].id != ps[j].id
    decreases |ps|
  {
    var init := ps[..|ps| - 1];
    if j == |ps| - 1 {
      assert init[i] == ps[i];
    } else {
      DistinctAt(init, i, j);
    }
  }

  /** Distinct ids, read as a property of every pair of positions. */
  lemma {:induction false} DistinctIdsPairwise(ps: seq<Product>)
    ensures DistinctIds(ps) <==> forall i, j :: 0 <= i < j < |ps| ==> ps[i].id != ps[j].id
    decreases |ps|
  {
    if DistinctIds(ps) {
      forall i, j | 0 <= i < j < |ps|
        ensures ps[i].id != ps[j].id
      {
        DistinctAt(ps, i, j);
      }
    }
    if |ps| > 0 && forall i, j :: 0 <= i < j < |ps| ==> ps[i].id != ps[j].id {
      var init, last := ps[..|ps| - 1], ps[|ps| - 1];
      assert forall i, j :: 0 <= i < j < |init| ==> init[i].id != init[j].id by {
        forall i, j | 0 <= i < j < |init|
          ensures init[i].id != init[j].id
        {
          assert init[i] == ps[i] && init[j] == ps[j];
        }
      }
      DistinctIdsPairwise(init);
      forall i | 0 <= i < |init|
        ensures init[i].id != last.id
      {
        assert init[i] == ps[i];
      }
    }
  }

  /** Filtering keeps distinct ids distinct. */
  lemma {:induction false} DistinctWithout(ps: seq<Product>, id: string)
    requires DistinctIds(ps)
    ensures DistinctIds(Without(ps, id))
    decreases |ps|
  {
    if |ps| > 0 {
      var init, last := ps[..|ps| - 1], ps[|ps| - 1];
      assert ps == init + [last];
      DistinctAppend(init, last);
      DistinctWithout(init, id);
      if last.id != id {
        var rest := Without(init, id);
        forall i | 0 <= i < |rest|
          ensures rest[i].id != last.id
        {
          assert rest[i] in rest;
          var j :| 0 <= j < |init| && init[j] == rest[i];
        }
        DistinctAppend(rest, last);
      }
    }
  }

  /** Replacing every entry with an id by one new entry for it keeps ids distinct. */
  lemma DistinctReplace(ps: seq<Product>, e: Product)
    requires DistinctIds(ps)
    ensures DistinctIds(Without(ps, e.id) + [e])
  {
    DistinctWithout(ps, e.id);
    DistinctAppend(Without(ps, e.id), e);
  }

  /** Filtering keeps quantities positive, and so does appending a positive entry. */
  lemma PositiveReplace(ps: seq<Product>, id: string, e: Product)
    requires AllPositive(ps)
    requires e.quantity >= 1
    ensures AllPositive(Without(ps, id))
    ensures AllPositive(Without(ps, id) + [e])
  {
  }

  /** With distinct ids, the entry recorded under an entry's id in the view is that entry. */
  lemma ViewOfDistinct(ps: seq<Product>, i: int)
    requires DistinctIds(ps)
    requires 0 <= i < |ps|
    ensures ps[i].id in View(ps) && View(ps)[ps[i].id] == ps[i]
  {
    var v := View(ps);
    ViewDomain(ps);
    assert HasId(ps, ps[i].id);
    var j :| 0 <= j < |ps| && ps[j] == v[ps[i].id];
    if i < j {
      DistinctAt(ps, i, j);
    } else if j < i {
      DistinctAt(ps, j, i);
    }
  }

  /** With distinct ids, `find` (first match) and the view (last match) agree. */
  lemma FindIsView(ps: seq<Product>, id: string)
    requires DistinctIds(ps)
    ensures Find(ps, id) == if id in View(ps) then Some(View(ps)[id]) else None
  {
    var r := Find(ps, id);
    ViewDomain(ps);
    if r.Some? {
      var i :| 0 <= i < |ps| && ps[i] == r.value;
      ViewOfDistinct(ps, i);
    }
  }

  /** Distinct ids imply distinct entries. */
  lemma DistinctIdsNoDuplicates(ps: seq<Product>)
    requires DistinctIds(ps)
    ensures NoDuplicates(ps)
  {
    DistinctIdsPairwise(ps);
  }

  /** In a list without repeats every present entry occurs exactly once. */
  lemma {:induction false} MultisetOfNoDuplicates(ps: seq<Product>, x: Product)
    requires NoDuplicates(ps)
    ensures multiset(ps)[x] == if x in ps then 1 else 0
    decreases |ps|
  {
    if |ps| > 0 {
      var init, last := ps[..|ps| - 1], ps[|ps| - 1];
      assert ps == init + [last];
      assert NoDuplicates(init);
      MultisetOfNoDuplicates(init, x);
    }
  }

  /** Two lists without repeats that hold the same entries are permutations of each other. */
  lemma SameEntriesPermutation(a: seq<Product>, b: seq<Product>)
    requires NoDuplicates(a) && NoDuplicates(b)
    requires forall x :: x in a <==> x in b
    ensures multiset(a) == multiset(b)
  {
    forall x
      ensures multiset(a)[x] == multiset(b)[x]
    {
      MultisetOfNoDuplicates(a, x);
      MultisetOfNoDuplicates(b, x);
    }
  }
}
