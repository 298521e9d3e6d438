/** The cart as its users think of it: a map from product id to entry, with no order
    and no storage. The list-and-store transitions of module `Cart` are proved to
    refine these map updates. */
module CartSpec {
  import opened Products

  /** Adding a product records it under its id: a set quantity is bumped by one,
      a missing one becomes 1. */
  function AddSpec(v: map<string, Product>, p: Product): map<string, Product>
  {
    v[p.id := p.(quantity := if p.quantity == 0 then 1 else p.quantity + 1)]
  }

  /** Incrementing raises the quantity recorded under a known id by one. */
  function IncrementSpec(v: map<string, Product>, id: string): map<string, Product>
  {
    if id in v then v[id := v[id].(quantity := v[id].quantity + 1)] else v
  }

  /** Decrementing lowers the quantity recorded under a known id by one, and forgets
      the id once its quantity would reach 0 from 1. */
  function DecrementSpec(v: map<string, Product>, id: string): map<string, Product>
  {
    if id !in v then v
    else if v[id].quantity == 1 then v - {id}
    else v[id := v[id].(quantity := v[id].quantity - 1)]
  }
}
