# GoMarketplace cart, modelled in Dafny

This project models the shopping-cart state container of the GoMarketplace
mobile app (`src/hooks/cart.tsx`). Without React and AsyncStorage, the container
is a small keyed-collection state machine. Its state has two parts:

- an ordered list of `Product` records (`id`, `title`, `image_url`, `price`,
  `quantity`), which is the in-memory `products` state;
- a key-value store with one record per product, stored under the key
  `@GoMarketProduct:<id>`. This is the persisted AsyncStorage.

Three mutators change both parts together:

- `addToCart` branches on the caller's own `quantity` field, not on whether the
  id is already in the cart.
  - An unset quantity (falsy, modelled as `0`) appends the product at
    quantity 1.
  - A set quantity removes every entry with that id and appends the product
    with its quantity plus one.
- `increment` takes the first entry with the id, if there is one, and moves it
  to the end with its quantity raised by one.
- `decrement` does the same with the quantity lowered by one. An entry at
  quantity 1 is removed from the list and from the store instead.

Module layout:

- `products.dfy` (`Products`): the record, the storage key, and the key's
  inverse.
- `product_list.dfy` (`ProductList`, `ProductListLemmas`): the list
  operations. These are the filter by id, the first match by id, and the
  id-to-entry view in which the latest entry wins, as in the store.
- `cart.dfy` (`Cart`): the cart state and the three transitions, each a pure
  function returning the new list and the new store.
- `cart_spec.dfy` (`CartSpec`): a reference definition of each transition on an
  id-to-entry map.
- `cart_proofs.dfy` (`CartProofs`): refinement of the reference, agreement
  between store and list, and preservation of distinct ids and positive
  quantities.
- `load.dfy` (`Load`): reading the cart back from the store at start-up.
- `scenarios.dfy` (`CartScenarios`): three concrete runs.

Adding a product whose id is already in the cart does not always bump its
quantity. The code decides by the `quantity` field of the object it is handed
(line 50). An object without a quantity is appended beside the old entry
(line 72), so the list then holds two entries for that id while the store
holds one record. This happens when a separate object with the same id is
passed, for example a catalogue item fetched again after the cart was
reloaded from the store. Passing the same object twice does not cause it: the
first call sets that object's quantity to 1 (line 65), so the second call
filters (line 60). `CartProofs.AddToCartDistinct` states exactly when ids stay
distinct. `CartScenarios.AddTwiceDuplicates` and
`CartScenarios.AddSameObjectTwice` show the two cases.

## Model

| member | source | states |
|---|---|---|
| Products.KeyRoundTrip | src/hooks/cart.tsx:55 | the id can be read back from its storage key `@GoMarketProduct:<id>` by stripping the prefix |
| Products.KeyOfId | src/hooks/cart.tsx:55 | any key whose prefix-stripped id is `id` is exactly that id's storage key |
| Products.StorageKeyInjective | src/hooks/cart.tsx:55 | two ids have the same storage key if and only if they are equal, so records of different products never overwrite each other |
| ProductList.Without | src/hooks/cart.tsx:60 | filtering out an id keeps exactly the entries with other ids, leaves no entry with that id, and returns the list unchanged when the id is absent |
| ProductListLemmas.WithoutConcat | src/hooks/cart.tsx:60 | filtering a concatenation filters each part and concatenates the results, so the kept entries stay in their original order |
| ProductListLemmas.WithoutSingle | src/hooks/cart.tsx:60 | a single entry is kept if and only if its id differs from the filtered id |
| ProductListLemmas.WithoutCount | src/hooks/cart.tsx:60 | filtering keeps each entry with another id exactly as many times as it occurs, and drops every entry with the id |
| ProductList.Find | src/hooks/cart.tsx:80 | the lookup finds something if and only if some entry has the id, and what it finds is an entry of the list with that id |
| ProductListLemmas.FindFirst | src/hooks/cart.tsx:80 | the entry found is the first one in the list with that id |
| ProductListLemmas.FindIsView | src/hooks/cart.tsx:98 | with distinct ids, the first match by id and the latest entry for the id are the same entry |
| ProductListLemmas.ViewWithout | src/hooks/cart.tsx:106 | filtering an id out of the list removes exactly that id from the id-to-entry view |
| ProductListLemmas.DistinctIdsPairwise | src/hooks/cart.tsx:59-62 | the ids are distinct if and only if no two positions of the list carry the same id |
| ProductListLemmas.DistinctWithout | src/hooks/cart.tsx:90 | filtering an id out of a list with distinct ids keeps the ids distinct |
| Cart.Added | src/hooks/cart.tsx:50-52 | the added record keeps the product's id, title, image and price; its quantity is the caller's plus one if set, and 1 if unset (lines 63-65) |
| Cart.AddToCart | src/hooks/cart.tsx:48-76 | the product ends up last. Unset quantity: the earlier entries are the old list, unchanged and in order. Set quantity: the earlier entries are the old list without the id. In both branches the store holds the added record under the id's key and every other key is unchanged |
| Cart.Increment | src/hooks/cart.tsx:78-94 | an absent id leaves list and store unchanged. A present id: the list is the other entries in their order followed by the found entry with quantity plus one and the other fields kept, and the store maps the id's key to that entry |
| Cart.Decrement | src/hooks/cart.tsx:96-122 | an absent id leaves list and store unchanged. Quantity exactly 1: the id leaves the list and its key leaves the store, with everything else unchanged. Otherwise: the other entries followed by the entry with quantity minus one, with the store mapping the key to it |
| CartProofs.AddToCartRefines | src/hooks/cart.tsx:48-76 | on the id-to-entry view, adding sets the product's id to the product at its bumped or initial quantity, whether or not the list had duplicates |
| CartProofs.IncrementRefines | src/hooks/cart.tsx:78-94 | with distinct ids, incrementing acts on the id-to-entry view as the map-level increment does |
| CartProofs.DecrementRefines | src/hooks/cart.tsx:96-122 | with distinct ids, decrementing acts on the view as the map-level decrement does: quantity minus one, or removal of the id at quantity 1 |
| CartProofs.AddToCartAgrees | src/hooks/cart.tsx:54-72 | if the store mirrors the list's latest entry per id, it still does after an addition |
| CartProofs.IncrementAgrees | src/hooks/cart.tsx:83-90 | if the store mirrors the list, it still does after an increment, even when the list holds duplicate ids |
| CartProofs.DecrementAgrees | src/hooks/cart.tsx:101-118 | if the store mirrors the list, it still does after a decrement, whether the entry is lowered or removed |
| CartProofs.ValidMirrors | src/hooks/cart.tsx:54-57 | in a valid cart every entry is stored under its own key, and every stored record is an entry of the list held under its own id's key |
| CartProofs.AddToCartDistinct | src/hooks/cart.tsx:59-72 | from distinct ids, adding keeps the ids distinct if and only if the caller's quantity is set or the id is new |
| CartProofs.AddToCartPositive | src/hooks/cart.tsx:50-65 | from positive quantities, adding keeps every quantity at least 1 if and only if the caller's quantity is not negative, since a negative quantity is truthy and is bumped |
| CartProofs.AddToCartValid | src/hooks/cart.tsx:48-76 | adding keeps distinct ids, positive quantities and store agreement when the caller's quantity is non-negative and either set or for a new id |
| CartProofs.IncrementValid | src/hooks/cart.tsx:78-94 | incrementing keeps distinct ids, positive quantities and store agreement |
| CartProofs.DecrementValid | src/hooks/cart.tsx:96-122 | decrementing keeps distinct ids, positive quantities and store agreement, because an entry at quantity 1 is removed instead of being kept at 0 |
| Load.LoadProducts | src/hooks/cart.tsx:33-38 | reading the given keys yields one result per key: the stored record when the key is present, and an empty result, kept in place, when it is not |
| Load.LoadRestoresCart | src/hooks/cart.tsx:32-40 | reading back every key of a valid cart's store yields a record for each key, and these records are a permutation of the cart's list and form a valid cart with the same store |
| Load.LoadAfterAdd | src/hooks/cart.tsx:63-72 | after a product with an unset quantity is added, reading the store back yields that product at quantity 1 |
| CartScenarios.AddIncrementDecrementRun | src/hooks/cart.tsx:48-122 | adding a fresh product, incrementing, then decrementing twice takes its quantity 1, 2, 1 and back to the empty cart |
| CartScenarios.AddTwiceDuplicates | src/hooks/cart.tsx:72 | adding two separate objects with the same id and no quantity leaves two entries with that id in the list and a single record in the store |
| CartScenarios.AddSameObjectTwice | src/hooks/cart.tsx:50-65 | passing the same object again, its quantity already set to 1 by the first call, leaves a single entry at quantity 2 |

## Left out

- The React machinery is left out: the context, `useState`, `useCallback`,
  `useMemo`, `useEffect` and the Provider element (lines 1-9, 19-28, 30-31,
  124-130). These
  are UI plumbing. Each transition is a pure function from the current cart to
  the next one.
- `useCart`'s error when it is called outside a provider (lines 132-140) is
  left out. It concerns where a React component sits, not the cart's state.
- The `await`s are dropped, and with them the races between overlapping calls
  that capture a stale list. Each call is modelled as completing before the
  next one starts.
- AsyncStorage is a map with no failures. Writes, removals and reads always
  succeed.
- JSON serialisation and parsing (lines 37, 56, 69, 87, 115) are treated as
  the identity on records.
- `price` is a real number that is never computed on. Floating point is not
  modelled.
- `quantity` is an unbounded integer. JavaScript's float limits, `NaN`, and
  `undefined` beyond "unset" (modelled as 0) are not modelled.
- The code mutates the caller's object (lines 52, 65) and list entries in place
  (lines 83, 102, 111). The model builds fresh records instead, so aliasing
  between the caller's object, old list snapshots and the new list is not
  modelled.
- The `loadProducts` model is limited in three ways:
  - the store's key enumeration order is a parameter;
  - a key that yields no value gives an empty result, which stays in place;
  - the store is assumed to hold only cart records.
- Load.LoadRestoresCart: states the restored list as a permutation of the
  cart's list, not the same order, because the order depends on the store's
  key enumeration.
- CartProofs.IncrementRefines: requires distinct ids. With duplicates, the
  first match is incremented but the view shows the latest entry, so the
  map-level step differs. Store agreement still holds without that requirement
  (`CartProofs.IncrementAgrees`).
- CartProofs.DecrementRefines: requires distinct ids, for the same reason as
  `CartProofs.IncrementRefines`.
