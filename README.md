# Fuel-station store: a Dafny model of the in-memory data store

This project models the client-side data store of a fuel-station point-of-sale
front end (`src/context/DataContext.jsx`). The store publishes one snapshot,
`{users, products, shifts, pricePerCubicMeter}`, and one session, the current
user or none. Its operations are `login`, `logout`, `saveUser`, `deleteUser`,
`saveProduct`, `deleteProduct`, `decreaseProductStock`, `addShift` and
`updateShift`. Each one replaces the snapshot by a function of the previous
snapshot, built with `map`, `filter` or an append. Some also replace the session.

Files:

- `wrappers.dfy`: module `Wrappers`. `Option`, used for the session and for the result of `find`.
- `seqs.dfy`: module `Seqs`. The array transforms the store uses, over sequences:
  - `Update` is `map` with a conditional replacement.
  - `Filter` is `filter`.
  - `FirstIndex` and `Find` model `find`.
  - It also holds their general lemmas: order is kept, all elements are kept, one element is dropped, distinct keys are kept.
- `coercion.dfy`: module `Coercion`. `Number(...)` on a field that arrives as a number or as decimal text. It includes the decimal rendering and the round-trip lemma.
- `entities.dfy`: module `Entities`. `User`, `Product`, `ProductInput`, `Shift`, `Snapshot`, and the seed `InitialData`.
- `updates.dfy`: module `Updates`. One pure updater per operation, plus the lemmas about them. These cover seed login, unknown ids, idempotence, distinct ids under a fresh-id precondition, exact removal, order preservation, how stock decreases compose, and shift matching.
- `data_store.dfy`: module `DataStore`. Class `Store` with fields `data` and `currentUser`. Each method sets `data` to the matching updater applied to the old snapshot, and states the new session. Two client methods replay the seed login scenario and deleting the logged-in user.

Modelling choices:

- **Ids.** An id is an `int`. `NoId` (0) stands for a missing id, which is the value the source's truthiness test `if (user.id)` rejects. A record without an id takes the create branch.
- **Fresh ids.** `Date.now()` becomes the parameter `freshId`. The source only guarantees that this value is truthy, so the model requires only `freshId != NoId`. Uniqueness of ids is never assumed. The lemmas that conclude distinct ids require that `freshId` is not already held.
- **Numeric fields.** `precio` and `stock` are `int` in the stored `Product`. `ProductInput` carries them as `NumInput`: either a number, or the text of a numeric form field.
- **Shifts.** A shift is an id plus an opaque payload. `updateShift` compares ids with `===`, so an id-less shift matches every other id-less shift. `UpdateShiftWithoutIdHitsEveryIdless` states this.
- **Behaviour worth knowing.**
  - `addShift` assigns no id to the shift it appends.
  - A failed `login` leaves the session as it was. On a fresh store that session is unset, which `SeedLoginScenario` shows.
  - `saveUser` never refreshes the session. A user who edits their own record stays logged in as the old record.

## Model

| member | source | states |
|---|---|---|
| Seqs.Update | src/context/DataContext.jsx:56 | `map` with a conditional replacement keeps the length; position i holds the replaced element exactly when the predicate selects the old one there, and the old element otherwise |
| Seqs.Filter | src/context/DataContext.jsx:64 | `filter` keeps only elements that satisfy the predicate and came from the input, keeps every one that does, and never grows |
| Seqs.FilterCounts | src/context/DataContext.jsx:64 | every element `filter` keeps appears exactly as many times as in the input; a dropped element does not appear at all |
| Seqs.FilterIsSubsequence | src/context/DataContext.jsx:64 | what `filter` keeps stays in its original relative order |
| Seqs.FilterKeepsAll | src/context/DataContext.jsx:83 | `filter` with a predicate every element satisfies returns the input unchanged |
| Seqs.FilterDropsOne | src/context/DataContext.jsx:64 | when exactly one position fails the predicate, `filter` returns the input with that position cut out |
| Seqs.FilterKeepsDistinct | src/context/DataContext.jsx:83 | if the input's keys are pairwise different, so are the keys of what `filter` keeps |
| Seqs.FirstIndex | src/context/DataContext.jsx:47 | returns the first position whose element satisfies the predicate, or none exactly when no element does |
| Seqs.Find | src/context/DataContext.jsx:47 | `find` returns none exactly when nothing matches; otherwise it returns the element at a matching position with no earlier match |
| Coercion.ToNumber | src/context/DataContext.jsx:73 | `Number` keeps a number as it is; a numeral without a leading '-' converts to a non-negative value, and one with a leading '-' to a non-positive value |
| Coercion.ToNumberOfDecimal | src/context/DataContext.jsx:77 | converting the decimal text of n gives n back, the same value as converting the number n |
| Entities.InitialData | src/context/DataContext.jsx:5-17 | the seed has two users and three products, numbered 1, 2, … in order, no shifts and a price per cubic metre of 1500; user 1 is `Admin`/`admin123`, an administrator |
| Updates.FindLogin | src/context/DataContext.jsx:47 | the login lookup finds nothing exactly when no user has both the given name and the given password; otherwise it finds the first user who does |
| Updates.SeedLogin | src/context/DataContext.jsx:7 | on the seed, `Admin`/`admin123` finds user 1 and `Admin`/`wrong` finds nobody |
| Updates.SeedIdsDistinct | src/context/DataContext.jsx:5-17 | the seed's user ids and product ids are each pairwise different |
| Updates.SaveUser | src/context/DataContext.jsx:54-61 | with an id: same length, every user holding that id is replaced by the argument, and all other users and positions are kept. Without an id: the old users are a prefix and the argument is appended under the fresh id. Products, shifts and price are untouched |
| Updates.SaveUserUnknownId | src/context/DataContext.jsx:56 | saving under an id no user holds leaves the snapshot unchanged |
| Updates.SaveUserUpdateIdempotent | src/context/DataContext.jsx:56 | saving the same user with an id twice gives the same snapshot as saving it once |
| Updates.SaveUserKeepsIdsDistinct | src/context/DataContext.jsx:58-59 | if ids were distinct and the fresh id is unused, ids stay distinct; a created user is the holder of the fresh id |
| Updates.DeleteUser | src/context/DataContext.jsx:64 | afterwards no user has the id; each user with another id keeps its number of copies, and each user with the id has none; the other collections and the price are untouched |
| Updates.DeleteUserKeepsOrder | src/context/DataContext.jsx:64 | the remaining users keep their relative order, and distinct ids stay distinct |
| Updates.DeleteUserRemovesOne | src/context/DataContext.jsx:64 | with distinct ids, deleting the id at position k removes exactly that user |
| Updates.DeleteUserIdempotent | src/context/DataContext.jsx:64 | deleting an id nobody holds changes nothing; deleting twice equals deleting once |
| Updates.SaveProduct | src/context/DataContext.jsx:68-80 | with an id: same length, each product holding the id becomes the input with converted price and stock, and all others are kept. Without an id: the old products are a prefix, and exactly one product is appended under the fresh id with converted fields. Users, shifts and price are untouched |
| Updates.SaveProductRepresentationIrrelevant | src/context/DataContext.jsx:73 | saving a product whose price and stock are numbers gives the same snapshot as saving one whose price and stock are their decimal text |
| Updates.SaveProductUnknownId | src/context/DataContext.jsx:72-74 | saving under an id no product holds leaves the snapshot unchanged |
| Updates.SaveProductKeepsIdsDistinct | src/context/DataContext.jsx:77-78 | if ids were distinct and the fresh id is unused, product ids stay distinct; a created product is the holder of the fresh id |
| Updates.DeleteProduct | src/context/DataContext.jsx:82-83 | afterwards no product has the id; each product with another id keeps its number of copies, and each product with the id has none; nothing else changes |
| Updates.DeleteProductKeepsOrder | src/context/DataContext.jsx:83 | the remaining products keep their relative order, and distinct ids stay distinct |
| Updates.DeleteProductRemovesOne | src/context/DataContext.jsx:83 | with distinct ids, deleting the id at position k removes exactly that product |
| Updates.DeleteProductIdempotent | src/context/DataContext.jsx:83 | deleting an absent product id changes nothing; deleting twice equals deleting once |
| Updates.DecreaseProductStock | src/context/DataContext.jsx:85-87 | same length; each product with the id has stock exactly old stock minus the quantity, with no floor; its other fields, all other products and all other collections are unchanged |
| Updates.DecreaseProductStockAdds | src/context/DataContext.jsx:86 | decreasing by a and then by b equals decreasing by a+b; decreasing by a and then by -a restores the snapshot |
| Updates.DecreaseProductStockGoesNegative | src/context/DataContext.jsx:86 | on the seed, selling 60 of product 1, which has 50 in stock, leaves -10 |
| Updates.DecreaseProductStockKeepsIds | src/context/DataContext.jsx:86 | a stock decrease keeps distinct product ids distinct |
| Updates.AddShift | src/context/DataContext.jsx:89-91 | the old shifts are a prefix, the shift is appended exactly as given with no id assigned, length grows by one, and nothing else changes |
| Updates.UpdateShift | src/context/DataContext.jsx:93-95 | same length; every shift whose id equals the argument's is replaced by it, and the others are kept |
| Updates.UpdateShiftIdempotent | src/context/DataContext.jsx:94 | updating twice equals updating once; an id no shift holds changes nothing |
| Updates.AddShiftThenUpdate | src/context/DataContext.jsx:89-95 | a shift with a new id, appended and then updated with itself, is stored once, as given |
| Updates.UpdateShiftWithoutIdHitsEveryIdless | src/context/DataContext.jsx:89-95 | after appending two id-less shifts, an update with an id-less shift overwrites both of them |
| DataStore.Store.constructor | src/context/DataContext.jsx:20-36 | the snapshot is the persisted one when present, otherwise the seed; the session is the persisted one |
| DataStore.Store.Login | src/context/DataContext.jsx:46-50 | returns the lookup result; on a match the session becomes that user, otherwise the session is unchanged; the snapshot is unchanged |
| DataStore.Store.Logout | src/context/DataContext.jsx:52 | the session is none and the snapshot is unchanged |
| DataStore.Store.SaveUser | src/context/DataContext.jsx:54-61 | the snapshot becomes `SaveUser` of the old one; the session is unchanged |
| DataStore.Store.DeleteUser | src/context/DataContext.jsx:63-66 | the snapshot becomes `DeleteUser` of the old one; the session becomes none exactly when the current user's id is the deleted id, and is otherwise unchanged |
| DataStore.Store.SaveProduct | src/context/DataContext.jsx:68-80 | the snapshot becomes `SaveProduct` of the old one; the session is unchanged |
| DataStore.Store.DeleteProduct | src/context/DataContext.jsx:82-83 | the snapshot becomes `DeleteProduct` of the old one; the session is unchanged |
| DataStore.Store.DecreaseProductStock | src/context/DataContext.jsx:85-87 | the snapshot becomes `DecreaseProductStock` of the old one; the session is unchanged |
| DataStore.Store.AddShift | src/context/DataContext.jsx:89-91 | the snapshot becomes `AddShift` of the old one; the session is unchanged |
| DataStore.Store.UpdateShift | src/context/DataContext.jsx:93-95 | the snapshot becomes `UpdateShift` of the old one; the session is unchanged |
| DataStore.SeedLoginScenario | src/context/DataContext.jsx:46-50 | on a fresh seeded store, a wrong password returns nothing and leaves the session unset, `Admin`/`admin123` returns administrator 1, and a later wrong password returns nothing and keeps that session |
| DataStore.DeleteLoggedInUserScenario | src/context/DataContext.jsx:63-66 | deleting the logged-in administrator clears the session and leaves only the seed's second user |

## Left out

- Persistence to `localStorage` (src/context/DataContext.jsx:20-44), `JSON.parse` and `JSON.stringify` are browser I/O and serialisation. The constructor instead takes the persisted snapshot and session as `Option` values. A missing or unparsable snapshot is `None`.
- The React wiring is framework code: `createContext`, `useState`, the provider and `useData`. So is the raw `setData`/`setCurrentUser` handed to consumers (:97-118). Operations run one after another on the current state, so the stale-closure read of `currentUser` in `deleteUser` is not modelled.
- `Date.now()` is a clock. It becomes the `freshId` parameter.
- Coercion.ToNumber: only a number, or optional '-' followed by decimal digits, is modelled. `Number`'s handling of whitespace, '+', fractions, exponents, hexadecimal and the empty string is not modelled, nor is NaN. Inputs outside this set are excluded by a precondition.
- Every number is an integer here, while the source uses JavaScript floating-point numbers. This covers `Product.precio`, `Product.stock`, `Snapshot.pricePerCubicMeter`, the `cantidad` of `decreaseProductStock`, `NumInput.Num`, and all ids. A fractional stock such as 2.5, a fractional quantity such as 0.5, and precision loss beyond 2^53 cannot be represented.
- Updates.SaveProduct: every input carries all four product fields, so the source's field-level spread merge reduces to keeping the matched id and taking the input's name and converted numbers. Extra fields on a record, and fields missing from an input, are not modelled.
- Entities.User: `rol` is one of the two roles the seed uses, `Administrador` or `Vendedor`, not an arbitrary string.
- An id of 0 and a missing id are the same value here. In the source they differ under `===`. A missing id on a user, product or shift is therefore represented as 0.
- src/components/products/ProductTable.jsx is rendering plus `toFixed(2)` float formatting. src/components/products/ProductForm.jsx is form state and `alert`. Its required-field check appears only as the `Coercible` precondition on the numeric fields.
- The remote REST backend variant is not part of this model.
