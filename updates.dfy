/** The snapshot updaters: each operation of the store replaces the published
    snapshot by a function of the previous one, spreading `...prev` and
    rebuilding one collection with `map`, `filter` or an append. */
module Updates {
  import opened Wrappers
  import opened Coercion
  import opened Entities
  import opened Seqs

  /** Users and products each carry pairwise different ids (shifts do not:
      `addShift` assigns none). */
  ghost predicate IdsDistinct(d: Snapshot) {
    DistinctKeys(d.users, UserId) && DistinctKeys(d.products, ProductId)
  }

  // ----- login -----

  predicate Matches(u: User, nombre: string, password: string) {
    u.nombre == nombre && u.password == password
  }

  function Credentials(nombre: string, password: string): User -> bool {
    u => Matches(u, nombre, password)
  }

  /** The user `login` returns: the first whose name and password both equal
      the arguments, or none. */
  function FindLogin(users: seq<User>, nombre: string, password: string): (r: Option<User>)
    ensures r.None? <==> forall j :: 0 <= j < |users| ==> !Matches(users[j], nombre, password)
    ensures r.Some? ==> exists k :: 0 <= k < |users| && users[k] == r.value &&
                                    Matches(users[k], nombre, password) &&
                                    forall j :: 0 <= j < k ==> !Matches(users[j], nombre, password)
  {
    Find(users, Credentials(nombre, password))
  }

  // ----- users -----

  /** `saveUser`: a user with an id replaces every user holding that id; one
      without is appended under the fresh id. */
  function SaveUser(d: Snapshot, user: User, freshId: int): (r: Snapshot)
    requires freshId != NoId
    ensures r == d.(users := r.users)
    ensures user.id != NoId ==>
      |r.users| == |d.users| &&
      forall i :: 0 <= i < |d.users| ==>
        r.users[i] == if d.users[i].id == user.id then user else d.users[i]
    ensures user.id == NoId ==>
      |r.users| == |d.users| + 1 && r.users[..|d.users|] == d.users &&
      r.users[|d.users|] == user.(id := freshId)
  {
    if user.id != NoId then
      d.(users := Update(d.users, KeyIs(UserId, user.id), (_: User) => user))
    else
      d.(users := d.users + [user.(id := freshId)])
  }

  /** `deleteUser`: the users whose id differs from `id`. */
  function DeleteUser(d: Snapshot, id: int): (r: Snapshot)
    ensures r == d.(users := r.users)
    ensures forall u :: u in r.users ==> u in d.users && u.id != id
    ensures forall u :: u in d.users && u.id != id ==> u in r.users
    ensures forall u :: multiset(r.users)[u] == if u.id != id then multiset(d.users)[u] else 0
  {
    var users := Filter(d.users, KeyIsNot(UserId, id));
    assert forall u :: multiset(users)[u] == if u.id != id then multiset(d.users)[u] else 0 by {
      forall u { FilterCounts(d.users, KeyIsNot(UserId, id), u); }
    }
    d.(users := users)
  }

  // ----- products -----

  /** `saveProduct`: with an id, every product holding it is merged with the
      input; without, the input is appended under the fresh id. Either way the
      stored price and stock are the converted input fields. */
  function SaveProduct(d: Snapshot, input: ProductInput, freshId: int): (r: Snapshot)
    requires freshId != NoId
    requires Coercible(input.precio) && Coercible(input.stock)
    ensures r == d.(products := r.products)
    ensures input.id != NoId ==>
      |r.products| == |d.products| &&
      forall i :: 0 <= i < |d.products| ==>
        r.products[i] == if d.products[i].id == input.id
                         then Product(input.id, input.nombre, ToNumber(input.precio), ToNumber(input.stock))
                         else d.products[i]
    ensures input.id == NoId ==>
      |r.products| == |d.products| + 1 && r.products[..|d.products|] == d.products &&
      r.products[|d.products|] == Product(freshId, input.nombre, ToNumber(input.precio), ToNumber(input.stock))
  {
    var precio, stock := ToNumber(input.precio), ToNumber(input.stock);
    if input.id != NoId then
      d.(products := Update(d.products, KeyIs(ProductId, input.id),
                            (p: Product) => p.(nombre := input.nombre, precio := precio, stock := stock)))
    else
      d.(products := d.products + [Product(freshId, input.nombre, precio, stock)])
  }

  /** `deleteProduct`: the products whose id differs from `id`. */
  function DeleteProduct(d: Snapshot, id: int): (r: Snapshot)
    ensures r == d.(products := r.products)
    ensures forall p :: p in r.products ==> p in d.products && p.id != id
    ensures forall p :: p in d.products && p.id != id ==> p in r.products
    ensures forall p :: multiset(r.products)[p] == if p.id != id then multiset(d.products)[p] else 0
  {
    var products := Filter(d.products, KeyIsNot(ProductId, id));
    assert forall p :: multiset(products)[p] == if p.id != id then multiset(d.products)[p] else 0 by {
      forall p { FilterCounts(d.products, KeyIsNot(ProductId, id), p); }
    }
    d.(products := products)
  }

  /** `decreaseProductStock`: each product with the id loses exactly `cantidad`
      units of stock, with no floor; nothing else changes. */
  function DecreaseProductStock(d: Snapshot, productId: int, cantidad: int): (r: Snapshot)
    ensures r == d.(products := r.products)
    ensures |r.products| == |d.products|
    ensures forall i :: 0 <= i < |d.products| ==>
      r.products[i].id == d.products[i].id &&
      r.products[i].nombre == d.products[i].nombre &&
      r.products[i].precio == d.products[i].precio &&
      r.products[i].stock == if d.products[i].id == productId
                             then d.products[i].stock - cantidad else d.products[i].stock
  {
    d.(products := Update(d.products, KeyIs(ProductId, productId),
                          (p: Product) => p.(stock := p.stock - cantidad)))
  }

  // ----- shifts -----

  /** `addShift`: the shift is appended as given, with no id assigned. */
  function AddShift(d: Snapshot, shift: Shift): (r: Snapshot)
    ensures r == d.(shifts := r.shifts)
    ensures |r.shifts| == |d.shifts| + 1 && r.shifts[..|d.shifts|] == d.shifts
    ensures r.shifts[|d.shifts|] == shift
  {
    d.(shifts := d.shifts + [shift])
  }

  /** `updateShift`: every shift whose id equals the argument's is replaced by it. */
  function UpdateShift(d: Snapshot, shift: Shift): (r: Snapshot)
    ensures r == d.(shifts := r.shifts)
    ensures |r.shifts| == |d.shifts|
    ensures forall i :: 0 <= i < |d.shifts| ==>
      r.shifts[i] == if d.shifts[i].id == shift.id then shift else d.shifts[i]
  {
    d.(shifts := Update(d.shifts, KeyIs(ShiftId, shift.id), (_: Shift) => shift))
  }

  // ----- properties of the updaters -----

  /** On the seed, the administrator's credentials log in as user 1 and a wrong
      password logs in nobody. */
  lemma SeedLogin()
    ensures FindLogin(InitialData().users, "Admin", "admin123") == Some(InitialData().users[0])
    ensures InitialData().users[0].id == 1
    ensures FindLogin(InitialData().users, "Admin", "wrong") == None
  {
    var users := InitialData().users;
    assert Matches(users[0], "Admin", "admin123");
    assert !Matches(users[0], "Admin", "wrong") && !Matches(users[1], "Admin", "wrong");
  }

  /** The seed satisfies the id invariant. */
  lemma SeedIdsDistinct()
    ensures IdsDistinct(InitialData())
  {
  }

  /** Saving a user under an id nobody holds changes nothing. */
  lemma SaveUserUnknownId(d: Snapshot, user: User, freshId: int)
    requires freshId != NoId && user.id != NoId && !HasKey(d.users, UserId, user.id)
    ensures SaveUser(d, user, freshId) == d
  {
    var r := SaveUser(d, user, freshId);
    assert r.users == d.users;
  }

  /** Saving the same user twice is the same as saving it once. */
  lemma SaveUserUpdateIdempotent(d: Snapshot, user: User, freshId: int)
    requires freshId != NoId && user.id != NoId
    ensures SaveUser(SaveUser(d, user, freshId), user, freshId) == SaveUser(d, user, freshId)
  {
    var r := SaveUser(d, user, freshId);
    var r2 := SaveUser(r, user, freshId);
    assert r2.users == r.users;
  }

  /** With an id that is fresh for the users, `saveUser` keeps user ids
      distinct; the user it creates is the only one holding the fresh id. */
  lemma SaveUserKeepsIdsDistinct(d: Snapshot, user: User, freshId: int)
    requires freshId != NoId && IdsDistinct(d)
    requires user.id == NoId ==> !HasKey(d.users, UserId, freshId)
    ensures IdsDistinct(SaveUser(d, user, freshId))
    ensures user.id == NoId ==> HasKey(SaveUser(d, user, freshId).users, UserId, freshId)
  {
    var r := SaveUser(d, user, freshId);
    if user.id != NoId {
      assert forall i :: 0 <= i < |r.users| ==> r.users[i].id == d.users[i].id;
    } else {
      forall i, j | 0 <= i < j < |r.users| ensures UserId(r.users[i]) != UserId(r.users[j]) {
        assert r.users[i] == d.users[i];
        if j == |d.users| {
          assert UserId(d.users[i]) != freshId;
        } else {
          assert r.users[j] == d.users[j];
        }
      }
      assert UserId(r.users[|d.users|]) == freshId;
    }
  }

  /** `deleteUser` keeps the remaining users in their relative order and keeps
      their ids distinct. */
  lemma DeleteUserKeepsOrder(d: Snapshot, id: int)
    ensures IsSubsequence(DeleteUser(d, id).users, d.users)
    ensures IdsDistinct(d) ==> IdsDistinct(DeleteUser(d, id))
  {
    FilterIsSubsequence(d.users, KeyIsNot(UserId, id));
    if IdsDistinct(d) {
      FilterKeepsDistinct(d.users, KeyIsNot(UserId, id), UserId);
    }
  }

  /** When ids are distinct, deleting the id of the user at position `k`
      removes exactly that user. */
  lemma DeleteUserRemovesOne(d: Snapshot, k: nat)
    requires IdsDistinct(d) && k < |d.users|
    ensures DeleteUser(d, d.users[k].id).users == d.users[..k] + d.users[k + 1..]
  {
    var keep := KeyIsNot(UserId, d.users[k].id);
    forall i | 0 <= i < |d.users| && i != k ensures keep(d.users[i]) {
      assert UserId(d.users[i]) != UserId(d.users[k]);
    }
    FilterDropsOne(d.users, keep, k);
  }

  /** Deleting an id nobody holds changes nothing, so deleting twice is
      deleting once. */
  lemma DeleteUserIdempotent(d: Snapshot, id: int)
    ensures !HasKey(d.users, UserId, id) ==> DeleteUser(d, id) == d
    ensures DeleteUser(DeleteUser(d, id), id) == DeleteUser(d, id)
  {
    if !HasKey(d.users, UserId, id) {
      FilterKeepsAll(d.users, KeyIsNot(UserId, id));
    }
    var r := DeleteUser(d, id);
    forall i | 0 <= i < |r.users| ensures KeyIsNot(UserId, id)(r.users[i]) {
      assert r.users[i] in r.users;
    }
    FilterKeepsAll(r.users, KeyIsNot(UserId, id));
  }

  /** `Number(...)` makes the representation of the numeric fields irrelevant:
      a product saved with numbers equals one saved with their decimal text. */
  lemma SaveProductRepresentationIrrelevant(
    d: Snapshot, id: int, nombre: string, precio: int, stock: int, freshId: int)
    requires freshId != NoId
    ensures Coercible(Text(Decimal(precio))) && Coercible(Text(Decimal(stock)))
    ensures SaveProduct(d, ProductInput(id, nombre, Text(Decimal(precio)), Text(Decimal(stock))), freshId)
         == SaveProduct(d, ProductInput(id, nombre, Num(precio), Num(stock)), freshId)
  {
    ToNumberOfDecimal(precio);
    ToNumberOfDecimal(stock);
    var a := SaveProduct(d, ProductInput(id, nombre, Text(Decimal(precio)), Text(Decimal(stock))), freshId);
    var b := SaveProduct(d, ProductInput(id, nombre, Num(precio), Num(stock)), freshId);
    assert a.products == b.products;
  }

  /** Saving a product under an id nobody holds changes nothing. */
  lemma SaveProductUnknownId(d: Snapshot, input: ProductInput, freshId: int)
    requires freshId != NoId && Coercible(input.precio) && Coercible(input.stock)
    requires input.id != NoId && !HasKey(d.products, ProductId, input.id)
    ensures SaveProduct(d, input, freshId) == d
  {
    var r := SaveProduct(d, input, freshId);
    assert r.products == d.products;
  }

  /** With an id that is fresh for the products, `saveProduct` keeps product
      ids distinct; the product it creates is the only one with the fresh id. */
  lemma SaveProductKeepsIdsDistinct(d: Snapshot, input: ProductInput, freshId: int)
    requires freshId != NoId && Coercible(input.precio) && Coercible(input.stock)
    requires IdsDistinct(d)
    requires input.id == NoId ==> !HasKey(d.products, ProductId, freshId)
    ensures IdsDistinct(SaveProduct(d, input, freshId))
    ensures input.id == NoId ==> HasKey(SaveProduct(d, input, freshId).products, ProductId, freshId)
  {
    var r := SaveProduct(d, input, freshId);
    if input.id != NoId {
      assert forall i :: 0 <= i < |r.products| ==> r.products[i].id == d.products[i].id;
    } else {
      forall i, j | 0 <= i < j < |r.products| ensures ProductId(r.products[i]) != ProductId(r.products[j]) {
        assert r.products[i] == d.products[i];
        if j == |d.products| {
          assert ProductId(d.products[i]) != freshId;
        } else {
          assert r.products[j] == d.products[j];
        }
      }
      assert ProductId(r.products[|d.products|]) == freshId;
    }
  }

  /** `deleteProduct` keeps the remaining products in their relative order and
      keeps their ids distinct. */
  lemma DeleteProductKeepsOrder(d: Snapshot, id: int)
    ensures IsSubsequence(DeleteProduct(d, id).products, d.products)
    ensures IdsDistinct(d) ==> IdsDistinct(DeleteProduct(d, id))
  {
    FilterIsSubsequence(d.products, KeyIsNot(ProductId, id));
    if IdsDistinct(d) {
      FilterKeepsDistinct(d.products, KeyIsNot(ProductId, id), ProductId);
    }
  }

  /** When ids are distinct, deleting the id of the product at position `k`
      removes exactly that product. */
  lemma DeleteProductRemovesOne(d: Snapshot, k: nat)
    requires IdsDistinct(d) && k < |d.products|
    ensures DeleteProduct(d, d.products[k].id).products == d.products[..k] + d.products[k + 1..]
  {
    var keep := KeyIsNot(ProductId, d.products[k].id);
    forall i | 0 <= i < |d.products| && i != k ensures keep(d.products[i]) {
      assert ProductId(d.products[i]) != ProductId(d.products[k]);
    }
    FilterDropsOne(d.products, keep, k);
  }

  /** Deleting a product id nobody holds changes nothing, so deleting twice is
      deleting once. */
  lemma DeleteProductIdempotent(d: Snapshot, id: int)
    ensures !HasKey(d.products, ProductId, id) ==> DeleteProduct(d, id) == d
    ensures DeleteProduct(DeleteProduct(d, id), id) == DeleteProduct(d, id)
  {
    if !HasKey(d.products, ProductId, id) {
      FilterKeepsAll(d.products, KeyIsNot(ProductId, id));
    }
    var r := DeleteProduct(d, id);
    forall i | 0 <= i < |r.products| ensures KeyIsNot(ProductId, id)(r.products[i]) {
      assert r.products[i] in r.products;
    }
    FilterKeepsAll(r.products, KeyIsNot(ProductId, id));
  }

  /** Two stock decreases of one product add up, and a decrease by `-n` undoes
      a decrease by `n`. */
  lemma DecreaseProductStockAdds(d: Snapshot, productId: int, a: int, b: int)
    ensures DecreaseProductStock(DecreaseProductStock(d, productId, a), productId, b)
         == DecreaseProductStock(d, productId, a + b)
    ensures DecreaseProductStock(DecreaseProductStock(d, productId, a), productId, -a) == d
  {
    var once := DecreaseProductStock(d, productId, a);
    var twice := DecreaseProductStock(once, productId, b);
    var sum := DecreaseProductStock(d, productId, a + b);
    assert twice.products == sum.products;
    var back := DecreaseProductStock(once, productId, -a);
    assert back.products == d.products;
  }

  /** There is no floor: selling 60 units of the seed's first product, which
      has 50, leaves its stock at -10. */
  lemma DecreaseProductStockGoesNegative()
    ensures DecreaseProductStock(InitialData(), 1, 60).products[0].stock == -10
  {
  }

  /** A stock decrease keeps every product id where it was. */
  lemma DecreaseProductStockKeepsIds(d: Snapshot, productId: int, cantidad: int)
    requires IdsDistinct(d)
    ensures IdsDistinct(DecreaseProductStock(d, productId, cantidad))
  {
    var r := DecreaseProductStock(d, productId, cantidad);
    assert forall i :: 0 <= i < |r.products| ==> ProductId(r.products[i]) == ProductId(d.products[i]);
  }

  /** Updating a shift twice is updating it once; an id no shift holds
      changes nothing. */
  lemma UpdateShiftIdempotent(d: Snapshot, shift: Shift)
    ensures UpdateShift(UpdateShift(d, shift), shift) == UpdateShift(d, shift)
    ensures !HasKey(d.shifts, ShiftId, shift.id) ==> UpdateShift(d, shift) == d
  {
    var r := UpdateShift(d, shift);
    assert UpdateShift(r, shift).shifts == r.shifts;
    if !HasKey(d.shifts, ShiftId, shift.id) {
      assert r.shifts == d.shifts;
    }
  }

  /** A shift appended and then updated with itself is stored once, as given. */
  lemma AddShiftThenUpdate(d: Snapshot, shift: Shift)
    requires !HasKey(d.shifts, ShiftId, shift.id)
    ensures UpdateShift(AddShift(d, shift), shift) == AddShift(d, shift)
  {
    var a := AddShift(d, shift);
    assert UpdateShift(a, shift).shifts == a.shifts;
  }

  /** Shifts get no id when added, and an id-less shift matches every other
      id-less shift: updating with one overwrites all of them. */
  lemma UpdateShiftWithoutIdHitsEveryIdless(d: Snapshot, a: Shift, b: Shift, c: Shift)
    requires a.id == NoId && b.id == NoId && c.id == NoId
    ensures UpdateShift(AddShift(AddShift(d, a), b), c).shifts == UpdateShift(d, c).shifts + [c, c]
  {
    var added := AddShift(AddShift(d, a), b);
    assert added.shifts == d.shifts + [a, b];
    var r := UpdateShift(added, c);
    assert r.shifts[|d.shifts|] == c && r.shifts[|d.shifts| + 1] == c;
    assert r.shifts == UpdateShift(d, c).shifts + [c, c];
  }
}
