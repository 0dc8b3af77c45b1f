/** The store itself: the published snapshot and the session, both replaced
    by every operation. Each method's new snapshot is the matching updater of
    the old one; each states what happens to the session. */
module DataStore {
  import opened Wrappers
  import opened Coercion
  import opened Entities
  import opened Updates

  class Store {
    var data: Snapshot
    var currentUser: Option<User>

    /** Start-up: the persisted snapshot when one was present and parsed,
        otherwise the seed; the persisted session, or none. */
    constructor (persistedData: Option<Snapshot>, persistedUser: Option<User>)
      ensures data == persistedData.GetOr(InitialData())
      ensures currentUser == persistedUser
    {
      data := persistedData.GetOr(InitialData());
      currentUser := persistedUser;
    }

    /** `login`: returns the first user with these credentials and makes it the
        session; when nobody matches, returns none and keeps the session. */
    method Login(nombre: string, password: string) returns (user: Option<User>)
      modifies this
      ensures data == old(data)
      ensures user == FindLogin(old(data).users, nombre, password)
      ensures user.Some? ==> currentUser == user
      ensures user.None? ==> currentUser == old(currentUser)
    {
      user := FindLogin(data.users, nombre, password);
      if user.Some? {
        currentUser := user;
      }
    }

    /** `logout`: the session is cleared, the snapshot kept. */
    method Logout()
      modifies this
      ensures currentUser == None
      ensures data == old(data)
    {
      currentUser := None;
    }

    /** `saveUser`; `freshId` is the clock reading a new user gets as its id. */
    method SaveUser(user: User, freshId: int)
      requires freshId != NoId
      modifies this
      ensures data == Updates.SaveUser(old(data), user, freshId)
      ensures currentUser == old(currentUser)
    {
      data := Updates.SaveUser(data, user, freshId);
    }

    /** `deleteUser`: the session ends exactly when it is the deleted id's. */
    method DeleteUser(id: int)
      modifies this
      ensures data == Updates.DeleteUser(old(data), id)
      ensures old(currentUser).Some? && old(currentUser).value.id == id ==> currentUser == None
      ensures !(old(currentUser).Some? && old(currentUser).value.id == id) ==> currentUser == old(currentUser)
    {
      data := Updates.DeleteUser(data, id);
      if currentUser.Some? && currentUser.value.id == id {
        currentUser := None;
      }
    }

    /** `saveProduct`; `freshId` is the clock reading a new product gets as its id. */
    method SaveProduct(input: ProductInput, freshId: int)
      requires freshId != NoId
      requires Coercible(input.precio) && Coercible(input.stock)
      modifies this
      ensures data == Updates.SaveProduct(old(data), input, freshId)
      ensures currentUser == old(currentUser)
    {
      data := Updates.SaveProduct(data, input, freshId);
    }

    method DeleteProduct(id: int)
      modifies this
      ensures data == Updates.DeleteProduct(old(data), id)
      ensures currentUser == old(currentUser)
    {
      data := Updates.DeleteProduct(data, id);
    }

    method DecreaseProductStock(productId: int, cantidad: int)
      modifies this
      ensures data == Updates.DecreaseProductStock(old(data), productId, cantidad)
      ensures currentUser == old(currentUser)
    {
      data := Updates.DecreaseProductStock(data, productId, cantidad);
    }

    method AddShift(shift: Shift)
      modifies this
      ensures data == Updates.AddShift(old(data), shift)
      ensures currentUser == old(currentUser)
    {
      data := Updates.AddShift(data, shift);
    }

    method UpdateShift(shift: Shift)
      modifies this
      ensures data == Updates.UpdateShift(old(data), shift)
      ensures currentUser == old(currentUser)
    {
      data := Updates.UpdateShift(data, shift);
    }
  }

  /** The seed scenario on a store with nothing persisted: a wrong password
      logs nobody in and leaves the session unset; the administrator's
      credentials log in user 1; a later wrong password returns nothing and
      leaves that session in place. */
  method SeedLoginScenario()
    returns (rejected: Option<User>, unset: Option<User>, admin: Option<User>,
             rejectedAgain: Option<User>, session: Option<User>)
    ensures rejected == None && unset == None
    ensures admin.Some? && admin.value.id == 1 && admin.value.rol == Administrador
    ensures rejectedAgain == None
    ensures session == admin
  {
    SeedLogin();
    var store := new Store(None, None);
    rejected := store.Login("Admin", "wrong");
    unset := store.currentUser;
    admin := store.Login("Admin", "admin123");
    rejectedAgain := store.Login("Admin", "wrong");
    session := store.currentUser;
  }

  /** Deleting the logged-in administrator ends the session and leaves the
      seed's other user as the only one. */
  method DeleteLoggedInUserScenario() returns (session: Option<User>, remaining: seq<User>)
    ensures session == None
    ensures remaining == [InitialData().users[1]]
  {
    SeedLogin();
    var store := new Store(None, None);
    var admin := store.Login("Admin", "admin123");
    store.DeleteUser(1);
    DeleteUserRemovesOne(InitialData(), 0);
    session := store.currentUser;
    remaining := store.data.users;
  }
}
