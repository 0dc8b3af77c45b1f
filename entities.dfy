/** The records the store holds and the seed it starts from. An id is an
    integer; 0 stands for a missing id, the one value JavaScript's truthiness
    test on a numeric id rejects. */
module Entities {
  import opened Coercion

  /** The id a record carries when it has none yet. */
  const NoId: int := 0

  datatype Role = Administrador | Vendedor

  datatype User = User(id: int, nombre: string, apellido: string, password: string, rol: Role)

  /** A stored product: `precio` and `stock` are always numbers. */
  datatype Product = Product(id: int, nombre: string, precio: int, stock: int)

  /** A product as the form hands it to the store, before `Number(...)`. */
  datatype ProductInput = ProductInput(id: int, nombre: string, precio: NumInput, stock: NumInput)

  /** A shift: its id and the rest of its fields, which the store never reads. */
  datatype Shift = Shift(id: int, payload: string)

  /** Everything the store publishes, apart from the session. */
  datatype Snapshot = Snapshot(
    users: seq<User>,
    products: seq<Product>,
    shifts: seq<Shift>,
    pricePerCubicMeter: int)

  function UserId(u: User): int { u.id }
  function ProductId(p: Product): int { p.id }
  function ShiftId(s: Shift): int { s.id }

  /** The built-in seed, used when nothing usable is persisted. */
  function InitialData(): (d: Snapshot)
    ensures |d.users| == 2 && |d.products| == 3 && d.shifts == [] && d.pricePerCubicMeter == 1500
    ensures forall i :: 0 <= i < |d.users| ==> d.users[i].id == i + 1
    ensures forall i :: 0 <= i < |d.products| ==> d.products[i].id == i + 1
    ensures d.users[0].nombre == "Admin" && d.users[0].password == "admin123" && d.users[0].rol == Administrador
  {
    Snapshot(
      [ User(1, "Admin", "Sistema", "admin123", Administrador),
        User(2, "Juan", "Pérez", "vendedor123", Vendedor) ],
      [ Product(1, "Aceite 10W40", 8500, 50),
        Product(2, "Filtro de Aceite", 3200, 30),
        Product(3, "Refrigerante", 4500, 40) ],
      [],
      1500)
  }
}
