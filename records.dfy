/** The records the service stores and returns, the shape of its replies,
    and the store failures a request may meet. */
module Records {
  import opened Tables

  /** A registered user; every field but the id is free text. */
  datatype User = User(
    id: int,
    email: string,
    password: string,
    name: string,
    phone: string,
    confirmedEmail: string)

  /** A catalogue entry; prices are integers in minor currency units. */
  datatype Product = Product(
    id: int,
    name: string,
    brand: string,
    description: string,
    price: int,
    stock: int,
    availableStock: int,
    idCategory: int)

  /** A row of the `order_Product` table. */
  datatype Order = Order(id: int, idUser: int, orderNumber: int, idProduct: int)

  function UserKey(u: User): int { u.id }
  function ProductKey(p: Product): int { p.id }
  function OrderKey(o: Order): int { o.id }

  /** The JSON body of a reply. */
  datatype Body =
    | UserBody(user: User)
    | UserListBody(users: seq<User>)
    | ProductBody(product: Product)
    | ProductListBody(products: seq<Product>)
    | OrderBody(order: Order)
    | ErrorBody(error: string)
    /** the store's own error value, serialised as it is */
    | StoreErrorBody
    | TokenBody(token: string)
    | DeletedBody(deleted: int)
    | VerifyBody(verify: string)

  /** What a handler does with the request: answers with a status and body,
      writes nothing at all, or terminates the process through `log.Fatalln`
      with the given message. */
  datatype Response =
    | Reply(status: int, body: Body)
    | NoReply
    | Fatal(message: string)

  /** How the store behaves during one request. */
  datatype Fault =
    | NoFault
    /** `Select` and `SelectOne` return an error */
    | ReadFails
    /** `Exec`, `Update` and `Delete` return an error */
    | WriteFails
    /** the INSERT succeeds but `LastInsertId` returns an error */
    | InsertIdFails

  const UserNotFound := "user not found"
  const FieldsEmpty := "field are empty"
  const NoData := "No data"
  const BadCredentials := "User and/or password is incorrect"
  const Authenticated := "authenticated"
  const VerifyComplete := "Verify Complete"
  const InsertFailed := "Insert failed"
  const UpdateFailed := "Update failed"
  const DeleteFailed := "Deleted field"

  /** A stored user has exactly this email and this password. */
  ghost predicate HasLogin(users: seq<User>, email: string, password: string) {
    exists i :: 0 <= i < |users| && users[i].email == email && users[i].password == password
  }

  /** `SELECT * FROM user WHERE email=? and password=?`: the first row
      whose email and password both equal the given ones. Equality here
      is exact character equality; the database itself compares by the
      column collation, which this model does not capture. */
  function FindLogin(users: seq<User>, email: string, password: string): (r: Option<User>)
    ensures r.Some? ==> r.value in users && r.value.email == email && r.value.password == password
    ensures r.None? <==> !HasLogin(users, email, password)
  {
    if users == [] then None
    else if users[0].email == email && users[0].password == password then Some(users[0])
    else
      var r := FindLogin(users[1..], email, password);
      assert HasLogin(users, email, password) ==> HasLogin(users[1..], email, password) by {
        if HasLogin(users, email, password) {
          var i :| 0 <= i < |users| && users[i].email == email && users[i].password == password;
          assert users[1..][i - 1] == users[i];
        }
      }
      assert HasLogin(users[1..], email, password) ==> HasLogin(users, email, password) by {
        if HasLogin(users[1..], email, password) {
          var i :| 0 <= i < |users[1..]| && users[1..][i].email == email && users[1..][i].password == password;
          assert users[i + 1] == users[1..][i];
        }
      }
      r
  }
}
