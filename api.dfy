/** The request handlers of the service over one in-memory store. Each
    handler takes the already-decoded request (the path id as an integer,
    the bound JSON body as a record) and the way the store behaves on this
    request, and returns what the handler sends back; the handlers that
    write change the tables in place. */
module Api {
  import opened Tables
  import opened Records

  /** The shared database handle: the `User` and `order_Product` tables,
      the read-only `Product` table, and one auto-increment counter per
      writable table standing for the id `LastInsertId` reports. */
  class Store {
    var users: seq<User>
    var orders: seq<Order>
    const products: seq<Product>
    var nextUserId: int
    var nextOrderId: int

    /** Rows are kept in primary-key order with unique keys, and every
        key is below the counter of its table. */
    ghost predicate Valid()
      reads this
    {
      && 1 <= nextUserId && 1 <= nextOrderId
      && Increasing(users, UserKey) && Below(users, UserKey, nextUserId)
      && Increasing(orders, OrderKey) && Below(orders, OrderKey, nextOrderId)
      && Increasing(products, ProductKey)
    }

    /** A fresh database: no users, no orders, the given catalogue, and
        both counters at 1. */
    constructor (catalogue: seq<Product>)
      requires Increasing(catalogue, ProductKey)
      ensures Valid()
      ensures users == [] && orders == [] && products == catalogue
      ensures nextUserId == 1 && nextOrderId == 1
    {
      users, orders, products := [], [], catalogue;
      nextUserId, nextOrderId := 1, 1;
    }

    /** GET /users: every stored user, in key order, or 404 carrying the
        store's error. */
    method GetUsers(fault: Fault) returns (resp: Response)
      ensures fault == ReadFails ==> resp == Reply(404, StoreErrorBody)
      ensures fault != ReadFails ==> resp == Reply(200, UserListBody(users))
    {
      if fault != ReadFails {
        resp := Reply(200, UserListBody(users));
      } else {
        resp := Reply(404, StoreErrorBody);
      }
    }

    /** GET /user/:id: the stored row with that id, reduced to its id,
        email and password; 404 when there is none or the lookup fails. */
    method GetUser(id: int, fault: Fault) returns (resp: Response)
      requires Valid()
      ensures fault == ReadFails || !Has(users, UserKey, id) ==>
                resp == Reply(404, ErrorBody(UserNotFound))
      ensures fault != ReadFails ==>
                forall u | u in users && u.id == id ::
                  resp == Reply(200, UserBody(User(id, u.email, u.password, "", "", "")))
    {
      var found := if fault == ReadFails then None else Find(users, UserKey, id);
      if found.Some? {
        var user := found.value;
        resp := Reply(200, UserBody(User(id, user.email, user.password, "", "", "")));
        forall u | u in users && u.id == id
          ensures Find(users, UserKey, id) == Some(u)
        {
          FindStored(users, UserKey, u);
        }
      } else {
        resp := Reply(404, ErrorBody(UserNotFound));
      }
    }

    /** POST /users: validates before it writes. With an empty email or
        password it answers 422 and writes nothing; otherwise it inserts
        exactly one row holding the email and password under the next id,
        with empty name, phone and confirmation, and echoes id, email and
        password with 201. A failed INSERT leaves no reply and no row; a
        failed `LastInsertId` ends the process after the row is written. */
    method PostUser(body: User, fault: Fault) returns (resp: Response)
      requires Valid()
      modifies this
      ensures Valid()
      ensures orders == old(orders) && nextOrderId == old(nextOrderId)
      ensures body.email == "" || body.password == "" ==>
                resp == Reply(422, ErrorBody(FieldsEmpty))
                && users == old(users) && nextUserId == old(nextUserId)
      ensures body.email != "" && body.password != "" && fault == WriteFails ==>
                resp == NoReply && users == old(users) && nextUserId == old(nextUserId)
      ensures body.email != "" && body.password != "" && fault != WriteFails ==>
                var row := User(old(nextUserId), body.email, body.password, "", "", "");
                && users == old(users) + [row]
                && nextUserId == old(nextUserId) + 1
                && !Has(old(users), UserKey, row.id)
                && Find(users, UserKey, row.id) == Some(row)
                && (forall k :: k != row.id ==> Find(users, UserKey, k) == Find(old(users), UserKey, k))
                && resp == (if fault == InsertIdFails then Fatal(InsertFailed)
                            else Reply(201, UserBody(row)))
    {
      if body.email != "" && body.password != "" {
        if fault != WriteFails {
          var row := User(nextUserId, body.email, body.password, "", "", "");
          Append(users, UserKey, nextUserId, row);
          users := users + [row];
          nextUserId := nextUserId + 1;
          if fault != InsertIdFails {
            resp := Reply(201, UserBody(row));
          } else {
            resp := Fatal(InsertFailed);
          }
        } else {
          resp := NoReply;
        }
      } else {
        resp := Reply(422, ErrorBody(FieldsEmpty));
      }
    }

    /** PUT /users/:id: checks that the row exists before it looks at the
        body, so an absent id is 404 whatever the body holds. Then an empty
        email or password is 422 and nothing changes. Otherwise the whole
        row is replaced by the body's email, password and name under the
        path id, with empty phone and confirmation, and that record is
        returned with 200; every other row is untouched. A failed UPDATE
        ends the process. */
    method UpdateUser(id: int, body: User, fault: Fault) returns (resp: Response)
      requires Valid()
      modifies this
      ensures Valid()
      ensures orders == old(orders)
      ensures nextUserId == old(nextUserId) && nextOrderId == old(nextOrderId)
      ensures fault == ReadFails || !Has(old(users), UserKey, id) ==>
                resp == Reply(404, ErrorBody(UserNotFound)) && users == old(users)
      ensures fault != ReadFails && Has(old(users), UserKey, id)
              && (body.email == "" || body.password == "") ==>
                resp == Reply(422, ErrorBody(NoData)) && users == old(users)
      ensures fault != ReadFails && Has(old(users), UserKey, id)
              && body.email != "" && body.password != "" && fault == WriteFails ==>
                resp == Fatal(UpdateFailed) && users == old(users)
      ensures fault != ReadFails && Has(old(users), UserKey, id)
              && body.email != "" && body.password != "" && fault != WriteFails ==>
                var row := User(id, body.email, body.password, body.name, "", "");
                && resp == Reply(200, UserBody(row))
                && users == Replace(old(users), UserKey, row)
                && |users| == |old(users)|
                && Find(users, UserKey, id) == Some(row)
                && forall k :: k != id ==> Find(users, UserKey, k) == Find(old(users), UserKey, k)
    {
      var found := if fault == ReadFails then None else Find(users, UserKey, id);
      if found.Some? {
        var row := User(id, body.email, body.password, body.name, "", "");
        if row.email != "" && row.password != "" {
          if fault != WriteFails {
            ReplaceOrdered(users, UserKey, row, nextUserId);
            ReplaceFinds(users, UserKey, row);
            forall k | k != id
              ensures Find(Replace(users, UserKey, row), UserKey, k) == Find(users, UserKey, k)
            {
              ReplaceKeepsOthers(users, UserKey, row, k);
            }
            users := Replace(users, UserKey, row);
            resp := Reply(200, UserBody(row));
          } else {
            resp := Fatal(UpdateFailed);
          }
        } else {
          resp := Reply(422, ErrorBody(NoData));
        }
      } else {
        resp := Reply(404, ErrorBody(UserNotFound));
      }
    }

    /** DELETE /users/:id: checks that the row exists, then removes
        exactly that row and acknowledges the id with 200; an absent id is
        404 and nothing changes. A failed DELETE ends the process. */
    method DeleteUser(id: int, fault: Fault) returns (resp: Response)
      requires Valid()
      modifies this
      ensures Valid()
      ensures orders == old(orders)
      ensures nextUserId == old(nextUserId) && nextOrderId == old(nextOrderId)
      ensures fault == ReadFails || !Has(old(users), UserKey, id) ==>
                resp == Reply(404, ErrorBody(UserNotFound)) && users == old(users)
      ensures fault == WriteFails && Has(old(users), UserKey, id) ==>
                resp == Fatal(DeleteFailed) && users == old(users)
      ensures fault != ReadFails && fault != WriteFails && Has(old(users), UserKey, id) ==>
                && resp == Reply(200, DeletedBody(id))
                && users == Remove(old(users), UserKey, id)
                && |users| == |old(users)| - 1
                && !Has(users, UserKey, id)
                && forall k :: k != id ==> Find(users, UserKey, k) == Find(old(users), UserKey, k)
    {
      var found := if fault == ReadFails then None else Find(users, UserKey, id);
      if found.Some? {
        if fault != WriteFails {
          RemoveOrdered(users, UserKey, id);
          RemoveBelow(users, UserKey, id, nextUserId);
          RemovePresent(users, UserKey, id);
          forall k | k != id
            ensures Find(Remove(users, UserKey, id), UserKey, k) == Find(users, UserKey, k)
          {
            RemoveKeepsOthers(users, UserKey, id, k);
          }
          users := Remove(users, UserKey, id);
          resp := Reply(200, DeletedBody(id));
        } else {
          resp := Fatal(DeleteFailed);
        }
      } else {
        resp := Reply(404, ErrorBody(UserNotFound));
      }
    }

    /** GET /products: the whole catalogue, or 404 carrying the store's error. */
    method GetProducts(fault: Fault) returns (resp: Response)
      ensures fault == ReadFails ==> resp == Reply(404, StoreErrorBody)
      ensures fault != ReadFails ==> resp == Reply(200, ProductListBody(products))
    {
      if fault != ReadFails {
        resp := Reply(200, ProductListBody(products));
      } else {
        resp := Reply(404, StoreErrorBody);
      }
    }

    /** GET /product/:id: the stored product with that id, every field
        copied; 404 (with the message "user not found") otherwise. */
    method GetProduct(id: int, fault: Fault) returns (resp: Response)
      requires Valid()
      ensures fault == ReadFails || !Has(products, ProductKey, id) ==>
                resp == Reply(404, ErrorBody(UserNotFound))
      ensures fault != ReadFails ==>
                forall p | p in products && p.id == id :: resp == Reply(200, ProductBody(p))
    {
      var found := if fault == ReadFails then None else Find(products, ProductKey, id);
      if found.Some? {
        resp := Reply(200, ProductBody(found.value.(id := id)));
        forall p | p in products && p.id == id
          ensures Find(products, ProductKey, id) == Some(p)
        {
          FindStored(products, ProductKey, p);
        }
      } else {
        resp := Reply(404, ErrorBody(UserNotFound));
      }
    }

    /** POST /authentication: with both fields non-empty, 200 and the
        token exactly when some stored user has that email and that
        password, and 404 otherwise; with either field empty it issues no
        lookup and sends nothing. It changes nothing. */
    method Authentication(body: User, fault: Fault) returns (resp: Response)
      ensures body.email == "" || body.password == "" ==> resp == NoReply
      ensures body.email != "" && body.password != "" ==>
                (resp == Reply(200, TokenBody(Authenticated)) <==>
                   fault != ReadFails && HasLogin(users, body.email, body.password))
      ensures body.email != "" && body.password != "" ==>
                (resp == Reply(404, ErrorBody(BadCredentials)) <==>
                   fault == ReadFails || !HasLogin(users, body.email, body.password))
    {
      resp := NoReply;
      if body.email != "" && body.password != "" {
        var found := if fault == ReadFails then None else FindLogin(users, body.email, body.password);
        if found.Some? {
          resp := Reply(200, TokenBody(Authenticated));
        } else {
          resp := Reply(404, ErrorBody(BadCredentials));
        }
      }
    }

    /** POST /order: a zero product id is 422 and nothing is written.
        Otherwise one order row is inserted under the next order id with
        the body's user, product and order number, and returned with 201.
        Neither the user nor the product is looked up. A failed INSERT
        leaves no reply and no row; a failed `LastInsertId` ends the
        process after the row is written. */
    method PostOrder(body: Order, fault: Fault) returns (resp: Response)
      requires Valid()
      modifies this
      ensures Valid()
      ensures users == old(users) && nextUserId == old(nextUserId)
      ensures body.idProduct == 0 ==>
                resp == Reply(422, ErrorBody(FieldsEmpty))
                && orders == old(orders) && nextOrderId == old(nextOrderId)
      ensures body.idProduct != 0 && fault == WriteFails ==>
                resp == NoReply && orders == old(orders) && nextOrderId == old(nextOrderId)
      ensures body.idProduct != 0 && fault != WriteFails ==>
                var row := Order(old(nextOrderId), body.idUser, body.orderNumber, body.idProduct);
                && orders == old(orders) + [row]
                && nextOrderId == old(nextOrderId) + 1
                && !Has(old(orders), OrderKey, row.id)
                && Find(orders, OrderKey, row.id) == Some(row)
                && (forall k :: k != row.id ==> Find(orders, OrderKey, k) == Find(old(orders), OrderKey, k))
                && resp == (if fault == InsertIdFails then Fatal(InsertFailed)
                            else Reply(201, OrderBody(row)))
    {
      if body.idProduct != 0 {
        if fault != WriteFails {
          var row := Order(nextOrderId, body.idUser, body.orderNumber, body.idProduct);
          Append(orders, OrderKey, nextOrderId, row);
          orders := orders + [row];
          nextOrderId := nextOrderId + 1;
          if fault != InsertIdFails {
            resp := Reply(201, OrderBody(row));
          } else {
            resp := Fatal(InsertFailed);
          }
        } else {
          resp := NoReply;
        }
      } else {
        resp := Reply(422, ErrorBody(FieldsEmpty));
      }
    }

    /** POST /order/verify/:order: answers 200 "Verify Complete" exactly
        when the order lookup reports an error, and sends nothing when the
        lookup succeeds. It changes nothing. */
    method VerifyOrder(order: int, lookupErred: bool) returns (resp: Response)
      ensures lookupErred <==> resp == Reply(200, VerifyBody(VerifyComplete))
      ensures !lookupErred ==> resp == NoReply
    {
      if lookupErred {
        resp := Reply(200, VerifyBody(VerifyComplete));
      } else {
        resp := NoReply;
      }
    }
  }
}
