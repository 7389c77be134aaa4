/** Clients of the handlers: what a caller can conclude from the handler
    contracts alone about requests issued one after another. */
module Scenarios {
  import opened Tables
  import opened Records
  import opened Api

  /** Registering a user and then fetching the id the reply carried
      returns that id with the same email and password. */
  method CreateThenGet(s: Store, body: User) returns (created: Response, fetched: Response)
    requires s.Valid()
    requires body.email != "" && body.password != ""
    modifies s
    ensures s.Valid()
    ensures created.Reply? && created.status == 201 && created.body.UserBody?
    ensures var u := created.body.user;
            u.id >= 1 && u.email == body.email && u.password == body.password
            && fetched == Reply(200, UserBody(User(u.id, body.email, body.password, "", "", "")))
  {
    created := s.PostUser(body, NoFault);
    var id := created.body.user.id;
    fetched := s.GetUser(id, NoFault);
    assert Find(s.users, UserKey, id).value in s.users;
  }

  /** Deleting is not idempotent: deleting a present id succeeds once and
      the second delete of the same id is 404 with the table as the first
      delete left it. */
  method DeleteTwice(s: Store, id: int) returns (first: Response, second: Response)
    requires s.Valid()
    requires Has(s.users, UserKey, id)
    modifies s
    ensures s.Valid()
    ensures first == Reply(200, DeletedBody(id))
    ensures second == Reply(404, ErrorBody(UserNotFound))
    ensures s.users == Remove(old(s.users), UserKey, id)
    ensures |s.users| == |old(s.users)| - 1 && !Has(s.users, UserKey, id)
  {
    first := s.DeleteUser(id, NoFault);
    second := s.DeleteUser(id, NoFault);
  }

  /** A user just registered can authenticate with the same email and
      password. */
  method RegisterThenLogin(s: Store, body: User) returns (created: Response, login: Response)
    requires s.Valid()
    requires body.email != "" && body.password != ""
    modifies s
    ensures s.Valid()
    ensures created.Reply? && created.status == 201
    ensures login == Reply(200, TokenBody(Authenticated))
  {
    created := s.PostUser(body, NoFault);
    var row := created.body.user;
    assert s.users[|s.users| - 1] == row;
    login := s.Authentication(body, NoFault);
  }

  /** An update replaces the whole row: fetching it afterwards shows the
      new email and password, and an update of an id that was deleted is
      404 even when its body is empty. */
  method UpdateThenGet(s: Store, id: int, body: User)
    returns (updated: Response, fetched: Response, deleted: Response, stale: Response)
    requires s.Valid()
    requires Has(s.users, UserKey, id)
    requires body.email != "" && body.password != ""
    modifies s
    ensures s.Valid()
    ensures updated == Reply(200, UserBody(User(id, body.email, body.password, body.name, "", "")))
    ensures fetched == Reply(200, UserBody(User(id, body.email, body.password, "", "", "")))
    ensures deleted == Reply(200, DeletedBody(id))
    ensures stale == Reply(404, ErrorBody(UserNotFound))
  {
    updated := s.UpdateUser(id, body, NoFault);
    fetched := s.GetUser(id, NoFault);
    assert Find(s.users, UserKey, id).value in s.users;
    deleted := s.DeleteUser(id, NoFault);
    stale := s.UpdateUser(id, User(0, "", "", "", "", ""), NoFault);
  }

  /** On a fresh database, `POST /users {email:"a@x.com", password:"p"}`
      answers 201 with id 1, and `GET /user/1` then returns the same
      email and password under id 1. */
  method RegisterThenFetch() returns (created: Response, fetched: Response)
    ensures created == Reply(201, UserBody(User(1, "a@x.com", "p", "", "", "")))
    ensures fetched == Reply(200, UserBody(User(1, "a@x.com", "p", "", "", "")))
  {
    var s := new Store([]);
    created := s.PostUser(User(0, "a@x.com", "p", "", "", ""), NoFault);
    fetched := s.GetUser(1, NoFault);
    assert s.users == [User(1, "a@x.com", "p", "", "", "")];
  }

  /** An order is accepted for a product id the catalogue does not hold
      and a user id that is not registered: no reference is checked. */
  method OrderWithoutReferences() returns (placed: Response)
    ensures placed == Reply(201, OrderBody(Order(1, 7, 42, 99)))
  {
    var s := new Store([]);
    placed := s.PostOrder(Order(0, 7, 42, 99), NoFault);
  }
}
