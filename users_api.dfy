/** The saved-users API route: a JSON data file holding an array of user
    records keyed by email, and the request handler that lists, saves and
    deletes them (GET, POST, DELETE; every other method is refused with 405). */
module UsersApi {

  datatype Option<T> = None | Some(value: T)

  /** A saved user. Only `email` is ever examined; the nested `name`, `picture`
      and `location` objects are carried along as opaque text. `email == None`
      stands for a record whose email is absent (or not a string). */
  datatype User = User(gender: string, email: Option<string>, name: string, picture: string, location: string)

  /** What the data file holds when it is read: it may be missing, it may fail
      to parse, or it holds an array of users. */
  datatype StoreFile = Missing | Unparsable | Written(users: seq<User>)

  /** The parsed request body; `NoBody` stands for `null` or `undefined`. */
  datatype RequestBody = NoBody | Body(record: User)

  datatype Request = Request(verb: string, body: RequestBody)

  /** The JSON sent back, or for 405 the plain text. */
  datatype Payload =
    | UserList(users: seq<User>)
    | SavedUser(message: string, user: User)
    | Message(message: string)
    | Error(error: string)
    | Text(text: string)

  /** A response with its status, payload and `Allow` header (empty when not
      set), or `Thrown` when the handler raises before answering. */
  datatype Outcome = Reply(status: int, payload: Payload, allow: seq<string>) | Thrown

  const AllowedMethods: seq<string> := ["GET", "POST", "DELETE"]

  /** JavaScript truthiness of an optional string: absent and "" are falsy. */
  predicate Truthy(e: Option<string>) {
    e.Some? && e.value != ""
  }

  /** The body passes POST's validation: it exists and its email is truthy. */
  predicate ValidNewUser(body: RequestBody) {
    body.Body? && Truthy(body.record.email)
  }

  /** Some stored record has exactly the email `e` (the `===` match of `find`). */
  predicate HasEmail(users: seq<User>, e: string) {
    exists i :: 0 <= i < |users| && users[i].email == Some(e)
  }

  /** The store's invariant: no two stored records share an email. */
  predicate UniqueEmails(users: seq<User>) {
    forall i, j :: 0 <= i < j < |users| && users[i].email.Some? ==> users[i].email != users[j].email
  }

  /** How many stored records have the email `e`. */
  function Count(users: seq<User>, e: string): nat {
    if users == [] then 0
    else Count(users[..|users| - 1], e) + (if users[|users| - 1].email == Some(e) then 1 else 0)
  }

  /** The records whose email is not `e`, in their original order: the
      `filter((u) => u.email !== email)` of DELETE. */
  function Without(users: seq<User>, e: string): seq<User> {
    if users == [] then []
    else
      var last := users[|users| - 1];
      Without(users[..|users| - 1], e) + (if last.email == Some(e) then [] else [last])
  }

  /** `users.find((u) => u.email === email)`: the first record with that email. */
  method FindByEmail(users: seq<User>, e: string) returns (found: Option<User>)
    ensures found.Some? <==> HasEmail(users, e)
    ensures found.Some? ==>
      exists i :: 0 <= i < |users| && users[i] == found.value && users[i].email == Some(e) &&
        forall j :: 0 <= j < i ==> users[j].email != Some(e)
  {
    var i := 0;
    while i < |users|
      invariant 0 <= i <= |users|
      invariant forall j :: 0 <= j < i ==> users[j].email != Some(e)
    {
      if users[i].email == Some(e) {
        return Some(users[i]);
      }
      i := i + 1;
    }
    return None;
  }

  /** `users.filter((u) => u.email !== email)`. */
  method RemoveByEmail(users: seq<User>, e: string) returns (kept: seq<User>)
    ensures kept == Without(users, e)
  {
    kept := [];
    for i := 0 to |users|
      invariant kept == Without(users[..i], e)
    {
      assert users[..i + 1][..i] == users[..i];
      if users[i].email != Some(e) {
        kept := kept + [users[i]];
      }
    }
    assert users[..|users|] == users;
  }

  lemma {:induction false} CountZeroIffAbsent(users: seq<User>, e: string)
    ensures Count(users, e) == 0 <==> !HasEmail(users, e)
  {
    if users != [] {
      var init := users[..|users| - 1];
      CountZeroIffAbsent(init, e);
      if HasEmail(init, e) {
        var i :| 0 <= i < |init| && init[i].email == Some(e);
        assert users[i] == init[i];
      }
      if HasEmail(users, e) && users[|users| - 1].email != Some(e) {
        var i :| 0 <= i < |users| && users[i].email == Some(e);
        assert init[i] == users[i];
      }
    }
  }

  /** Filtering removes exactly the records that carry the email. */
  lemma {:induction false} WithoutLength(users: seq<User>, e: string)
    ensures |Without(users, e)| + Count(users, e) == |users|
  {
    if users != [] {
      WithoutLength(users[..|users| - 1], e);
    }
  }

  /** Under the invariant an email occurs at most once. */
  lemma {:induction false} UniqueCountAtMostOne(users: seq<User>, e: string)
    requires UniqueEmails(users)
    ensures Count(users, e) <= 1
  {
    if users != [] {
      var n := |users| - 1;
      var init := users[..n];
      assert UniqueEmails(init) by {
        forall i, j | 0 <= i < j < |init| && init[i].email.Some?
          ensures init[i].email != init[j].email
        {
          assert init[i] == users[i] && init[j] == users[j];
        }
      }
      UniqueCountAtMostOne(init, e);
      if users[n].email == Some(e) {
        assert !HasEmail(init, e) by {
          forall i | 0 <= i < |init| ensures init[i].email != Some(e) {
            assert init[i] == users[i];
          }
        }
        CountZeroIffAbsent(init, e);
      }
    }
  }

  /** A record survives the filter exactly when it was stored and its email differs. */
  lemma {:induction false} WithoutMembership(users: seq<User>, e: string, u: User)
    ensures u in Without(users, e) <==> u in users && u.email != Some(e)
  {
    if users != [] {
      var init := users[..|users| - 1];
      WithoutMembership(init, e, u);
      assert users == init + [users[|users| - 1]];
    }
  }

  /** Filtering distributes over concatenation, so the kept records keep their order. */
  lemma {:induction false} WithoutAppend(a: seq<User>, b: seq<User>, e: string)
    ensures Without(a + b, e) == Without(a, e) + Without(b, e)
  {
    if b == [] {
      assert a + b == a;
    } else {
      var n := |b| - 1;
      assert (a + b)[..|a + b| - 1] == a + b[..n];
      WithoutAppend(a, b[..n], e);
    }
  }

  /** Deleting an email that is not stored keeps the collection as it was. */
  lemma {:induction false} WithoutAbsent(users: seq<User>, e: string)
    requires !HasEmail(users, e)
    ensures Without(users, e) == users
  {
    if users != [] {
      var n := |users| - 1;
      assert !HasEmail(users[..n], e) by {
        forall i | 0 <= i < n ensures users[..n][i].email != Some(e) {
          assert users[..n][i] == users[i];
        }
      }
      WithoutAbsent(users[..n], e);
      assert users[n].email != Some(e);
      assert users == users[..n] + [users[n]];
    }
  }

  /** DELETE's 404 test: the filtered array has its old length exactly when
      the email was absent; under the invariant a present email costs one record. */
  lemma WithoutShrinks(users: seq<User>, e: string)
    ensures |Without(users, e)| == |users| <==> !HasEmail(users, e)
    ensures UniqueEmails(users) && HasEmail(users, e) ==> |Without(users, e)| == |users| - 1
  {
    WithoutLength(users, e);
    CountZeroIffAbsent(users, e);
    if UniqueEmails(users) {
      UniqueCountAtMostOne(users, e);
    }
  }

  /** After a delete no record with that email remains. */
  lemma WithoutRemovesAll(users: seq<User>, e: string)
    ensures !HasEmail(Without(users, e), e)
  {
  }

  /** Filtering keeps the invariant. */
  lemma {:induction false} WithoutKeepsUnique(users: seq<User>, e: string)
    requires UniqueEmails(users)
    ensures UniqueEmails(Without(users, e))
  {
    if users != [] {
      var n := |users| - 1;
      var init := users[..n];
      var last := users[n];
      assert UniqueEmails(init) by {
        forall i, j | 0 <= i < j < |init| && init[i].email.Some?
          ensures init[i].email != init[j].email
        {
          assert init[i] == users[i] && init[j] == users[j];
        }
      }
      WithoutKeepsUnique(init, e);
      if last.email != Some(e) {
        var w := Without(init, e);
        forall i | 0 <= i < |w| && w[i].email.Some? ensures w[i].email != last.email {
          WithoutMembership(init, e, w[i]);
          var k :| 0 <= k < |init| && init[k] == w[i];
          assert users[k] == init[k];
        }
        assert Without(users, e) == w + [last];
      }
    }
  }

  /** Appending a record whose email is not yet stored keeps the invariant. */
  lemma AppendFreshKeepsUnique(users: seq<User>, u: User)
    requires UniqueEmails(users)
    requires u.email.Some? && !HasEmail(users, u.email.value)
    ensures UniqueEmails(users + [u])
  {
  }

  /** After a successful save exactly one record carries the new email. */
  lemma SaveLeavesOne(users: seq<User>, u: User)
    requires u.email.Some? && !HasEmail(users, u.email.value)
    ensures Count(users + [u], u.email.value) == 1
  {
    CountZeroIffAbsent(users, u.email.value);
    assert (users + [u])[..|users|] == users;
  }

  /** The durable store behind the route. `file` is what a read of the data
      file finds; `writeUsers` overwrites it. */
  class UsersStore {
    var file: StoreFile

    constructor (initial: StoreFile)
      ensures file == initial
    {
      file := initial;
    }

    /** `readUsers`: the stored array, or [] when the file is missing or unparsable. */
    function Users(): seq<User>
      reads this
    {
      if file.Written? then file.users else []
    }

    /** `writeUsers`: the file now holds exactly `users`. */
    method WriteUsers(users: seq<User>)
      modifies this
      ensures file == Written(users)
    {
      file := Written(users);
    }

    /** The route handler, one request at a time. */
    method Handle(req: Request) returns (out: Outcome)
      modifies this
      ensures req.verb == "GET" ==>
        out == Reply(200, UserList(old(Users())), []) && file == old(file)
      ensures req.verb == "POST" && !ValidNewUser(req.body) ==>
        out == Reply(400, Error("Invalid user data"), []) && file == old(file)
      ensures req.verb == "POST" && ValidNewUser(req.body) && HasEmail(old(Users()), req.body.record.email.value) ==>
        out == Reply(409, Error("User already saved"), []) && file == old(file)
      ensures req.verb == "POST" && ValidNewUser(req.body) && !HasEmail(old(Users()), req.body.record.email.value) ==>
        out == Reply(201, SavedUser("User saved", req.body.record), []) &&
        file == Written(old(Users()) + [req.body.record])
      ensures req.verb == "DELETE" && req.body.NoBody? ==>
        out == Thrown && file == old(file)
      ensures req.verb == "DELETE" && req.body.Body? && !Truthy(req.body.record.email) ==>
        out == Reply(400, Error("Email is required"), []) && file == old(file)
      ensures req.verb == "DELETE" && req.body.Body? && Truthy(req.body.record.email) &&
              !HasEmail(old(Users()), req.body.record.email.value) ==>
        out == Reply(404, Error("User not found"), []) && file == old(file)
      ensures req.verb == "DELETE" && req.body.Body? && Truthy(req.body.record.email) &&
              HasEmail(old(Users()), req.body.record.email.value) ==>
        out == Reply(200, Message("User deleted"), []) &&
        file == Written(Without(old(Users()), req.body.record.email.value))
      ensures req.verb !in AllowedMethods ==>
        out == Reply(405, Text("Method " + req.verb + " Not Allowed"), AllowedMethods) && file == old(file)
      ensures UniqueEmails(old(Users())) ==> UniqueEmails(Users())
    {
      if req.verb == "GET" {
        var users := Users();
        return Reply(200, UserList(users), []);
      }

      if req.verb == "POST" {
        if req.body.NoBody? || !Truthy(req.body.record.email) {
          return Reply(400, Error("Invalid user data"), []);
        }
        var newUser := req.body.record;
        var users := Users();
        var existing := FindByEmail(users, newUser.email.value);
        if existing.Some? {
          return Reply(409, Error("User already saved"), []);
        }
        if UniqueEmails(users) {
          AppendFreshKeepsUnique(users, newUser);
        }
        users := users + [newUser];
        WriteUsers(users);
        return Reply(201, SavedUser("User saved", newUser), []);
      }

      if req.verb == "DELETE" {
        if req.body.NoBody? {
          // destructuring `req.body` raises a TypeError
          return Thrown;
        }
        var email := req.body.record.email;
        if !Truthy(email) {
          return Reply(400, Error("Email is required"), []);
        }
        var users := Users();
        var initialLength := |users|;
        WithoutShrinks(users, email.value);
        if UniqueEmails(users) {
          WithoutKeepsUnique(users, email.value);
        }
        users := RemoveByEmail(users, email.value);
        if |users| == initialLength {
          return Reply(404, Error("User not found"), []);
        }
        WriteUsers(users);
        return Reply(200, Message("User deleted"), []);
      }

      return Reply(405, Text("Method " + req.verb + " Not Allowed"), AllowedMethods);
    }
  }

  /** Saving on a store whose file does not exist yet: save 201, list [u],
      save the same email again 409, and the list is still [u]. */
  method SaveTwiceScenario(u: User) returns (statuses: seq<int>, listed: seq<seq<User>>)
    requires u.email == Some("a@x.com")
    ensures statuses == [201, 200, 409, 200]
    ensures listed == [[u], [u]]
  {
    assert "GET" != "POST" && "GET" != "DELETE" && "POST" != "DELETE";
    var store := new UsersStore(Missing);
    var saved := store.Handle(Request("POST", Body(u)));
    assert saved.status == 201 && store.Users() == [u];
    var list1 := store.Handle(Request("GET", NoBody));
    assert [u][0].email == Some("a@x.com");
    var again := store.Handle(Request("POST", Body(u)));
    assert again.status == 409 && store.Users() == [u];
    var list2 := store.Handle(Request("GET", NoBody));
    statuses := [saved.status, list1.status, again.status, list2.status];
    listed := [list1.payload.users, list2.payload.users];
  }

  /** Deleting from a store holding [u]: delete 200, list [], delete the same
      email again 404. */
  method DeleteTwiceScenario(u: User) returns (statuses: seq<int>, listed: seq<User>)
    requires u.email == Some("a@x.com")
    ensures statuses == [200, 200, 404]
    ensures listed == []
  {
    assert "GET" != "POST" && "GET" != "DELETE" && "POST" != "DELETE";
    var store := new UsersStore(Written([u]));
    assert [u][0].email == Some("a@x.com");
    var deleted := store.Handle(Request("DELETE", Body(u)));
    assert Without([u], "a@x.com") == [];
    assert deleted.status == 200 && store.Users() == [];
    var list := store.Handle(Request("GET", NoBody));
    var missing := store.Handle(Request("DELETE", Body(u)));
    statuses := [deleted.status, list.status, missing.status];
    listed := list.payload.users;
  }
}
