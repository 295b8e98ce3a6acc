/**
 * The request handlers over the registry: the login lookup and the three
 * protected handlers that change the list, each ending in one response.
 * The protected handlers are modelled as what runs after the bearer token was
 * admitted.
 */
module Handlers {
  import opened Wrappers
  import opened Registry
  import opened Auth

  /** What a handler sends back */
  datatype Response =
    | Listed(users: seq<User>)   // 200 with the whole list
    | TokenIssued(token: Token)  // 200 with `{token}`
    | InvalidCredentials         // 401 "Invalid credentials"
    | UserNotFound               // 404 "User not found"
  {
    function Status(): (code: int)
      ensures code in {200, 401, 404}
      ensures code == 200 <==> (Listed? || TokenIssued?)
      ensures code == 401 <==> InvalidCredentials?
      ensures code == 404 <==> UserNotFound?
    {
      match this
      case Listed(_) => 200
      case TokenIssued(_) => 200
      case InvalidCredentials => 401
      case UserNotFound => 404
    }
  }

  /**
   * `POST /login`: the first record with exactly the given name gets a token
   * carrying its id; no such record gets a 401. The list is only read.
   */
  function Login(users: seq<User>, name: Name): (r: Response)
    ensures r.TokenIssued? <==> HasMatch(users, ByName(name))
    ensures forall i :: IsFirst(users, ByName(name), i) ==> r == TokenIssued(Token(users[i].id))
    ensures !HasMatch(users, ByName(name)) ==> r == InvalidCredentials && r.Status() == 401
  {
    match FirstIndex(users, ByName(name))
    case None => InvalidCredentials
    case Some(i) => TokenIssued(Token(users[i].id))
  }

  /**
   * A token from a successful login is admitted by the verify callback for as
   * long as the list is unchanged. When ids are distinct it resolves to the
   * very record the login found.
   */
  lemma LoginThenAuthenticate(users: seq<User>, name: Name)
    requires Login(users, name).TokenIssued?
    ensures var u := Authenticate(users, Login(users, name).token);
      u.Some? && u.value.id == Login(users, name).token.id
      && (DistinctIds(users) ==> u.value.name == name)
  {
  }

  /**
   * The hard-coded append id breaks that: after two appends and a rename of
   * id 4, logging in as "Jane" yields a token that resolves to the renamed
   * record instead.
   */
  lemma DuplicateIdResolvesToOtherRecord()
    ensures var s := Renamed(Appended(Appended(Seed)), Some(4), Text("Kim"));
      && s.Some?
      && Login(s.value, Text("Jane")) == TokenIssued(Token(4))
      && Authenticate(s.value, Token(4)) == Some(User(4, Text("Kim")))
  {
  }

  /** The module-level list the handlers share and mutate in place */
  class UserStore {
    var users: seq<User>

    /** The list as seeded at start-up */
    constructor ()
      ensures users == Seed && DistinctIds(users)
    {
      users := Seed;
    }

    /** `POST /users`: pushes the fixed record and sends the list */
    method Post() returns (r: Response)
      modifies this
      ensures users == Appended(old(users))
      ensures r == Listed(users)
    {
      // the in-place counterpart of Appended
      users := users + [Added];
      r := Listed(users);
    }

    /**
     * `PUT /users/:id`: renames the first record with that id in place and
     * sends the list; a 404 with the list untouched when no record has it.
     */
    method Put(id: Option<int>, name: Name) returns (r: Response)
      modifies this
      ensures Renamed(old(users), id, name).None? ==> r == UserNotFound && users == old(users)
      ensures Renamed(old(users), id, name).Some? ==>
        users == Renamed(old(users), id, name).value && r == Listed(users)
    {
      var found := FirstIndex(users, ById(id));
      if found.None? {
        r := UserNotFound;
        return;
      }
      var i := found.value;
      // the in-place counterpart of Renamed
      users := users[i := users[i].(name := name)];
      r := Listed(users);
    }

    /**
     * `DELETE /users/:id`: splices out the first record with that id and
     * sends the list; a 404 with the list untouched when no record has it.
     */
    method Delete(id: Option<int>) returns (r: Response)
      modifies this
      ensures Removed(old(users), id).None? ==> r == UserNotFound && users == old(users)
      ensures Removed(old(users), id).Some? ==>
        users == Removed(old(users), id).value && r == Listed(users)
    {
      var found := FirstIndex(users, ById(id));
      if found.None? {
        r := UserNotFound;
        return;
      }
      var i := found.value;
      // the in-place counterpart of Removed
      users := users[..i] + users[i + 1..];
      r := Listed(users);
    }
  }

  /**
   * A session against a fresh store: log in as "Amir", rename id 2 to "Jon",
   * delete id 2, then delete it again.
   */
  method ExampleSession() {
    var store := new UserStore();
    var login := Login(store.users, Text("Amir"));
    assert IsFirst(store.users, ByName(Text("Amir")), 0);
    assert login == TokenIssued(Token(1));
    assert IsFirst(store.users, ById(Some(1)), 0);
    assert Authenticate(store.users, login.token) == Some(User(1, Text("Amir")));

    assert IsFirst(store.users, ById(Some(2)), 1);
    var r := store.Put(Some(2), Text("Jon"));
    assert store.users == [User(1, Text("Amir")), User(2, Text("Jon")), User(3, Text("Stacy"))];
    assert r.Status() == 200;

    assert IsFirst(store.users, ById(Some(2)), 1);
    r := store.Delete(Some(2));
    assert store.users == [User(1, Text("Amir")), User(3, Text("Stacy"))];
    assert r.Status() == 200;

    r := store.Delete(Some(2));
    assert r == UserNotFound;

    r := store.Put(None, Text("Jon"));
    assert r.Status() == 404;
  }
}
