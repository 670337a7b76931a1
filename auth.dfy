/** The session façade (src/utils/auth.ts): login, logout and the two session
    queries, each a thin step over the store's session pointer. */
module Auth {
  import opened Wrappers
  import opened Storage

  /** `login`: returns exactly what `verifyUser` decides and, on success, stores
      `username` as the session (an empty name clears it, as `setCurrentUser`
      treats "" like null). On failure the session is untouched. */
  method Login(store: Store, username: string, password: string, faults: Faults) returns (ok: bool)
    requires store.Valid()
    modifies store`session
    ensures store.Valid()
    ensures ok == (!faults.readFails && Authenticates(store.users, username, password))
    ensures store.session ==
              if ok && !faults.writeFails then (if username != "" then Some(username) else None)
              else old(store.session)
  {
    var isValid := store.VerifyUser(username, password, faults.readFails);
    if isValid {
      store.SetCurrentUser(Some(username), faults.writeFails);
    }
    ok := isValid;
  }

  /** `logout`: removes the session, unless the write fails. */
  method Logout(store: Store, writeFails: bool)
    requires store.Valid()
    modifies store`session
    ensures store.Valid()
    ensures store.session == if writeFails then old(store.session) else None
  {
    store.SetCurrentUser(None, writeFails);
  }

  /** `isLoggedIn`: whether `getCurrentUser` yields a name. */
  method IsLoggedIn(store: Store, readFails: bool) returns (r: bool)
    requires store.Valid()
    ensures r <==> !readFails && store.session.Some?
  {
    var current := store.GetCurrentUser(readFails);
    r := current.Some?;
  }

  /** `getLoggedInUser`: the same value `getCurrentUser` yields. */
  method GetLoggedInUser(store: Store, readFails: bool) returns (r: Option<string>)
    requires store.Valid()
    ensures r == if readFails then None else store.session
    ensures r.Some? ==> r.value != ""
  {
    r := store.GetCurrentUser(readFails);
  }

  /** Register, log in and query the session on a fresh store, with no storage
      errors: the account is created, the right password logs in, the session
      names the user, and a second registration of the name is refused. */
  method RegisterLoginScenario(username: string, password: string, now: int)
    returns (registered: bool, again: bool, loggedIn: bool, current: Option<string>)
    requires username != ""
    ensures registered && !again && loggedIn
    ensures current == Some(username)
  {
    var user := User(username, PasswordHash(password), now);
    var store := new Store();
    registered := store.SaveUser(username, password, now, NoFaults);
    assert store.users == [user];
    RegisteredIsFound([], user);
    again := store.SaveUser(username, password, now + 1, NoFaults);
    assert store.users == [user];
    RegisterThenAuthenticate([], username, password, now, password);
    assert Authenticates(store.users, username, password);
    loggedIn := Login(store, username, password, NoFaults);
    assert store.session == Some(username);
    current := GetLoggedInUser(store, false);
  }

  /** With a wrong password (one whose hash differs) the login fails and the
      session stays as it was; logging out then leaves nobody logged in. */
  method WrongPasswordScenario(username: string, password: string, wrong: string, now: int)
    returns (loggedIn: bool, before: bool, after: bool)
    requires HashFold(wrong) != HashFold(password)
    ensures !loggedIn && !before && !after
  {
    var store := new Store();
    var registered := store.SaveUser(username, password, now, NoFaults);
    assert store.users == [User(username, PasswordHash(password), now)];
    RegisterThenAuthenticate([], username, password, now, wrong);
    assert !Authenticates(store.users, username, wrong);
    loggedIn := Login(store, username, wrong, NoFaults);
    assert store.session == None;
    before := IsLoggedIn(store, false);
    Logout(store, false);
    after := IsLoggedIn(store, false);
  }
}
