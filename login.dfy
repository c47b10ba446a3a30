/** The login page: look the credential pair up in the user list and, on a match, write the
    session record and go to the dashboard. */
module Login {
  import opened Wrappers
  import opened Strings
  import opened SessionConfig
  import opened Browser
  import opened SessionTimeout

  /** An entry of the user list, with the two fields the login compares. */
  datatype Account = Account(username: string, password: string)

  predicate Matches(a: Account, username: string, password: string) {
    a.username == username && a.password == password
  }

  /** `users.find(u => u.username === username && u.password === password)`, as the index of the
      element `find` returns: the first matching entry, or None when no entry matches. */
  function FindUser(users: seq<Account>, username: string, password: string): (r: Option<nat>)
    ensures r.Some? ==> r.value < |users| && Matches(users[r.value], username, password)
    ensures r.Some? ==> forall j :: 0 <= j < r.value ==> !Matches(users[j], username, password)
    ensures r.None? <==> forall j :: 0 <= j < |users| ==> !Matches(users[j], username, password)
  {
    if |users| == 0 then None
    else if Matches(users[0], username, password) then Some(0)
    else
      var r := FindUser(users[1..], username, password);
      assert forall j :: 1 <= j < |users| ==> users[j] == users[1..][j - 1];
      if r.Some? then Some(r.value + 1) else None
  }

  /** `generateSessionId`: the base-36 digits of a random number after its "0." (an arbitrary
      string, possibly empty) followed by the base-36 form of the current time. */
  function GenerateSessionId(randomPart: string, now: nat): (id: string)
    ensures |id| > 0
  {
    randomPart + ToRadixString(now, 36)
  }

  /** The store after a successful login by username at time now with session id id. */
  function LoggedIn(items: Store, id: string, now: nat, username: string): Store {
    items[SESSION_ID_KEY := id][SESSION_EXPIRY_KEY := NatToString(now + TIMEOUT_DURATION)][USERNAME_KEY := username]
  }

  const INVALID_CREDENTIALS: string := "Invalid username or password"

  /** The login form's state and its submit handler. */
  class LoginPage {
    const storage: LocalStorage
    const router: Router
    const users: seq<Account>
    var username: string
    var password: string
    var error: string

    constructor (storage: LocalStorage, router: Router, users: seq<Account>)
      ensures this.storage == storage && this.router == router && this.users == users
      ensures username == "" && password == "" && error == ""
    {
      this.storage := storage;
      this.router := router;
      this.users := users;
      username, password, error := "", "", "";
    }

    /** `handleSubmit`, with randomPart the random digits of the new session id. The handler
        reads the clock twice: idClock inside `generateSessionId`, then now for the expiry. */
    method HandleSubmit(idClock: nat, now: nat, randomPart: string)
      modifies this, storage, router
      ensures username == old(username) && password == old(password)
      ensures FindUser(users, username, password).Some? ==>
        && storage.items == LoggedIn(old(storage.items), GenerateSessionId(randomPart, idClock), now, username)
        && router.history == old(router.history) + [DashboardPath]
        && error == old(error)
      ensures FindUser(users, username, password).None? ==>
        && storage.items == old(storage.items)
        && router.history == old(router.history)
        && error == INVALID_CREDENTIALS
    {
      var user := FindUser(users, username, password);
      if user.Some? {
        var sessionId := GenerateSessionId(randomPart, idClock);
        var expiryTime := now + TIMEOUT_DURATION;
        storage.SetItem(SESSION_ID_KEY, sessionId);
        storage.SetItem(SESSION_EXPIRY_KEY, NatToString(expiryTime));
        storage.SetItem(USERNAME_KEY, username);
        router.Navigate(DashboardPath, false);
      } else {
        error := INVALID_CREDENTIALS;
      }
    }
  }

  /** Login succeeds exactly when some entry has both the entered username and password. */
  lemma LoginSucceedsIff(users: seq<Account>, username: string, password: string)
    ensures FindUser(users, username, password).Some? <==> Account(username, password) in users
  {
    if Account(username, password) in users {
      var j :| 0 <= j < |users| && users[j] == Account(username, password);
      assert Matches(users[j], username, password);
    }
    if FindUser(users, username, password).Some? {
      assert users[FindUser(users, username, password).value] == Account(username, password);
    }
  }

  /** A successful login overwrites the three session keys whatever they held, keeps every
      other key, and stores an expiry that reads back as now + TIMEOUT_DURATION. */
  lemma LoggedInRecord(items: Store, id: string, now: nat, username: string, k: string)
    ensures var s := LoggedIn(items, id, now, username);
      && s[SESSION_ID_KEY] == id && s[USERNAME_KEY] == username
      && StoredExpiry(s) == Some(now + TIMEOUT_DURATION)
      && (k != SESSION_ID_KEY && k != SESSION_EXPIRY_KEY && k != USERNAME_KEY ==>
            (k in s <==> k in items) && (k in items ==> s[k] == items[k]))
  {
    ParseIntOfNatToString(now + TIMEOUT_DURATION);
  }
}
