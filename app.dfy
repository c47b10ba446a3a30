/** The application's route table and the properties that connect the login page, the route
    guard and the session monitor through the shared session record. */
module App {
  import opened Wrappers
  import opened Strings
  import opened SessionConfig
  import opened Browser
  import opened SessionTimeout
  import opened ProtectedRoute
  import opened Login

  /** The routes wrapped in the guard. */
  predicate IsProtected(p: Path) {
    p == DashboardPath || p == UserManagementPath
  }

  /** The page that ends up rendered when p is entered at time now: the root redirects to the
      dashboard, a protected page goes through the guard, the login page is always open. */
  function Resolve(p: Path, items: Store, now: nat): (shown: Path)
    ensures IsProtected(shown) ==> IsSessionValid(items, now)
    ensures shown == LoginPath || IsProtected(shown)
  {
    var target := if p == RootPath then DashboardPath else p;
    if target == LoginPath || Guard(items, now) == Render then target else LoginPath
  }

  /** A protected page is shown exactly when the session is valid. */
  lemma ResolveProtected(p: Path, items: Store, now: nat)
    requires IsProtected(p)
    ensures Resolve(p, items, now) == p <==> IsSessionValid(items, now)
  {
  }

  /** Right after a successful login whose expiry was computed at now, the guard grants
      access, and it keeps granting it up to and including now + TIMEOUT_DURATION, and not
      after, whatever clock reading the session id was built from. */
  lemma LoginThenGuard(items: Store, randomPart: string, idClock: nat, now: nat, username: string, t: nat)
    ensures var s := LoggedIn(items, GenerateSessionId(randomPart, idClock), now, username);
      IsSessionValid(s, t) <==> t <= now + TIMEOUT_DURATION
    ensures IsSessionValid(LoggedIn(items, GenerateSessionId(randomPart, idClock), now, username), now)
  {
    LoggedInRecord(items, GenerateSessionId(randomPart, idClock), now, username, SESSION_ID_KEY);
  }

  /** A session the guard accepts is never torn down by an audit at the same time, and a
      session the audit tears down is one the guard refuses. */
  lemma GuardValidSurvivesAudit(items: Store, now: nat)
    ensures IsSessionValid(items, now) ==> AfterAudit(items, now) == items
    ensures AuditClears(items, now) ==> Guard(items, now) == Redirect(LoginPath, true)
  {
  }

  /** Guard and audit agree at the boundary: at the expiry instant the guard grants and the
      audit keeps the session; one millisecond later the guard refuses and the audit tears
      down. */
  lemma BoundaryAgreement(items: Store, e: nat)
    requires Truthy(items, SESSION_ID_KEY) && StoredExpiry(items) == Some(e)
    ensures Guard(items, e) == Render && !AuditClears(items, e)
    ensures Guard(items, e + 1) == Redirect(LoginPath, true) && AuditClears(items, e + 1)
  {
  }

  /** The two readers disagree on a non-numeric expiry: the guard refuses access, while the
      audit never tears such a session down, so no forced logout follows. */
  lemma MalformedExpiryDisagreement(items: Store, now: nat)
    requires Truthy(items, SESSION_EXPIRY_KEY) && StoredExpiry(items).None?
    ensures Guard(items, now) == Redirect(LoginPath, true)
    ensures AfterAudit(items, now) == items && AuditNavigations(items, now) == []
  {
  }

  /** After a teardown the guard refuses access, whether the username is still stored or not. */
  lemma GuardDeniesAfterClear(items: Store, now: nat)
    ensures Guard(Cleared(items), now) == Redirect(LoginPath, true)
    ensures AuditClears(items, now) ==> Guard(AfterAudit(items, now), now) == Redirect(LoginPath, true)
  {
  }

  /** While a session id is stored, an extension at now keeps the guard open exactly up to
      now + TIMEOUT_DURATION, even when the previous expiry had already passed. */
  lemma ExtensionAndGuard(items: Store, now: nat, t: nat)
    requires Truthy(items, SESSION_ID_KEY)
    ensures IsSessionValid(Extended(items, now), t) <==> t <= now + TIMEOUT_DURATION
  {
    ExtendedSetsExpiry(items, now, SESSION_ID_KEY);
  }

  /** A login at 0, a click 50 ms later, then the audits 180 and 181 check intervals after the
      monitor started: the session lives until 50 ms plus the timeout, so the first of these
      audits keeps it and the second, the first audit after the expiry, tears it down. */
  method ActivityThenExpiryScenario()
  {
    var storage := new LocalStorage();
    var router := new Router(LoginPath);
    var page := new LoginPage(storage, router, [Account("alice", "correctpass")]);
    page.username, page.password := "alice", "correctpass";
    page.HandleSubmit(0, 0, "k3j");
    assert FindUser(page.users, "alice", "correctpass") == Some(0);
    var id := GenerateSessionId("k3j", 0);
    assert storage.items == LoggedIn(map[], id, 0, "alice");
    LoginThenGuard(map[], "k3j", 0, 0, "alice", 0);
    assert Guard(storage.items, 0) == Render;

    var monitor := new SessionMonitor(storage, router);
    ghost var s0 := storage.items;
    LoggedInRecord(map[], id, 0, "alice", SESSION_ID_KEY);
    AuditNumericExpiry(s0, 0, TIMEOUT_DURATION);
    monitor.Start(0);
    assert storage.items == s0;

    monitor.Activity(Click, 50);
    ghost var s1 := storage.items;
    assert s1 == Extended(s0, 50);
    ExtendedSetsExpiry(s0, 50, SESSION_ID_KEY);

    var keep, expire := AuditTime(0, 180), AuditTime(0, 181);
    assert keep == TIMEOUT_DURATION && expire == TIMEOUT_DURATION + CHECK_INTERVAL;
    AuditNumericExpiry(s1, keep, 50 + TIMEOUT_DURATION);
    monitor.Tick(keep);
    assert storage.items == s1;

    AuditNumericExpiry(s1, expire, 50 + TIMEOUT_DURATION);
    monitor.Tick(expire);
    assert storage.items == Cleared(s1);
    assert router.history[|router.history| - 1] == LoginPath;
    assert Guard(storage.items, expire) == Redirect(LoginPath, true);
  }

  /** A wrong password leaves the store empty, shows the error, and the guard still refuses. */
  method WrongPasswordScenario()
  {
    var storage := new LocalStorage();
    var router := new Router(LoginPath);
    var page := new LoginPage(storage, router, [Account("alice", "correctpass")]);
    page.username, page.password := "alice", "wrongpass";
    page.HandleSubmit(0, 0, "k3j");
    assert FindUser(page.users, "alice", "wrongpass") == None;
    assert storage.items == map[];
    assert router.history == [LoginPath];
    assert page.error == "Invalid username or password";
    assert Guard(storage.items, 0) == Redirect(LoginPath, true);
  }

  /** Logging out on an empty store changes nothing in it and still goes to the login page. */
  method LogoutWhenEmptyScenario()
  {
    var storage := new LocalStorage();
    var router := new Router(DashboardPath);
    var monitor := new SessionMonitor(storage, router);
    monitor.ClearSession();
    assert storage.items == map[];
    assert router.history == [DashboardPath, LoginPath];
  }
}
