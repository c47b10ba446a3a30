/** The session monitor: teardown, the periodic audit and activity-driven extension of the
    session record kept in `localStorage`. */
module SessionTimeout {
  import opened Wrappers
  import opened Strings
  import opened SessionConfig
  import opened Browser

  type Store = map<string, string>

  /** What `if (value)` sees for a stored key: present and not the empty string. */
  predicate Truthy(items: Store, key: string) {
    key in items && items[key] != ""
  }

  /** `parseInt` of the stored expiry; None when it is absent or not a number. */
  function StoredExpiry(items: Store): Option<nat> {
    if SESSION_EXPIRY_KEY in items then ParseInt(items[SESSION_EXPIRY_KEY]) else None
  }

  /** The store after `clearSession`. */
  function Cleared(items: Store): Store {
    items - {SESSION_ID_KEY, SESSION_EXPIRY_KEY}
  }

  /** The condition under which `checkSession` tears the session down: the expiry is missing or
      empty, or it is a number and `now` is strictly past it. A non-numeric expiry is `NaN`, and
      `now > NaN` is false. */
  predicate AuditClears(items: Store, now: nat) {
    !Truthy(items, SESSION_EXPIRY_KEY) || (StoredExpiry(items).Some? && now > StoredExpiry(items).value)
  }

  /** The store after `checkSession` at time now. */
  function AfterAudit(items: Store, now: nat): Store {
    if AuditClears(items, now) then Cleared(items) else items
  }

  /** The navigations `checkSession` at time now performs. */
  function AuditNavigations(items: Store, now: nat): seq<Path> {
    if AuditClears(items, now) then [LoginPath] else []
  }

  /** The store after `extendSession` at time now. */
  function Extended(items: Store, now: nat): Store {
    if Truthy(items, SESSION_ID_KEY)
    then items[SESSION_EXPIRY_KEY := NatToString(now + TIMEOUT_DURATION)]
    else items
  }

  /** The activity kinds the monitor listens for while it runs. */
  const LISTENED_EVENTS: set<ActivityEvent> := set e | e in ACTIVITY_EVENTS

  /** An instance of the session hook. The interval timer and the activity listeners are
      registered together when the hook's effect starts and removed together when it ends;
      timer callbacks and activity events become explicit Tick and Activity calls. */
  class SessionMonitor {
    const storage: LocalStorage
    const router: Router
    var intervalActive: bool
    var listeners: set<ActivityEvent>

    /** The timer and the listeners are both registered or both removed. */
    ghost predicate Valid()
      reads this
    {
      && (intervalActive ==> listeners == LISTENED_EVENTS)
      && (!intervalActive ==> listeners == {})
    }

    constructor (storage: LocalStorage, router: Router)
      ensures Valid() && !intervalActive
      ensures this.storage == storage && this.router == router
    {
      this.storage := storage;
      this.router := router;
      intervalActive := false;
      listeners := {};
    }

    /** `clearSession`: remove the session id and the expiry, then go to the login page. */
    method ClearSession()
      modifies storage, router
      ensures storage.items == Cleared(old(storage.items))
      ensures router.history == old(router.history) + [LoginPath]
    {
      storage.RemoveItem(SESSION_ID_KEY);
      storage.RemoveItem(SESSION_EXPIRY_KEY);
      router.Navigate(LoginPath, false);
    }

    /** `checkSession`: tear the session down when the audit finds it missing or expired. */
    method CheckSession(now: nat)
      modifies storage, router
      ensures storage.items == AfterAudit(old(storage.items), now)
      ensures router.history == old(router.history) + AuditNavigations(old(storage.items), now)
    {
      var expiry := storage.GetItem(SESSION_EXPIRY_KEY);
      if expiry.None? || expiry.value == ""
         || (ParseInt(expiry.value).Some? && now > ParseInt(expiry.value).value)
      {
        ClearSession();
      }
    }

    /** `extendSession`: when a session id is stored, push the expiry to now + TIMEOUT_DURATION. */
    method ExtendSession(now: nat)
      modifies storage
      ensures storage.items == Extended(old(storage.items), now)
    {
      var sessionId := storage.GetItem(SESSION_ID_KEY);
      if sessionId.Some? && sessionId.value != "" {
        storage.SetItem(SESSION_EXPIRY_KEY, NatToString(now + TIMEOUT_DURATION));
      }
    }

    /** The effect's start: register the interval and the activity listeners, then audit once
        immediately. */
    method Start(now: nat)
      requires Valid() && !intervalActive
      modifies this, storage, router
      ensures Valid() && intervalActive
      ensures storage.items == AfterAudit(old(storage.items), now)
      ensures router.history == old(router.history) + AuditNavigations(old(storage.items), now)
    {
      intervalActive := true;
      listeners := LISTENED_EVENTS;
      CheckSession(now);
    }

    /** The interval timer firing at time now: an audit while the timer is registered. */
    method Tick(now: nat)
      modifies storage, router
      ensures storage.items == if intervalActive then AfterAudit(old(storage.items), now) else old(storage.items)
      ensures router.history == old(router.history) + (if intervalActive then AuditNavigations(old(storage.items), now) else [])
    {
      if intervalActive {
        CheckSession(now);
      }
    }

    /** An activity event of kind e at time now: an extension while the listeners are registered. */
    method Activity(e: ActivityEvent, now: nat)
      requires Valid()
      modifies storage
      ensures storage.items == if intervalActive then Extended(old(storage.items), now) else old(storage.items)
    {
      ActivityEventsExact(e);
      if e in listeners {
        ExtendSession(now);
      }
    }

    /** The effect's cleanup: clear the interval and remove every listener. */
    method Stop()
      modifies this
      ensures Valid() && !intervalActive
    {
      intervalActive := false;
      listeners := {};
    }
  }

  /** Teardown removes exactly the session id and the expiry: the stored username and every
      other key keep their values. */
  lemma ClearedKeepsOtherKeys(items: Store, k: string)
    ensures SESSION_ID_KEY !in Cleared(items) && SESSION_EXPIRY_KEY !in Cleared(items)
    ensures k != SESSION_ID_KEY && k != SESSION_EXPIRY_KEY ==>
      (k in Cleared(items) <==> k in items) && (k in items ==> Cleared(items)[k] == items[k])
    ensures USERNAME_KEY in items ==> USERNAME_KEY in Cleared(items) && Cleared(items)[USERNAME_KEY] == items[USERNAME_KEY]
  {
  }

  /** Teardown of an already cleared store changes nothing. */
  lemma ClearedIdempotent(items: Store)
    ensures Cleared(Cleared(items)) == Cleared(items)
  {
  }

  /** A missing or empty expiry is always torn down. */
  lemma AuditClearsWithoutExpiry(items: Store, now: nat)
    requires !Truthy(items, SESSION_EXPIRY_KEY)
    ensures AfterAudit(items, now) == Cleared(items) && AuditNavigations(items, now) == [LoginPath]
  {
  }

  /** With a numeric expiry the audit tears down exactly when now is strictly past it, and
      otherwise leaves the store as it is. */
  lemma AuditNumericExpiry(items: Store, now: nat, e: nat)
    requires StoredExpiry(items) == Some(e)
    ensures AuditClears(items, now) <==> now > e
    ensures now <= e ==> AfterAudit(items, now) == items && AuditNavigations(items, now) == []
  {
  }

  /** A stored expiry that is not a number is NaN to the audit: it never tears down. */
  lemma AuditKeepsNonNumericExpiry(items: Store, now: nat)
    requires Truthy(items, SESSION_EXPIRY_KEY) && StoredExpiry(items).None?
    ensures AfterAudit(items, now) == items && AuditNavigations(items, now) == []
  {
  }

  /** A second audit at the same moment leaves the store as the first one left it. */
  lemma AuditStoreIdempotent(items: Store, now: nat)
    ensures AfterAudit(AfterAudit(items, now), now) == AfterAudit(items, now)
  {
  }

  /** Auditing a cleared store changes nothing in it, but tears down again and so navigates to
      the login page once more. */
  lemma AuditOfClearedStore(items: Store, now: nat)
    ensures AfterAudit(Cleared(items), now) == Cleared(items)
    ensures AuditNavigations(Cleared(items), now) == [LoginPath]
  {
  }

  /** With a session id stored, extension writes the expiry now + TIMEOUT_DURATION, which reads
      back as that number, and leaves every other key as it was. */
  lemma ExtendedSetsExpiry(items: Store, now: nat, k: string)
    requires Truthy(items, SESSION_ID_KEY)
    ensures StoredExpiry(Extended(items, now)) == Some(now + TIMEOUT_DURATION)
    ensures k != SESSION_EXPIRY_KEY ==>
      (k in Extended(items, now) <==> k in items) && (k in items ==> Extended(items, now)[k] == items[k])
  {
    ParseIntOfNatToString(now + TIMEOUT_DURATION);
  }

  /** Without a session id, extension changes nothing: a cleared session is not resurrected. */
  lemma ExtendWithoutSessionIsNoOp(items: Store, now: nat)
    requires !Truthy(items, SESSION_ID_KEY)
    ensures Extended(items, now) == items
    ensures Extended(Cleared(items), now) == Cleared(items)
  {
  }

  /** Extensions at non-decreasing times give non-decreasing expiries. */
  lemma ExtendMonotone(items: Store, t1: nat, t2: nat)
    requires Truthy(items, SESSION_ID_KEY) && t1 <= t2
    ensures StoredExpiry(Extended(items, t1)).Some?
    ensures StoredExpiry(Extended(Extended(items, t1), t2)).Some?
    ensures StoredExpiry(Extended(items, t1)).value <= StoredExpiry(Extended(Extended(items, t1), t2)).value
  {
    ExtendedSetsExpiry(items, t1, SESSION_ID_KEY);
    ExtendedSetsExpiry(Extended(items, t1), t2, SESSION_ID_KEY);
  }

  /** Two extensions collapse into the later one. */
  lemma ExtendLastWriteWins(items: Store, t1: nat, t2: nat)
    ensures Extended(Extended(items, t1), t2) == Extended(items, t2)
  {
  }

  /** After an extension at now, an audit at t tears down exactly when t > now + TIMEOUT_DURATION. */
  lemma ExtendThenAudit(items: Store, now: nat, t: nat)
    requires Truthy(items, SESSION_ID_KEY)
    ensures AuditClears(Extended(items, now), t) <==> t > now + TIMEOUT_DURATION
  {
    ExtendedSetsExpiry(items, now, SESSION_ID_KEY);
  }

  /** The extension checks only the session id: activity after the expiry has passed but before
      the next audit has noticed yields a session the audit accepts again. */
  lemma ExtendRevivesUnauditedExpiry(items: Store, e: nat, now: nat)
    requires Truthy(items, SESSION_ID_KEY) && StoredExpiry(items) == Some(e) && now > e
    ensures AuditClears(items, now)
    ensures !AuditClears(Extended(items, now), now)
  {
    ExtendThenAudit(items, now, now);
  }

  /** The time of the k-th audit of a monitor started at time start: the immediate audit is
      the 0th, and then one every CHECK_INTERVAL. */
  function AuditTime(start: nat, k: nat): nat {
    start + k * CHECK_INTERVAL
  }

  /** The first audit that happens strictly after time t. */
  function FirstAuditAfter(start: nat, t: nat): (k: nat)
    ensures AuditTime(start, k) > t
    ensures k > 0 ==> AuditTime(start, k - 1) <= t
    ensures t >= start ==> AuditTime(start, k) <= t + CHECK_INTERVAL
  {
    if t < start then 0
    else
      var d := t - start;
      assert d == (d / CHECK_INTERVAL) * CHECK_INTERVAL + d % CHECK_INTERVAL;
      d / CHECK_INTERVAL + 1
  }

  /** Expiry is detected with latency bounded by CHECK_INTERVAL: for a session whose expiry e is
      not before the monitor's start, the first audit after e lies within CHECK_INTERVAL of e and
      tears the session down, provided no activity has extended it in between. */
  lemma ExpiryDetectedWithinInterval(items: Store, start: nat, e: nat)
    requires StoredExpiry(items) == Some(e) && e >= start
    ensures var t := AuditTime(start, FirstAuditAfter(start, e));
      e < t <= e + CHECK_INTERVAL && AfterAudit(items, t) == Cleared(items)
  {
    var k := FirstAuditAfter(start, e);
    AuditNumericExpiry(items, AuditTime(start, k), e);
  }
}
