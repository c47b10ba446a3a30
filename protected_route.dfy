/** The route guard wrapped around every protected page: a point-in-time check of the session
    record that either renders the page or redirects to the login page. */
module ProtectedRoute {
  import opened Wrappers
  import opened Strings
  import opened Browser
  import opened SessionTimeout

  /** `isSessionValid`: a non-empty session id, a non-empty expiry, and now not past its numeric
      value. A non-numeric expiry is NaN and `now <= NaN` is false. */
  predicate IsSessionValid(items: Store, now: nat) {
    && Truthy(items, SESSION_ID_KEY)
    && Truthy(items, SESSION_EXPIRY_KEY)
    && StoredExpiry(items).Some? && now <= StoredExpiry(items).value
  }

  /** What the guard renders. */
  datatype Decision = Render | Redirect(to: Path, replace: bool)

  /** The guard's decision at time now: render the children, or redirect to the login page
      replacing the current history entry. */
  function Guard(items: Store, now: nat): (d: Decision)
    ensures d.Redirect? ==> d == Redirect(LoginPath, true)
  {
    if IsSessionValid(items, now) then Render else Redirect(LoginPath, true)
  }

  /** Access is granted exactly when the id is non-empty and the expiry is a number not before now. */
  lemma GuardGrantsIff(items: Store, now: nat)
    ensures Guard(items, now) == Render <==>
      && Truthy(items, SESSION_ID_KEY)
      && SESSION_EXPIRY_KEY in items && ParseInt(items[SESSION_EXPIRY_KEY]).Some?
      && now <= ParseInt(items[SESSION_EXPIRY_KEY]).value
  {
  }

  /** Without a session id the guard redirects, however far in the future the expiry lies. */
  lemma GuardDeniesWithoutSessionId(items: Store, now: nat)
    requires !Truthy(items, SESSION_ID_KEY)
    ensures Guard(items, now) == Redirect(LoginPath, true)
  {
  }

  /** Without an expiry, or with an empty one, the guard redirects. */
  lemma GuardDeniesWithoutExpiry(items: Store, now: nat)
    requires !Truthy(items, SESSION_EXPIRY_KEY)
    ensures Guard(items, now) == Redirect(LoginPath, true)
  {
  }

  /** A non-numeric expiry is denied: the guard fails closed. */
  lemma GuardFailsClosedOnMalformedExpiry(items: Store, now: nat)
    requires StoredExpiry(items).None?
    ensures Guard(items, now) == Redirect(LoginPath, true)
  {
  }

  /** The boundary is inclusive: a session whose expiry is e is granted at e and denied at e + 1. */
  lemma GuardBoundaryInclusive(items: Store, e: nat)
    requires Truthy(items, SESSION_ID_KEY) && StoredExpiry(items) == Some(e)
    ensures Guard(items, e) == Render
    ensures Guard(items, e + 1) == Redirect(LoginPath, true)
  {
  }

  /** A session granted at some time was granted at every earlier time. */
  lemma GuardAntitoneInTime(items: Store, t1: nat, t2: nat)
    requires t1 <= t2 && Guard(items, t2) == Render
    ensures Guard(items, t1) == Render
  {
  }

  /** The guard reads only the session id and the expiry: writing any other key, the username
      among them, does not change its decision. */
  lemma GuardReadsOnlySessionKeys(items: Store, k: string, v: string, now: nat)
    requires k != SESSION_ID_KEY && k != SESSION_EXPIRY_KEY
    ensures Guard(items[k := v], now) == Guard(items, now)
    ensures Guard(items - {k}, now) == Guard(items, now)
  {
    assert StoredExpiry(items[k := v]) == StoredExpiry(items);
    assert StoredExpiry(items - {k}) == StoredExpiry(items);
  }
}
