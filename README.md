# Session lifecycle and user table of a React admin front end, in Dafny

The application keeps a browser-side session in three `localStorage` keys: `sessionId`,
`sessionExpiry` (a decimal epoch-millisecond string) and `username`. Four parts of the
application use that record:

- the login page creates it;
- the session hook `useSessionTimeout` audits it every `CHECK_INTERVAL`, pushes its expiry forward
  on user activity, and tears it down;
- the route guard `ProtectedRoute` checks it at navigation time;
- the logout buttons tear it down.

The model also covers the pure list logic of the user-management table: search, CSV export,
form validation, add, edit and delete.

Modules, one per source file plus helpers:

- `SessionConfig` holds the configuration constants and the `ActivityEvent` kinds (`src/config/session.ts`).
- `Browser` models the host. `LocalStorage` is a class over a `map<string, string>`. `Router` is a
  class holding the navigation history. `Path` lists the application's routes.
- `SessionTimeout` models the hook (`src/hooks/useSessionTimeout.ts`). It has pure functions for the
  store transitions (`Cleared`, `AuditClears`/`AfterAudit`, `Extended`) and the class
  `SessionMonitor`, whose methods are proved against those functions. The hook's timer and its
  event listeners become explicit `Tick(now)` and `Activity(kind, now)` calls.
- `ProtectedRoute` is the guard predicate and its render/redirect decision.
- `Login` covers the credential lookup, session-id generation and the `LoginPage` class with its
  submit handler.
- `UserManagement` holds the table logic as functions, plus the `UserTable` class for the page's
  state transitions.
- `App` holds the route table and the lemmas that connect login, guard and audit. It also has three
  client methods that replay concrete runs: a login followed by a click 50 ms later and two audits,
  a wrong password, and a logout on an empty store.
- `Strings` models the JavaScript built-ins the code relies on: `parseInt`, `toString(radix)`,
  `includes`, `toLowerCase`, `trim` and `join`. It adds two helper definitions the code does not
  call: `Split`, to read a joined CSV text back, and `IndexOf`, to decide the email pattern.
  `Seqs` gives `filter`. `Wrappers` gives `Option`.

Time (`Date.now()`) is a `nat` parameter. `parseInt` returns `Option<nat>`, with `None` standing
for `NaN`. Every comparison with `NaN` is false.

Four consequences of the code as written, each stated by a lemma:

- `clearSession` removes only `sessionId` and `sessionExpiry`; `username` stays (`ClearedKeepsOtherKeys`).
- The audit leaves a non-numeric expiry in place, while the guard refuses it: such a session is
  locked out of the protected pages but never torn down, so no forced logout follows
  (`MalformedExpiryDisagreement`).
- An audit of an already cleared store calls `clearSession` again. The store does not change, but
  the app navigates to `/login` each time (`AuditOfClearedStore`).
- `extendSession` tests only for `sessionId`. An activity after the expiry has passed, but before
  the next audit, therefore revives the session (`ExtendRevivesUnauditedExpiry`, `ExtensionAndGuard`).

## Model

| member | source | states |
|---|---|---|
| `SessionConfig.TimeoutIsThirtyMinutes` | src/config/session.ts:3 | the session lifetime is 30·60·1000 = 1 800 000 ms |
| `SessionConfig.IntervalWithinTimeout` | src/config/session.ts:3-5 | 0 < CHECK_INTERVAL < TIMEOUT_DURATION, so a fresh or extended session outlives one audit period |
| `SessionConfig.ActivityEventsExact` | src/config/session.ts:7 | the activity list has four entries, holds every activity kind and repeats none |
| `SessionConfig.EventOfName` | src/config/session.ts:11 | a DOM event name read as an activity kind names that kind |
| `SessionConfig.EventNamesRoundTrip` | src/config/session.ts:7-11 | names and kinds are inverse; exactly click, keypress, scroll and mousemove are activity kinds |
| `Browser.LocalStorage.GetItem` | src/components/ProtectedRoute.tsx:9-10 | `getItem` gives the stored string when the key is present and null (None) otherwise |
| `Browser.LocalStorage.SetItem` | src/pages/Login.tsx:25-27 | `setItem` stores the value under the key and leaves every other key |
| `Browser.LocalStorage.RemoveItem` | src/hooks/useSessionTimeout.ts:9-10 | `removeItem` drops the key, and does nothing when it is absent |
| `Browser.Router.Navigate` | src/hooks/useSessionTimeout.ts:11 | `navigate(to)` pushes to; with replace (ProtectedRoute.tsx:14) it overwrites the current entry |
| `SessionTimeout.Truthy` | src/hooks/useSessionTimeout.ts:16 | a stored value is truthy when the key is present and the text non-empty; its use is stated by `AuditClearsWithoutExpiry` |
| `SessionTimeout.StoredExpiry` | src/hooks/useSessionTimeout.ts:15-16 | `parseInt(getItem("sessionExpiry"))`, None for a missing key or NaN; read back by `ExtendedSetsExpiry` |
| `SessionTimeout.Cleared` | src/hooks/useSessionTimeout.ts:8-10 | the store after `clearSession`'s two removals; stated by `ClearedKeepsOtherKeys` and `ClearedIdempotent` |
| `SessionTimeout.AuditClears` | src/hooks/useSessionTimeout.ts:16 | the condition: no truthy expiry, or now > parseInt(expiry); stated by `AuditClearsWithoutExpiry`, `AuditNumericExpiry` and `AuditKeepsNonNumericExpiry` |
| `SessionTimeout.AfterAudit` | src/hooks/useSessionTimeout.ts:14-19 | the store after `checkSession`: cleared when the condition holds, unchanged otherwise; `CheckSession` is proved against it |
| `SessionTimeout.AuditNavigations` | src/hooks/useSessionTimeout.ts:16-17 | the navigations `checkSession` makes: one to /login exactly when it clears |
| `SessionTimeout.Extended` | src/hooks/useSessionTimeout.ts:21-29 | the store after `extendSession`; stated by `ExtendedSetsExpiry`, `ExtendWithoutSessionIsNoOp` and the other extension lemmas |
| `SessionTimeout.SessionMonitor.constructor` | src/hooks/useSessionTimeout.ts:5-6 | a new hook instance has neither timer nor listeners registered |
| `SessionTimeout.SessionMonitor.ClearSession` | src/hooks/useSessionTimeout.ts:8-12 | the store loses sessionId and sessionExpiry only, and one navigation to /login is pushed |
| `SessionTimeout.SessionMonitor.CheckSession` | src/hooks/useSessionTimeout.ts:14-19 | store and history become what the audit function gives: teardown plus /login when AuditClears holds, otherwise nothing changes |
| `SessionTimeout.SessionMonitor.ExtendSession` | src/hooks/useSessionTimeout.ts:21-29 | the store becomes Extended(old store, now) |
| `SessionTimeout.SessionMonitor.Start` | src/hooks/useSessionTimeout.ts:31-44 | timer and all four listeners are registered together, then one immediate audit runs |
| `SessionTimeout.SessionMonitor.Tick` | src/hooks/useSessionTimeout.ts:32 | a timer callback audits while the timer is registered and does nothing after cleanup |
| `SessionTimeout.SessionMonitor.Activity` | src/hooks/useSessionTimeout.ts:34-41 | an activity of any kind extends the session while the listeners are registered and does nothing after cleanup |
| `SessionTimeout.SessionMonitor.Stop` | src/hooks/useSessionTimeout.ts:46-51 | cleanup removes timer and listeners together |
| `SessionTimeout.ClearedKeepsOtherKeys` | src/hooks/useSessionTimeout.ts:9-10 | teardown removes sessionId and sessionExpiry; username and every other key keep their values |
| `SessionTimeout.ClearedIdempotent` | src/hooks/useSessionTimeout.ts:9-10 | tearing down a cleared store yields the same store |
| `SessionTimeout.AuditClearsWithoutExpiry` | src/hooks/useSessionTimeout.ts:15-17 | a missing or empty expiry is torn down with a navigation to /login |
| `SessionTimeout.AuditNumericExpiry` | src/hooks/useSessionTimeout.ts:16 | with a numeric expiry e the audit clears iff now > e, and leaves store and history untouched when now <= e |
| `SessionTimeout.AuditKeepsNonNumericExpiry` | src/hooks/useSessionTimeout.ts:16 | a present non-numeric expiry (NaN) is never torn down |
| `SessionTimeout.AuditStoreIdempotent` | src/hooks/useSessionTimeout.ts:14-19 | a second audit at the same time leaves the store as the first left it |
| `SessionTimeout.AuditOfClearedStore` | src/hooks/useSessionTimeout.ts:15-17 | auditing a cleared store does not change it but navigates to /login again |
| `SessionTimeout.ExtendedSetsExpiry` | src/hooks/useSessionTimeout.ts:22-27 | with a session id, the stored expiry reads back as now + TIMEOUT_DURATION and no other key changes |
| `SessionTimeout.ExtendWithoutSessionIsNoOp` | src/hooks/useSessionTimeout.ts:22-23 | without a session id (in particular after teardown) extension changes nothing |
| `SessionTimeout.ExtendMonotone` | src/hooks/useSessionTimeout.ts:24-27 | extensions at non-decreasing times give non-decreasing expiries |
| `SessionTimeout.ExtendLastWriteWins` | src/hooks/useSessionTimeout.ts:24-27 | two extensions collapse into the later one |
| `SessionTimeout.ExtendThenAudit` | src/hooks/useSessionTimeout.ts:15-27 | after an extension at now, an audit at t clears iff t > now + TIMEOUT_DURATION |
| `SessionTimeout.ExtendRevivesUnauditedExpiry` | src/hooks/useSessionTimeout.ts:15-27 | an expired but unaudited session that sees activity passes the audit again |
| `SessionTimeout.FirstAuditAfter` | src/hooks/useSessionTimeout.ts:32-44 | picks the first audit strictly after t; for t at or after the start it lies within CHECK_INTERVAL of t |
| `SessionTimeout.ExpiryDetectedWithinInterval` | src/hooks/useSessionTimeout.ts:14-44 | without activity, the first audit after expiry e comes within (e, e + CHECK_INTERVAL] and tears the session down |
| `ProtectedRoute.IsSessionValid` | src/components/ProtectedRoute.tsx:9-11 | the guard's test `sessionId && expiry && Date.now() <= parseInt(expiry)`; stated by `GuardGrantsIff` and the guard lemmas |
| `ProtectedRoute.Guard` | src/components/ProtectedRoute.tsx:9-17 | every denial is a redirect to /login that replaces the history entry |
| `ProtectedRoute.GuardGrantsIff` | src/components/ProtectedRoute.tsx:9-11 | access is granted iff the session id is non-empty and the expiry parses to a number not before now |
| `ProtectedRoute.GuardDeniesWithoutSessionId` | src/components/ProtectedRoute.tsx:9-14 | a missing or empty session id is redirected whatever the expiry |
| `ProtectedRoute.GuardDeniesWithoutExpiry` | src/components/ProtectedRoute.tsx:10-14 | a missing or empty expiry is redirected |
| `ProtectedRoute.GuardFailsClosedOnMalformedExpiry` | src/components/ProtectedRoute.tsx:11 | a non-numeric expiry is redirected |
| `ProtectedRoute.GuardBoundaryInclusive` | src/components/ProtectedRoute.tsx:11 | a session whose expiry parses to e ("0123" included) is granted at e and redirected at e + 1 |
| `ProtectedRoute.GuardAntitoneInTime` | src/components/ProtectedRoute.tsx:11 | a grant at t2 implies a grant at every t1 <= t2 |
| `ProtectedRoute.GuardReadsOnlySessionKeys` | src/components/ProtectedRoute.tsx:9-17 | writing or removing any key other than sessionId and sessionExpiry (username included) leaves the decision unchanged |
| `Login.FindUser` | src/pages/Login.tsx:18-20 | the index of the first entry with both the username and the password, or None iff no entry has both |
| `Login.LoginSucceedsIff` | src/pages/Login.tsx:18-20 | the lookup succeeds iff the exact credential pair is in the list |
| `Login.GenerateSessionId` | src/pages/Login.tsx:6-8 | the session id is non-empty, whatever the random part |
| `Login.LoginPage.constructor` | src/pages/Login.tsx:11-13 | the form starts with empty username, password and error |
| `Login.LoginPage.HandleSubmit` | src/pages/Login.tsx:16-32 | on a match: the three keys are written (the id from the clock reading idClock, the expiry from the later reading now) and the history moves to /dashboard. No match: store and history untouched, error set to "Invalid username or password" |
| `Login.LoggedIn` | src/pages/Login.tsx:24-27 | the store after the three `setItem` calls of a successful login; stated by `LoggedInRecord` |
| `Login.LoggedInRecord` | src/pages/Login.tsx:23-27 | whatever the three keys held before, login sets them to the fresh id, an expiry reading back as now + TIMEOUT_DURATION, and the username; other keys stay unchanged |
| `Strings.ParseInt` | src/hooks/useSessionTimeout.ts:16 | `parseInt` on a whole decimal string, None for NaN; stated by `ParseIntOfNatToString` |
| `Strings.ToRadixString` | src/pages/Login.tsx:7 | the base-36 form of the time, like every radix form of a number, is non-empty |
| `Strings.ParseIntOfNatToString` | src/pages/Login.tsx:26 | the decimal form written for the expiry parses back to the same number |
| `Strings.NatToStringInjective` | src/pages/UserManagement.tsx:100 | different ids have different text forms |
| `Strings.Contains` | src/pages/UserManagement.tsx:40-43 | includes is true iff the query occurs at some position |
| `Strings.ToLower` | src/pages/UserManagement.tsx:38-43 | `toLowerCase` for ASCII letters, character by character; used by `FilteredUsersSpec` |
| `Strings.Trim` | src/pages/UserManagement.tsx:83 | `trim`: leading and trailing whitespace removed; stated by `TrimEmptyIffBlank` |
| `Strings.Join` | src/pages/UserManagement.tsx:51 | `join(sep)`: the parts with sep between neighbours; stated by `SplitJoin` |
| `Strings.TrimEmptyIffBlank` | src/pages/UserManagement.tsx:83 | a field fails the trim test iff it is all whitespace |
| `Strings.SplitJoin` | src/pages/UserManagement.tsx:51 | splitting a join on its separator gives back the parts when no part holds the separator |
| `Seqs.Filter` | src/pages/UserManagement.tsx:39 | keeps exactly the elements satisfying the test, as a subsequence in original order, and everything when all pass (copies are counted by `FilterCount`) |
| `Seqs.FilterCount` | src/pages/UserManagement.tsx:39 | filter keeps every copy of each element that passes the test and no copy of one that fails |
| `UserManagement.MatchesQuery` | src/pages/UserManagement.tsx:40-43 | the four `includes` tests on the id text and the lower-cased username, name and email |
| `UserManagement.FilteredUsers` | src/pages/UserManagement.tsx:37-45 | `filteredUsers`: the users passing `MatchesQuery` for the lower-cased search; stated by `FilteredUsersSpec` |
| `UserManagement.FilteredUsersSpec` | src/pages/UserManagement.tsx:37-45 | the filtered list is an ordered subsequence holding exactly the users whose id text, or lower-cased username, name or email, contains the lower-cased query, each as many times as the list holds it |
| `UserManagement.EmptySearchKeepsAll` | src/pages/UserManagement.tsx:38-44 | an empty search keeps every user in order |
| `UserManagement.CsvFields` | src/pages/UserManagement.tsx:50 | a user's exported fields: id, name, email, createdOn, lastSession; used by `UserLines` and `ExportCsvLines` |
| `UserManagement.QuoteAll` | src/pages/UserManagement.tsx:51 | each field is wrapped in double quotes, unescaped, one output per field |
| `UserManagement.CsvLine` | src/pages/UserManagement.tsx:51 | one line: the quoted fields joined by commas; stated by `CsvLineFields` |
| `UserManagement.UserLines` | src/pages/UserManagement.tsx:50-51 | one CSV line per user, the i-th from the i-th user's id, name, email, createdOn and lastSession |
| `UserManagement.ExportCsv` | src/pages/UserManagement.tsx:49-51 | the header line and the rows' lines joined by newlines; stated by `ExportCsvLines` |
| `UserManagement.ExportedCsv` | src/pages/UserManagement.tsx:48-51 | the CSV of the rows the search shows (`filteredUsers`); stated by `ExportedCsvLines` |
| `UserManagement.CsvLineFields` | src/pages/UserManagement.tsx:51 | a line splits on commas back into its quoted fields when no field holds a comma |
| `UserManagement.ExportCsvLines` | src/pages/UserManagement.tsx:49-51 | when no field holds a newline the CSV has one line more than there are users: the header line, then each user's line in order |
| `UserManagement.ExportedCsvLines` | src/pages/UserManagement.tsx:48-51 | without newlines in the fields, the saved CSV is the header line followed by one line per user matching the search, in table order |
| `UserManagement.UnescapedCommaSplitsField` | src/pages/UserManagement.tsx:51 | the field "a,b" produces two comma-separated pieces: nothing is escaped |
| `UserManagement.IsEmail` | src/pages/UserManagement.tsx:87 | the email test, decided from the first '@'; stated by `IsEmailIffShape` |
| `UserManagement.IsEmailIffShape` | src/pages/UserManagement.tsx:87 | the email test accepts exactly the strings a@b.c with a, b, c non-empty and free of '@' and whitespace |
| `UserManagement.Validate` | src/pages/UserManagement.tsx:82-92 | `validateForm`'s outcome as a value; stated by `ValidateSpec` |
| `UserManagement.ValidateSpec` | src/pages/UserManagement.tsx:82-92 | required-field error iff some field is blank; else email error iff the untrimmed email lacks that shape; else valid |
| `UserManagement.MaxId` | src/pages/UserManagement.tsx:100 | Math.max(0, ...ids) bounds every id and is 0 or one of the ids |
| `UserManagement.NextId` | src/pages/UserManagement.tsx:100 | one more than `MaxId`; stated by `AddedSpec` |
| `UserManagement.NewUser` | src/pages/UserManagement.tsx:99-107 | the new user: the form's four fields, the fresh id and the two clock readings |
| `UserManagement.Added` | src/pages/UserManagement.tsx:99-108 | the list with the new user prepended; stated by `AddedSpec` |
| `UserManagement.Overwrite` | src/pages/UserManagement.tsx:97 | `{ ...u, ...form }`: the form's four fields over the user's |
| `UserManagement.Edited` | src/pages/UserManagement.tsx:97 | the `map` that overwrites the users with the edited id; stated by `EditedSpec` |
| `UserManagement.Deleted` | src/pages/UserManagement.tsx:116 | the `filter` on the pending id; stated by `DeletedSpec` |
| `UserManagement.AddedSpec` | src/pages/UserManagement.tsx:99-108 | add prepends one user with the form's fields, the two stamps, and an id above, and with a text different from, every existing id; the old list follows unchanged |
| `UserManagement.EditedSpec` | src/pages/UserManagement.tsx:97 | edit keeps the length, overwrites the four form fields of the users with the edited id, keeping their id and timestamps, and leaves every other user unchanged |
| `UserManagement.DeletedSpec` | src/pages/UserManagement.tsx:116 | delete keeps, in order, exactly the users whose id differs from the target, every copy of each, and everyone when there is no target |
| `UserManagement.UserTable.constructor` | src/pages/UserManagement.tsx:28-34 | the page starts with the given users, empty search, form and error, no modal and no pending delete |
| `UserManagement.UserTable.OpenAddModal` | src/pages/UserManagement.tsx:62-67 | opening the add form clears the form, the error and the edited user and shows the modal |
| `UserManagement.UserTable.OpenEditModal` | src/pages/UserManagement.tsx:68-73 | opening the edit form loads the user's four fields and remembers the user |
| `UserManagement.UserTable.CloseModal` | src/pages/UserManagement.tsx:74-78 | closing hides the modal and forgets the edited user and the error |
| `UserManagement.UserTable.ValidateForm` | src/pages/UserManagement.tsx:82-92 | returns whether the form is valid and records the message exactly when it is not |
| `UserManagement.UserTable.HandleFormSubmit` | src/pages/UserManagement.tsx:93-111 | an invalid form leaves the users and the modal; a valid one edits or adds, then closes the modal |
| `UserManagement.UserTable.SaveForm` | src/pages/UserManagement.tsx:96-110 | after a successful validation: the edited user gets the form's fields, or a new user with a fresh id is prepended; the modal closes and the error is cleared |
| `UserManagement.UserTable.ConfirmDelete` | src/pages/UserManagement.tsx:114 | the pending delete becomes the given id |
| `UserManagement.UserTable.HandleDelete` | src/pages/UserManagement.tsx:115-118 | the users become Deleted(users, pending id) and the pending id is reset |
| `App.Resolve` | src/App.tsx:16-40 | a protected page is rendered only for a valid session; every route ends on the login page or a protected page |
| `App.ResolveProtected` | src/App.tsx:18-39 | a protected page is rendered iff the session is valid |
| `App.LoginThenGuard` | src/pages/Login.tsx:23-28 | right after a login whose expiry was computed at now, the guard grants, and keeps granting exactly up to now + TIMEOUT_DURATION, whatever clock reading the id used |
| `App.GuardValidSurvivesAudit` | src/components/ProtectedRoute.tsx:11 | a session the guard accepts is kept by an audit at the same time; one the audit clears is refused by the guard |
| `App.BoundaryAgreement` | src/components/ProtectedRoute.tsx:11 | at the expiry instant guard and audit both keep the session, one millisecond later both reject it |
| `App.MalformedExpiryDisagreement` | src/components/ProtectedRoute.tsx:11 | a non-numeric expiry is refused by the guard yet never torn down by the audit |
| `App.GuardDeniesAfterClear` | src/hooks/useSessionTimeout.ts:8-12 | after a teardown, by logout or audit, the guard refuses, even though username remains |
| `App.ExtensionAndGuard` | src/hooks/useSessionTimeout.ts:21-29 | after an extension at now the guard grants exactly up to now + TIMEOUT_DURATION, even if the old expiry had passed |

## Left out

- JSX rendering, styling, the modals' markup and theme toggling are UI and are not modelled.
- The logout buttons are not modelled separately (`src/components/Header/ProfileDropdown.tsx:12-15`,
  `src/pages/Dashboard.tsx:10-13`). Each is `clearSession()` followed by a second `navigate('/login')`,
  so `ClearSession` covers it.
- `setInterval`/`clearInterval` and `addEventListener`/`removeEventListener` are host scheduling.
  They are replaced by explicit `Start`, `Tick`, `Activity` and `Stop` calls. The audit schedule is
  `AuditTime(start, k)`.
- `SessionTimeout.ExpiryDetectedWithinInterval`: the latency bound assumes every timer callback
  runs exactly on time, at start + k·CHECK_INTERVAL. `setInterval` promises no such timing
  (callbacks run late on a busy event loop, background tabs are throttled), and `Tick` is not tied
  to that schedule, so the lemma is about the nominal schedule, not about every run of the class.
- `SessionTimeout.SessionMonitor.Start` requires that the effect is not already running. That is
  the framework's guarantee: cleanup runs before an effect runs again.
- `Date.now()` is a `nat` parameter; negative clocks are not modelled.
- Times and ids are unbounded naturals, while JavaScript numbers are doubles. The model assumes
  times and ids are below 2^53, where JS integer arithmetic and `toString`/`parseInt` are exact.
  From 1e21 `toString` gives exponent form, so `ParseIntOfNatToString` would fail. From 2^53,
  `Math.max(0, ...ids) + 1` can equal the maximum, so `AddedSpec`'s fresh id would fail.
- `Login.LoginPage.HandleSubmit` reads the clock twice, as the handler does: `idClock` is the
  reading inside `generateSessionId` (`src/pages/Login.tsx:7`) and `now` the one for the expiry
  (`src/pages/Login.tsx:24`). Nothing ties the two together.
- `Math.random()` is a foreign random source. Its base-36 digits are an arbitrary `randomPart`
  string, so session-id uniqueness is not modelled.
- The contents of `users.json` are external data: the user list is a parameter. A login entry keeps
  only the username and password it compares.
- `Blob`/`URL`/anchor download in `exportCSV` is browser I/O; only the CSV text is modelled.
- `getInitialUsers` and the `new Date().toISOString()` stamps depend on the clock.
  `createdOn`/`lastSession` are opaque strings. The two clock readings of a new user are two
  separate parameters, `created` and `last`, so they may differ.
- `Strings.ParseInt` models `parseInt` as "a whole string of decimal digits gives its value,
  anything else is NaN". Prefix parsing (`"12ab"`), signs, whitespace and radix prefixes are not
  modelled.
- User ids are natural numbers whose text is their decimal form. Non-numeric ids, which would make
  `Math.max` return NaN, are not modelled; neither are ids with leading zeros.
- `Strings.ToLower` folds ASCII letters only; Unicode case mapping tables are not modelled.
- The email regular expression is replaced by the explicit predicate `IsEmail` (locate the first
  '@', then check both sides), proved equal to the pattern's concatenation reading `EmailShape`.
  The regex engine itself is not modelled.
- `ExportCsvLines` assumes no exported field holds a newline, because fields are not escaped.
  `CsvLineFields` assumes no field holds a comma, for the same reason. `UnescapedCommaSplitsField`
  shows what happens otherwise.
- The search box's `setSearch`, the form's `handleFormChange` and the delete dialog's cancel
  button only assign a field; clients of `UserTable` assign those fields directly.
- Other writers to the session keys are not modelled. `localStorage` is shared by every tab of
  the origin and survives a restart, so a login, logout or extension in another tab changes what
  this tab's guard and audit read. Within one tab, `src/pages/Dashboard.tsx:7` and
  `src/components/Header/ProfileDropdown.tsx:8` each call `useSessionTimeout`, so `/dashboard` runs
  two monitors over one store. A `SessionMonitor` takes its `LocalStorage` as a parameter, so two
  monitors can share one store, but no lemma states how their timers and listeners interleave.
