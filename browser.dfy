/** The host services the session code talks to: the tab's `localStorage` and the router's
    navigation history. */
module Browser {
  import opened Wrappers

  /** The three keys of the session record. */
  const SESSION_ID_KEY: string := "sessionId"
  const SESSION_EXPIRY_KEY: string := "sessionExpiry"
  const USERNAME_KEY: string := "username"

  /** The application's routes. */
  datatype Path = LoginPath | DashboardPath | UserManagementPath | RootPath

  /** `window.localStorage`: a string-keyed map of strings. */
  class LocalStorage {
    var items: map<string, string>

    constructor ()
      ensures items == map[]
    {
      items := map[];
    }

    /** `getItem(key)`: the stored string, or null. */
    function GetItem(key: string): (r: Option<string>)
      reads this
      ensures r.Some? <==> key in items
      ensures r.Some? ==> r.value == items[key]
    {
      if key in items then Some(items[key]) else None
    }

    /** `setItem(key, value)`. */
    method SetItem(key: string, value: string)
      modifies this
      ensures items == old(items)[key := value]
    {
      items := items[key := value];
    }

    /** `removeItem(key)`; nothing happens when the key is absent. */
    method RemoveItem(key: string)
      modifies this
      ensures items == old(items) - {key}
    {
      items := items - {key};
    }
  }

  /** The router's history stack; its last entry is the current location. */
  class Router {
    var history: seq<Path>

    constructor (start: Path)
      ensures history == [start]
    {
      history := [start];
    }

    /** `navigate(to)` pushes a history entry; with `replace` it overwrites the current one. */
    method Navigate(to: Path, replace: bool)
      modifies this
      ensures history == if replace && |old(history)| > 0
                         then old(history)[..|old(history)| - 1] + [to]
                         else old(history) + [to]
    {
      if replace && |history| > 0 {
        history := history[..|history| - 1] + [to];
      } else {
        history := history + [to];
      }
    }
  }
}
