/**
 * The client's local login flag (login.service.ts): a fixed credential check
 * that records a flag in local storage.
 */
module LoginService {

  const VALID_USERNAME: string := "admin"
  const VALID_PASSWORD: string := "password"
  const LOGGED_IN_KEY: string := "isLoggedIn"
  const TRUE_TEXT: string := "true"

  /** The browser's `localStorage`, by key. */
  class LocalStorage {
    var items: map<string, string>

    constructor (items: map<string, string>)
      ensures this.items == items
    {
      this.items := items;
    }
  }

  class LoginService {
    const storage: LocalStorage

    constructor (storage: LocalStorage)
      ensures this.storage == storage
    {
      this.storage := storage;
    }

    /** `isUserLoggedIn()`: the flag reads exactly `'true'`. */
    predicate IsUserLoggedIn(): (loggedIn: bool)
      reads this, storage
      ensures LOGGED_IN_KEY !in storage.items ==> !loggedIn
      ensures LOGGED_IN_KEY in storage.items ==> (loggedIn <==> storage.items[LOGGED_IN_KEY] == TRUE_TEXT)
    {
      LOGGED_IN_KEY in storage.items && storage.items[LOGGED_IN_KEY] == TRUE_TEXT
    }

    /** `authenticate(username, password)`: only the literal pair passes, and then
        the flag is set. */
    method Authenticate(username: string, password: string) returns (ok: bool)
      modifies storage
      ensures ok <==> username == VALID_USERNAME && password == VALID_PASSWORD
      ensures ok ==> storage.items == old(storage.items)[LOGGED_IN_KEY := TRUE_TEXT] && IsUserLoggedIn()
      ensures !ok ==> storage.items == old(storage.items)
    {
      if username == VALID_USERNAME && password == VALID_PASSWORD {
        storage.items := storage.items[LOGGED_IN_KEY := TRUE_TEXT];
        return true;
      }
      return false;
    }

    /** `logout()`: removes the flag; a second call changes nothing. */
    method Logout()
      modifies storage
      ensures storage.items == old(storage.items) - {LOGGED_IN_KEY}
      ensures !IsUserLoggedIn()
      ensures LOGGED_IN_KEY !in old(storage.items) ==> storage.items == old(storage.items)
    {
      storage.items := storage.items - {LOGGED_IN_KEY};
    }
  }

  /** Any other stored value, `'false'` or `'TRUE'` among them, reads as logged out. */
  lemma OnlyExactTrueCounts(service: LoginService, value: string)
    requires LOGGED_IN_KEY in service.storage.items && service.storage.items[LOGGED_IN_KEY] == value
    ensures service.IsUserLoggedIn() <==> value == TRUE_TEXT
  {
  }
}
