/**
 * The parts of `$_SESSION` the core reads and writes: the CSRF token, the
 * signed-in administrator, the login-attempt records and the flash messages.
 * The `Session` class holds them as fields; `Session::start` and
 * `Session::destroy` (cookies, session ids) are not modelled.
 */
module Sessions {
  import opened Wrappers

  /** A login-attempt record: the failures counted and when counting started. */
  datatype Attempt = Attempt(count: int, time: int)

  class Session {
    /** `$_SESSION['csrf_token']`, if one was generated. */
    var csrfToken: Option<string>
    /** `admin_id`, `admin_role` and `admin_name`, set at sign-in. */
    var adminId: Option<int>
    var adminRole: Option<string>
    var adminName: Option<string>
    /** The records under `login_attempts_<md5(identifier)>`, keyed by the identifier itself. */
    var loginAttempts: map<string, Attempt>
    /** `$_SESSION['_flash']`. */
    var flashes: map<string, string>

    /** A fresh session holding only its CSRF token. */
    constructor (csrfToken: Option<string>)
      ensures this.csrfToken == csrfToken
      ensures adminId == None && adminRole == None && adminName == None
      ensures loginAttempts == map[] && flashes == map[]
    {
      this.csrfToken := csrfToken;
      adminId, adminRole, adminName := None, None, None;
      loginAttempts, flashes := map[], map[];
    }

    /** `Session::flash`: store `message` under `key`, replacing any earlier one. */
    method Flash(key: string, message: string)
      modifies this
      ensures flashes == old(flashes)[key := message]
      ensures csrfToken == old(csrfToken) && adminId == old(adminId)
      ensures adminRole == old(adminRole) && adminName == old(adminName)
      ensures loginAttempts == old(loginAttempts)
    {
      flashes := flashes[key := message];
    }

    /** `Session::getFlash`: return the message under `key`, if any, and remove it. */
    method GetFlash(key: string) returns (message: Option<string>)
      modifies this
      ensures message == Lookup(old(flashes), key)
      ensures flashes == old(flashes) - {key}
      ensures csrfToken == old(csrfToken) && adminId == old(adminId)
      ensures adminRole == old(adminRole) && adminName == old(adminName)
      ensures loginAttempts == old(loginAttempts)
    {
      message := Lookup(flashes, key);
      flashes := flashes - {key};
    }
  }

  /** A flash message is read exactly once: the second read finds nothing. */
  method FlashIsReadOnce(s: Session, key: string, message: string) returns (first: Option<string>, second: Option<string>)
    modifies s
    ensures first == Some(message) && second == None
    ensures s.flashes == old(s.flashes) - {key}
  {
    s.Flash(key, message);
    first := s.GetFlash(key);
    second := s.GetFlash(key);
  }
}
