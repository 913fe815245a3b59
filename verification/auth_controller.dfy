/**
 * The login endpoint (AuthController.cs): a fixed credential check, then a
 * token naming the stored admin user that expires after 30 minutes.
 */
module AuthController {
  import opened Wrappers
  import opened Models
  import opened Text
  import UserRepository

  /** One claim of the token: its type and its value. */
  datatype Claim = Claim(kind: string, value: string)

  /** The token before signing and serialisation: issuer and audience as read from
      the configuration (absent keys read as `null`), the claims, the expiry in
      seconds, and the secret it is signed with. */
  datatype SecurityToken = SecurityToken(
    issuer: Option<string>,
    audience: Option<string>,
    claims: seq<Claim>,
    expires: int,
    signingKey: string)

  const ADMIN_USERNAME: string := "admin"
  const ADMIN_PASSWORD: string := "password"
  const INVALID_CREDENTIALS: string := "Invalid credentials"
  const SUBJECT_CLAIM: string := "sub"
  const USERNAME_CLAIM: string := "username"
  /** The token lifetime, 30 minutes, in seconds. */
  const TOKEN_LIFETIME: int := 30 * 60

  /** The configuration as the entries its sources supply, in load order. Keys
      are compared ignoring case, and a later entry overrides an earlier one. */
  type Configuration = seq<(string, string)>

  /** Two configuration keys name the same setting: equal up to letter case. */
  predicate SameKey(a: string, b: string)
  {
    |a| == |b| && forall i | 0 <= i < |a| :: ToUpper(a[i]) == ToUpper(b[i])
  }

  /** `_configuration[name]`: the value of the last entry whose key matches `name`
      ignoring case, or `null` when none does. */
  function Setting(configuration: Configuration, name: string): (r: Option<string>)
    ensures r.Some? <==> exists k | 0 <= k < |configuration| :: SameKey(configuration[k].0, name)
    ensures r.Some? ==> exists k | 0 <= k < |configuration| ::
      && SameKey(configuration[k].0, name) && configuration[k].1 == r.value
      && forall j | k < j < |configuration| :: !SameKey(configuration[j].0, name)
    decreases |configuration|
  {
    if configuration == [] then None
    else
      assert forall k | 1 <= k < |configuration| :: configuration[k] == configuration[1..][k - 1];
      match Setting(configuration[1..], name)
      case Some(later) => Some(later)
      case None => if SameKey(configuration[0].0, name) then Some(configuration[0].1) else None
  }

  /** Names that differ only in letter case read the same setting. */
  lemma {:induction false} SettingIgnoresCase(configuration: Configuration, a: string, b: string)
    requires SameKey(a, b)
    ensures Setting(configuration, a) == Setting(configuration, b)
    decreases |configuration|
  {
    if configuration != [] {
      SettingIgnoresCase(configuration[1..], a, b);
      var key := configuration[0].0;
      assert SameKey(key, a) <==> SameKey(key, b) by {
        if SameKey(key, a) {
          assert forall i | 0 <= i < |key| :: ToUpper(key[i]) == ToUpper(b[i]) by {
            forall i | 0 <= i < |key| ensures ToUpper(key[i]) == ToUpper(b[i]) {
              assert ToUpper(key[i]) == ToUpper(a[i]);
            }
          }
        }
        if SameKey(key, b) {
          forall i | 0 <= i < |key| ensures ToUpper(key[i]) == ToUpper(a[i]) {
            assert ToUpper(key[i]) == ToUpper(b[i]);
          }
        }
      }
    }
  }

  /** `Login(login)` at time `now` (seconds). Only the literal admin credentials
      pass; then the user is looked up by name (which throws when absent), and an
      absent `Jwt:SecretKey` makes the key encoding throw. */
  function Login(login: LoginDto, users: seq<User>, configuration: Configuration, now: int): (r: Result<ActionResult<SecurityToken>, ServerError>)
    ensures (login.username != ADMIN_USERNAME || login.password != ADMIN_PASSWORD) ==>
              r == Success(Unauthorized(INVALID_CREDENTIALS))
    ensures r.Success? && r.value.Ok? ==> login == LoginDto(ADMIN_USERNAME, ADMIN_PASSWORD)
    ensures r.Success? ==> r.value.Ok? || r.value == Unauthorized(INVALID_CREDENTIALS)
    ensures r.Failure? ==> r.error == SequenceContainsNoElements || r.error == ArgumentNull
    ensures r.Success? && r.value.Ok? ==>
      var token := r.value.value;
      && token.expires == now + TOKEN_LIFETIME
      && token.issuer == Setting(configuration, "Jwt:Issuer")
      && token.audience == Setting(configuration, "Jwt:Audience")
      && Setting(configuration, "Jwt:SecretKey") == Some(token.signingKey)
      && |token.claims| == 2
      && UserRepository.GetByUserName(users, login.username).Success?
      && token.claims[0] == Claim(SUBJECT_CLAIM, DecimalString(UserRepository.GetByUserName(users, login.username).value.id))
      && token.claims[1] == Claim(USERNAME_CLAIM, login.username)
  {
    if login.username == ADMIN_USERNAME && login.password == ADMIN_PASSWORD then
      match UserRepository.GetByUserName(users, login.username)
      case Failure(e) => Failure(e)
      case Success(user) =>
        var claims := [Claim(SUBJECT_CLAIM, DecimalString(user.id)), Claim(USERNAME_CLAIM, login.username)];
        match Setting(configuration, "Jwt:SecretKey")
        case None => Failure(ArgumentNull)
        case Some(key) =>
          Success(Ok(SecurityToken(
            Setting(configuration, "Jwt:Issuer"),
            Setting(configuration, "Jwt:Audience"),
            claims,
            now + TOKEN_LIFETIME,
            key)))
    else
      Success(Unauthorized(INVALID_CREDENTIALS))
  }

  /** The stored passwords play no part: the outcome for any credentials other
      than the literal pair does not depend on the users table or the configuration. */
  lemma LoginIgnoresStoredPasswords(login: LoginDto, users1: seq<User>, users2: seq<User>, configuration1: Configuration, configuration2: Configuration, now1: int, now2: int)
    requires login != LoginDto(ADMIN_USERNAME, ADMIN_PASSWORD)
    ensures Login(login, users1, configuration1, now1) == Login(login, users2, configuration2, now2)
  {
  }

  /** The `sub` claim of an issued token reads back as the id of the first stored
      user named `admin`. */
  lemma LoginSubjectIsAdminId(users: seq<User>, configuration: Configuration, now: int)
    requires Login(LoginDto(ADMIN_USERNAME, ADMIN_PASSWORD), users, configuration, now).Success?
    requires Login(LoginDto(ADMIN_USERNAME, ADMIN_PASSWORD), users, configuration, now).value.Ok?
    ensures var token := Login(LoginDto(ADMIN_USERNAME, ADMIN_PASSWORD), users, configuration, now).value.value;
            var admin := UserRepository.GetByUserName(users, ADMIN_USERNAME);
            && admin.Success?
            && token.claims[0].value == DecimalString(admin.value.id)
            && ParseDecimal(token.claims[0].value) == Some(admin.value.id)
  {
    var admin := UserRepository.GetByUserName(users, ADMIN_USERNAME);
    DecimalRoundTrip(admin.value.id);
  }

  /** With the admin credentials the outcome is decided by the store and the
      configuration: no stored `admin` is an exception, a missing secret is an
      exception, and otherwise a token is issued. */
  lemma LoginWithAdminCredentials(users: seq<User>, configuration: Configuration, now: int)
    ensures var r := Login(LoginDto(ADMIN_USERNAME, ADMIN_PASSWORD), users, configuration, now);
            && ((forall u | u in users :: u.username != ADMIN_USERNAME) ==> r == Failure(SequenceContainsNoElements))
            && ((exists u | u in users :: u.username == ADMIN_USERNAME) && Setting(configuration, "Jwt:SecretKey").None? ==> r == Failure(ArgumentNull))
            && ((exists u | u in users :: u.username == ADMIN_USERNAME) && Setting(configuration, "Jwt:SecretKey").Some? ==> r.Success? && r.value.Ok?)
  {
  }
}
