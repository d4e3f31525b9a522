/**
 * Input validation of the `/api/register` handler (server.js) and the
 * registration it guards: required fields, minimum lengths, the email
 * pattern `^[^\s@]+@[^\s@]+\.[^\s@]+$`, then `createUser`.
 */
module Registration {
  import opened Wrappers
  import opened ChatStore
  import Accounts

  /** The characters `\s` matches in a JavaScript regular expression (white space and line terminators). */
  predicate IsJsSpace(c: char) {
    || c == '\t' || c == '\n' || c == '\U{000B}' || c == '\U{000C}' || c == '\r' || c == ' '
    || c == '\U{00A0}' || c == '\U{1680}' || ('\U{2000}' <= c <= '\U{200A}')
    || c == '\U{2028}' || c == '\U{2029}' || c == '\U{202F}' || c == '\U{205F}'
    || c == '\U{3000}' || c == '\U{FEFF}'
  }

  /** The character class `[^\s@]`. */
  predicate IsAtomChar(c: char) {
    !IsJsSpace(c) && c != '@'
  }

  /** `[^\s@]+`: a non-empty run of atom characters. */
  ghost predicate AtomRun(s: string) {
    |s| > 0 && forall i :: 0 <= i < |s| ==> IsAtomChar(s[i])
  }

  /**
   * The whole string matches `^[^\s@]+@[^\s@]+\.[^\s@]+$`: it splits at an
   * `@` and a later `.` into three non-empty runs of atom characters.
   */
  ghost predicate MatchesEmailPattern(s: string) {
    exists at, dot :: 0 < at && at + 1 < dot < |s| - 1 && s[at] == '@' && s[dot] == '.'
      && AtomRun(s[..at]) && AtomRun(s[at + 1..dot]) && AtomRun(s[dot + 1..])
  }

  /** The email scan's helper: the first position of `c` in `s`, or -1 when there is none. */
  function IndexOf(s: string, c: char): (k: int)
    ensures -1 <= k < |s|
    ensures k >= 0 ==> s[k] == c && forall i :: 0 <= i < k ==> s[i] != c
    ensures k < 0 ==> forall i :: 0 <= i < |s| ==> s[i] != c
  {
    if s == [] then -1
    else if s[0] == c then 0
    else
      var k := IndexOf(s[1..], c);
      if k < 0 then -1 else k + 1
  }

  /**
   * The email check read as a scan: no white space anywhere, exactly one
   * `@` and not at the start, and a `.` in the domain part that is neither
   * its first nor its last character.
   */
  predicate IsValidEmail(s: string) {
    && (forall i :: 0 <= i < |s| ==> !IsJsSpace(s[i]))
    && var at := IndexOf(s, '@');
       && at > 0
       && (forall i :: at < i < |s| ==> s[i] != '@')
       && (exists j :: at + 1 < j < |s| - 1 && s[j] == '.')
  }

  /** The scan accepts exactly the strings the regular expression matches. */
  lemma EmailScanMatchesPattern(s: string)
    ensures IsValidEmail(s) <==> MatchesEmailPattern(s)
  {
    if IsValidEmail(s) {
      ScanGivesPattern(s);
    }
    if MatchesEmailPattern(s) {
      var at, dot :| 0 < at && at + 1 < dot < |s| - 1 && s[at] == '@' && s[dot] == '.'
        && AtomRun(s[..at]) && AtomRun(s[at + 1..dot]) && AtomRun(s[dot + 1..]);
      PatternGivesScan(s, at, dot);
    }
  }

  lemma ScanGivesPattern(s: string)
    requires IsValidEmail(s)
    ensures MatchesEmailPattern(s)
  {
    var at := IndexOf(s, '@');
    var dot :| at + 1 < dot < |s| - 1 && s[dot] == '.';
    assert AtomRun(s[..at]);
    assert AtomRun(s[at + 1..dot]);
    assert AtomRun(s[dot + 1..]);
  }

  lemma PatternGivesScan(s: string, at: int, dot: int)
    requires 0 < at && at + 1 < dot < |s| - 1 && s[at] == '@' && s[dot] == '.'
    requires AtomRun(s[..at]) && AtomRun(s[at + 1..dot]) && AtomRun(s[dot + 1..])
    ensures IsValidEmail(s)
  {
    forall i | 0 <= i < |s|
      ensures !IsJsSpace(s[i]) && (i != at ==> s[i] != '@')
    {
      PatternChar(s, at, dot, i);
    }
    assert IndexOf(s, '@') == at;
  }

  lemma PatternChar(s: string, at: int, dot: int, i: int)
    requires 0 < at && at + 1 < dot < |s| - 1 && s[at] == '@' && s[dot] == '.'
    requires AtomRun(s[..at]) && AtomRun(s[at + 1..dot]) && AtomRun(s[dot + 1..])
    requires 0 <= i < |s|
    ensures !IsJsSpace(s[i]) && (i != at ==> s[i] != '@')
  {
    if i < at {
      assert s[i] == s[..at][i];
    } else if at < i < dot {
      assert s[i] == s[at + 1..dot][i - at - 1];
    } else if dot < i {
      assert s[i] == s[dot + 1..][i - dot - 1];
    }
  }

  /** The reasons `/api/register` refuses a request, in the order they are checked. */
  datatype RegistrationError =
    | MissingField
    | UsernameTooShort
    | PasswordTooShort
    | InvalidEmail
    | Rejected(error: StoreError)

  /** A request field is truthy: present and not the empty string. */
  predicate Present(field: Option<string>) {
    field.Some? && field.value != ""
  }

  /**
   * The checks ahead of `createUser`, first failure wins: a missing field,
   * a username under 3 characters, a password under 6, an email the pattern
   * rejects.
   */
  function ValidateRegistration(username: Option<string>, password: Option<string>, email: Option<string>): (r: Option<RegistrationError>)
    ensures r == Some(MissingField) <==> !(Present(username) && Present(password) && Present(email))
    ensures r == Some(UsernameTooShort) <==>
      Present(username) && Present(password) && Present(email) && |username.value| < 3
    ensures r == Some(PasswordTooShort) <==>
      Present(username) && Present(password) && Present(email) && |username.value| >= 3 && |password.value| < 6
    ensures r == Some(InvalidEmail) <==>
      Present(username) && Present(password) && Present(email) && |username.value| >= 3 && |password.value| >= 6
      && !MatchesEmailPattern(email.value)
    ensures r.None? <==>
      Present(username) && Present(password) && Present(email) && |username.value| >= 3 && |password.value| >= 6
      && MatchesEmailPattern(email.value)
  {
    if !(Present(username) && Present(password) && Present(email)) then Some(MissingField)
    else if |username.value| < 3 then Some(UsernameTooShort)
    else if |password.value| < 6 then Some(PasswordTooShort)
    else
      EmailScanMatchesPattern(email.value);
      if !IsValidEmail(email.value) then Some(InvalidEmail)
      else None
  }

  /** A successful registration: the new store and the profile handed back. */
  datatype Registered = Registered(store: Store, user: Profile)

  /** `/api/register` up to token issuance: validation, then `createUser`. */
  function Register(st: Store, username: Option<string>, password: Option<string>, email: Option<string>,
                    hash: string -> string, id: UserId, now: Timestamp): (r: Result<Registered, RegistrationError>)
    ensures ValidateRegistration(username, password, email).Some? ==>
      r == Err(ValidateRegistration(username, password, email).value)
    ensures ValidateRegistration(username, password, email).None? ==>
      && (r.Ok? <==> !UsernameTaken(st, username.value) && !EmailTaken(st, email.value))
      && (r.Err? ==> r.error == Rejected(if UsernameTaken(st, username.value) then UsernameExists else EmailExists))
  {
    match ValidateRegistration(username, password, email)
    case Some(e) => Err(e)
    case None =>
      match Accounts.CreateUser(st, username.value, password.value, email.value, hash, id, now)
      case Fail(e) => Err(Rejected(e))
      case Done(st', p) => Ok(Registered(st', p))
  }

  /**
   * The store is consulted only after validation passed. A valid request
   * succeeds exactly when its username and email are both free; otherwise
   * a taken username is reported ahead of a taken email. An accepted
   * registration stores exactly one new account whose fields passed every
   * check, and that account is then found by its id.
   */
  lemma RegisterOutcome(st: Store, username: Option<string>, password: Option<string>, email: Option<string>,
                        hash: string -> string, id: UserId, now: Timestamp)
    requires !UserIdTaken(st, id)
    ensures var r := Register(st, username, password, email, hash, id, now);
      && (r.Err? ==> r.error.Rejected? ==> ValidateRegistration(username, password, email).None?)
      && (ValidateRegistration(username, password, email).None? ==>
            && (r.Ok? <==> !UsernameTaken(st, username.value) && !EmailTaken(st, email.value))
            && (r.Err? ==> r.error == Rejected(if UsernameTaken(st, username.value) then UsernameExists else EmailExists)))
      && (r.Ok? ==>
            && |username.value| >= 3 && |password.value| >= 6 && MatchesEmailPattern(email.value)
            && !UsernameTaken(st, username.value) && !EmailTaken(st, email.value)
            && r.value.store.users == st.users + [User(id, username.value, email.value, hash(password.value), now)]
            && r.value.store.messages == st.messages
            && GetUserById(r.value.store, id) == Some(r.value.user))
  {
    var r := Register(st, username, password, email, hash, id, now);
    if r.Ok? {
      Accounts.CreateUserThenLookup(st, username.value, password.value, email.value, hash, id, now);
    }
  }

  /** A taken username is refused before the email is looked at, and never changes the store. */
  lemma RegisterDuplicateUsername(st: Store, username: string, password: Option<string>, email: Option<string>,
                                  hash: string -> string, id: UserId, now: Timestamp)
    requires UsernameTaken(st, username)
    requires ValidateRegistration(Some(username), password, email).None?
    ensures Register(st, Some(username), password, email, hash, id, now) == Err(Rejected(UsernameExists))
  {
  }
}
