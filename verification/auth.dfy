/** The pseudo-authentication core: the credential store, login and sign-up
    as atomic steps, the two-tier session with its expiry, and logout.
    Everything is a pure function of the stored state, the form input and
    `now` (milliseconds since the epoch). */
module Auth {
  import opened Options
  import opened Text
  import opened Validation
  import PasswordHash
  import RateLimit

  /** `sessionTimeout`: thirty minutes, the expiry of a plain login. */
  const SessionTimeoutMs: nat := 30 * 60 * 1000
  /** Thirty days, the expiry of a "remember me" login. */
  const RememberMeMs: nat := 30 * 24 * 60 * 60 * 1000

  datatype Preferences = Preferences(theme: string, language: string, notifications: bool)

  const NewUserPreferences := Preferences("dark", "en", true)

  /** A stored account. `id` is the creation instant (the code keeps its
      decimal string); `createdAt` and `lastLogin` are instants (the code
      keeps ISO strings); `passwordHash` is the rolling hash (the code keeps
      its decimal string, which compares equal exactly when the numbers do). */
  datatype User = User(
    id: int,
    name: string,
    email: string,
    passwordHash: int,
    createdAt: int,
    lastLogin: Option<int>,
    preferences: Preferences)

  /** The local-storage entries the module owns: `codemaster_users`,
      `codemaster_current_user`, `codemaster_session_expires` and
      `login_attempts`. The in-memory user list is written back after every
      change, so it is not kept separately. */
  datatype Durable = Durable(
    users: seq<User>,
    rememberedUser: Option<User>,
    sessionExpires: Option<int>,
    attempts: RateLimit.Attempts)

  /** The in-memory `currentUser`, local storage, and the session-storage
      `codemaster_current_user`. */
  datatype AuthState = AuthState(current: Option<User>, durable: Durable, sessionUser: Option<User>)

  /** The message each step shows (the notification presenter itself is not modelled). */
  datatype Notice =
    | Silent
    | AccountLocked
    | InvalidCredentials
    | WelcomeBack(name: string)
    | AccountCreated(name: string)
    | FieldsInvalid(nameVerdict: Verdict, emailVerdict: Verdict, passwordVerdict: Verdict)
    | PasswordsDiffer
    | DuplicateEmail
    | SessionExpired
    | LoggedOut

  /* ---------- credential store ---------- */

  /** Emails are exact, case-sensitive keys. */
  predicate UniqueEmails(users: seq<User>) {
    forall i, j :: 0 <= i < j < |users| ==> users[i].email != users[j].email
  }

  /** `users.find(u => u.email === email)`, as an index: the first match. */
  function FindUser(users: seq<User>, email: string): (r: Option<nat>)
    ensures r.Some? ==> r.value < |users| && users[r.value].email == email
    ensures r.Some? ==> forall j :: 0 <= j < r.value ==> users[j].email != email
    ensures r.None? ==> forall j :: 0 <= j < |users| ==> users[j].email != email
    decreases |users|
  {
    if |users| == 0 then None
    else if users[0].email == email then Some(0)
    else match FindUser(users[1..], email)
      case None => None
      case Some(i) => Some(i + 1)
  }

  /** The record `handleRegister` builds, before the automatic login stamps it. */
  function NewUser(name: string, email: string, password: string, now: nat): User {
    User(now, name, email, PasswordHash.Hash(password), now, None, NewUserPreferences)
  }

  /* ---------- session ---------- */

  /** `setCurrentUser`: stamp `lastLogin` on the stored record (the code
      mutates the very object in the list), make it current, and write it to
      durable storage for thirty days or to session storage for thirty
      minutes. The other tier is left as it was. */
  function SetCurrentUser(st: AuthState, i: nat, rememberMe: bool, now: nat): (r: AuthState)
    requires i < |st.durable.users|
    ensures r.current == Some(st.durable.users[i].(lastLogin := Some(now)))
    ensures r.durable.users == st.durable.users[i := r.current.value]
    ensures r.durable.attempts == st.durable.attempts
    ensures rememberMe ==>
              && r.durable.rememberedUser == r.current
              && r.durable.sessionExpires == Some(now + RememberMeMs)
              && r.sessionUser == st.sessionUser
    ensures !rememberMe ==>
              && r.sessionUser == r.current
              && r.durable.sessionExpires == Some(now + SessionTimeoutMs)
              && r.durable.rememberedUser == st.durable.rememberedUser
  {
    var user := st.durable.users[i].(lastLogin := Some(now));
    var users := st.durable.users[i := user];
    if rememberMe then
      AuthState(Some(user),
                st.durable.(users := users, rememberedUser := Some(user), sessionExpires := Some(now + RememberMeMs)),
                st.sessionUser)
    else
      AuthState(Some(user),
                st.durable.(users := users, sessionExpires := Some(now + SessionTimeoutMs)),
                Some(user))
  }

  /** `logout`: forget the current user and remove all three session entries. */
  function Logout(st: AuthState, expired: bool): (r: (AuthState, Notice))
    ensures r.0.current.None? && r.0.sessionUser.None?
    ensures r.0.durable.rememberedUser.None? && r.0.durable.sessionExpires.None?
    ensures r.0.durable.users == st.durable.users && r.0.durable.attempts == st.durable.attempts
    ensures r.1 == (if expired then SessionExpired else LoggedOut)
  {
    (AuthState(None, st.durable.(rememberedUser := None, sessionExpires := None), None),
     if expired then SessionExpired else LoggedOut)
  }

  /** `checkSession`: a stored expiry already passed forces an expired
      logout; otherwise a session-storage identity is adopted when nobody is
      current. */
  function CheckSession(st: AuthState, now: nat): (r: (AuthState, Notice))
    ensures (st.durable.sessionExpires.Some? && now > st.durable.sessionExpires.value) ==>
              r == Logout(st, true)
    ensures !(st.durable.sessionExpires.Some? && now > st.durable.sessionExpires.value) ==>
              && r.1 == Silent
              && r.0.durable == st.durable && r.0.sessionUser == st.sessionUser
              && r.0.current == (if st.current.None? then st.sessionUser else st.current)
  {
    if st.durable.sessionExpires.Some? && now > st.durable.sessionExpires.value then
      Logout(st, true)
    else if st.sessionUser.Some? && st.current.None? then
      (st.(current := st.sessionUser), Silent)
    else
      (st, Silent)
  }

  /** Page load: the constructor reads the durable identity, then `checkSession`
      runs. A live remembered identity wins over the session-storage one. */
  function Startup(d: Durable, sessionUser: Option<User>, now: nat): (r: (AuthState, Notice))
    ensures d.sessionExpires.Some? && now > d.sessionExpires.value ==>
              && r.1 == SessionExpired && r.0.current.None? && r.0.sessionUser.None?
              && r.0.durable.rememberedUser.None? && r.0.durable.sessionExpires.None?
              && r.0.durable.users == d.users && r.0.durable.attempts == d.attempts
    ensures !(d.sessionExpires.Some? && now > d.sessionExpires.value) ==>
              && r.1 == Silent && r.0.durable == d && r.0.sessionUser == sessionUser
              && r.0.current == (if d.rememberedUser.Some? then d.rememberedUser else sessionUser)
  {
    CheckSession(AuthState(d.rememberedUser, d, sessionUser), now)
  }

  /* ---------- login and sign-up ---------- */

  /** `handleLogin`, with the artificial delay collapsed into one step: the
      lock is checked first (no lookup, nothing recorded); an unknown e-mail
      and a wrong password both record one failure and say the same thing;
      success clears the record and sets the session. */
  function Login(st: AuthState, rawEmail: string, password: string, rememberMe: bool, now: nat): (r: (AuthState, Notice))
    ensures RateLimit.IsLocked(st.durable.attempts, Trim(rawEmail), now) ==> r == (st, AccountLocked)
    ensures r.1 == InvalidCredentials ==>
              r.0 == st.(durable := st.durable.(attempts := RateLimit.RecordFailure(st.durable.attempts, Trim(rawEmail), now)))
    ensures r.1.WelcomeBack? ==>
              && r.0.current.Some? && r.0.current.value.email == Trim(rawEmail)
              && PasswordHash.Verify(password, r.0.current.value.passwordHash)
              && r.0.durable.attempts == RateLimit.Clear(st.durable.attempts, Trim(rawEmail))
    ensures r.1 == AccountLocked || r.1 == InvalidCredentials || r.1.WelcomeBack?
  {
    var email := Trim(rawEmail);
    if RateLimit.IsLocked(st.durable.attempts, email, now) then
      (st, AccountLocked)
    else
      match FindUser(st.durable.users, email)
      case None =>
        (st.(durable := st.durable.(attempts := RateLimit.RecordFailure(st.durable.attempts, email, now))),
         InvalidCredentials)
      case Some(i) =>
        if !PasswordHash.Verify(password, st.durable.users[i].passwordHash) then
          (st.(durable := st.durable.(attempts := RateLimit.RecordFailure(st.durable.attempts, email, now))),
           InvalidCredentials)
        else
          var cleared := st.(durable := st.durable.(attempts := RateLimit.Clear(st.durable.attempts, email)));
          (SetCurrentUser(cleared, i, rememberMe, now), WelcomeBack(st.durable.users[i].name))
  }

  /** The successful end of `handleRegister`: append the new record and log
      it in without "remember me". */
  function CreateAccount(st: AuthState, name: string, email: string, password: string, now: nat): (r: AuthState)
    ensures r.current == Some(NewUser(name, email, password, now).(lastLogin := Some(now)))
    ensures r.durable.users == st.durable.users + [r.current.value]
    ensures r.sessionUser == r.current
    ensures r.durable.rememberedUser == st.durable.rememberedUser
    ensures r.durable.sessionExpires == Some(now + SessionTimeoutMs)
    ensures r.durable.attempts == st.durable.attempts
  {
    var appended := st.(durable := st.durable.(users := st.durable.users + [NewUser(name, email, password, now)]));
    SetCurrentUser(appended, |st.durable.users|, false, now)
  }

  /** `handleRegister`: all three fields are validated (each reports its own
      verdict), then a non-empty confirmation must match, then the trimmed
      e-mail must be new; the record is appended and logged in without
      "remember me". */
  function Register(st: AuthState, rawName: string, rawEmail: string, password: string,
                    confirm: Option<string>, now: nat): (r: (AuthState, Notice))
    ensures !r.1.AccountCreated? ==> r.0 == st
    ensures FindUser(st.durable.users, Trim(rawEmail)).Some? ==> r.0 == st
    ensures r.1.FieldsInvalid? <==>
              !(ValidateName(rawName) == Accepted && ValidateEmail(rawEmail) == Accepted && ValidatePassword(password) == Accepted)
    ensures r.1 == PasswordsDiffer <==>
              && ValidateName(rawName) == Accepted && ValidateEmail(rawEmail) == Accepted && ValidatePassword(password) == Accepted
              && confirm.Some? && confirm.value != "" && confirm.value != password
    ensures r.1 == DuplicateEmail <==>
              && ValidateName(rawName) == Accepted && ValidateEmail(rawEmail) == Accepted && ValidatePassword(password) == Accepted
              && (confirm.None? || confirm.value == "" || confirm.value == password)
              && FindUser(st.durable.users, Trim(rawEmail)).Some?
    ensures r.1.AccountCreated? <==>
              && ValidateName(rawName) == Accepted && ValidateEmail(rawEmail) == Accepted && ValidatePassword(password) == Accepted
              && (confirm.None? || confirm.value == "" || confirm.value == password)
              && FindUser(st.durable.users, Trim(rawEmail)).None?
    ensures r.1.AccountCreated? ==>
              && r.1 == AccountCreated(Trim(rawName))
              && ValidateName(rawName) == Accepted
              && ValidateEmail(rawEmail) == Accepted
              && ValidatePassword(password) == Accepted
              && r.0 == CreateAccount(st, Trim(rawName), Trim(rawEmail), password, now)
  {
    var nameVerdict := ValidateName(rawName);
    var emailVerdict := ValidateEmail(rawEmail);
    var passwordVerdict := ValidatePassword(password);
    if nameVerdict != Accepted || emailVerdict != Accepted || passwordVerdict != Accepted then
      (st, FieldsInvalid(nameVerdict, emailVerdict, passwordVerdict))
    else if confirm.Some? && confirm.value != "" && password != confirm.value then
      (st, PasswordsDiffer)
    else if FindUser(st.durable.users, Trim(rawEmail)).Some? then
      (st, DuplicateEmail)
    else
      (CreateAccount(st, Trim(rawName), Trim(rawEmail), password, now), AccountCreated(Trim(rawName)))
  }

  /* ---------- invariants ---------- */

  /** An expiry in storage always has an identity behind it in one of the tiers. */
  predicate ExpiryBacked(st: AuthState) {
    st.durable.sessionExpires.Some? ==> st.durable.rememberedUser.Some? || st.sessionUser.Some?
  }

  predicate Valid(st: AuthState) {
    UniqueEmails(st.durable.users) && ExpiryBacked(st)
  }

  lemma SetCurrentUserKeepsEmails(st: AuthState, i: nat, rememberMe: bool, now: nat)
    requires i < |st.durable.users|
    ensures var r := SetCurrentUser(st, i, rememberMe, now);
            forall j :: 0 <= j < |st.durable.users| ==> r.durable.users[j].email == st.durable.users[j].email
  {
  }

  lemma LoginPreservesValid(st: AuthState, rawEmail: string, password: string, rememberMe: bool, now: nat)
    requires Valid(st)
    ensures Valid(Login(st, rawEmail, password, rememberMe, now).0)
  {
    var email := Trim(rawEmail);
    if !RateLimit.IsLocked(st.durable.attempts, email, now) {
      var found := FindUser(st.durable.users, email);
      if found.Some? && PasswordHash.Verify(password, st.durable.users[found.value].passwordHash) {
        var cleared := st.(durable := st.durable.(attempts := RateLimit.Clear(st.durable.attempts, email)));
        SetCurrentUserKeepsEmails(cleared, found.value, rememberMe, now);
      }
    }
  }

  lemma CreateAccountPreservesValid(st: AuthState, name: string, email: string, password: string, now: nat)
    requires Valid(st)
    requires FindUser(st.durable.users, email).None?
    ensures Valid(CreateAccount(st, name, email, password, now))
  {
    var users := CreateAccount(st, name, email, password, now).durable.users;
    assert users[|users| - 1].email == email;
    forall i, j | 0 <= i < j < |users|
      ensures users[i].email != users[j].email
    {
      assert users[i] == st.durable.users[i];
      if j < |users| - 1 {
        assert users[j] == st.durable.users[j];
      }
    }
  }

  lemma RegisterPreservesValid(st: AuthState, rawName: string, rawEmail: string, password: string,
                               confirm: Option<string>, now: nat)
    requires Valid(st)
    ensures Valid(Register(st, rawName, rawEmail, password, confirm, now).0)
  {
    if Register(st, rawName, rawEmail, password, confirm, now).1.AccountCreated? {
      CreateAccountPreservesValid(st, Trim(rawName), Trim(rawEmail), password, now);
    }
  }

  lemma CheckSessionPreservesValid(st: AuthState, now: nat)
    requires Valid(st)
    ensures Valid(CheckSession(st, now).0)
  {
  }

  /** Page load does not keep `Valid`: a page opened with empty session storage
      (a new tab, a restarted browser) while a plain login's expiry is still
      stored and live restores nobody, and the expiry stays behind unbacked. */
  lemma StartupLeavesPlainExpiryUnbacked(d: Durable, now: nat)
    requires d.rememberedUser.None? && d.sessionExpires.Some? && now <= d.sessionExpires.value
    ensures var r := Startup(d, None, now).0;
            r.current.None? && r.durable == d && !ExpiryBacked(r)
  {
  }

  /* ---------- properties of the flows ---------- */

  /** A failed login adds exactly one to that e-mail's count, sets no session
      and changes no account. */
  lemma FailedLoginCountsOnce(st: AuthState, rawEmail: string, password: string, rememberMe: bool, now: nat)
    requires !RateLimit.IsLocked(st.durable.attempts, Trim(rawEmail), now)
    requires var f := FindUser(st.durable.users, Trim(rawEmail));
             f.None? || !PasswordHash.Verify(password, st.durable.users[f.value].passwordHash)
    ensures var r := Login(st, rawEmail, password, rememberMe, now);
            && r.1 == InvalidCredentials
            && r.0.current == st.current && r.0.sessionUser == st.sessionUser
            && r.0.durable.users == st.durable.users
            && r.0.durable.sessionExpires == st.durable.sessionExpires
            && r.0.durable.attempts[Trim(rawEmail)].count
               == (if Trim(rawEmail) in st.durable.attempts then st.durable.attempts[Trim(rawEmail)].count else 0) + 1
  {
  }

  /** A successful login leaves no failure record at all (not a zero count)
      and the e-mail unlocked. */
  lemma SuccessfulLoginClearsRecord(st: AuthState, rawEmail: string, password: string, rememberMe: bool, now: nat, later: int)
    requires Login(st, rawEmail, password, rememberMe, now).1.WelcomeBack?
    ensures Trim(rawEmail) !in Login(st, rawEmail, password, rememberMe, now).0.durable.attempts
    ensures !RateLimit.IsLocked(Login(st, rawEmail, password, rememberMe, now).0.durable.attempts, Trim(rawEmail), later)
  {
  }

  /** Five failures, the last less than fifteen minutes ago, refuse even the
      right password without looking it up. */
  lemma SixthAttemptRefused(st: AuthState, rawEmail: string, times: seq<int>,
                            password: string, rememberMe: bool, now: nat)
    requires |times| >= RateLimit.MaxLoginAttempts
    requires now - times[|times| - 1] < RateLimit.LockoutMs
    ensures var locked := st.(durable := st.durable.(attempts := RateLimit.Failures(st.durable.attempts, Trim(rawEmail), times)));
            Login(locked, rawEmail, password, rememberMe, now) == (locked, AccountLocked)
  {
    RateLimit.FiveFailuresLock(st.durable.attempts, Trim(rawEmail), times, now);
  }

  /** A sign-up whose trimmed e-mail is already taken (exact, case-sensitive)
      changes nothing. */
  lemma DuplicateRegistrationRefused(st: AuthState, rawName: string, rawEmail: string, password: string,
                                     confirm: Option<string>, now: nat)
    requires ValidateName(rawName) == Accepted && ValidateEmail(rawEmail) == Accepted
    requires ValidatePassword(password) == Accepted
    requires confirm.None? || confirm.value == "" || confirm.value == password
    requires exists j :: 0 <= j < |st.durable.users| && st.durable.users[j].email == Trim(rawEmail)
    ensures Register(st, rawName, rawEmail, password, confirm, now) == (st, DuplicateEmail)
  {
  }

  /** Signing up and then logging in with the same e-mail and password
      succeeds and finds the new account, unless failures recorded earlier
      against that e-mail still hold the lock. */
  lemma RegisterThenLogin(st: AuthState, rawName: string, rawEmail: string, password: string,
                          confirm: Option<string>, t0: nat, loginEmail: string, rememberMe: bool, t1: nat)
    requires Register(st, rawName, rawEmail, password, confirm, t0).1.AccountCreated?
    requires Trim(loginEmail) == Trim(rawEmail)
    requires !RateLimit.IsLocked(st.durable.attempts, Trim(rawEmail), t1)
    ensures var r := Login(Register(st, rawName, rawEmail, password, confirm, t0).0, loginEmail, password, rememberMe, t1);
            && r.1 == WelcomeBack(Trim(rawName))
            && r.0.current.Some?
            && r.0.current.value.email == Trim(rawEmail)
            && r.0.current.value.name == Trim(rawName)
  {
    var reg := Register(st, rawName, rawEmail, password, confirm, t0).0;
    var n := |st.durable.users|;
    FindAppended(st.durable.users, reg.current.value);
    assert reg.durable.users[n] == reg.current.value;
    LoginSucceeds(reg, loginEmail, password, rememberMe, t1, n);
  }

  /** Login with the stored password of the record found for the e-mail,
      while the e-mail is not locked, logs that record in. */
  lemma LoginSucceeds(st: AuthState, rawEmail: string, password: string, rememberMe: bool, now: nat, i: nat)
    requires FindUser(st.durable.users, Trim(rawEmail)) == Some(i)
    requires !RateLimit.IsLocked(st.durable.attempts, Trim(rawEmail), now)
    requires PasswordHash.Verify(password, st.durable.users[i].passwordHash)
    ensures var r := Login(st, rawEmail, password, rememberMe, now);
            && r.1 == WelcomeBack(st.durable.users[i].name)
            && r.0.current == Some(st.durable.users[i].(lastLogin := Some(now)))
  {
  }

  /** A record appended under a new e-mail is the one found for it. */
  lemma FindAppended(users: seq<User>, u: User)
    requires FindUser(users, u.email).None?
    ensures FindUser(users + [u], u.email) == Some(|users|)
  {
    var all := users + [u];
    var n := |users|;
    var r := FindUser(all, u.email);
    assert all[n].email == u.email;
    assert r.Some?;
    assert r.value == n;
  }


  /** A session whose expiry has passed is logged out at page load, with all
      three entries removed. */
  lemma ExpiredSessionLoggedOut(d: Durable, sessionUser: Option<User>, now: nat)
    requires d.sessionExpires.Some? && now > d.sessionExpires.value
    ensures var r := Startup(d, sessionUser, now);
            && r.0.current.None? && r.0.sessionUser.None?
            && r.0.durable.rememberedUser.None? && r.0.durable.sessionExpires.None?
            && r.1 == SessionExpired
  {
  }

  /** A "remember me" login survives a reload within thirty days, even after
      the browser dropped session storage. */
  lemma RememberedLoginSurvivesReload(st: AuthState, rawEmail: string, password: string, now: nat,
                                      sessionUser: Option<User>, later: nat)
    requires Login(st, rawEmail, password, true, now).1.WelcomeBack?
    requires later <= now + RememberMeMs
    ensures var logged := Login(st, rawEmail, password, true, now).0;
            Startup(logged.durable, sessionUser, later).0.current == logged.current
  {
  }

  /** A plain login lasts thirty minutes: a reload after that is an expired
      logout. */
  lemma PlainLoginExpires(st: AuthState, rawEmail: string, password: string, now: nat,
                          sessionUser: Option<User>, later: nat)
    requires Login(st, rawEmail, password, false, now).1.WelcomeBack?
    requires later > now + SessionTimeoutMs
    ensures var logged := Login(st, rawEmail, password, false, now).0;
            Startup(logged.durable, sessionUser, later).0.current.None?
  {
  }

  /** The tiers are not exclusive: a plain login does not remove an earlier
      "remember me" identity, and on reload that older identity, read first by
      the constructor, wins over the newer session-storage one. */
  lemma RememberedIdentityShadowsPlainLogin(st: AuthState, rawEmail: string, password: string, now: nat, later: nat)
    requires st.durable.rememberedUser.Some?
    requires Login(st, rawEmail, password, false, now).1.WelcomeBack?
    requires now <= later <= now + SessionTimeoutMs
    ensures var logged := Login(st, rawEmail, password, false, now).0;
            Startup(logged.durable, logged.sessionUser, later).0.current == st.durable.rememberedUser
  {
  }
}
