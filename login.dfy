/**
 * The login form: the typed e-mail is trimmed and lower-cased, the first stored
 * user with that e-mail is looked up, and the typed password is checked against
 * the user's stored checksum, or against a legacy plain-text password when the
 * user has no checksum. Success makes the user the current user.
 */
module Login {
  import opened Wrappers
  import opened JsStrings
  import opened Entities
  import opened Session
  import opened Helpers
  import Register

  datatype LoginForm = LoginForm(email: JsString, password: JsString)

  const MissingCredentials: string := "Please enter both email and password"
  const InvalidCredentials: string := "Invalid email or password"

  /**
   * The password check. A stored checksum that is present and non-empty (a
   * truthy string) is checked with verifyPassword; otherwise the typed password
   * must equal the stored plain-text password, and a user without one never
   * matches.
   */
  predicate PasswordAccepted(user: User, password: JsString)
    ensures user.passwordHash.Some? && user.passwordHash.value != [] ==>
      (PasswordAccepted(user, password) <==> user.passwordHash.value == PasswordHash(password))
    ensures user.passwordHash.None? || user.passwordHash.value == [] ==>
      (PasswordAccepted(user, password) <==> user.password == Some(password))
    ensures user.passwordHash == Some(PasswordHash(password)) ==> PasswordAccepted(user, password)
    ensures user.passwordHash.None? && user.password.None? ==> !PasswordAccepted(user, password)
  {
    VerifyOwnHash(password);
    if user.passwordHash.Some? && user.passwordHash.value != [] then
      VerifyPassword(password, user.passwordHash.value)
    else
      user.password == Some(password)
  }

  /** handleSubmit's decision: the user to log in, or the message to show. */
  function Authenticate(form: LoginForm, users: seq<User>): (r: Result<User>)
    ensures r.Error? ==> r.msg == MissingCredentials || r.msg == InvalidCredentials
    ensures r.Ok? ==> r.value in users && r.value.email == Normalize(form.email) && form.password != []
  {
    var email := Normalize(form.email);
    if email == [] || form.password == [] then Error(MissingCredentials)
    else
      match FindByEmail(users, email)
      case None => Error(InvalidCredentials)
      case Some(user) =>
        if PasswordAccepted(user, form.password) then Ok(user) else Error(InvalidCredentials)
  }

  /**
   * Login succeeds exactly when both fields are filled in, some stored user has
   * the normalised e-mail, and the first such user accepts the password; the
   * user logged in is that first match.
   */
  lemma AuthenticateAccepts(form: LoginForm, users: seq<User>)
    ensures Authenticate(form, users).Ok? <==>
      && Normalize(form.email) != [] && form.password != []
      && (exists k :: 0 <= k < |users| && users[k].email == Normalize(form.email))
      && PasswordAccepted(FindByEmail(users, Normalize(form.email)).value, form.password)
    ensures Authenticate(form, users).Ok? ==>
      exists k :: (0 <= k < |users| && users[k] == Authenticate(form, users).value
        && users[k].email == Normalize(form.email)
        && forall j :: 0 <= j < k ==> users[j].email != Normalize(form.email))
  {
    var email := Normalize(form.email);
    if email != [] && form.password != [] && FindByEmail(users, email).Some? {
      var u := FindByEmail(users, email).value;
      var k :| (0 <= k < |users| && users[k] == u && forall j :: 0 <= j < k ==> users[j].email != email);
      assert users[k].email == email;
    }
  }

  /**
   * The two messages split the failures by cause: empty fields give one, and an
   * unknown e-mail and a wrong password give the same other one, so the message
   * does not reveal which e-mails are registered.
   */
  lemma AuthenticateMessages(form: LoginForm, users: seq<User>)
    ensures Authenticate(form, users) == Error(MissingCredentials) <==>
      Normalize(form.email) == [] || form.password == []
    ensures Authenticate(form, users) == Error(InvalidCredentials) <==>
      && Normalize(form.email) != [] && form.password != []
      && ((forall k :: 0 <= k < |users| ==> users[k].email != Normalize(form.email))
          || !PasswordAccepted(FindByEmail(users, Normalize(form.email)).value, form.password))
  {
  }

  /**
   * The round trip: after a successful registration, logging in with the same
   * password and any e-mail that normalises like the registered one returns the
   * new user.
   */
  lemma RegisterThenLogin(reg: Register.RegisterForm, users: seq<User>, id: JsString, createdAt: JsString, login: LoginForm)
    requires Register.Submit(reg, users, id, createdAt).Ok?
    requires Normalize(login.email) == Normalize(reg.email)
    requires login.password == reg.password
    ensures Authenticate(login, users + [Register.Submit(reg, users, id, createdAt).value])
      == Ok(Register.Submit(reg, users, id, createdAt).value)
  {
    var u := Register.Submit(reg, users, id, createdAt).value;
    Register.SubmitAccepts(reg, users, id, createdAt);
    Register.AcceptedEmailIsClean(reg.email);
    assert Normalize(login.email) == u.email;
    FindAppended(users, u);
    VerifyOwnHash(reg.password);
    assert PasswordAccepted(u, login.password);
  }

  /**
   * The same round trip for an e-mail typed with other letter case and with
   * white space around it.
   */
  lemma RegisterThenLoginVariant(reg: Register.RegisterForm, users: seq<User>, id: JsString, createdAt: JsString,
                                 pre: JsString, typed: JsString, post: JsString)
    requires Register.Submit(reg, users, id, createdAt).Ok?
    requires AllWhitespace(pre) && AllWhitespace(post) && ToLower(typed) == ToLower(reg.email)
    ensures Authenticate(LoginForm(pre + typed + post, reg.password),
                         users + [Register.Submit(reg, users, id, createdAt).value])
      == Ok(Register.Submit(reg, users, id, createdAt).value)
  {
    NormalizeIgnoresPaddingAndCase(pre, reg.email, post, typed);
    RegisterThenLogin(reg, users, id, createdAt, LoginForm(pre + typed + post, reg.password));
  }

  /**
   * The checks of the submit handler as the source runs them, with early exits:
   * both fields, then the lookup, then the password. Nothing is stored here.
   */
  method CheckLogin(form: LoginForm, users: seq<User>) returns (outcome: Result<User>)
    ensures outcome == Authenticate(form, users)
  {
    var email := Normalize(form.email);
    var password := form.password;
    if email == [] || password == [] {
      return Error(MissingCredentials);
    }
    var user := FindByEmail(users, email);
    if user.None? {
      return Error(InvalidCredentials);
    }
    var isValidPassword := PasswordAccepted(user.value, password);
    if isValidPassword {
      return Ok(user.value);
    }
    return Error(InvalidCredentials);
  }

  /** The login page's own state: its error message and whether a submission is under way. */
  class LoginPage {
    var error: string
    var isSubmitting: bool

    constructor ()
      ensures error == "" && !isSubmitting
    {
      error, isSubmitting := "", false;
    }

    /**
     * handleSubmit. A failure shows its message and leaves the session as it
     * was; success makes the found user the current user and changes nothing
     * else in the session.
     */
    method HandleSubmit(form: LoginForm, session: SessionState)
      returns (ghost outcome: Result<User>)
      modifies this, session
      ensures outcome == Authenticate(form, old(session.users))
      ensures outcome.Error? ==>
        && error == outcome.msg && !isSubmitting
        && session.currentUser == old(session.currentUser)
      ensures outcome.Ok? ==>
        && error == "" && isSubmitting && session.currentUser == Some(outcome.value)
      ensures session.users == old(session.users) && session.posts == old(session.posts)
    {
      var result := CheckLogin(form, session.users);
      outcome := result;
      Apply(result, session);
    }

    /** Shows the outcome of the checks on the page and logs an accepted user in. */
    method Apply(result: Result<User>, session: SessionState)
      modifies this, session
      ensures result.Error? ==>
        && error == result.msg && !isSubmitting
        && session.currentUser == old(session.currentUser)
      ensures result.Ok? ==>
        && error == "" && isSubmitting && session.currentUser == Some(result.value)
      ensures session.users == old(session.users) && session.posts == old(session.posts)
    {
      error := "";
      isSubmitting := true;
      match result {
        case Error(msg) =>
          error := msg;
          isSubmitting := false;
        case Ok(user) =>
          session.currentUser := Some(user);
      }
    }
  }
}
