/**
 * The account registration form: a chain of checks, each of which stops the
 * submission with its own message, then a new user appended to the stored users
 * and made the current user.
 */
module Register {
  import opened Wrappers
  import opened JsStrings
  import opened Entities
  import opened Session
  import opened Helpers

  datatype RegisterForm = RegisterForm(
    firstName: JsString,
    lastName: JsString,
    email: JsString,
    phone: JsString,
    password: JsString,
    confirmPassword: JsString)

  const PasswordsDoNotMatch: string := "Passwords do not match"
  const PasswordTooShort: string := "Password must be at least 6 characters"
  const InvalidEmail: string := "Please enter a valid email address"
  const MissingFields: string := "Please fill in all required fields"
  const EmailTaken: string := "Email already registered"
  const AccountCreated: string := "Account created successfully!"

  const MinPasswordLength: nat := 6
  const At: CodeUnit := 0x40
  const Dot: CodeUnit := 0x2E

  /**
   * `/^[^\s@]+@[^\s@]+\.[^\s@]+$/.test(s)`, decided in one left-to-right pass by
   * the automaton `Scan` from its start state.
   */
  predicate MatchesEmailPattern(s: JsString)
    ensures MatchesEmailPattern(s) ==> s != [] && !IsWhitespace(s[0]) && s[0] != At
  {
    Scan(s, 0)
  }

  /**
   * States of the scan: 0 start, 1 inside the name before '@', 2 just after '@',
   * 3 inside the domain with no usable '.' yet, 4 just after a usable '.',
   * 5 a '.' with text on both sides has been seen (accepting). Any other state
   * is dead. `Next` reads a code unit that is neither white space nor '@'.
   */
  function Next(q: nat, c: CodeUnit): nat {
    if q == 0 then 1
    else if q == 2 then 3
    else if q == 3 then (if c == Dot then 4 else 3)
    else if q == 4 then 5
    else q
  }

  /** The automaton run from state q over s accepts. White space rejects anywhere; '@' is allowed only once, straight after the name. */
  predicate Scan(s: JsString, q: nat) {
    if s == [] then q == 5
    else if IsWhitespace(s[0]) then false
    else if s[0] == At then q == 1 && Scan(s[1..], 2)
    else Scan(s[1..], Next(q, s[0]))
  }

  /** Every code unit of s is in the class `[^\s@]`. */
  ghost predicate IsClean(s: JsString) {
    forall k :: 0 <= k < |s| ==> !IsWhitespace(s[k]) && s[k] != At
  }

  /** One part of the pattern, `[^\s@]+`. */
  ghost predicate IsEmailPart(s: JsString) {
    s != [] && IsClean(s)
  }

  /** s is part '@' part '.' part, with the '@' at i and the '.' at j. */
  ghost predicate SplitsAt(s: JsString, i: nat, j: nat)
    requires 0 < i && i + 1 < j < |s| - 1
  {
    s[i] == At && s[j] == Dot
    && IsEmailPart(s[..i]) && IsEmailPart(s[i + 1..j]) && IsEmailPart(s[j + 1..])
  }

  /** The language of the regular expression: the strings with such a split. */
  ghost predicate InEmailLanguage(s: JsString) {
    exists i, j | 0 < i < |s| && i + 1 < j < |s| - 1 :: SplitsAt(s, i, j)
  }

  lemma CleanTail(s: JsString)
    requires s != []
    ensures IsClean(s) <==> !IsWhitespace(s[0]) && s[0] != At && IsClean(s[1..])
  {
    assert forall k :: 1 <= k < |s| ==> s[k] == s[1..][k - 1];
  }

  /** A slice whose code units are all in the class is clean. */
  lemma CleanSlice(s: JsString, a: nat, b: nat)
    requires a <= b <= |s|
    requires forall m :: a <= m < b ==> !IsWhitespace(s[m]) && s[m] != At
    ensures IsClean(s[a..b])
  {
    forall m | 0 <= m < b - a
      ensures !IsWhitespace(s[a..b][m]) && s[a..b][m] != At
    {
      assert s[a..b][m] == s[a + m];
    }
  }

  /** State 5 accepts exactly the clean strings. */
  lemma {:induction false} ScanAccepting(s: JsString)
    ensures Scan(s, 5) <==> IsClean(s)
  {
    if s != [] {
      CleanTail(s);
      ScanAccepting(s[1..]);
    }
  }

  /** State 4 accepts the non-empty clean strings. */
  lemma ScanAfterDot(s: JsString)
    ensures Scan(s, 4) <==> s != [] && IsClean(s)
  {
    if s != [] {
      CleanTail(s);
      ScanAccepting(s[1..]);
    }
  }

  /** State 3 accepts the clean strings with a '.' that is not last. */
  lemma {:induction false} ScanDomain(s: JsString)
    ensures Scan(s, 3) <==> IsClean(s) && exists p :: 0 <= p < |s| - 1 && s[p] == Dot
  {
    if s != [] {
      CleanTail(s);
      var t := s[1..];
      if s[0] == Dot {
        ScanAfterDot(t);
        if Scan(s, 3) {
          assert 0 < |s| - 1 && s[0] == Dot;
        }
      } else {
        ScanDomain(t);
        if Scan(s, 3) && !IsWhitespace(s[0]) && s[0] != At {
          var p :| 0 <= p < |t| - 1 && t[p] == Dot;
          assert s[p + 1] == Dot;
        }
        if IsClean(s) && exists p :: 0 <= p < |s| - 1 && s[p] == Dot {
          var p :| 0 <= p < |s| - 1 && s[p] == Dot;
          assert p > 0;
          assert t[p - 1] == Dot;
        }
      }
    }
  }

  /** State 2 accepts the clean strings with a '.' that is neither first nor last. */
  lemma ScanAfterAt(s: JsString)
    ensures Scan(s, 2) <==> IsClean(s) && exists p :: 1 <= p < |s| - 1 && s[p] == Dot
  {
    if s != [] {
      CleanTail(s);
      var t := s[1..];
      ScanDomain(t);
      if Scan(s, 2) && !IsWhitespace(s[0]) && s[0] != At {
        var p :| 0 <= p < |t| - 1 && t[p] == Dot;
        assert s[p + 1] == Dot;
      }
      if IsClean(s) && exists p :: 1 <= p < |s| - 1 && s[p] == Dot {
        var p :| 1 <= p < |s| - 1 && s[p] == Dot;
        assert t[p - 1] == Dot;
      }
    }
  }

  /** s is a clean name, '@' at i, then text state 2 accepts. */
  ghost predicate NameThenAt(s: JsString, i: nat) {
    i < |s| && s[i] == At && IsClean(s[..i]) && Scan(s[i + 1..], 2)
  }

  /** Dropping one clean code unit from the front shifts the '@' by one. */
  lemma NameStep(s: JsString, i: nat)
    requires s != [] && !IsWhitespace(s[0]) && s[0] != At
    ensures NameThenAt(s[1..], i) <==> NameThenAt(s, i + 1)
  {
    var t := s[1..];
    if i < |t| {
      assert t[i] == s[i + 1];
      assert s[..i + 1] == [s[0]] + t[..i];
      assert s[..i + 1][1..] == t[..i];
      CleanTail(s[..i + 1]);
      assert s[i + 2..] == t[i + 1..];
    }
  }

  /** A non-empty name starts with a code unit of the class. */
  lemma NameHead(s: JsString, i: nat)
    ensures NameThenAt(s, i) && i > 0 ==> !IsWhitespace(s[0]) && s[0] != At
  {
    if NameThenAt(s, i) && i > 0 {
      assert s[..i][0] == s[0];
    }
  }

  /** State 1 accepts a clean name, then '@', then what state 2 accepts. */
  lemma {:induction false} ScanName(s: JsString)
    ensures Scan(s, 1) <==> exists i: nat :: NameThenAt(s, i)
  {
    if s != [] {
      var t := s[1..];
      if s[0] == At {
        if Scan(s, 1) {
          assert NameThenAt(s, 0);
        }
        if exists i: nat :: NameThenAt(s, i) {
          var i: nat :| NameThenAt(s, i);
          NameHead(s, i);
        }
      } else if !IsWhitespace(s[0]) {
        ScanName(t);
        if Scan(s, 1) {
          var i: nat :| NameThenAt(t, i);
          NameStep(s, i);
        }
        if exists i: nat :: NameThenAt(s, i) {
          var i: nat :| NameThenAt(s, i);
          assert i > 0;
          NameStep(s, i - 1);
        }
      } else {
        if exists i: nat :: NameThenAt(s, i) {
          var i: nat :| NameThenAt(s, i);
          NameHead(s, i);
        }
      }
    }
  }

  /** The start state reads one code unit of the name and moves to state 1. */
  lemma ScanStart(s: JsString)
    ensures Scan(s, 0) <==> s != [] && !IsWhitespace(s[0]) && s[0] != At && Scan(s[1..], 1)
  {
  }

  /** The automaton accepts exactly the language of the regular expression. */
  lemma EmailPatternLanguage(s: JsString)
    ensures MatchesEmailPattern(s) <==> InEmailLanguage(s)
  {
    if MatchesEmailPattern(s) {
      ScanGivesSplit(s);
    }
    if InEmailLanguage(s) {
      var i, j :| 0 < i < |s| && i + 1 < j < |s| - 1 && SplitsAt(s, i, j);
      SplitGivesScan(s, i, j);
    }
  }

  lemma ScanGivesSplit(s: JsString)
    requires MatchesEmailPattern(s)
    ensures InEmailLanguage(s)
  {
    ScanStart(s);
    var t := s[1..];
    ScanName(t);
    var i': nat :| NameThenAt(t, i');
    NameStep(s, i');
    NameSplit(s, i' + 1);
  }

  lemma NameSplit(s: JsString, i: nat)
    requires 0 < i && NameThenAt(s, i)
    ensures InEmailLanguage(s)
  {
    var r := s[i + 1..];
    ScanAfterAt(r);
    var p :| 1 <= p < |r| - 1 && r[p] == Dot;
    var j := i + 1 + p;
    CleanSlice(r, 0, p);
    CleanSlice(r, p + 1, |r|);
    assert s[i + 1..j] == r[..p];
    assert s[j + 1..] == r[p + 1..];
    assert s[j] == Dot;
    assert SplitsAt(s, i, j);
  }

  lemma SplitGivesScan(s: JsString, i: nat, j: nat)
    requires 0 < i && i + 1 < j < |s| - 1 && SplitsAt(s, i, j)
    ensures MatchesEmailPattern(s)
  {
    SplitPointwise(s, i, j);
    CleanSlice(s, i + 1, |s|);
    var r := s[i + 1..];
    assert r[j - i - 1] == Dot;
    ScanAfterAt(r);
    assert NameThenAt(s, i);
    assert s[0] == s[..i][0];
    NameStep(s, i - 1);
    ScanName(s[1..]);
    ScanStart(s);
  }

  /** What the pattern allows, stated on positions: no white space, exactly one '@' and not first, and a '.' at least two places after it and not last. */
  ghost predicate HasEmailShape(s: JsString) {
    && NoWhitespace(s)
    && exists i | 0 < i < |s| :: OnlyAtAt(s, i) && exists j | i + 1 < j < |s| - 1 :: s[j] == Dot
  }

  /** Position i holds the one and only '@' of s. */
  ghost predicate OnlyAtAt(s: JsString, i: nat)
    requires i < |s|
  {
    s[i] == At && forall k :: 0 <= k < |s| && s[k] == At ==> k == i
  }

  lemma EmailPatternShape(s: JsString)
    ensures MatchesEmailPattern(s) <==> HasEmailShape(s)
  {
    EmailPatternLanguage(s);
    if MatchesEmailPattern(s) {
      var i, j :| 0 < i < |s| && i + 1 < j < |s| - 1 && SplitsAt(s, i, j);
      SplitPointwise(s, i, j);
      assert OnlyAtAt(s, i);
    }
    if HasEmailShape(s) {
      var i :| 0 < i < |s| && OnlyAtAt(s, i) && exists j | i + 1 < j < |s| - 1 :: s[j] == Dot;
      var j :| i + 1 < j < |s| - 1 && s[j] == Dot;
      CleanSlice(s, 0, i);
      CleanSlice(s, i + 1, j);
      CleanSlice(s, j + 1, |s|);
      assert SplitsAt(s, i, j);
    }
  }

  /** Every code unit of a split address is in the class, except the '@' at i. */
  lemma SplitPointwise(s: JsString, i: nat, j: nat)
    requires 0 < i && i + 1 < j < |s| - 1 && SplitsAt(s, i, j)
    ensures forall m :: 0 <= m < |s| ==> !IsWhitespace(s[m]) && (m != i ==> s[m] != At)
  {
    forall m | 0 <= m < |s|
      ensures !IsWhitespace(s[m]) && (m != i ==> s[m] != At)
    {
      if m < i {
        assert s[m] == s[..i][m];
      } else if i < m < j {
        assert s[m] == s[i + 1..j][m - i - 1];
      } else if j < m {
        assert s[m] == s[j + 1..][m - j - 1];
      }
    }
  }

  /** An address the pattern accepts has no white space, so trimming leaves it as it is. */
  lemma AcceptedEmailIsClean(s: JsString)
    requires MatchesEmailPattern(s)
    ensures s != [] && NoWhitespace(s)
    ensures Normalize(s) == ToLower(s) && Normalize(s) != []
  {
    EmailPatternLanguage(s);
    var i, j :| 0 < i < |s| && i + 1 < j < |s| - 1 && SplitsAt(s, i, j);
    SplitPointwise(s, i, j);
  }

  /**
   * The checks of the submit handler in their order, then the new user: the
   * checksum of the untrimmed password, the trimmed names and phone, the trimmed
   * and lower-cased e-mail.
   */
  function Submit(form: RegisterForm, users: seq<User>, id: JsString, createdAt: JsString): (r: Result<User>)
    ensures r.Error? ==> r.msg in {PasswordsDoNotMatch, PasswordTooShort, InvalidEmail, MissingFields, EmailTaken}
    ensures r.Ok? ==> form.password == form.confirmPassword && |form.password| >= MinPasswordLength
    ensures r.Ok? ==> r.value.id == id && r.value.email != [] && FindByEmail(users, r.value.email).None?
  {
    if form.password != form.confirmPassword then Error(PasswordsDoNotMatch)
    else if |form.password| < MinPasswordLength then Error(PasswordTooShort)
    else if !MatchesEmailPattern(form.email) then Error(InvalidEmail)
    else
      var firstName := Trim(form.firstName);
      var lastName := Trim(form.lastName);
      var email := Normalize(form.email);
      var phone := Trim(form.phone);
      if firstName == [] || lastName == [] || email == [] then Error(MissingFields)
      else if FindByEmail(users, email).Some? then Error(EmailTaken)
      else Ok(User(id, firstName, lastName, email, phone, Some(PasswordHash(form.password)), None, createdAt))
  }

  /** No stored user has this e-mail. */
  predicate EmailFree(users: seq<User>, email: JsString) {
    forall k :: 0 <= k < |users| ==> users[k].email != email
  }

  /**
   * Each message is shown exactly when its check is the first to fail. The
   * e-mail can never be the missing required field: an address the pattern
   * accepts is non-empty after trimming.
   */
  lemma SubmitMessages(form: RegisterForm, users: seq<User>, id: JsString, createdAt: JsString)
    ensures var r := Submit(form, users, id, createdAt);
      && (r == Error(PasswordsDoNotMatch) <==> form.password != form.confirmPassword)
      && (r == Error(PasswordTooShort) <==>
           form.password == form.confirmPassword && |form.password| < MinPasswordLength)
      && (r == Error(InvalidEmail) <==>
           form.password == form.confirmPassword && |form.password| >= MinPasswordLength
           && !MatchesEmailPattern(form.email))
      && (r == Error(MissingFields) <==>
           form.password == form.confirmPassword && |form.password| >= MinPasswordLength
           && MatchesEmailPattern(form.email)
           && (Trim(form.firstName) == [] || Trim(form.lastName) == []))
      && (r == Error(EmailTaken) <==>
           form.password == form.confirmPassword && |form.password| >= MinPasswordLength
           && MatchesEmailPattern(form.email)
           && Trim(form.firstName) != [] && Trim(form.lastName) != []
           && !EmailFree(users, ToLower(form.email)))
  {
    if form.password == form.confirmPassword && |form.password| >= MinPasswordLength
      && MatchesEmailPattern(form.email)
    {
      AcceptedEmailIsClean(form.email);
    }
  }

  /**
   * A submission is accepted iff every check passes, and the accepted user is the
   * trimmed form with the lower-cased e-mail, no stored user has that e-mail, and
   * the typed password verifies against the stored hash.
   */
  lemma SubmitAccepts(form: RegisterForm, users: seq<User>, id: JsString, createdAt: JsString)
    ensures Submit(form, users, id, createdAt).Ok? <==>
      && form.password == form.confirmPassword
      && |form.password| >= MinPasswordLength
      && MatchesEmailPattern(form.email)
      && Trim(form.firstName) != [] && Trim(form.lastName) != []
      && EmailFree(users, ToLower(form.email))
    ensures Submit(form, users, id, createdAt).Ok? ==>
      var u := Submit(form, users, id, createdAt).value;
      && u.id == id && u.createdAt == createdAt
      && u.firstName == Trim(form.firstName) && u.lastName == Trim(form.lastName)
      && u.phone == Trim(form.phone)
      && u.email == ToLower(form.email) && EmailFree(users, u.email)
      && u.passwordHash == Some(PasswordHash(form.password)) && u.password == None
      && VerifyPassword(form.password, u.passwordHash.value)
  {
    SubmitMessages(form, users, id, createdAt);
    if MatchesEmailPattern(form.email) {
      AcceptedEmailIsClean(form.email);
    }
  }

  /**
   * The checks of the submit handler as the source runs them, with early exits;
   * on success the password is hashed by the loop and the new user is built.
   * Nothing is stored here.
   */
  method CheckSubmission(form: RegisterForm, users: seq<User>, id: JsString, createdAt: JsString)
    returns (outcome: Result<User>)
    ensures outcome == Submit(form, users, id, createdAt)
  {
    if form.password != form.confirmPassword {
      return Error(PasswordsDoNotMatch);
    }
    if |form.password| < MinPasswordLength {
      return Error(PasswordTooShort);
    }
    if !MatchesEmailPattern(form.email) {
      return Error(InvalidEmail);
    }

    var firstName := Trim(form.firstName);
    var lastName := Trim(form.lastName);
    var email := Normalize(form.email);
    var phone := Trim(form.phone);
    if firstName == [] || lastName == [] || email == [] {
      return Error(MissingFields);
    }
    if FindByEmail(users, email).Some? {
      return Error(EmailTaken);
    }

    var passwordHash := HashPassword(form.password);
    return Ok(User(id, firstName, lastName, email, phone, Some(passwordHash), None, createdAt));
  }

  /** The registration page's own state: its error and success messages and whether a submission is under way. */
  class RegisterPage {
    var error: string
    var success: string
    var isSubmitting: bool

    constructor ()
      ensures error == "" && success == "" && !isSubmitting
    {
      error, success, isSubmitting := "", "", false;
    }

    /**
     * handleSubmit. On a failed check the page shows the message, is no longer
     * submitting, and the stored users and current user are unchanged. On success
     * exactly one user is appended at the end of the stored users and becomes the
     * current user; the page stays in its submitting state.
     */
    method HandleSubmit(form: RegisterForm, session: SessionState, id: JsString, createdAt: JsString)
      returns (ghost outcome: Result<User>)
      modifies this, session
      ensures outcome == Submit(form, old(session.users), id, createdAt)
      ensures outcome.Error? ==>
        && error == outcome.msg && success == "" && !isSubmitting
        && session.users == old(session.users) && session.currentUser == old(session.currentUser)
      ensures outcome.Ok? ==>
        && error == "" && success == AccountCreated && isSubmitting
        && session.users == old(session.users) + [outcome.value] && session.currentUser == Some(outcome.value)
      ensures session.posts == old(session.posts)
    {
      var result := CheckSubmission(form, session.users, id, createdAt);
      outcome := result;
      Apply(result, session);
    }

    /** Shows the outcome of the checks on the page and stores an accepted user. */
    method Apply(result: Result<User>, session: SessionState)
      modifies this, session
      ensures result.Error? ==>
        && error == result.msg && success == "" && !isSubmitting
        && session.users == old(session.users) && session.currentUser == old(session.currentUser)
      ensures result.Ok? ==>
        && error == "" && success == AccountCreated && isSubmitting
        && session.users == old(session.users) + [result.value] && session.currentUser == Some(result.value)
      ensures session.posts == old(session.posts)
    {
      error := "";
      success := "";
      isSubmitting := true;
      match result {
        case Error(msg) =>
          error := msg;
          isSubmitting := false;
        case Ok(newUser) =>
          session.users := session.users + [newUser];
          session.currentUser := Some(newUser);
          success := AccountCreated;
      }
    }
  }
}
