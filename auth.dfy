/**
 * The welcome window's sign-up and login handlers: how the form entries are cleaned,
 * the fixed order of the sign-up checks (the first failing one is the message shown),
 * and who is logged in and which page opens afterwards.
 */
module Auth {
  import opened Wrappers
  import opened Text
  import opened Store

  /** The raw text of the sign-up form's entries and the chosen role. */
  datatype SignupForm = SignupForm(firstName: string, lastName: string, email: string,
                                   password: string, role: Role, passkey: string)

  /** The sign-up error messages, in the order the handler checks for them. */
  datatype SignupError = EmptyField | NameTooShort | InvalidEmail | PasswordTooShort | InvalidPasskey | EmailTaken

  /** The login error messages. */
  datatype LoginError = MissingField | BadCredentials

  /** The window shown: the welcome screen, or the home page of a role. */
  datatype Page = Welcome | AdminDashboard | UserBooks

  /** Administrators land on the dashboard, everybody else on the book list. */
  function HomePage(role: Role): (p: Page)
    ensures p != Welcome
    ensures p == AdminDashboard <==> role == Admin
  {
    if role == Admin then AdminDashboard else UserBooks
  }

  /** Every entry stripped of surrounding white space; the email also lower-cased. */
  function Cleaned(f: SignupForm): SignupForm
  {
    SignupForm(Strip(f.firstName), Strip(f.lastName), Lower(Strip(f.email)), Strip(f.password), f.role, Strip(f.passkey))
  }

  /**
   * Every check the cleaned entries `c` fail, in the handler's order, without stopping at
   * the first. An unset administrator passkey matches no entry at all.
   */
  function FailedChecks(c: SignupForm, adminPasskey: Option<string>, users: seq<User>): seq<SignupError>
  {
    (if c.firstName == "" || c.lastName == "" || c.email == "" || c.password == "" then [EmptyField] else [])
    + (if |c.firstName| < 2 || |c.lastName| < 2 then [NameTooShort] else [])
    + (if '@' !in c.email || '.' !in c.email then [InvalidEmail] else [])
    + (if |c.password| < 4 then [PasswordTooShort] else [])
    + (if c.role == Admin && adminPasskey != Some(c.passkey) then [InvalidPasskey] else [])
    + (if UserExists(users, c.email) then [EmailTaken] else [])
  }

  /** The guard chain of `handle_signup` on the cleaned entries `c`. */
  function CheckCleaned(c: SignupForm, adminPasskey: Option<string>, users: seq<User>): (r: Result<User, SignupError>)
    ensures r.Ok? ==> r.value == NewUserRow(c.email, c.firstName, c.lastName, c.password, c.role)
  {
    if c.firstName == "" || c.lastName == "" || c.email == "" || c.password == "" then Err(EmptyField)
    else if |c.firstName| < 2 || |c.lastName| < 2 then Err(NameTooShort)
    else if '@' !in c.email || '.' !in c.email then Err(InvalidEmail)
    else if |c.password| < 4 then Err(PasswordTooShort)
    else if c.role == Admin && adminPasskey != Some(c.passkey) then Err(InvalidPasskey)
    else if UserExists(users, c.email) then Err(EmailTaken)
    else Ok(NewUserRow(c.email, c.firstName, c.lastName, c.password, c.role))
  }

  /** `handle_signup`'s decision: the first failing check, or the row `create_user` will append. */
  function CheckSignup(f: SignupForm, adminPasskey: Option<string>, users: seq<User>): (r: Result<User, SignupError>)
    ensures r.Ok? <==> FailedChecks(Cleaned(f), adminPasskey, users) == []
    ensures r.Err? ==> r.error == FailedChecks(Cleaned(f), adminPasskey, users)[0]
    ensures r.Ok? ==> r.value == NewUserRow(Lower(Strip(f.email)), Strip(f.firstName), Strip(f.lastName),
                                            Strip(f.password), f.role)
  {
    SignupReportsFirstFailure(Cleaned(f), adminPasskey, users);
    CheckCleaned(Cleaned(f), adminPasskey, users)
  }

  /** The guard chain reports exactly the first of all the checks the entries fail. */
  lemma SignupReportsFirstFailure(c: SignupForm, adminPasskey: Option<string>, users: seq<User>)
    ensures CheckCleaned(c, adminPasskey, users).Ok? <==> FailedChecks(c, adminPasskey, users) == []
    ensures CheckCleaned(c, adminPasskey, users).Err? ==>
              CheckCleaned(c, adminPasskey, users).error == FailedChecks(c, adminPasskey, users)[0]
  {
  }

  /** A sign-up is accepted exactly when every rule of the form holds of the cleaned entries. */
  lemma SignupAcceptedIff(c: SignupForm, adminPasskey: Option<string>, users: seq<User>)
    ensures CheckCleaned(c, adminPasskey, users).Ok? <==>
        |c.firstName| >= 2 && |c.lastName| >= 2 && '@' in c.email && '.' in c.email && |c.password| >= 4
        && (c.role == Admin ==> adminPasskey == Some(c.passkey))
        && !UserExists(users, c.email)
  {
  }

  /** With no administrator passkey configured, nobody can sign up as an administrator. */
  lemma NoPasskeyNoAdmin(c: SignupForm, users: seq<User>)
    requires c.role == Admin
    ensures CheckCleaned(c, None, users).Err?
  {
  }

  /** `handle_login`'s decision on the raw entries: stripped, the email lower-cased, then `validate_login`. */
  function CheckLogin(emailText: string, passwordText: string, users: seq<User>): (r: Result<Profile, LoginError>)
    ensures r == Err(MissingField) <==> Strip(emailText) == [] || Strip(passwordText) == []
    ensures r.Ok? ==> r.value.email == Lower(Strip(emailText))
    ensures r.Ok? ==> exists u :: u in users && ProfileOf(u) == r.value && u.password == Strip(passwordText)
    ensures r != Err(MissingField) ==>
              (r.Ok? <==> ValidateLogin(users, Lower(Strip(emailText)), Strip(passwordText)).Some?)
    ensures r.Ok? ==> Some(r.value) == ValidateLogin(users, Lower(Strip(emailText)), Strip(passwordText))
  {
    var email := Lower(Strip(emailText));
    var password := Strip(passwordText);
    if email == "" || password == "" then Err(MissingField)
    else match ValidateLogin(users, email, password)
      case Some(p) => LowerIdempotent(Strip(emailText)); Ok(p)
      case None => Err(BadCredentials)
  }

  /** Whoever signs up can log in at once by typing the same email and password again. */
  lemma SignupThenLogin(f: SignupForm, adminPasskey: Option<string>, users: seq<User>)
    requires CheckSignup(f, adminPasskey, users).Ok?
    ensures var row := CheckSignup(f, adminPasskey, users).value;
      CheckLogin(f.email, f.password, users + [row]) == Ok(ProfileOf(row))
  {
    var c := Cleaned(f);
    assert CheckCleaned(c, adminPasskey, users).Ok?;
    SignupAcceptedIff(c, adminPasskey, users);
    LowerIdempotent(Strip(f.email));
    LoginAfterCreate(users, c.email, c.firstName, c.lastName, c.password, c.role, c.email);
  }

  /** The application object: the store, the passkey read from the environment, the session. */
  class Session {
    const db: Database
    const adminPasskey: Option<string>
    var currentUser: Option<Profile>
    var page: Page

    constructor (db0: Database, adminPasskey0: Option<string>)
      ensures db == db0 && adminPasskey == adminPasskey0
      ensures currentUser == None && page == Welcome
    {
      db := db0;
      adminPasskey := adminPasskey0;
      currentUser := None;
      page := Welcome;
    }

    /** `handle_signup`: on success the row is stored, its owner is logged in and sent home. */
    method HandleSignup(f: SignupForm) returns (r: Result<Profile, SignupError>)
      modifies this, db
      ensures var check := CheckSignup(f, adminPasskey, old(db.users));
        match check
        case Err(e) => r == Err(e) && db.users == old(db.users)
                       && currentUser == old(currentUser) && page == old(page)
        case Ok(row) => r == Ok(ProfileOf(row)) && db.users == old(db.users) + [row]
                        && currentUser == Some(ProfileOf(row)) && page == HomePage(row.role)
      ensures db.books == old(db.books) && db.cart == old(db.cart)
      ensures old(db.Valid()) ==> db.Valid()
    {
      var check := CheckSignup(f, adminPasskey, db.users);
      match check
      case Err(e) =>
        r := Err(e);
      case Ok(row) =>
        LowerIdempotent(Cleaned(f).email);
        Register(row);
        r := Ok(ProfileOf(row));
    }

    /** The success path: `create_user` with the checked row, then the session switches to it. */
    method Register(row: User)
      requires Lower(row.email) == row.email
      modifies this, db
      ensures db.users == old(db.users) + [row] && db.books == old(db.books) && db.cart == old(db.cart)
      ensures currentUser == Some(ProfileOf(row)) && page == HomePage(row.role)
      ensures old(db.Valid()) ==> db.Valid()
    {
      var _ := db.CreateUser(row.email, row.firstName, row.lastName, row.password, row.role);
      currentUser := Some(ProfileOf(row));
      page := HomePage(row.role);
    }

    /** `handle_login`: on success the profile becomes the current user and its home page opens. */
    method HandleLogin(emailText: string, passwordText: string) returns (r: Result<Profile, LoginError>)
      modifies this
      ensures r == CheckLogin(emailText, passwordText, db.users)
      ensures r.Ok? ==> currentUser == Some(r.value) && page == HomePage(r.value.role)
      ensures r.Err? ==> currentUser == old(currentUser) && page == old(page)
    {
      r := CheckLogin(emailText, passwordText, db.users);
      if r.Ok? {
        currentUser := Some(r.value);
        page := HomePage(r.value.role);
      }
    }
  }
}
