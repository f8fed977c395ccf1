/**
 * The data side of StudyFlow's `AuthManager`: the e-mail check, the ordered
 * sign-up validation that appends a new user to the registered-user list,
 * the login lookup, and logout. The registered users and the remembered
 * current user (the `studyflow_users` and `studyflow_currentUser` documents
 * of the browser store) are fields of the manager.
 */
module Auth {
  import opened Wrappers
  import opened Text

  /**
   * A registered user. `id` is the decimal rendering of the sign-up clock,
   * `createdAt` the ISO date string of the same moment, passed in.
   */
  datatype User = User(id: string, name: string, email: string, password: string, createdAt: string)

  /** The error message each refused form shows, one constructor per message. */
  datatype AuthError =
    | NameTooShort      // "Please enter your full name (at least 2 characters)."
    | InvalidEmail      // "Please enter a valid email address."
    | PasswordTooShort  // "Password must be at least 6 characters long."
    | PasswordMismatch  // "Passwords do not match."
    | EmailTaken        // "An account with this email already exists."
    | MissingPassword   // "Please enter your password."
    | BadCredentials    // "Invalid email or password. Please try again."

  // ---------------------------------------------------------------------
  // validateEmail: /^[^\s@]+@[^\s@]+\.[^\s@]+$/
  // ---------------------------------------------------------------------

  /** Every character belongs to the class `[^\s@]`. */
  predicate Plain(x: string) {
    forall j | 0 <= j < |x| :: !IsSpace(x[j]) && x[j] != '@'
  }

  /**
   * The regular expression read literally: the whole string is a non-empty
   * plain run, `@`, a non-empty plain run, `.`, and a non-empty plain run.
   */
  ghost predicate EmailPattern(s: string) {
    exists i, k | 0 < i && i + 1 < k && k + 1 < |s| ::
      s[i] == '@' && s[k] == '.' && Plain(s[..i]) && Plain(s[i + 1..k]) && Plain(s[k + 1..])
  }

  /** Index of the first occurrence of `c` in `s`. */
  function IndexOf(s: string, c: char): (r: Option<nat>)
    ensures r.None? <==> c !in s
    ensures r.Some? ==> r.value < |s| && s[r.value] == c && c !in s[..r.value]
  {
    if |s| == 0 then None
    else if s[0] == c then Some(0)
    else
      match IndexOf(s[1..], c)
      case None => None
      case Some(i) =>
        assert s[..i + 1] == [s[0]] + s[1..][..i];
        Some(i + 1)
  }

  /** A `.` somewhere strictly inside `d`: neither its first nor its last character. */
  predicate InnerDot(d: string) {
    exists k | 1 <= k < |d| - 1 :: d[k] == '.'
  }

  /**
   * The hand-written check: the first `@` is not at the start, the text on
   * both sides of it is plain (so there is no second `@` and no white space),
   * and the domain part has an inner dot.
   */
  predicate ValidateEmail(s: string)
    ensures ValidateEmail(s) ==> 5 <= |s|
  {
    match IndexOf(s, '@')
    case None => false
    case Some(i) => 0 < i && Plain(s[..i]) && Plain(s[i + 1..]) && InnerDot(s[i + 1..])
  }

  /** An accepted address holds exactly one `@`. */
  lemma ValidEmailHasOneAt(s: string)
    requires ValidateEmail(s)
    ensures '@' in s
    ensures forall j, k | 0 <= j < k < |s| :: !(s[j] == '@' && s[k] == '@')
  {
    var i := IndexOf(s, '@').value;
    assert forall k | i < k < |s| :: s[k] == s[i + 1..][k - i - 1] && s[k] != '@';
    assert forall j | 0 <= j < i :: s[j] == s[..i][j];
  }

  /** A slice of a plain string is plain. */
  lemma PlainSlice(x: string, lo: nat, hi: nat)
    requires Plain(x) && lo <= hi <= |x|
    ensures Plain(x[lo..hi])
  {
    forall j | 0 <= j < hi - lo ensures !IsSpace(x[lo..hi][j]) && x[lo..hi][j] != '@' {
      assert x[lo..hi][j] == x[lo + j];
    }
  }

  /** Whatever the hand-written check accepts, the regular expression matches. */
  lemma ValidImpliesPattern(s: string)
    requires ValidateEmail(s)
    ensures EmailPattern(s)
  {
    var i := IndexOf(s, '@').value;
    var d := s[i + 1..];
    var k' :| 1 <= k' < |d| - 1 && d[k'] == '.';
    var k := i + 1 + k';
    assert s[i + 1..k] == d[..k'];
    assert s[k + 1..] == d[k' + 1..];
    PlainSlice(d, 0, k');
    PlainSlice(d, k' + 1, |d|);
    assert s[i] == '@' && s[k] == '.';
  }

  /** A plain run followed by `@` puts the first `@` right after the run. */
  lemma FirstAt(s: string, i: nat)
    requires i < |s| && s[i] == '@' && Plain(s[..i])
    ensures IndexOf(s, '@') == Some(i)
  {
    assert s[i] in s;
  }

  /** Two plain runs joined by a `.` make a plain run. */
  lemma PlainAroundDot(s: string, lo: nat, k: nat)
    requires lo <= k < |s| && s[k] == '.' && Plain(s[lo..k]) && Plain(s[k + 1..])
    ensures Plain(s[lo..])
  {
    var d := s[lo..];
    forall j | 0 <= j < |d| ensures !IsSpace(d[j]) && d[j] != '@' {
      if lo + j < k {
        assert d[j] == s[lo..k][j];
      } else if lo + j > k {
        assert d[j] == s[k + 1..][j - (k + 1 - lo)];
      }
    }
  }

  /** Whatever the regular expression matches, the hand-written check accepts. */
  lemma PatternImpliesValid(s: string)
    requires EmailPattern(s)
    ensures ValidateEmail(s)
  {
    var i, k :| 0 < i && i + 1 < k && k + 1 < |s| &&
      s[i] == '@' && s[k] == '.' && Plain(s[..i]) && Plain(s[i + 1..k]) && Plain(s[k + 1..]);
    FirstAt(s, i);
    PlainAroundDot(s, i + 1, k);
    assert s[i + 1..][k - i - 1] == '.';
  }

  /** The hand-written check accepts exactly the strings the regular expression matches. */
  lemma ValidateEmailIsPattern(s: string)
    ensures ValidateEmail(s) <==> EmailPattern(s)
  {
    if ValidateEmail(s) {
      ValidImpliesPattern(s);
    }
    if EmailPattern(s) {
      PatternImpliesValid(s);
    }
  }

  // ---------------------------------------------------------------------
  // handleSignup / handleLogin
  // ---------------------------------------------------------------------

  /** The values of the sign-up form fields, untrimmed. */
  datatype SignupForm = SignupForm(name: string, email: string, password: string, confirmPassword: string)

  /** `users.find(u => u.email === email)` found someone. */
  predicate EmailRegistered(users: seq<User>, email: string) {
    exists j | 0 <= j < |users| :: users[j].email == email
  }

  /** No two registered users share an e-mail address. */
  predicate UniqueEmails(users: seq<User>) {
    forall j, k | 0 <= j < k < |users| :: users[j].email != users[k].email
  }

  /**
   * The ordered checks of sign-up. The first failing check decides the
   * error; lengths are JavaScript lengths, in UTF-16 code units. When all pass, the new user carries the trimmed name and e-mail,
   * the untrimmed password, and the clock `now` as its id.
   */
  function Signup(users: seq<User>, form: SignupForm, now: nat, isoNow: string): (r: Result<User, AuthError>)
    ensures r == Failure(NameTooShort) <==> Utf16Length(Trim(form.name)) < 2
    ensures r == Failure(InvalidEmail) <==> Utf16Length(Trim(form.name)) >= 2 && !ValidateEmail(Trim(form.email))
    ensures r == Failure(PasswordTooShort) <==>
      Utf16Length(Trim(form.name)) >= 2 && ValidateEmail(Trim(form.email)) && Utf16Length(form.password) < 6
    ensures r == Failure(PasswordMismatch) <==>
      Utf16Length(Trim(form.name)) >= 2 && ValidateEmail(Trim(form.email)) && Utf16Length(form.password) >= 6
      && form.password != form.confirmPassword
    ensures r.Failure? ==> r.error in {NameTooShort, InvalidEmail, PasswordTooShort, PasswordMismatch, EmailTaken}
    ensures r.Success? <==>
      Utf16Length(Trim(form.name)) >= 2 && ValidateEmail(Trim(form.email)) && Utf16Length(form.password) >= 6
      && form.password == form.confirmPassword && !EmailRegistered(users, Trim(form.email))
    ensures r.Success? ==> r.value == User(NatToString(now), Trim(form.name), Trim(form.email), form.password, isoNow)
  {
    var name := Trim(form.name);
    var email := Trim(form.email);
    if Utf16Length(name) < 2 then Failure(NameTooShort)
    else if !ValidateEmail(email) then Failure(InvalidEmail)
    else if Utf16Length(form.password) < 6 then Failure(PasswordTooShort)
    else if form.password != form.confirmPassword then Failure(PasswordMismatch)
    else if EmailRegistered(users, email) then Failure(EmailTaken)
    else Success(User(NatToString(now), name, email, form.password, isoNow))
  }

  /** A one-emoji name is two code units long, so it passes the name check. */
  lemma EmojiNamePassesLength(users: seq<User>, email: string, password: string, confirm: string, now: nat, isoNow: string)
    ensures Signup(users, SignupForm("\U{1F600}", email, password, confirm), now, isoNow) != Failure(NameTooShort)
  {
    var name := "\U{1F600}";
    assert !IsSpace(name[0]) && !IsSpace(name[|name| - 1]);
    assert TrimStart(name) == name;
    assert TrimEnd(name) == name;
    AstralCharIsTwoUnits();
    assert Utf16Length(Trim(name)) == 2;
  }

  /** Index of the first user with the given e-mail and password: `users.find(...)`. */
  function FindUser(users: seq<User>, email: string, password: string): (r: Option<nat>)
    ensures r.None? <==> forall j | 0 <= j < |users| :: !(users[j].email == email && users[j].password == password)
    ensures r.Some? ==> r.value < |users| && users[r.value].email == email && users[r.value].password == password
    ensures r.Some? ==> forall j | 0 <= j < r.value :: !(users[j].email == email && users[j].password == password)
  {
    if |users| == 0 then None
    else if users[0].email == email && users[0].password == password then Some(0)
    else
      match FindUser(users[1..], email, password)
      case None => None
      case Some(i) => Some(i + 1)
  }

  /**
   * Login: the trimmed e-mail must be valid and the password non-empty;
   * then the first user with that e-mail and password is logged in.
   */
  function Login(users: seq<User>, email: string, password: string): (r: Result<User, AuthError>)
    ensures r == Failure(InvalidEmail) <==> !ValidateEmail(Trim(email))
    ensures r == Failure(MissingPassword) <==> ValidateEmail(Trim(email)) && password == ""
    ensures r.Failure? ==> r.error in {InvalidEmail, MissingPassword, BadCredentials}
    ensures r.Success? ==> r.value in users && r.value.email == Trim(email) && r.value.password == password
    ensures r.Success? ==> exists i | 0 <= i < |users| ::
      && users[i] == r.value
      && (forall j | 0 <= j < i :: !(users[j].email == Trim(email) && users[j].password == password))
    ensures r == Failure(BadCredentials) <==>
      ValidateEmail(Trim(email)) && password != ""
      && forall j | 0 <= j < |users| :: !(users[j].email == Trim(email) && users[j].password == password)
  {
    var e := Trim(email);
    if !ValidateEmail(e) then Failure(InvalidEmail)
    else if password == "" then Failure(MissingPassword)
    else
      match FindUser(users, e, password)
      case None => Failure(BadCredentials)
      case Some(i) =>
        assert forall j | 0 <= j < i :: !(users[j].email == e && users[j].password == password);
        Success(users[i])
  }

  /** Sign-up appends a user whose address nobody had, so distinct addresses stay distinct. */
  lemma SignupKeepsEmailsUnique(users: seq<User>, form: SignupForm, now: nat, isoNow: string)
    requires UniqueEmails(users)
    requires Signup(users, form, now, isoNow).Success?
    ensures UniqueEmails(users + [Signup(users, form, now, isoNow).value])
  {
    var u := Signup(users, form, now, isoNow).value;
    var us := users + [u];
    forall j, k | 0 <= j < k < |us| ensures us[j].email != us[k].email {
      if k == |users| {
        assert us[j] == users[j];
      } else {
        assert us[j] == users[j] && us[k] == users[k];
      }
    }
  }

  /**
   * Logging in right after signing up, with the same e-mail field and
   * password, finds the user just created.
   */
  lemma SignupThenLogin(users: seq<User>, form: SignupForm, now: nat, isoNow: string)
    requires Signup(users, form, now, isoNow).Success?
    ensures Login(users + [Signup(users, form, now, isoNow).value], form.email, form.password)
         == Signup(users, form, now, isoNow)
  {
    var u := Signup(users, form, now, isoNow).value;
    var us := users + [u];
    var e := Trim(form.email);
    var r := FindUser(us, e, form.password);
    assert us[|users|] == u;
    assert forall j | 0 <= j < |users| :: us[j] == users[j];
  }

  // ---------------------------------------------------------------------
  // AuthManager
  // ---------------------------------------------------------------------

  /**
   * The manager's state: the registered users, the logged-in user, and the
   * remembered user that survives a page reload.
   */
  class AuthManager {
    var users: seq<User>
    var currentUser: Option<User>
    var savedUser: Option<User>

    /** `checkAuthState`: a remembered user is logged in again. */
    constructor(registered: seq<User>, remembered: Option<User>)
      ensures users == registered && savedUser == remembered && currentUser == remembered
    {
      users := registered;
      savedUser := remembered;
      currentUser := remembered;
    }

    /** `handleSignup`: on success the user is appended, logged in and remembered. */
    method HandleSignup(form: SignupForm, now: nat, isoNow: string) returns (r: Result<User, AuthError>)
      modifies this`users, this`currentUser, this`savedUser
      ensures r == Signup(old(users), form, now, isoNow)
      ensures r.Success? ==> users == old(users) + [r.value] && currentUser == Some(r.value) && savedUser == Some(r.value)
      ensures r.Failure? ==> users == old(users) && currentUser == old(currentUser) && savedUser == old(savedUser)
      ensures UniqueEmails(old(users)) ==> UniqueEmails(users)
    {
      var before := users;
      r := Signup(before, form, now, isoNow);
      if r.Failure? {
        return;
      }
      if UniqueEmails(before) {
        SignupKeepsEmailsUnique(before, form, now, isoNow);
      }
      users := before + [r.value];
      currentUser := Some(r.value);
      savedUser := Some(r.value);
    }

    /** `handleLogin`: on success the user found is logged in and remembered. */
    method HandleLogin(email: string, password: string) returns (r: Result<User, AuthError>)
      modifies this
      ensures r == Login(users, email, password) && users == old(users)
      ensures r.Success? ==> currentUser == Some(r.value) && savedUser == Some(r.value)
      ensures r.Failure? ==> currentUser == old(currentUser) && savedUser == old(savedUser)
    {
      r := Login(users, email, password);
      if r.Success? {
        currentUser := Some(r.value);
        savedUser := Some(r.value);
      }
    }

    /** `handleLogout`: when the user confirms, nobody is logged in or remembered any more. */
    method HandleLogout(confirmed: bool)
      modifies this
      ensures users == old(users)
      ensures confirmed ==> currentUser.None? && savedUser.None?
      ensures !confirmed ==> currentUser == old(currentUser) && savedUser == old(savedUser)
    {
      if confirmed {
        currentUser := None;
        savedUser := None;
      }
    }
  }
}
