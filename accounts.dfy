/**
  The decisions of the registration and login handlers, taken on the value
  of the `users` table. Registration checks, in this order, the stripped
  password length, the stripped username length, whether the raw username is
  taken and whether the email is taken; login looks the user up by exact
  username and compares the stored password exactly (no hashing).
*/
module Accounts {
  import opened Queries
  import opened Schema
  import opened Text

  const MinPasswordLength := 8
  const MinUsernameLength := 3

  datatype RegisterError = PasswordTooShort | UsernameTooShort | UsernameExists | EmailExists

  /** The error the registration form is re-rendered with. */
  function RegisterMessage(e: RegisterError): string
  {
    match e
    case PasswordTooShort => "Password must be at least 8 characters long"
    case UsernameTooShort => "Username must be at least 3 characters long"
    case UsernameExists => "Username already exists"
    case EmailExists => "Email already exists"
  }

  /** Each registration error is shown with its own message. */
  lemma RegisterMessagesDistinct(e1: RegisterError, e2: RegisterError)
    ensures RegisterMessage(e1) == RegisterMessage(e2) <==> e1 == e2
  {
  }

  /** Both length checks pass; they look at the stripped values only. */
  predicate LongEnough(username: string, password: string)
  {
    |Strip(password)| >= MinPasswordLength && |Strip(username)| >= MinUsernameLength
  }

  /**
    The registration handler's verdict on a submitted form: the first check
    that fails, or None when the user may be inserted. Each error is returned
    exactly when every earlier check passed and its own check fails.
  */
  function RegisterCheck(users: seq<User>, username: string, password: string, email: string): (r: Option<RegisterError>)
    ensures r == Some(PasswordTooShort) <==> |Strip(password)| < MinPasswordLength
    ensures r == Some(UsernameTooShort) <==>
              |Strip(password)| >= MinPasswordLength && |Strip(username)| < MinUsernameLength
    ensures r == Some(UsernameExists) <==>
              LongEnough(username, password) && HasKey(users, UsernameOf, username)
    ensures r == Some(EmailExists) <==>
              LongEnough(username, password) && !HasKey(users, UsernameOf, username)
              && HasKey(users, EmailOf, email)
    ensures r == None <==>
              LongEnough(username, password) && !HasKey(users, UsernameOf, username)
              && !HasKey(users, EmailOf, email)
  {
    if |Strip(password)| < MinPasswordLength then Some(PasswordTooShort)
    else if |Strip(username)| < MinUsernameLength then Some(UsernameTooShort)
    else if FirstIndex(users, UsernameOf, username).Some? then Some(UsernameExists)
    else if FirstIndex(users, EmailOf, email).Some? then Some(EmailExists)
    else None
  }

  /** A password of whitespace only is refused whatever its length. */
  lemma BlankPasswordRefused(users: seq<User>, username: string, password: string, email: string)
    requires forall i :: 0 <= i < |password| ==> IsSpace(password[i])
    ensures RegisterCheck(users, username, password, email) == Some(PasswordTooShort)
  {
  }

  /** A registration that passes keeps `users.username` and `users.email` unique. */
  lemma RegisterKeepsAccountsUnique(users: seq<User>, username: string, password: string, email: string, id: Id)
    requires Distinct(users, UsernameOf) && Distinct(users, EmailOf)
    requires RegisterCheck(users, username, password, email) == None
    ensures Distinct(users + [User(id, username, password, email)], UsernameOf)
    ensures Distinct(users + [User(id, username, password, email)], EmailOf)
  {
    var u := User(id, username, password, email);
    DistinctAppend(users, u, UsernameOf);
    DistinctAppend(users, u, EmailOf);
  }

  /** Once a user is registered, registering the same username again is refused. */
  lemma SameUsernameRefused(users: seq<User>, user: User, password2: string, email2: string)
    requires RegisterCheck(users, user.username, user.password, user.email) == None
    requires |Strip(password2)| >= MinPasswordLength
    ensures RegisterCheck(users + [user], user.username, password2, email2) == Some(UsernameExists)
  {
    assert UsernameOf((users + [user])[|users|]) == user.username;
  }

  /** Once a user is registered, another new username with the same email is refused. */
  lemma SameEmailRefused(users: seq<User>, user: User, username2: string, password2: string)
    requires RegisterCheck(users, user.username, user.password, user.email) == None
    requires LongEnough(username2, password2)
    requires !HasKey(users, UsernameOf, username2) && username2 != user.username
    ensures RegisterCheck(users + [user], username2, password2, user.email) == Some(EmailExists)
  {
    var users' := users + [user];
    assert EmailOf(users'[|users|]) == user.email;
    assert HasKey(users', EmailOf, user.email);
    forall j | 0 <= j < |users'|
      ensures UsernameOf(users'[j]) != username2
    {
      if j < |users| { assert users'[j] == users[j]; }
    }
    assert !HasKey(users', UsernameOf, username2);
  }

  datatype LoginOutcome = LoggedIn(userId: Id) | UserNotFound | IncorrectPassword

  /** The error the login form is re-rendered with; the two failures read differently. */
  function LoginMessage(o: LoginOutcome): string
    requires !o.LoggedIn?
  {
    if o.UserNotFound? then "User not found" else "Incorrect password"
  }

  /** An unknown username and a wrong password are told apart. */
  lemma LoginMessagesDistinct()
    ensures LoginMessage(UserNotFound) != LoginMessage(IncorrectPassword)
  {
  }

  /**
    The login handler's verdict: the first user with exactly this username,
    whose stored password must equal the submitted one exactly.
  */
  function Authenticate(users: seq<User>, username: string, password: string): (r: LoginOutcome)
    ensures r == UserNotFound <==> !HasKey(users, UsernameOf, username)
    ensures r.LoggedIn? ==>
              exists i :: 0 <= i < |users| && users[i] == User(r.userId, username, password, users[i].email)
    ensures r == IncorrectPassword ==>
              exists i :: 0 <= i < |users| && users[i].username == username && users[i].password != password
  {
    match FirstIndex(users, UsernameOf, username)
    case None => UserNotFound
    case Some(i) =>
      if users[i].password != password then IncorrectPassword else LoggedIn(users[i].id)
  }

  /**
    With unique usernames, login succeeds exactly for a stored (username,
    password) pair, and then as that user; it reports a wrong password
    exactly when the username is stored with another password.
  */
  lemma LoginExactly(users: seq<User>, username: string, password: string)
    requires Distinct(users, UsernameOf)
    ensures Authenticate(users, username, password).LoggedIn? <==>
              exists u :: u in users && u.username == username && u.password == password
    ensures forall u :: u in users && u.username == username && u.password == password ==>
              Authenticate(users, username, password) == LoggedIn(u.id)
    ensures Authenticate(users, username, password) == IncorrectPassword <==>
              exists u :: u in users && u.username == username && u.password != password
  {
  }

  /** A user who has just registered can log in with the same username and password. */
  lemma RegisteredUserCanLogIn(users: seq<User>, username: string, password: string, email: string, id: Id)
    requires RegisterCheck(users, username, password, email) == None
    ensures Authenticate(users + [User(id, username, password, email)], username, password) == LoggedIn(id)
  {
    var u := User(id, username, password, email);
    FirstIndexOfAppended(users, u, UsernameOf, username);
    assert (users + [u])[|users|] == u;
  }
}
