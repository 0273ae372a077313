/** `AuthManager`: the user registry. The users table is held in memory as a sequence of rows
    in file order; SHA-256 is an uninterpreted function and the creation time a parameter. */
module Auth {
  import opened Basics

  /** One row of the users table. */
  datatype User = User(username: string, passwordHash: string, email: string, createdAt: string)

  /** The two columns the registry looks rows up by. */
  datatype Column = Username | Email

  function Field(u: User, c: Column): string {
    match c
    case Username => u.username
    case Email => u.email
  }

  const UsernameTaken := "Username already exists"
  const EmailTaken := "Email already registered"
  const AccountCreated := "Account created successfully"
  const UsernameNotFound := "Username not found"
  const LoginSuccessful := "Login successful"
  const IncorrectPassword := "Incorrect password"

  /** The position of the first row whose column `c` holds `v`: `df[df[c] == v].iloc[0]`. */
  function FirstMatch(users: seq<User>, c: Column, v: string): (r: Option<nat>)
    ensures r.None? <==> forall i :: 0 <= i < |users| ==> Field(users[i], c) != v
    ensures r.Some? ==> r.value < |users| && Field(users[r.value], c) == v
                        && forall j :: 0 <= j < r.value ==> Field(users[j], c) != v
  {
    if users == [] then None
    else if Field(users[0], c) == v then Some(0)
    else
      match FirstMatch(users[1..], c, v)
      case None => None
      case Some(i) => Some(i + 1)
  }

  /** No two rows share a username, and no two rows share an email. */
  predicate UniqueUsers(users: seq<User>) {
    forall i, j :: 0 <= i < j < |users| ==> users[i].username != users[j].username && users[i].email != users[j].email
  }

  /** A row appended under a username no earlier row has is the first match for it. */
  lemma {:induction false} AppendFirstMatch(users: seq<User>, u: User)
    requires forall i :: 0 <= i < |users| ==> users[i].username != u.username
    ensures FirstMatch(users + [u], Username, u.username) == Some(|users|)
  {
    if users != [] {
      assert users[0].username != u.username;
      assert (users + [u])[1..] == users[1..] + [u];
      AppendFirstMatch(users[1..], u);
    }
  }

  /** Appending a row whose username and email are both new keeps the table unique. */
  lemma AppendUnique(users: seq<User>, u: User)
    requires forall i :: 0 <= i < |users| ==> users[i].username != u.username && users[i].email != u.email
    ensures UniqueUsers(users) ==> UniqueUsers(users + [u])
  {
  }

  class AuthManager {
    /** `hash_password`: the hex digest of the password's SHA-256. */
    const hashPassword: string -> string
    /** The rows of the users file, in file order. */
    var users: seq<User>

    /** `__init__` on a fresh users file: an empty table. */
    constructor (hashPassword: string -> string)
      ensures this.hashPassword == hashPassword
      ensures users == []
    {
      this.hashPassword := hashPassword;
      users := [];
    }

    /** `user_exists`: some row has this username. */
    function UserExists(username: string): (b: bool)
      reads this
      ensures b <==> exists i :: 0 <= i < |users| && users[i].username == username
    {
      FirstMatch(users, Username, username).Some?
    }

    /** `email_exists`: some row has this email. */
    function EmailExists(email: string): (b: bool)
      reads this
      ensures b <==> exists i :: 0 <= i < |users| && users[i].email == email
    {
      FirstMatch(users, Email, email).Some?
    }

    /** `create_user`: refuses a taken username (checked first), then a taken email, and leaves
        the table as it was; otherwise appends exactly one row holding the password's hash, after
        which the new user can log in with that password. Uniqueness of usernames and emails is
        kept. */
    method CreateUser(username: string, password: string, email: string, now: string)
      returns (ok: bool, msg: string)
      modifies this
      ensures old(UserExists(username)) ==> !ok && msg == UsernameTaken && users == old(users)
      ensures !old(UserExists(username)) && old(EmailExists(email)) ==>
        !ok && msg == EmailTaken && users == old(users)
      ensures !old(UserExists(username)) && !old(EmailExists(email)) ==>
        ok && msg == AccountCreated && users == old(users) + [User(username, hashPassword(password), email, now)]
      ensures old(UniqueUsers(users)) ==> UniqueUsers(users)
      ensures ok ==> Authenticate(username, password) == (true, LoginSuccessful)
    {
      if UserExists(username) {
        return false, UsernameTaken;
      }
      if EmailExists(email) {
        return false, EmailTaken;
      }
      var u := User(username, hashPassword(password), email, now);
      AppendFirstMatch(users, u);
      AppendUnique(users, u);
      users := users + [u];
      return true, AccountCreated;
    }

    /** `authenticate`: "Username not found" exactly when no row has the username; otherwise the
        login succeeds exactly when the password's hash is that of the first row with it. */
    function Authenticate(username: string, password: string): (r: (bool, string))
      reads this
      ensures r == (false, UsernameNotFound) <==> forall i :: 0 <= i < |users| ==> users[i].username != username
      ensures r == (true, LoginSuccessful) || r == (false, IncorrectPassword) || r == (false, UsernameNotFound)
      ensures r.0 <==> exists i :: 0 <= i < |users| && users[i].username == username
                        && (forall j :: 0 <= j < i ==> users[j].username != username)
                        && users[i].passwordHash == hashPassword(password)
    {
      match FirstMatch(users, Username, username)
      case None => (false, UsernameNotFound)
      case Some(i) =>
        if hashPassword(password) == users[i].passwordHash then (true, LoginSuccessful)
        else (false, IncorrectPassword)
    }

    /** With unique usernames, a login succeeds exactly when some row pairs the username with the
        password's hash. */
    lemma AuthenticateUnique(username: string, password: string)
      requires UniqueUsers(users)
      ensures Authenticate(username, password).0 <==>
        exists i :: 0 <= i < |users| && users[i].username == username && users[i].passwordHash == hashPassword(password)
    {
      if i :| 0 <= i < |users| && users[i].username == username && users[i].passwordHash == hashPassword(password) {
        var f := FirstMatch(users, Username, username);
        assert f == Some(i);
      }
    }

    /** `get_user_info`: the first row with the username, or nothing. */
    function GetUserInfo(username: string): (r: Option<User>)
      reads this
      ensures r.None? <==> forall i :: 0 <= i < |users| ==> users[i].username != username
      ensures r.Some? ==> exists i :: 0 <= i < |users| && users[i] == r.value && r.value.username == username
                                      && forall j :: 0 <= j < i ==> users[j].username != username
    {
      match FirstMatch(users, Username, username)
      case None => None
      case Some(i) => Some(users[i])
    }

    /** With unique usernames, the row returned is the only row with that username. */
    lemma GetUserInfoUnique(username: string, u: User)
      requires UniqueUsers(users)
      ensures GetUserInfo(username) == Some(u) <==> u in users && u.username == username
    {
      if u in users && u.username == username {
        var i :| 0 <= i < |users| && users[i] == u;
        var f := FirstMatch(users, Username, username);
        assert f == Some(i);
      }
    }
  }
}
