/**
 * The user service (server/services/user.service.ts) over an in-memory user table:
 * registration with unique emails and hashed passwords, login that answers every
 * failure with one error, and lookup by id without the password. Hashing, password
 * comparison and token signing are parameters.
 */
module UserService {
  import opened Wrappers
  import opened ErrorMessages

  /** A stored user; `password` holds the hash. */
  datatype User = User(id: nat, username: string, email: string, password: string)

  /** A user with only the `id`, `username` and `email` attributes loaded. */
  datatype PublicUser = PublicUser(id: nat, username: string, email: string)

  /** What the access token is signed over. */
  datatype Claims = Claims(id: nat, email: string)

  /** A successful login: the user and the signed token. */
  datatype Session = Session(user: User, accessToken: string)

  datatype UserError = AlreadyExistsError | IncorrectLoginOrPassword

  /** The message each error is thrown with. */
  function ErrorText(e: UserError): (text: string)
    ensures e.AlreadyExistsError? ==> text == AlreadyExists
    ensures e.IncorrectLoginOrPassword? ==> text == IncorrectLoginOrPasswordError
  {
    match e
    case AlreadyExistsError => AlreadyExists
    case IncorrectLoginOrPassword => IncorrectLoginOrPasswordError
  }

  /** Some stored user has this email. */
  predicate EmailTaken(rows: seq<User>, email: string) {
    exists i :: 0 <= i < |rows| && rows[i].email == email
  }

  /** `findOne({where: {email}})`: the first stored user with that email. */
  function UserWithEmail(rows: seq<User>, email: string): (r: Option<User>)
    ensures r.Some? <==> EmailTaken(rows, email)
    ensures r.Some? ==> r.value in rows && r.value.email == email
    decreases |rows|
  {
    if rows == [] then None
    else if rows[0].email == email then Some(rows[0])
    else
      var r := UserWithEmail(rows[1..], email);
      assert forall i :: 0 < i < |rows| ==> rows[i] == rows[1..][i - 1];
      r
  }

  /** `findByPk(id)`: the first stored user with that id. */
  function UserWithId(rows: seq<User>, id: nat): (r: Option<User>)
    ensures r.Some? <==> exists i :: 0 <= i < |rows| && rows[i].id == id
    ensures r.Some? ==> r.value in rows && r.value.id == id
    decreases |rows|
  {
    if rows == [] then None
    else if rows[0].id == id then Some(rows[0])
    else
      var r := UserWithId(rows[1..], id);
      assert forall i :: 0 < i < |rows| ==> rows[i] == rows[1..][i - 1];
      r
  }

  /** The attributes `getUserById` loads. */
  function PublicOf(u: User): PublicUser {
    PublicUser(u.id, u.username, u.email)
  }

  /**
   * `loginUser(email, password)` as a function of the table: the same error whether
   * the email is unknown or the password does not match; otherwise the user with a
   * token signed over its id and email.
   */
  function LoginOutcome(rows: seq<User>, email: string, password: string,
                        compare: (string, string) -> bool, sign: Claims -> string): (r: Result<Session, UserError>)
    ensures r.Err? ==> r.error == IncorrectLoginOrPassword
    ensures r.Ok? <==> EmailTaken(rows, email) && compare(password, UserWithEmail(rows, email).value.password)
    ensures r.Ok? ==> r.value.user == UserWithEmail(rows, email).value &&
                      r.value.accessToken == sign(Claims(r.value.user.id, email))
  {
    match UserWithEmail(rows, email)
    case None => Err(IncorrectLoginOrPassword)
    case Some(user) =>
      if !compare(password, user.password) then Err(IncorrectLoginOrPassword)
      else Ok(Session(user, sign(Claims(user.id, user.email))))
  }

  /** Appending a user with a new email makes it the one found by that email, and changes no other lookup. */
  lemma {:induction false} UserWithEmailSnoc(rows: seq<User>, u: User, email: string)
    requires !EmailTaken(rows, u.email)
    ensures UserWithEmail(rows + [u], email) == if email == u.email then Some(u) else UserWithEmail(rows, email)
    decreases |rows|
  {
    if rows == [] {
      assert [u][1..] == [];
    } else {
      assert (rows + [u])[1..] == rows[1..] + [u];
      assert !EmailTaken(rows[1..], u.email) by {
        forall i | 0 <= i < |rows[1..]| ensures rows[1..][i].email != u.email {
          assert rows[1..][i] == rows[i + 1];
        }
      }
      UserWithEmailSnoc(rows[1..], u, email);
    }
  }

  /** The user table: ids are positive and below the counter, and ids and emails are unique. */
  class UserTable {
    var rows: seq<User>
    var nextId: nat

    ghost predicate Valid()
      reads this
    {
      nextId >= 1 &&
      (forall i :: 0 <= i < |rows| ==> 1 <= rows[i].id < nextId) &&
      (forall i, j :: 0 <= i < j < |rows| ==> rows[i].id != rows[j].id && rows[i].email != rows[j].email)
    }

    constructor ()
      ensures Valid() && rows == [] && nextId == 1
    {
      rows := [];
      nextId := 1;
    }

    /** Scans the table for the first user with `email`. */
    method FindByEmail(email: string) returns (found: Option<User>)
      ensures found == UserWithEmail(rows, email)
    {
      var i := 0;
      while i < |rows|
        invariant 0 <= i <= |rows|
        invariant UserWithEmail(rows, email) == UserWithEmail(rows[i..], email)
      {
        if rows[i].email == email {
          return Some(rows[i]);
        }
        assert rows[i..][1..] == rows[i + 1..];
        i := i + 1;
      }
      return None;
    }

    /** Scans the table for the user with primary key `id`. */
    method FindByPk(id: nat) returns (found: Option<User>)
      ensures found == UserWithId(rows, id)
    {
      var i := 0;
      while i < |rows|
        invariant 0 <= i <= |rows|
        invariant UserWithId(rows, id) == UserWithId(rows[i..], id)
      {
        if rows[i].id == id {
          return Some(rows[i]);
        }
        assert rows[i..][1..] == rows[i + 1..];
        i := i + 1;
      }
      return None;
    }

    /**
     * `registerUser(username, email, password)`: a taken email fails with
     * `AlreadyExists` and leaves the table alone; otherwise a user with the next id and
     * the hashed password is appended and returned.
     */
    method RegisterUser(username: string, email: string, password: string, hash: string -> string)
        returns (r: Result<User, UserError>)
      requires Valid()
      modifies this
      ensures Valid()
      ensures EmailTaken(old(rows), email) ==>
                r == Err(AlreadyExistsError) && rows == old(rows) && nextId == old(nextId)
      ensures !EmailTaken(old(rows), email) ==>
                r == Ok(User(old(nextId), username, email, hash(password))) &&
                rows == old(rows) + [r.value] && nextId == old(nextId) + 1
    {
      var existingUser := FindByEmail(email);
      if existingUser.Some? {
        return Err(AlreadyExistsError);
      }
      var newUser := User(nextId, username, email, hash(password));
      rows := rows + [newUser];
      nextId := nextId + 1;
      return Ok(newUser);
    }

    /** `loginUser(email, password)`. */
    method LoginUser(email: string, password: string, compare: (string, string) -> bool, sign: Claims -> string)
        returns (r: Result<Session, UserError>)
      ensures r == LoginOutcome(rows, email, password, compare, sign)
    {
      var user := FindByEmail(email);
      if user.None? {
        return Err(IncorrectLoginOrPassword);
      }
      var isPasswordValid := compare(password, user.value.password);
      if !isPasswordValid {
        return Err(IncorrectLoginOrPassword);
      }
      var accessToken := sign(Claims(user.value.id, user.value.email));
      return Ok(Session(user.value, accessToken));
    }

    /** `getUserById(id)`: the user without its password, or null. */
    method GetUserById(id: nat) returns (r: Option<PublicUser>)
      ensures r.Some? <==> UserWithId(rows, id).Some?
      ensures r.Some? ==> r.value == PublicOf(UserWithId(rows, id).value)
    {
      var user := FindByPk(id);
      if user.None? {
        return None;
      }
      return Some(PublicOf(user.value));
    }
  }

  /**
   * A user just registered logs in with the same password, provided the comparison
   * accepts a password against its own hash; the token is signed over the new id.
   */
  lemma RegisteredUserCanLogIn(rows: seq<User>, id: nat, username: string, email: string, password: string,
                               hash: string -> string, compare: (string, string) -> bool, sign: Claims -> string)
    requires !EmailTaken(rows, email)
    requires compare(password, hash(password))
    ensures var u := User(id, username, email, hash(password));
            LoginOutcome(rows + [u], email, password, compare, sign) == Ok(Session(u, sign(Claims(id, email))))
  {
    UserWithEmailSnoc(rows, User(id, username, email, hash(password)), email);
  }

  /** Registering one user does not change how anyone else logs in. */
  lemma RegistrationKeepsOtherLogins(rows: seq<User>, u: User, email: string, password: string,
                                     compare: (string, string) -> bool, sign: Claims -> string)
    requires !EmailTaken(rows, u.email) && email != u.email
    ensures LoginOutcome(rows + [u], email, password, compare, sign) == LoginOutcome(rows, email, password, compare, sign)
  {
    UserWithEmailSnoc(rows, u, email);
  }

  /** An unknown email and a wrong password are answered identically. */
  lemma LoginFailuresIndistinguishable(rows: seq<User>, unknown: string, known: string, password: string,
                                       compare: (string, string) -> bool, sign: Claims -> string)
    requires !EmailTaken(rows, unknown)
    requires EmailTaken(rows, known) && !compare(password, UserWithEmail(rows, known).value.password)
    ensures LoginOutcome(rows, unknown, password, compare, sign) == LoginOutcome(rows, known, password, compare, sign)
            == Err(IncorrectLoginOrPassword)
  {
  }

  /** With unique emails, the user a login finds is the only one holding that email. */
  lemma {:induction false} EmailIdentifiesUser(rows: seq<User>, email: string, i: nat)
    requires forall a, b :: 0 <= a < b < |rows| ==> rows[a].email != rows[b].email
    requires i < |rows| && rows[i].email == email
    ensures UserWithEmail(rows, email) == Some(rows[i])
    decreases i
  {
    if i > 0 {
      assert rows[0].email != email;
      assert rows[1..][i - 1] == rows[i];
      EmailIdentifiesUser(rows[1..], email, i - 1);
    }
  }
}
