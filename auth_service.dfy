/**
 * Authentication: credential validation against the user table, the claims
 * signed into an access token, and registration with a hashed password.
 * bcrypt and the JWT signer are foreign code; they are function values here,
 * and the two properties of bcrypt that the tests assume are predicates that a
 * lemma or a postcondition takes as a premise. The second idealizes bcrypt,
 * which reads only the first 72 bytes of a password.
 */
module Auth {
  import opened Wrappers
  import opened Entities
  import opened Users

  /** The bcrypt work factor used on registration. */
  const SaltRounds := 10

  /**
   * The two bcrypt calls the service makes. `hashSync(password, rounds, salt)`
   * takes as `salt` the random value bcrypt draws for itself.
   */
  datatype Bcrypt = Bcrypt(
    hashSync: (string, int, int) -> string,
    compareSync: (string, string) -> bool)

  /** A password matches every hash made from it. */
  ghost predicate MatchesOwnHash(bcrypt: Bcrypt) {
    forall password, rounds, salt ::
      bcrypt.compareSync(password, bcrypt.hashSync(password, rounds, salt))
  }

  /**
   * An attempt matches no hash made from a different password. Real bcrypt
   * falls short of this: it ignores every byte of a password past the 72nd.
   */
  ghost predicate RejectsOtherHashes(bcrypt: Bcrypt) {
    forall password, attempt, rounds, salt :: attempt != password ==>
      !bcrypt.compareSync(attempt, bcrypt.hashSync(password, rounds, salt))
  }

  /** The claims signed into an access token. */
  datatype Payload = Payload(username: string, sub: int, role: string)

  /** What login hands back: the signed token. */
  datatype LoginResponse = LoginResponse(accessToken: string)

  /** The two premises about bcrypt can hold together, so no contract that assumes them is vacuous. */
  lemma BcryptFactsConsistent()
    ensures exists bcrypt :: MatchesOwnHash(bcrypt) && RejectsOtherHashes(bcrypt)
  {
    var plain := Bcrypt((password, rounds, salt) => password, (attempt, hash) => attempt == hash);
    assert MatchesOwnHash(plain) && RejectsOtherHashes(plain);
  }

  /**
   * Looks the username up and hands back the stored row exactly when the
   * attempt matches its stored hash; none when no row has the username or the
   * attempt does not match.
   */
  function ValidateUser(users: map<int, User>, bcrypt: Bcrypt, username: string, pass: string): (r: Option<User>)
    requires UniqueUsernames(users)
    ensures !UsernameTaken(users, username) ==> r == None
    ensures forall id :: id in users && users[id].username == username ==>
              && (r.Some? <==> bcrypt.compareSync(pass, users[id].password))
              && (r.Some? ==> r.value == users[id])
  {
    match UserWithName(users, username)
    case Some(user) => if bcrypt.compareSync(pass, user.password) then Some(user) else None
    case None => None
  }

  /** The claims of a token: the username, the id as subject, and the role. */
  function Claims(user: User): (p: Payload)
    ensures p.username == user.username && p.sub == user.id && p.role == user.role
  {
    Payload(user.username, user.id, user.role)
  }

  /** Signs the user's claims; reads no table and changes none. */
  function Login(sign: Payload -> string, user: User): (r: LoginResponse)
    ensures r.accessToken == sign(Claims(user))
  {
    LoginResponse(sign(Payload(user.username, user.id, user.role)))
  }

  /**
   * The token depends on the claims alone: two users with the same username,
   * id and role get the same token, whatever their passwords.
   */
  lemma LoginIgnoresPassword(sign: Payload -> string, user: User, other: User)
    requires other.username == user.username && other.id == user.id && other.role == user.role
    ensures Login(sign, other) == Login(sign, user)
    ensures Login(sign, user.(password := other.password)) == Login(sign, user)
  {
  }

  /**
   * The claims of a stored user lead back to that user: through the subject,
   * as the token strategy looks users up, and through the username.
   */
  lemma ClaimsIdentifyUser(users: map<int, User>, user: User)
    requires IdsMatchKeys(users) && UniqueUsernames(users)
    requires user.id in users && users[user.id] == user
    ensures UserWithId(users, Claims(user).sub) == Some(user)
    ensures UserWithName(users, Claims(user).username) == Some(user)
  {
  }

  /** Registration keeps usernames unique and its password validates afterwards. */
  lemma RegisteredUserValidates(users: map<int, User>, bcrypt: Bcrypt, user: User, password: string, salt: int)
    requires UniqueUsernames(users) && !UsernameTaken(users, user.username)
    requires user.password == bcrypt.hashSync(password, SaltRounds, salt)
    requires MatchesOwnHash(bcrypt)
    ensures UniqueUsernames(users[user.id := user])
    ensures ValidateUser(users[user.id := user], bcrypt, user.username, password) == Some(user)
  {
    var after := users[user.id := user];
    forall i, j | i in after && j in after && after[i].username == after[j].username
      ensures i == j
    {
      if i != user.id && j != user.id {
        assert users[i].username == users[j].username;
      } else if i != user.id || j != user.id {
        // the other row would already carry the new username
        assert false;
      }
    }
    assert bcrypt.compareSync(password, user.password);
    assert user.id in after && after[user.id] == user;
  }

  /**
   * Under the premise that bcrypt rejects other passwords, an attempt other
   * than the registered password does not validate.
   */
  lemma WrongPasswordRejected(users: map<int, User>, bcrypt: Bcrypt, id: int, password: string, attempt: string, rounds: int, salt: int)
    requires UniqueUsernames(users) && RejectsOtherHashes(bcrypt)
    requires id in users && users[id].password == bcrypt.hashSync(password, rounds, salt)
    requires attempt != password
    ensures ValidateUser(users, bcrypt, users[id].username, attempt) == None
  {
  }

  /**
   * A role update changes no credential: the same username and attempt
   * validate as before, and the row handed back carries the new role, which
   * the next token's claims then hold.
   */
  lemma RoleUpdateKeepsCredentials(users: map<int, User>, bcrypt: Bcrypt, id: int, role: string, username: string, pass: string)
    requires IdsMatchKeys(users) && UniqueUsernames(users) && id in users
    ensures UniqueUsernames(users[id := users[id].(role := role)])
    ensures var before := ValidateUser(users, bcrypt, username, pass);
            ValidateUser(users[id := users[id].(role := role)], bcrypt, username, pass)
              == if before.Some? && before.value.id == id then Some(before.value.(role := role)) else before
  {
    var after := users[id := users[id].(role := role)];
    forall i, j | i in after && j in after && after[i].username == after[j].username
      ensures i == j
    {
      assert users[i].username == users[j].username;
    }
    if UsernameTaken(users, username) {
      var k :| k in users && users[k].username == username;
      assert after[k].username == username;
    }
  }

  /** The authentication service over a user service and the bcrypt and JWT collaborators. */
  class AuthService {
    const userService: UserService
    const bcrypt: Bcrypt
    const sign: Payload -> string

    constructor (userService: UserService, bcrypt: Bcrypt, sign: Payload -> string)
      ensures this.userService == userService && this.bcrypt == bcrypt && this.sign == sign
    {
      this.userService := userService;
      this.bcrypt := bcrypt;
      this.sign := sign;
    }

    /**
     * Hashes the password with `SaltRounds` rounds and `salt`, then creates
     * the user with that hash and the given username and role. A taken
     * username fails as creation does and leaves the table as it was. When a
     * password matches its own hashes, the new user validates with it.
     */
    method Register(username: string, password: string, role: string, salt: int) returns (r: Result<User>)
      requires userService.Valid()
      modifies userService
      ensures userService.Valid()
      ensures r.Err? <==> UsernameTaken(old(userService.users), username)
      ensures r.Err? ==> && r.error == UniqueViolation("username")
                         && userService.users == old(userService.users)
                         && userService.nextId == old(userService.nextId)
      ensures r.Ok? ==> && r.value.username == username
                        && r.value.password == bcrypt.hashSync(password, SaltRounds, salt)
                        && r.value.role == role
                        && r.value.id == old(userService.nextId)
                        && r.value.id !in old(userService.users)
                        && userService.users == old(userService.users)[r.value.id := r.value]
                        && userService.nextId == old(userService.nextId) + 1
      ensures r.Ok? && MatchesOwnHash(bcrypt) ==>
                ValidateUser(userService.users, bcrypt, username, password) == Some(r.value)
    {
      var hashedPassword := bcrypt.hashSync(password, SaltRounds, salt);
      r := userService.Create(username, hashedPassword, role);
      if r.Ok? && MatchesOwnHash(bcrypt) {
        RegisteredUserValidates(old(userService.users), bcrypt, r.value, password, salt);
      }
    }

    /**
     * The login route: validates the credentials, answers 401 with "Invalid
     * username or password" when they do not validate, and otherwise signs the
     * claims of the validated row. Changes no table.
     */
    method Authenticate(username: string, password: string) returns (r: Result<LoginResponse>)
      requires userService.Valid()
      ensures r.Err? <==> ValidateUser(userService.users, bcrypt, username, password) == None
      ensures r.Err? ==> r.error == Unauthorized("Invalid username or password")
      ensures !UsernameTaken(userService.users, username) ==> r.Err?
      ensures forall id :: id in userService.users && userService.users[id].username == username ==>
                && (r.Ok? <==> bcrypt.compareSync(password, userService.users[id].password))
                && (r.Ok? ==> r.value.accessToken == sign(Claims(userService.users[id])))
    {
      var user := ValidateUser(userService.users, bcrypt, username, password);
      if user.None? {
        return Err(Unauthorized("Invalid username or password"));
      }
      r := Ok(Login(sign, user.value));
    }
  }
}
