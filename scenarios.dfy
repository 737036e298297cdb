/**
 * Whole flows through the services, in the order the service tests and the
 * login route drive them. Each starts from empty tables.
 */
module Scenarios {
  import opened Wrappers
  import opened Entities
  import opened Users
  import opened Documents
  import opened Auth

  /**
   * Registering one username twice: the second registration fails on the
   * unique column and the table keeps exactly one row with that username.
   */
  method RegisterTwice(bcrypt: Bcrypt, sign: Payload -> string, username: string, first: string, second: string, salt: int)
    returns (r1: Result<User>, r2: Result<User>, table: map<int, User>)
    ensures r1.Ok? && r1.value == User(1, username, bcrypt.hashSync(first, SaltRounds, salt), "user")
    ensures r2 == Err(UniqueViolation("username"))
    ensures table == map[1 := r1.value]
    ensures |RowsNamed(table, username)| == 1
  {
    var users := new UserService();
    var auth := new AuthService(users, bcrypt, sign);
    r1 := auth.Register(username, first, "user", salt);
    r2 := auth.Register(username, second, "admin", salt);
    table := users.users;
    OneRowPerUsername(table, username);
  }

  /**
   * Register alice with password pw123 and role admin, then sign in through
   * the login route: the right password yields a token signed over alice's
   * claims with role admin; a wrong password is answered with 401.
   */
  method SignIn(bcrypt: Bcrypt, sign: Payload -> string, salt: int)
    returns (token: Result<LoginResponse>, rejected: Result<LoginResponse>)
    requires MatchesOwnHash(bcrypt) && RejectsOtherHashes(bcrypt)
    ensures token == Ok(LoginResponse(sign(Payload("alice", 1, "admin"))))
    ensures rejected == Err(Unauthorized("Invalid username or password"))
  {
    var users := new UserService();
    var auth := new AuthService(users, bcrypt, sign);
    var registered := auth.Register("alice", "pw123", "admin", salt);
    token := auth.Authenticate("alice", "pw123");
    WrongPasswordRejected(users.users, bcrypt, 1, "pw123", "wrong", SaltRounds, salt);
    rejected := auth.Authenticate("alice", "wrong");
  }

  /**
   * Upload for an existing owner, edit, edit a missing id, delete a missing
   * id, delete, and upload for a missing owner.
   */
  method UploadAndEdit()
    returns (created: Document, edited: Result<Document>, missing: Result<Document>,
             gone: Option<Document>, orphan: Document)
    ensures created.id == 1 && created.title == "T" && created.description == "C"
    ensures created.user.Some? && created.user.value.id == 1
    ensures edited.Ok? && edited.value.title == "T2" && edited.value.description == "C"
    ensures edited.value.user == created.user
    ensures missing == Err(NullReference)
    ensures gone == None
    ensures orphan.id == 2 && orphan.user == None
  {
    var users := new UserService();
    var owner := users.Create("testuser", "testpassword", "user");
    var documents := new DocumentService(users);
    created := documents.CreateDocument(1, "T", "C");
    edited := documents.UpdateDocument(created.id, "T2", "C2");
    missing := documents.UpdateDocument(999, "T3", "C3");
    documents.DeleteDocument(999);
    documents.DeleteDocument(created.id);
    documents.DeleteDocument(created.id);
    gone := documents.GetDocument(created.id);
    orphan := documents.CreateDocument(42, "X", "Y");
  }
}
