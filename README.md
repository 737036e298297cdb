# User, document and authentication services, modelled in Dafny

This project models the resource-lifecycle core of a small NestJS service:

- the **user store** (`UserService`): a table of accounts keyed by an
  auto-generated id, with a unique username column; create, lookup by
  username, lookup by id, role update, and a delete that first checks that
  the account exists;
- the **document store** (`DocumentService`): a table of documents keyed by
  id, each pointing at the account it was uploaded for, which creation
  resolves through the user store; create, list, get, update and an
  idempotent delete;
- **authentication** (`AuthService`): credential validation (lookup, then
  bcrypt comparison against the stored hash), the claims signed into an
  access token (`username`, `sub` = id, `role`), and registration (hash, then
  create).

Persistence is replaced by in-memory tables: each store is a class holding
a `map` from id to row and a next-id counter that starts at 1, and its methods
update them in place. The unique constraint on the username column is the
only database-side rejection modelled: `UserService.Create` fails with
`UniqueViolation("username")` and leaves the table unchanged.

bcrypt and the JWT signer are foreign code. They are modelled as function values
(`Bcrypt.hashSync`, `Bcrypt.compareSync`, `sign`). The random salt that bcrypt
draws is a parameter of `Register`. The two properties of bcrypt that the
tests assume are ghost predicates, not axioms:
- `MatchesOwnHash`: a password matches every hash made from it;
- `RejectsOtherHashes`: an attempt matches no hash made from a different
  password. This idealizes bcrypt, which reads only the first 72 bytes of a
  password.

Lemmas and postconditions take these as premises, and
`BcryptFactsConsistent` shows that both can hold at once.

Files: `wrappers.dfy` (Option, Result, Outcome, the error kinds),
`entities.dfy` (the `User` and `Document` rows), `user_service.dfy`,
`document_service.dfy`, `auth_service.dfy`, and `scenarios.dfy` (whole flows
from empty tables, following the service tests and the login route).

## Where the code and its stated intent differ

The model follows the code as written:

- `updateDocument` assigns its `content` argument to `document.content`
  (src/document/document.service.ts:65), a property that the `Document`
  entity does not declare. The stored `description` therefore keeps its old
  value. This contradicts the method's doc comment and the expectation at
  src/document/document.service.spec.ts:121, which holds only because that
  test mocks `save`. `UpdateDocument` and `Scenarios.UploadAndEdit` state the
  as-written behaviour: the description is unchanged.
- `updateDocument` on a missing id does not raise a not-found error. The
  `null` that `findOne` returns makes the field assignment throw a
  `TypeError`, which is modelled as `NullReference`.
- `createDocument` does not reject a missing owner. The document is saved
  with the owner lookup's `undefined`, which is modelled as `user == None`.
- `updateRole` does no existence check. On a missing id it updates no row
  and raises no error.
- `register` has no duplicate check of its own. A taken username fails only
  through the unique column, and the failure is the database's, not a
  dedicated conflict error.
- The token payload carries `role`, although the `JwtPayload` interface
  (src/interfaces/jwt-payload.interface.ts:4) has that field commented out.

## Model

| member | source | states |
|---|---|---|
| `Entities.User` | src/user/entities/user.entity.ts:17-31 | an account row: generated id, username, password hash and role |
| `Entities.Document` | src/document/entities/document.entity.ts:16-30 | a document row: generated id, title, description, file path and owner |
| `Users.UniqueUsernames` | src/user/entities/user.entity.ts:21 | the unique constraint on the username column: two rows with the same username are the same row |
| `Users.UserWithName` | src/user/user.service.ts:38-40 | Some exactly when a row has the username, and then it is that row (unique by the column constraint) |
| `Users.UserWithId` | src/user/user.service.ts:48-50 | Some exactly when the id is stored, and then it is the row under that id, whose own id is the one asked for |
| `Users.OneRowPerUsername` | src/user/entities/user.entity.ts:21 | the unique column leaves at most one row per username, and exactly one when the username is taken |
| `Users.UserService.constructor` | src/user/user.service.ts:11-14 | the store starts with an empty table, the id counter at 1 and the table invariant |
| `Users.UserService.Create` | src/user/user.service.ts:24-30 | a free username gets a new row with a fresh id and exactly the given username, password and role, which is returned; a taken one fails on the unique column with table and counter unchanged; the invariant is kept |
| `Users.UserService.FindByUsername` | src/user/user.service.ts:38-40 | returns the unique row with that username or none, without side effects |
| `Users.UserService.FindById` | src/user/user.service.ts:48-50 | returns the row with that id or none, without side effects |
| `Users.UserService.UpdateRole` | src/user/user.service.ts:58-60 | only the role of row `id` changes; its username and password, every other row and the key set stay; a missing id changes nothing and raises nothing |
| `Users.UserService.DeleteUser` | src/user/user.service.ts:67-76 | a missing id fails with "User not found" and the table unchanged; an existing id removes exactly that row |
| `Documents.DocumentService.constructor` | src/document/document.service.ts:12-16 | the store starts with an empty table and the counter at 1, bound to the given user service |
| `Documents.DocumentService.CreateDocument` | src/document/document.service.ts:26-33 | saves a new document under a fresh id with the title, `content` as description, no file path, and as owner the lookup result: present exactly when the user exists, then with `id == userId`; a missing owner is not rejected |
| `Documents.DocumentService.GetDocuments` | src/document/document.service.ts:40-42 | the result holds exactly the stored documents, of every owner |
| `Documents.DocumentService.GetDocument` | src/document/document.service.ts:50-52 | the document with that id, or none when absent |
| `Documents.DocumentService.UpdateDocument` | src/document/document.service.ts:62-67 | on a stored id only the title changes: id, description, file path and owner stay, and no other row changes; a missing id fails with the table unchanged |
| `Documents.DocumentService.DeleteDocument` | src/document/document.service.ts:74-76 | removes the id if present; an absent id is no error and changes nothing; other documents stay |
| `Auth.SaltRounds` | src/auth/auth.service.ts:54 | the bcrypt cost of 10 rounds used on registration |
| `Auth.MatchesOwnHash` | src/auth/auth.service.spec.ts:51 | the premise the registration test assumes: a password matches every hash made from it |
| `Auth.RejectsOtherHashes` | src/auth/auth.service.spec.ts:87-102 | the premise the wrong-password test assumes: an attempt matches no hash made from a different password |
| `Auth.BcryptFactsConsistent` | src/auth/auth.service.spec.ts:42-51 | the two bcrypt premises the tests assume can hold together |
| `Auth.ValidateUser` | src/auth/auth.service.ts:24-30 | none when no row has the username; otherwise the stored row exactly when the attempt matches its stored hash, none when it does not |
| `Auth.Claims` | src/auth/auth.service.ts:39 | the claims are exactly the username, the id as `sub`, and the role |
| `Auth.Login` | src/auth/auth.service.ts:38-43 | the access token is the signature over exactly those claims; it takes no table, so it reads and changes none |
| `Auth.LoginIgnoresPassword` | src/auth/auth.service.ts:39 | the token depends on username, id and role alone, never on the password hash |
| `Auth.ClaimsIdentifyUser` | src/auth/jwt.strategy.ts:27-30 | the subject of a stored user's claims looks that user up again by id, as the token strategy does, and so does the username |
| `Auth.RegisteredUserValidates` | src/auth/auth.service.spec.ts:42-51 | inserting a fresh username with the hash of a password keeps usernames unique, and when a password matches its own hash, validating with it returns that row |
| `Auth.WrongPasswordRejected` | src/auth/auth.service.spec.ts:87-102 | when hashes reject other passwords, an attempt other than the hashed password validates to none |
| `Auth.RoleUpdateKeepsCredentials` | src/user/user.service.ts:58-60 | a role update keeps usernames unique and changes no validation outcome; the validated row carries the new role |
| `Auth.AuthService.constructor` | src/auth/auth.service.ts:12-15 | binds the user service and the bcrypt and signing collaborators |
| `Auth.AuthService.Register` | src/auth/auth.service.ts:53-56 | stores `hashSync(password, 10, salt)` with the username and role unchanged, by creation; a taken username fails with the table unchanged; the new user then validates with the password when passwords match their own hashes |
| `Auth.AuthService.Authenticate` | src/auth/auth.controller.ts:61-72 | the login route: fails with 401 "Invalid username or password" exactly when validation gives none, in particular for an unknown username; otherwise, for the row with that username, succeeds exactly when the password matches its hash, and the token is the signature over that row's claims; changes no table |
| `Scenarios.RegisterTwice` | src/user/entities/user.entity.ts:21 | a second registration of a username fails on the unique column, and exactly one row keeps that username |
| `Scenarios.SignIn` | src/auth/auth.controller.ts:61-72 | after registering alice/pw123/admin, the login route answers the right password with a token over alice's claims with role admin, and a wrong one with 401 |
| `Scenarios.UploadAndEdit` | src/document/document.service.ts:26-76 | upload for owner 1 gives title T, description C and owner id 1. An edit changes the title but keeps the description. An edit of a missing id fails. A delete of a missing id or a repeated delete is harmless. An upload for a missing owner has no owner |

## Left out

- src/ingestion/ingestion.service.ts is not part of this model. It makes one
  HTTP POST to a remote processor and rewraps its errors. That is network I/O
  with no state.
- src/ingestion/entities/ingestion.entity.ts declares status, timestamp and
  error columns, but no code creates an ingestion record or changes its
  status. No state machine is modelled for it.
- The controllers, the Nest modules, src/main.ts and src/app.module.ts are
  HTTP routing, dependency wiring and environment configuration. The login
  route's flow (validate, then 401 on none, else sign) is modelled as
  `Auth.AuthService.Authenticate`; its rewrapping of other errors as a 400
  response, and the register route's, are not modelled.
- bcrypt internals (salting, what the cost of 10 rounds does) are not
  modelled. Only the two premises above are stated about hashing.
- `Auth.WrongPasswordRejected`: `RejectsOtherHashes` idealizes bcrypt, which
  reads only the first 72 bytes of a password. The rejection, and the 401 in
  `Scenarios.SignIn`, hold only for attempts that differ from the registered
  password within its first 72 bytes.
- `JwtService` internals are not modelled: the signature itself, the issued-at
  time, the one-hour expiry and the fallback secret in
  src/auth/auth.module.ts:9-10. The repository's own code does no token
  verification or expiry check.
- src/auth/jwt.strategy.ts is Passport glue. Only the id lookup its
  `validate` performs appears, in `Auth.ClaimsIdentifyUser`.
- No stated premise forces a hash to differ from its password. The model
  therefore does not claim that a stored password never equals the plaintext.
- `async` and `Promise` are not modelled. Every operation is a sequential
  call, and requests never interleave.
- Role-based authorization is not modelled. Comments in the user controller
  claim admin-only actions, but no code enforces them.
- Other database behaviour is not modelled:
  - the not-null `filePath` column, which `createDocument` never sets
    (modelled as `None`);
  - the foreign key that would stop deleting a user who still owns
    documents;
  - sequence values that a failed insert consumes (the counter here does not
    advance on failure);
  - the inverse `documents` relation on `User`.
- `Documents.DocumentService.CreateDocument` stores the owner as the `User` value found at
  creation. The database stores only the owner's id, and plain `find` and
  `findOne` do not load the relation. A later change to that user does not
  show in the stored document.
- `Documents.DocumentService.GetDocuments` returns a set, not an array. The
  database gives `find()` no order.
- `Documents.DocumentService.UpdateDocument` does not return the stray
  `content` property that the source's returned object carries. The table
  does not store that property.
