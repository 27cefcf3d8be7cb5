# pawlist-api user registration, modelled in Dafny

This project models the user registration core of the pawlist-api backend. That core is the
`POST /users` route (users/router.js) and the mongoose models it relies on (models.js).
The route takes a JSON body with `username` and `password` and works in four steps:

1. It scans `username` and then `password` and refuses the first field whose `trim()`
   differs from the field itself. The answer is 422 with a `ValidationError` that names
   that field.
2. It counts the stored users with that username and refuses when there is one.
3. It hashes the password with bcrypt (cost factor 10) and creates the user document
   with the hash in place of the password.
4. It answers 201 with the document's public view, `{username}`.

A single `.catch` handles every failure of the promise chain. An error whose `reason` is
`"ValidationError"` goes back to the client unchanged, with its own `code` as the HTTP
status. Any other error becomes `500 {code: 500, message: "Internal server error"}`.

The models hold the `event`, `pet` and `user` schemas and their `serialize` projections.
They also hold the `required` and `unique` constraints, and the user schema's
`hashPassword` and `validatePassword` helpers.

Modules:

- `Wrappers` (wrappers.dfy): `Option` and `Result`.
- `Js` (js.dfy): the JavaScript semantics the code depends on. This covers values, truthiness
  and `||`, property lookup, and `String.prototype.trim` with the whitespace and
  line-terminator code points of ECMAScript sections 12.2 and 12.3.
- `Models` (models.dfy, modelling models.js): the documents, `serialize`, schema validation and the bcrypt
  helpers. The `user` collection is the class `UserCollection`: a sequence of documents
  whose invariant is that every document is valid and no username appears twice. Its
  `Create` method appends to that sequence.
- `UsersRouter` (users_router.dfy, modelling users/router.js): the whitespace scan as a
  pure function (`FindNotTrimmed`). The whole route is the specification function
  `Register`, which maps the collection and the request to the response and the new
  collection. The handler itself is `PostUsers`, a module-level method that takes the
  collection as a parameter, updates it, and is proved equal to `Register`. Lemmas about
  `Register` state what the route promises.

Inputs the code gets from outside become parameters:

- bcrypt is a `Bcrypt` value holding the `hash` and `compare` functions. What the code
  relies on from it is the predicate `Sound`: a hash always verifies against its own
  password and is 60 characters long. The lemmas that need this take `Sound(b)` as a
  precondition.
- The random salt bcrypt draws is a `salt` parameter.
- Whether the database answers is a `StoreIo` value with one flag for the count query
  and one for the write of `User.create`. A call it does not answer (connection lost,
  timeout, failed write) rejects with `Unavailable`, which the `.catch` turns into the
  generic 500.

The model follows the code, including where it does less than the expectations written
in test/test-server.js:91-131:

- The route has no username or password length checks. The length assertions in
  test/test-server.js:91-131 sit only in `.catch` branches of requests that succeed.
- A duplicate username reported by the unique index at create time has no `reason`, so
  it becomes a 500, not a 422.
- An empty username passes the whitespace scan and the count. It then fails mongoose's
  `required` validator in `User.create` and ends as a 500.
- A missing or non-string field makes `req.body[field].trim()` throw a TypeError outside
  the promise chain. Express's default error handler then answers 500. The model writes
  this outcome as `Thrown("TypeError")`.

## Model

| member | source | states |
|---|---|---|
| Js.TextStart | users/router.js:16 | the index where the leading whitespace of a string ends: everything before it is whitespace and the character at it is not |
| Js.TextEnd | users/router.js:16 | the index where the trailing whitespace of a string begins: everything after it is whitespace and the character before it is not |
| Js.Trim | users/router.js:16 | `trim()` returns the infix of the string between its leading and trailing whitespace, and that infix has no outer whitespace |
| Js.TrimUnchangedIff | users/router.js:16 | `s.trim() === s` holds exactly when `s` is empty or neither its first nor its last character is whitespace |
| Models.SerializeEvent | models.js:19-28 | an event's public view has exactly the keys id, user, name, info, date and frequency, and `id` is the document's `_id` |
| Models.SerializeEventLossless | models.js:19-28 | two events have the same public view exactly when they are the same event, so every field is copied and none is dropped or merged |
| Models.ValidateEvent | models.js:8-17 | an event passes schema validation exactly when `name` is a non-empty string; otherwise the error names the path `name` |
| Models.SerializePet | models.js:41-50 | a pet's public view has exactly the keys id, user, name, info, vet and pic, and `id` is the document's `_id` |
| Models.SerializePetLossless | models.js:41-50 | two pets have the same public view exactly when they are the same pet |
| Models.ValidatePet | models.js:30-39 | a pet passes schema validation exactly when `name` is a non-empty string; otherwise the error names the path `name` |
| Models.SerializeUser | models.js:64-68 | a user's public view has the single key `username`, whose value is the stored username when that is truthy and `''` otherwise |
| Models.SerializeUserHidesPassword | models.js:64-68 | the public view of a user does not depend on the stored password |
| Models.ValidateUser | models.js:52-62 | a user passes validation exactly when `username` and `password` are both non-empty strings; otherwise the error lists exactly the missing paths |
| Models.HashPassword | models.js:74-76 | the stored secret is bcrypt's hash of the password with cost factor 10; under a sound bcrypt it verifies against that password and is 60 characters long |
| Models.ValidatePassword | models.js:70-72 | `validatePassword` is bcrypt's comparison of the candidate with the stored hash, and it rejects when the stored password is not a string |
| Models.HashThenValidate | models.js:70-76 | a document that stores `hashPassword(p)` validates `p`, whatever the salt |
| Models.CountByUsername | users/router.js:29-30 | the count of documents with a username is at most the collection size, and it is positive exactly when some document has that username |
| Models.FindOne | test/test-server.js:146-150 | `findOne({username})` finds a document exactly when the count is positive, and what it finds is in the collection with that username |
| Models.CountAtMostOne | models.js:53-57 | in a consistent collection, which has the unique index, a username matches at most one document |
| Models.Consistent | models.js:53-61 | the schema invariant of the user collection: every document passes validation and no username appears twice. It is a predicate with no contract of its own; `CountAtMostOne`, `InsertKeepsConsistent`, `UserCollection.Create` and `RegisterKeepsConsistent` state what relies on it and what keeps it |
| Models.Insert | models.js:52-62 | `User.create` succeeds exactly when the document is valid, the database answers and the username is not yet stored; it then appends the document. An invalid document fails with the validation error, an unanswered write with `Unavailable`, and a valid document with a taken username with a duplicate-key error |
| Models.InsertKeepsConsistent | models.js:53-57 | a successful create keeps every document valid and every username unique, and the new username then matches exactly one document, the new one |
| Models.UserCollection.Create | users/router.js:43-46 | on success the collection gains exactly the new document and `create` resolves to it; on failure (invalid document, taken username or a database that does not answer) the collection is unchanged; the collection invariant is kept |
| UsersRouter.CatchResponse | users/router.js:51-56 | an error whose reason is "ValidationError" is answered with its own code and exactly its own fields; any other error becomes 500 `{code: 500, message: "Internal server error"}` |
| UsersRouter.FindNotTrimmed | users/router.js:15-16 | the scan reports no field exactly when every field is a trimmed string; otherwise it reports the first field in order that is an untrimmed string, or the first that is not a string (where `.trim` throws), with every earlier field a trimmed string |
| UsersRouter.Register | users/router.js:14-57 | the whole route as a function of the collection, the body, the database's answers, bcrypt and the salt, giving the response and the collection afterwards. It has no contract of its own: the lemmas in the rows below state its behaviour, and `PostUsers` is proved equal to it |
| UsersRouter.PostUsers | users/router.js:14-57 | the handler's response and the collection afterwards are those of `Register`, and the collection invariant (valid documents, unique usernames) is kept |
| UsersRouter.UntrimmedUsernameWins | users/router.js:15-25 | an untrimmed username is refused with location "username" whatever the password is, so when both fields are untrimmed the username is reported; nothing is stored |
| UsersRouter.UntrimmedPasswordRejected | users/router.js:15-25 | a trimmed username with an untrimmed password is refused with location "password"; nothing is stored |
| UsersRouter.WhitespaceRejectionShape | users/router.js:18-25 | a whitespace refusal is exactly 422 `{code: 422, reason: "ValidationError", message: "Username or Password cannot have whitespace", location}`, with location "username" or "password" |
| UsersRouter.NonStringFieldThrows | users/router.js:15-16 | a missing or non-string username, or a trimmed username with a missing or non-string password, makes the handler throw (status 500) and nothing is stored |
| UsersRouter.TakenUsernameRejected | users/router.js:29-39 | with both fields trimmed, the count answered and the username already stored, the answer is exactly 422 `{code: 422, reason: "ValidationError", message: "Username already in use", location: "username"}` and the collection is unchanged |
| UsersRouter.RegisterSucceedsIff | users/router.js:14-50 | under a sound bcrypt, registration answers 201 exactly when both fields are trimmed strings, the username is not empty, it is not already stored, and the database answers both the count and the create |
| UsersRouter.RefusalLeavesStoreUnchanged | users/router.js:18-39 | every answer other than 201 leaves the collection exactly as it was |
| UsersRouter.SuccessStoresHash | users/router.js:40-50 | on 201 the collection is the old one plus one document, holding the given username and bcrypt's cost-10 hash of the password; the response body is `{username}` and nothing else |
| UsersRouter.RegisterKeepsConsistent | models.js:53-57 | registration keeps every stored document valid and every username unique |
| UsersRouter.RegisteredPasswordValidates | users/router.js:40-47 | after a 201, `findOne({username})` finds the new user and `validatePassword(password)` on it is true |
| UsersRouter.EmptyUsernameIsServerError | users/router.js:29-56 | an empty username with a trimmed password passes the scan and the count, fails the `required` validator on create, and is answered with the generic 500; nothing is stored. This holds whether or not the database answers |
| UsersRouter.StoreFailureIsServerError | users/router.js:29-56 | with both fields trimmed, a database that fails the count, or fails the write of a valid new user, makes the `.catch` answer exactly 500 `{code: 500, message: "Internal server error"}`, and nothing is stored |

## Left out

- Login, token refresh, JWT issuing and verification, and the authorization gate: they live
  in the `./auth` module, which server.js:15 imports. That module is not part of this model.
- Username and password length limits: users/router.js has no code for them.
- bcrypt internals: salting, the cost loop and the constant-time comparison. The model
  does not include bcrypt's truncation of passwords at 72 bytes either. bcrypt appears
  only through the `Sound` predicate.
- Models.HashPassword: the failure of `bcrypt.hash` on an internal error is not modelled,
  because the code never produces one with a string password.
- Express wiring, the CORS middleware, the body parsers and the server start/stop
  lifecycle (server.js). The request body arrives as an already parsed JSON object.
- The body Express's default error handler sends with a thrown TypeError. Only its 500
  status is modelled.
- The events, pets and reviews routers (events/router.js, pets/router.js,
  roadie/router.js): they are plain pass-throughs to the store.
- Promise scheduling, and the race between the count and the create. A concurrent
  duplicate would fail at the unique index. `Models.Insert` models that error, but a
  single sequential request never reaches it.
- Mongoose's casting of non-string values to String paths, and the `_id` of user
  documents. `Models.Present` treats only a non-empty string as present.
- JSON numbers are integers: no floating point and no NaN.
- `res.json` drops keys whose value is undefined. The serialize projections are modelled
  as the objects they return, not as JSON text.
- Strings are sequences of Unicode scalar values rather than UTF-16 code units. Every
  character `trim` removes lies in the Basic Multilingual Plane, so the trim check is
  unaffected.
