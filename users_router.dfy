/**
 * users/router.js: the `POST /users` handler that registers a user. It checks that
 * `username` and `password` carry no outer whitespace (the first offending field in
 * that order is reported), refuses a username already in the collection, hashes the
 * password, creates the document and answers with its public view. Every failure in
 * the promise chain goes through one `.catch` that passes a `ValidationError` object
 * through with its own code and turns anything else into a 500.
 */
module UsersRouter {
  import opened Js
  import opened Wrappers
  import opened Models

  /** The body fields the handler checks, in the order it checks them. */
  const TrimmedFields: seq<string> := ["username", "password"]

  const ValidationReason := "ValidationError"
  const WhitespaceMessage := "Username or Password cannot have whitespace"
  const TakenMessage := "Username already in use"
  const InternalMessage := "Internal server error"

  /** The plain error object the handler answers with or passes to `Promise.reject`. */
  datatype Rejection = Rejection(code: nat, reason: string, message: string, location: string)

  /** What can reach the `.catch` of the promise chain. */
  datatype Failure = Rejected(rejection: Rejection) | Store(error: StoreError)

  /** What the handler produces: a JSON response with its status, or an exception thrown
      synchronously out of the handler (Express's default error handler answers 500). */
  datatype Response = Json(status: nat, body: Value) | Thrown(name: string)

  /** The HTTP status the client sees. */
  function Status(r: Response): nat {
    if r.Json? then r.status else 500
  }

  /** A rejection object as a JSON body: exactly its four fields. */
  function RejectionBody(e: Rejection): (r: Value)
    ensures r.Obj? && r.fields.Keys == {"code", "reason", "message", "location"}
    ensures r.fields["code"] == Num(e.code) && r.fields["location"] == Str(e.location)
  {
    Obj(map["code" := Num(e.code), "reason" := Str(e.reason),
            "message" := Str(e.message), "location" := Str(e.location)])
  }

  /** The rejection for a field with outer whitespace. */
  function WhitespaceRejection(field: string): Rejection {
    Rejection(422, ValidationReason, WhitespaceMessage, field)
  }

  /** The rejection for a username that is already registered. */
  const UsernameTaken: Rejection := Rejection(422, ValidationReason, TakenMessage, "username")

  /** The body of every 500 the `.catch` sends. */
  const InternalErrorBody: Value := Obj(map["code" := Num(500), "message" := Str(InternalMessage)])

  /** The `.catch` handler: an error whose `reason` is "ValidationError" is sent back as
      it is, with its own code as the status; every other error becomes a 500 that hides
      its details. */
  function CatchResponse(err: Failure): (r: Response)
    ensures r.Json?
    ensures err.Rejected? && err.rejection.reason == ValidationReason
            ==> r.status == err.rejection.code && r.body == RejectionBody(err.rejection)
    ensures !(err.Rejected? && err.rejection.reason == ValidationReason)
            ==> r.status == 500 && r.body == InternalErrorBody
  {
    match err
    case Rejected(e) =>
      if e.reason == ValidationReason then Json(e.code, RejectionBody(e))
      else Json(500, InternalErrorBody)
    case Store(_) => Json(500, InternalErrorBody)
  }

  // ------------------------------------------------------- whitespace scan

  /** The outcome of `trimmedFields.find(field => req.body[field].trim() !== req.body[field])`:
      no field matched, the first matching field, or the field whose value has no
      `trim` method, where the callback throws a TypeError. */
  datatype Scan = AllTrimmed | Untrimmed(field: string) | NotAString(field: string)

  /** A string that `trim` leaves as it is. */
  predicate IsTrimmedString(v: Value) {
    v.Str? && Trim(v.s) == v.s
  }

  /** Every field before position `k` holds a trimmed string. */
  ghost predicate CleanBefore(body: map<string, Value>, fields: seq<string>, k: nat)
    requires k <= |fields|
  {
    forall j :: 0 <= j < k ==> IsTrimmedString(Get(body, fields[j]))
  }

  /** Scans `fields` in order and stops at the first one that is not a trimmed string. */
  function FindNotTrimmed(body: map<string, Value>, fields: seq<string>): (r: Scan)
    ensures r.AllTrimmed? <==> CleanBefore(body, fields, |fields|)
    ensures r.Untrimmed? ==> exists k :: (
      && 0 <= k < |fields| && fields[k] == r.field
      && Get(body, fields[k]).Str? && !IsTrimmedString(Get(body, fields[k]))
      && CleanBefore(body, fields, k))
    ensures r.NotAString? ==> exists k :: (
      && 0 <= k < |fields| && fields[k] == r.field
      && !Get(body, fields[k]).Str?
      && CleanBefore(body, fields, k))
    decreases |fields|
  {
    if fields == [] then AllTrimmed
    else
      var v := Get(body, fields[0]);
      if !v.Str? then NotAString(fields[0])
      else if Trim(v.s) != v.s then Untrimmed(fields[0])
      else
        var rest := FindNotTrimmed(body, fields[1..]);
        ScanShift(body, fields, rest);
        rest
  }

  /** Moves the scan's contract from `fields[1..]` to `fields` once `fields[0]` is clean. */
  lemma ScanShift(body: map<string, Value>, fields: seq<string>, rest: Scan)
    requires fields != [] && IsTrimmedString(Get(body, fields[0]))
    requires rest.AllTrimmed? <==> CleanBefore(body, fields[1..], |fields| - 1)
    requires rest.Untrimmed? ==> exists k :: (
      && 0 <= k < |fields| - 1 && fields[1..][k] == rest.field
      && Get(body, fields[1..][k]).Str? && !IsTrimmedString(Get(body, fields[1..][k]))
      && CleanBefore(body, fields[1..], k))
    requires rest.NotAString? ==> exists k :: (
      && 0 <= k < |fields| - 1 && fields[1..][k] == rest.field
      && !Get(body, fields[1..][k]).Str?
      && CleanBefore(body, fields[1..], k))
    ensures rest.AllTrimmed? <==> CleanBefore(body, fields, |fields|)
    ensures rest.Untrimmed? ==> exists k :: (
      && 0 <= k < |fields| && fields[k] == rest.field
      && Get(body, fields[k]).Str? && !IsTrimmedString(Get(body, fields[k]))
      && CleanBefore(body, fields, k))
    ensures rest.NotAString? ==> exists k :: (
      && 0 <= k < |fields| && fields[k] == rest.field
      && !Get(body, fields[k]).Str?
      && CleanBefore(body, fields, k))
  {
    forall k | 0 <= k <= |fields| - 1
      ensures CleanBefore(body, fields[1..], k) <==> CleanBefore(body, fields, k + 1)
    {
      if CleanBefore(body, fields[1..], k) {
        forall j | 0 <= j < k + 1 ensures IsTrimmedString(Get(body, fields[j])) {
          if j > 0 { assert fields[j] == fields[1..][j - 1]; }
        }
      }
      if CleanBefore(body, fields, k + 1) {
        forall j | 0 <= j < k ensures IsTrimmedString(Get(body, fields[1..][j])) {
          assert fields[1..][j] == fields[j + 1];
        }
      }
    }
    if rest.Untrimmed? {
      var k :| && 0 <= k < |fields| - 1 && fields[1..][k] == rest.field
        && Get(body, fields[1..][k]).Str? && !IsTrimmedString(Get(body, fields[1..][k]))
        && CleanBefore(body, fields[1..], k);
      assert fields[k + 1] == rest.field;
    }
    if rest.NotAString? {
      var k :| && 0 <= k < |fields| - 1 && fields[1..][k] == rest.field
        && !Get(body, fields[1..][k]).Str?
        && CleanBefore(body, fields[1..], k);
      assert fields[k + 1] == rest.field;
    }
  }

  // ------------------------------------------------------------ the route

  /** Whether the database answers the two calls the route makes: the count query and
      the write of `User.create`. A call it does not answer rejects with a store error. */
  datatype StoreIo = StoreIo(countAnswers: bool, createAnswers: bool)

  /** The result of one request: the response and the collection afterwards. */
  datatype Outcome = Outcome(response: Response, docs: seq<UserDoc>)

  /** `router.post('/')` on the collection `docs`, with `io` saying whether the database
      answers, `b` the bcrypt implementation and `salt` the random salt bcrypt would draw.
      The lemmas below state its behaviour, and it specifies `PostUsers`. */
  function Register(docs: seq<UserDoc>, body: map<string, Value>, io: StoreIo, b: Bcrypt, salt: string): Outcome {
    match FindNotTrimmed(body, TrimmedFields)
    case NotAString(_) => Outcome(Thrown("TypeError"), docs)
    case Untrimmed(field) => Outcome(Json(422, RejectionBody(WhitespaceRejection(field))), docs)
    case AllTrimmed =>
      assert IsTrimmedString(Get(body, TrimmedFields[0])) && IsTrimmedString(Get(body, TrimmedFields[1]));
      var username, password := Get(body, "username").s, Get(body, "password").s;
      if !io.countAnswers then
        Outcome(CatchResponse(Store(Unavailable)), docs)
      else if CountByUsername(docs, Str(username)) > 0 then
        Outcome(CatchResponse(Rejected(UsernameTaken)), docs)
      else
        var doc := UserDoc(Str(username), Str(HashPassword(b, password, salt)));
        match Insert(docs, doc, io.createAnswers)
        case Failure(e) => Outcome(CatchResponse(Store(e)), docs)
        case Success(docs') => Outcome(Json(201, Obj(SerializeUser(doc))), docs')
  }

  /** The handler as it runs: the trim check, the count query, the hash, `User.create`,
      then the response. Its result and the collection afterwards are those of
      `Register`, and the collection stays consistent. */
  method PostUsers(users: UserCollection, body: map<string, Value>, io: StoreIo, b: Bcrypt, salt: string)
    returns (response: Response)
    requires users.Valid()
    modifies users
    ensures users.Valid()
    ensures Outcome(response, users.docs) == Register(old(users.docs), body, io, b, salt)
  {
    var notTrimmed := FindNotTrimmed(body, TrimmedFields);
    if notTrimmed.NotAString? {
      return Thrown("TypeError");
    }
    if notTrimmed.Untrimmed? {
      return Json(422, RejectionBody(WhitespaceRejection(notTrimmed.field)));
    }
    assert IsTrimmedString(Get(body, TrimmedFields[0])) && IsTrimmedString(Get(body, TrimmedFields[1]));
    var username, password := Get(body, "username").s, Get(body, "password").s;

    if !io.countAnswers {
      return CatchResponse(Store(Unavailable));
    }
    var count := CountByUsername(users.docs, Str(username));
    if count > 0 {
      return CatchResponse(Rejected(UsernameTaken));
    }
    var hash := HashPassword(b, password, salt);
    var created := users.Create(UserDoc(Str(username), Str(hash)), io.createAnswers);
    match created
    case Failure(e) =>
      response := CatchResponse(Store(e));
    case Success(user) =>
      response := Json(201, Obj(SerializeUser(user)));
  }

  // -------------------------------------------------------------- lemmas

  /** The username is scanned first: when it is a string with outer whitespace the
      request is refused with location "username", whatever the password is (in
      particular when both fields have whitespace), and nothing is stored. */
  lemma UntrimmedUsernameWins(docs: seq<UserDoc>, body: map<string, Value>, io: StoreIo, b: Bcrypt, salt: string)
    requires Get(body, "username").Str? && !IsTrimmedString(Get(body, "username"))
    ensures Register(docs, body, io, b, salt)
      == Outcome(Json(422, RejectionBody(WhitespaceRejection("username"))), docs)
  {
    assert FindNotTrimmed(body, TrimmedFields) == Untrimmed("username");
  }

  /** A trimmed username followed by a password with outer whitespace is refused with
      location "password", and nothing is stored. */
  lemma UntrimmedPasswordRejected(docs: seq<UserDoc>, body: map<string, Value>, io: StoreIo, b: Bcrypt, salt: string)
    requires IsTrimmedString(Get(body, "username"))
    requires Get(body, "password").Str? && !IsTrimmedString(Get(body, "password"))
    ensures Register(docs, body, io, b, salt)
      == Outcome(Json(422, RejectionBody(WhitespaceRejection("password"))), docs)
  {
    assert FindNotTrimmed(body, TrimmedFields[1..]) == Untrimmed("password");
  }

  /** A whitespace rejection is exactly the four-field ValidationError object with
      status 422, and the field it names is one of the two scanned fields. */
  lemma WhitespaceRejectionShape(docs: seq<UserDoc>, body: map<string, Value>, io: StoreIo, b: Bcrypt, salt: string)
    requires FindNotTrimmed(body, TrimmedFields).Untrimmed?
    ensures var field := FindNotTrimmed(body, TrimmedFields).field;
      && field in {"username", "password"}
      && Register(docs, body, io, b, salt).response == Json(422, Obj(map[
           "code" := Num(422), "reason" := Str("ValidationError"),
           "message" := Str("Username or Password cannot have whitespace"),
           "location" := Str(field)]))
  {
  }

  /** A missing or non-string username, or a trimmed username with a missing or
      non-string password, makes the scan throw: a 500 from Express, nothing stored. */
  lemma NonStringFieldThrows(docs: seq<UserDoc>, body: map<string, Value>, io: StoreIo, b: Bcrypt, salt: string)
    requires !Get(body, "username").Str?
          || (IsTrimmedString(Get(body, "username")) && !Get(body, "password").Str?)
    ensures Register(docs, body, io, b, salt) == Outcome(Thrown("TypeError"), docs)
    ensures Status(Register(docs, body, io, b, salt).response) == 500
  {
    if Get(body, "username").Str? {
      assert FindNotTrimmed(body, TrimmedFields[1..]) == NotAString("password");
    }
  }

  /** Both fields trimmed and the username already stored: 422 "Username already in use"
      at location "username", and nothing is stored. */
  lemma TakenUsernameRejected(docs: seq<UserDoc>, body: map<string, Value>, io: StoreIo, b: Bcrypt, salt: string)
    requires IsTrimmedString(Get(body, "username")) && IsTrimmedString(Get(body, "password"))
    requires io.countAnswers && CountByUsername(docs, Get(body, "username")) > 0
    ensures Register(docs, body, io, b, salt) == Outcome(Json(422, Obj(map[
      "code" := Num(422), "reason" := Str("ValidationError"),
      "message" := Str("Username already in use"), "location" := Str("username")])), docs)
  {
    assert FindNotTrimmed(body, TrimmedFields) == AllTrimmed;
  }

  /** Registration succeeds exactly when both fields are trimmed strings, the username
      is not empty and it is not already stored. */
  lemma {:induction false} RegisterSucceedsIff(docs: seq<UserDoc>, body: map<string, Value>, io: StoreIo, b: Bcrypt, salt: string)
    requires Sound(b)
    ensures Status(Register(docs, body, io, b, salt).response) == 201
      <==> && IsTrimmedString(Get(body, "username"))
           && IsTrimmedString(Get(body, "password"))
           && Get(body, "username") != Str("")
           && CountByUsername(docs, Get(body, "username")) == 0
           && io.countAnswers && io.createAnswers
  {
    var scan := FindNotTrimmed(body, TrimmedFields);
    if IsTrimmedString(Get(body, "username")) && IsTrimmedString(Get(body, "password")) {
      assert scan == AllTrimmed;
      var password := Get(body, "password").s;
      assert |HashPassword(b, password, salt)| == HashLength;
    } else {
      assert !scan.AllTrimmed?;
    }
  }

  /** A refused request leaves the collection exactly as it was. */
  lemma RefusalLeavesStoreUnchanged(docs: seq<UserDoc>, body: map<string, Value>, io: StoreIo, b: Bcrypt, salt: string)
    ensures Status(Register(docs, body, io, b, salt).response) != 201 ==> Register(docs, body, io, b, salt).docs == docs
  {
  }

  /** On success the collection gains exactly one document, appended after the others:
      the given username with the bcrypt hash of the password (cost 10) in place of the
      password, and the response is 201 with the username as its only key. */
  lemma SuccessStoresHash(docs: seq<UserDoc>, body: map<string, Value>, io: StoreIo, b: Bcrypt, salt: string)
    requires Status(Register(docs, body, io, b, salt).response) == 201
    ensures Get(body, "username").Str? && Get(body, "password").Str?
    ensures var username, password := Get(body, "username").s, Get(body, "password").s;
      && Register(docs, body, io, b, salt).docs
         == docs + [UserDoc(Str(username), Str(b.hash(password, 10, salt)))]
      && Register(docs, body, io, b, salt).response == Json(201, Obj(map["username" := Str(username)]))
  {
    var scan := FindNotTrimmed(body, TrimmedFields);
    assert scan == AllTrimmed;
  }

  /** The document a successful registration stores, and the insert that stores it. */
  lemma SuccessInserts(docs: seq<UserDoc>, body: map<string, Value>, io: StoreIo, b: Bcrypt, salt: string)
    returns (doc: UserDoc)
    requires Status(Register(docs, body, io, b, salt).response) == 201
    ensures doc.username == Get(body, "username") && Get(body, "password").Str?
    ensures doc.password == Str(HashPassword(b, Get(body, "password").s, salt))
    ensures Insert(docs, doc, io.createAnswers).Success?
    ensures Register(docs, body, io, b, salt).docs == Insert(docs, doc, io.createAnswers).value
  {
    var scan := FindNotTrimmed(body, TrimmedFields);
    assert scan == AllTrimmed;
    doc := UserDoc(Get(body, "username"), Str(HashPassword(b, Get(body, "password").s, salt)));
  }

  /** Registration keeps the collection consistent: every document valid, no username
      twice. */
  lemma RegisterKeepsConsistent(docs: seq<UserDoc>, body: map<string, Value>, io: StoreIo, b: Bcrypt, salt: string)
    requires Consistent(docs)
    ensures Consistent(Register(docs, body, io, b, salt).docs)
  {
    var out := Register(docs, body, io, b, salt);
    if Status(out.response) == 201 {
      var doc := SuccessInserts(docs, body, io, b, salt);
      InsertKeepsConsistent(docs, doc, io.createAnswers);
    } else {
      RefusalLeavesStoreUnchanged(docs, body, io, b, salt);
    }
  }

  /** After a successful registration, `User.findOne({username})` finds the new document
      and `validatePassword(password)` on it is true. */
  lemma RegisteredPasswordValidates(docs: seq<UserDoc>, body: map<string, Value>, io: StoreIo, b: Bcrypt, salt: string)
    requires Sound(b) && Consistent(docs)
    requires Status(Register(docs, body, io, b, salt).response) == 201
    ensures var found := FindOne(Register(docs, body, io, b, salt).docs, Get(body, "username"));
      && found.Some?
      && ValidatePassword(b, found.value, Get(body, "password").s) == Some(true)
  {
    var doc := SuccessInserts(docs, body, io, b, salt);
    InsertKeepsConsistent(docs, doc, io.createAnswers);
  }

  /** An empty username passes the whitespace scan and the count, then fails the
      `required` validator of `User.create`; that error has no `reason`, so the client
      gets the generic 500 and nothing is stored. When the database fails the count
      instead, the answer is the same. */
  lemma EmptyUsernameIsServerError(docs: seq<UserDoc>, body: map<string, Value>, io: StoreIo, b: Bcrypt, salt: string)
    requires Consistent(docs)
    requires Get(body, "username") == Str("") && IsTrimmedString(Get(body, "password"))
    ensures Register(docs, body, io, b, salt) == Outcome(Json(500, InternalErrorBody), docs)
  {
    assert IsTrimmedString(Str(""));
    assert FindNotTrimmed(body, TrimmedFields) == AllTrimmed;
    assert CountByUsername(docs, Str("")) == 0;
  }

  /** With both fields trimmed, a database that fails the count, or fails the write of
      a valid new user, makes the `.catch` answer the generic 500; nothing is stored. */
  lemma StoreFailureIsServerError(docs: seq<UserDoc>, body: map<string, Value>, io: StoreIo, b: Bcrypt, salt: string)
    requires Sound(b)
    requires IsTrimmedString(Get(body, "username")) && IsTrimmedString(Get(body, "password"))
    requires || !io.countAnswers
             || (&& Get(body, "username") != Str("")
                 && CountByUsername(docs, Get(body, "username")) == 0
                 && !io.createAnswers)
    ensures Register(docs, body, io, b, salt) == Outcome(Json(500, InternalErrorBody), docs)
  {
    assert FindNotTrimmed(body, TrimmedFields) == AllTrimmed;
    assert |HashPassword(b, Get(body, "password").s, salt)| == HashLength;
  }
}
