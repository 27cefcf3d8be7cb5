/**
 * The mongoose models of models.js: the `event`, `pet` and `user` documents, their
 * `serialize` projections, the schema constraints (`required`, `unique`), the bcrypt
 * helpers of the user schema, and the `user` collection that registration reads and
 * appends to.
 */
module Models {
  import opened Js
  import opened Wrappers

  /** Mongoose's `required` check on a String path: the value is a non-empty string. */
  predicate Present(v: Value) {
    v.Str? && v.s != ""
  }

  /** What a failed mongoose operation rejects with. None of these carries a `reason`
      property. */
  datatype StoreError =
    | ValidationFailed(paths: set<string>)  // mongoose ValidationError, one entry per failing path
    | DuplicateKey(username: Value)         // E11000 from the unique index on `username`
    | Unavailable                           // the database did not answer: connection lost, timeout, failed write

  // ---------------------------------------------------------------- events

  /** A stored event: its `_id` and the paths of eventSchema. */
  datatype EventDoc = EventDoc(oid: nat, user: Value, name: Value, info: Value, date: Value, frequency: Value)

  const EventKeys: set<string> := {"id", "user", "name", "info", "date", "frequency"}

  /** eventSchema.methods.serialize: the public view of an event. */
  function SerializeEvent(e: EventDoc): (r: map<string, Value>)
    ensures r.Keys == EventKeys
    ensures r["id"] == ObjectId(e.oid)
    ensures r["user"] == e.user && r["name"] == e.name && r["info"] == e.info
    ensures r["date"] == e.date && r["frequency"] == e.frequency
  {
    map["id" := ObjectId(e.oid), "user" := e.user, "name" := e.name,
        "info" := e.info, "date" := e.date, "frequency" := e.frequency]
  }

  /** The projection copies every field to its own key and loses none: two events
      serialize alike exactly when they are the same event. */
  lemma SerializeEventLossless(e1: EventDoc, e2: EventDoc)
    ensures SerializeEvent(e1) == SerializeEvent(e2) <==> e1 == e2
  {
    if SerializeEvent(e1) == SerializeEvent(e2) {
      var m1, m2 := SerializeEvent(e1), SerializeEvent(e2);
      assert m1["user"] == m2["user"] && m1["name"] == m2["name"] && m1["info"] == m2["info"];
      assert m1["date"] == m2["date"] && m1["frequency"] == m2["frequency"];
    }
  }

  /** Document validation against eventSchema: `name` is required. */
  function ValidateEvent(e: EventDoc): (r: Result<EventDoc, StoreError>)
    ensures r.Success? <==> Present(e.name)
    ensures r.Success? ==> r.value == e
    ensures r.Failure? ==> r.error == ValidationFailed({"name"})
  {
    if Present(e.name) then Success(e) else Failure(ValidationFailed({"name"}))
  }

  // ------------------------------------------------------------------ pets

  /** A stored pet: its `_id` and the paths of petSchema. */
  datatype PetDoc = PetDoc(oid: nat, user: Value, name: Value, info: Value, vet: Value, pic: Value)

  const PetKeys: set<string> := {"id", "user", "name", "info", "vet", "pic"}

  /** petSchema.methods.serialize: the public view of a pet. */
  function SerializePet(p: PetDoc): (r: map<string, Value>)
    ensures r.Keys == PetKeys
    ensures r["id"] == ObjectId(p.oid)
    ensures r["user"] == p.user && r["name"] == p.name && r["info"] == p.info
    ensures r["vet"] == p.vet && r["pic"] == p.pic
  {
    map["id" := ObjectId(p.oid), "user" := p.user, "name" := p.name,
        "info" := p.info, "vet" := p.vet, "pic" := p.pic]
  }

  /** The projection copies every field to its own key and loses none. */
  lemma SerializePetLossless(p1: PetDoc, p2: PetDoc)
    ensures SerializePet(p1) == SerializePet(p2) <==> p1 == p2
  {
    if SerializePet(p1) == SerializePet(p2) {
      var m1, m2 := SerializePet(p1), SerializePet(p2);
      assert m1["user"] == m2["user"] && m1["name"] == m2["name"] && m1["info"] == m2["info"];
      assert m1["vet"] == m2["vet"] && m1["pic"] == m2["pic"];
    }
  }

  /** Document validation against petSchema: `name` is required. */
  function ValidatePet(p: PetDoc): (r: Result<PetDoc, StoreError>)
    ensures r.Success? <==> Present(p.name)
    ensures r.Success? ==> r.value == p
    ensures r.Failure? ==> r.error == ValidationFailed({"name"})
  {
    if Present(p.name) then Success(p) else Failure(ValidationFailed({"name"}))
  }

  // ----------------------------------------------------------------- users

  /** A user document: the paths of userSchema. `password` holds the bcrypt hash. */
  datatype UserDoc = UserDoc(username: Value, password: Value)

  /** userSchema.methods.serialize: the public view of a user, `username || ''`. */
  function SerializeUser(u: UserDoc): (r: map<string, Value>)
    ensures r.Keys == {"username"}
    ensures Truthy(u.username) ==> r["username"] == u.username
    ensures !Truthy(u.username) ==> r["username"] == Str("")
  {
    map["username" := Or(u.username, Str(""))]
  }

  /** The public view does not depend on the stored password at all. */
  lemma SerializeUserHidesPassword(u: UserDoc, other: Value)
    ensures SerializeUser(u) == SerializeUser(u.(password := other))
  {
  }

  /** Document validation against userSchema: `username` and `password` are required;
      the error names every path that is missing. */
  function ValidateUser(u: UserDoc): (r: Result<UserDoc, StoreError>)
    ensures r.Success? <==> Present(u.username) && Present(u.password)
    ensures r.Success? ==> r.value == u
    ensures r.Failure? ==> r.error.ValidationFailed? && r.error.paths != {}
    ensures r.Failure? ==> ("username" in r.error.paths <==> !Present(u.username))
    ensures r.Failure? ==> ("password" in r.error.paths <==> !Present(u.password))
    ensures r.Failure? ==> r.error.paths <= {"username", "password"}
  {
    var missing := (if Present(u.username) then {} else {"username"})
                 + (if Present(u.password) then {} else {"password"});
    if missing == {} then Success(u) else Failure(ValidationFailed(missing))
  }

  // ---------------------------------------------------------------- bcrypt

  /** The cost factor userSchema.statics.hashPassword passes to bcrypt. */
  const SaltRounds: nat := 10

  /** The length of every bcrypt hash string ("$2a$" cost "$" salt digest). */
  const HashLength: nat := 60

  /** The two bcrypt calls the models make, as values: `hash(password, rounds, salt)`
      with the random salt drawn by the caller, and `compare(password, hash)`. */
  datatype Bcrypt = Bcrypt(hash: (string, nat, string) -> string, compare: (string, string) -> bool)

  /** What the models rely on from bcrypt: a hash always verifies against the password
      it was made from, and it is a 60-character string. */
  ghost predicate Sound(b: Bcrypt) {
    forall password, rounds, salt ::
      && b.compare(password, b.hash(password, rounds, salt))
      && |b.hash(password, rounds, salt)| == HashLength
  }

  /** userSchema.statics.hashPassword: a salted hash with cost factor 10. */
  function HashPassword(b: Bcrypt, password: string, salt: string): (h: string)
    ensures Sound(b) ==> b.compare(password, h) && |h| == HashLength
  {
    b.hash(password, SaltRounds, salt)
  }

  /** userSchema.methods.validatePassword: compares a candidate against the stored hash.
      bcrypt rejects (None) when the stored password is not a string. */
  function ValidatePassword(b: Bcrypt, u: UserDoc, password: string): (r: Option<bool>)
    ensures r.Some? <==> u.password.Str?
    ensures r.Some? ==> r.value == b.compare(password, u.password.s)
  {
    if u.password.Str? then Some(b.compare(password, u.password.s)) else None
  }

  /** A password validates against a document holding its own hash, whatever the salt. */
  lemma HashThenValidate(b: Bcrypt, username: Value, password: string, salt: string)
    requires Sound(b)
    ensures ValidatePassword(b, UserDoc(username, Str(HashPassword(b, password, salt))), password) == Some(true)
  {
  }

  // ------------------------------------------------------ user collection

  /** `User.find({username}).countDocuments()`: how many documents have that username. */
  function CountByUsername(docs: seq<UserDoc>, username: Value): (n: nat)
    ensures n <= |docs|
    ensures n > 0 <==> exists i :: 0 <= i < |docs| && docs[i].username == username
  {
    if docs == [] then 0
    else (if docs[0].username == username then 1 else 0) + CountByUsername(docs[1..], username)
  }

  /** `User.findOne({username})`: the first document with that username, if any. */
  function FindOne(docs: seq<UserDoc>, username: Value): (r: Option<UserDoc>)
    ensures r.Some? <==> CountByUsername(docs, username) > 0
    ensures r.Some? ==> r.value in docs && r.value.username == username
  {
    if docs == [] then None
    else if docs[0].username == username then Some(docs[0])
    else FindOne(docs[1..], username)
  }

  /** The collection invariant userSchema imposes: every document passes validation and
      no two documents share a username (the unique index). */
  ghost predicate Consistent(docs: seq<UserDoc>) {
    && (forall i :: 0 <= i < |docs| ==> ValidateUser(docs[i]).Success?)
    && (forall i, j :: 0 <= i < j < |docs| ==> docs[i].username != docs[j].username)
  }

  /** In a consistent collection a username query matches at most one document. */
  lemma {:induction false} CountAtMostOne(docs: seq<UserDoc>, username: Value)
    requires Consistent(docs)
    ensures CountByUsername(docs, username) <= 1
  {
    if docs != [] {
      assert Consistent(docs[1..]);
      CountAtMostOne(docs[1..], username);
    }
  }

  /** `User.create(doc)`: document validation first, then the write, which fails when the
      database does not answer (`answers` is false) and otherwise meets the unique index. */
  function Insert(docs: seq<UserDoc>, doc: UserDoc, answers: bool): (r: Result<seq<UserDoc>, StoreError>)
    ensures r.Success? <==> ValidateUser(doc).Success? && answers && CountByUsername(docs, doc.username) == 0
    ensures r.Success? ==> r.value == docs + [doc]
    ensures ValidateUser(doc).Failure? ==> r == Failure(ValidateUser(doc).error)
    ensures ValidateUser(doc).Success? && !answers ==> r == Failure(Unavailable)
    ensures r.Failure? && ValidateUser(doc).Success? && answers ==> r.error == DuplicateKey(doc.username)
  {
    match ValidateUser(doc)
    case Failure(e) => Failure(e)
    case Success(_) =>
      if !answers then Failure(Unavailable)
      else if CountByUsername(docs, doc.username) > 0 then Failure(DuplicateKey(doc.username))
      else Success(docs + [doc])
  }

  /** A successful insert keeps the collection consistent and adds exactly the one
      document; the document then is what a username query finds. */
  lemma InsertKeepsConsistent(docs: seq<UserDoc>, doc: UserDoc, answers: bool)
    requires Consistent(docs)
    requires Insert(docs, doc, answers).Success?
    ensures Consistent(Insert(docs, doc, answers).value)
    ensures CountByUsername(Insert(docs, doc, answers).value, doc.username) == 1
    ensures FindOne(Insert(docs, doc, answers).value, doc.username) == Some(doc)
  {
    var docs' := docs + [doc];
    forall i | 0 <= i < |docs|
      ensures docs'[i].username != doc.username
    {
      assert docs'[i] == docs[i];
    }
    FindOneAfterAppend(docs, doc);
    CountAfterAppend(docs, doc);
  }

  lemma {:induction false} FindOneAfterAppend(docs: seq<UserDoc>, doc: UserDoc)
    requires CountByUsername(docs, doc.username) == 0
    ensures FindOne(docs + [doc], doc.username) == Some(doc)
  {
    if docs != [] {
      assert (docs + [doc])[1..] == docs[1..] + [doc];
      assert docs[0].username != doc.username;
      FindOneAfterAppend(docs[1..], doc);
    }
  }

  lemma {:induction false} CountAfterAppend(docs: seq<UserDoc>, doc: UserDoc)
    requires CountByUsername(docs, doc.username) == 0
    ensures CountByUsername(docs + [doc], doc.username) == 1
  {
    if docs != [] {
      assert (docs + [doc])[1..] == docs[1..] + [doc];
      assert docs[0].username != doc.username;
      CountAfterAppend(docs[1..], doc);
    }
  }

  /** The `user` collection, which registration queries and then appends to. */
  class UserCollection {
    var docs: seq<UserDoc>

    ghost predicate Valid()
      reads this
    {
      Consistent(docs)
    }

    constructor ()
      ensures Valid() && docs == []
    {
      docs := [];
    }

    /** `User.create(doc)`, with `answers` telling whether the database answers the write:
        on success the collection gains exactly `doc` and resolves to it; on failure
        nothing changes. */
    method Create(doc: UserDoc, answers: bool) returns (r: Result<UserDoc, StoreError>)
      requires Valid()
      modifies this
      ensures Valid()
      ensures r.Success? <==> Insert(old(docs), doc, answers).Success?
      ensures r.Success? ==> r.value == doc && docs == old(docs) + [doc]
      ensures r.Failure? ==> r.error == Insert(old(docs), doc, answers).error && docs == old(docs)
    {
      match Insert(docs, doc, answers)
      case Failure(e) =>
        r := Failure(e);
      case Success(docs') =>
        InsertKeepsConsistent(docs, doc, answers);
        docs := docs';
        r := Success(doc);
    }
  }
}
