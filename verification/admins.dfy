/** The credential store shared by the two auth route modules: the `admin`
    table, the public projection of its rows, lookup by email, the request and
    response shapes, the collaborator calls that can fail, and the fixed
    response messages. */
module Admins {
  import opened JsValues
  import opened Tables
  import opened Hashing
  import opened NatSets

  /** A row of the `admin` table; its id is the key it is stored under. */
  datatype Admin = Admin(name: string, email: string, passwordHash: string, age: Option<int>)

  type AdminTable = Table<Admin>

  /** The `user` object of an auth response: a row without its password hash. */
  datatype PublicAdmin = PublicAdmin(id: nat, name: string, email: string, age: Option<int>)

  /** `toPublicAdmin`: every field a client may see, and nothing else. */
  function ToPublicAdmin(id: nat, a: Admin): (p: PublicAdmin)
    ensures p.id == id && p.name == a.name && p.email == a.email && p.age == a.age
  {
    PublicAdmin(id, a.name, a.email, a.age)
  }

  /** The projection does not depend on the stored hash at all. */
  lemma ProjectionHidesHash(id: nat, a: Admin, hash: string)
    ensures ToPublicAdmin(id, a.(passwordHash := hash)) == ToPublicAdmin(id, a)
  {
  }

  // Request bodies. A field is absent (`None`) or a string.
  datatype RegisterRequest = RegisterRequest(
    name: Option<string>, email: Option<string>, password: Option<string>, age: Option<int>)

  datatype LoginRequest = LoginRequest(email: Option<string>, password: Option<string>)

  // Response bodies: `{ message, user?, error? }`.
  datatype Body = Body(message: string, user: Option<PublicAdmin>, error: Option<string>)

  datatype Response = Response(status: nat, body: Body)

  /** A register request's response and the table it leaves behind. */
  datatype Outcome = Outcome(response: Response, table: AdminTable)

  /** A response carrying only a message. */
  function Notice(status: nat, message: string): Response {
    Response(status, Body(message, None, None))
  }

  const MinPasswordLength: nat := 6

  const MsgFieldsRequired := "name, email, password are required"
  const MsgPasswordTooShort := "password must be at least 6 characters"
  const MsgEmailTaken := "Email already registered"
  const MsgRegistered := "Registered successfully"
  const MsgCredentialsRequired := "email and password are required"
  const MsgInvalidCredentials := "Invalid email or password"
  const MsgLoggedIn := "Login successful"
  const MsgServerError := "Server error"

  /** The collaborator calls a handler makes, in the order it makes them. */
  datatype Call = FindEmail | HashPassword | InsertAdmin | ReadBack | FindUser | ComparePassword

  /** An error raised by the database or the hashing library. */
  datatype Failure = Failure(code: string, message: string)

  /** The MySQL error code of a unique-key violation. */
  const DupEntry := "ER_DUP_ENTRY"

  /** The calls that fail for this request, each with the error it raises;
      the first of them the handler reaches decides the response. */
  type Failures = map<Call, Failure>


  /** The presence check shared by both register handlers. */
  predicate FieldsGiven(req: RegisterRequest) {
    Truthy(req.name) && Truthy(req.email) && Truthy(req.password)
  }

  /** Both validation checks of register pass. */
  predicate Acceptable(req: RegisterRequest) {
    FieldsGiven(req) && |req.password.value| >= MinPasswordLength
  }

  predicate CredentialsGiven(req: LoginRequest) {
    Truthy(req.email) && Truthy(req.password)
  }

  /** The row a register request inserts: `age ?? null` keeps a given age, 0 included. */
  function NewAdmin(req: RegisterRequest, h: Hasher): (a: Admin)
    requires FieldsGiven(req)
    ensures a.name == req.name.value && a.email == req.email.value && a.age == req.age
    ensures a.passwordHash == h.hash(req.password.value)
  {
    Admin(req.name.value, req.email.value, h.hash(req.password.value), req.age)
  }

  /** `SELECT ... FROM admin WHERE email = ?`: the ids of the matching rows. */
  function EmailIds(t: AdminTable, email: string): (ids: set<nat>)
    ensures forall id :: id in ids <==> id in t.rows && t.rows[id].email == email
  {
    set id | id in t.rows && t.rows[id].email == email
  }

  /** At most one row per email. */
  predicate EmailsUnique(t: AdminTable) {
    forall i, j :: i in t.rows && j in t.rows && t.rows[i].email == t.rows[j].email ==> i == j
  }

  /** The store invariant: AUTO_INCREMENT ids and unique emails. */
  predicate Consistent(t: AdminTable) {
    Valid(t) && EmailsUnique(t)
  }

  /** `rows[0]` of the lookup by email: the matching row with the lowest id
      (the query has no ORDER BY; in a consistent table there is at most one). */
  function FindByEmail(t: AdminTable, email: string): (r: Option<nat>)
    ensures r.None? <==> EmailIds(t, email) == {}
    ensures r.Some? ==> r.value in t.rows && t.rows[r.value].email == email
    ensures r.Some? ==> forall id :: id in EmailIds(t, email) ==> r.value <= id
    ensures r.Some? && EmailsUnique(t) ==> EmailIds(t, email) == {r.value}
  {
    var ids := EmailIds(t, email);
    if ids == {} then None else Some(Least(ids))
  }

  /** The inserted row reads back as the request's public fields, and with a
      sound hasher its stored hash accepts the request's password. */
  lemma NewAdminReadsBack(req: RegisterRequest, h: Hasher, id: nat)
    requires FieldsGiven(req)
    ensures ToPublicAdmin(id, NewAdmin(req, h)) == PublicAdmin(id, req.name.value, req.email.value, req.age)
    ensures Sound(h) ==> h.compare(req.password.value, NewAdmin(req, h).passwordHash)
  {
  }

  /** A freshly created `admin` table satisfies the store invariant, and no
      email is registered in it. */
  lemma EmptyIsConsistent(email: string)
    ensures Consistent(Empty<Admin>()) && EmailIds(Empty<Admin>(), email) == {}
  {
  }
}
