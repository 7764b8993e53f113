/** The callback-style duplicate of the credential handlers, mounted at
    `/api/users`. The decision procedure is the same as in `AuthRoutes`; the
    differences are in the failure paths: each callback answers its own
    error, a duplicate-key error counts as a conflict only when the INSERT
    raises it, and every 500 body carries the error's text. */
module UserRoutes {
  import opened JsValues
  import opened Tables
  import opened Hashing
  import opened Admins
  import AuthRoutes

  /** The 500 answer of a failed callback: `{ message: "Server error", error: err.message }`. */
  function ServerError(f: Failure): (r: Response)
    ensures r.status == 500 && r.body.message == MsgServerError && r.body.error == Some(f.message)
    ensures r.body.user == None
  {
    Response(500, Body(MsgServerError, None, Some(f.message)))
  }

  /** POST /api/users/register. */
  function Register(t: AdminTable, req: RegisterRequest, h: Hasher, fails: Failures): (o: Outcome)
    ensures o.response.status in {201, 400, 409, 500}
    // the same validation order, without touching the store
    ensures o.response.status == 400 <==> !Acceptable(req)
    ensures !FieldsGiven(req) ==> o == Outcome(Notice(400, MsgFieldsRequired), t)
    ensures FieldsGiven(req) && !Acceptable(req) ==> o == Outcome(Notice(400, MsgPasswordTooShort), t)
    // an existing email is refused before hashing or inserting
    ensures Acceptable(req) && FindEmail !in fails && EmailIds(t, req.email.value) != {} ==>
              o == Outcome(Notice(409, MsgEmailTaken), t)
    // a failing INSERT changes nothing; a duplicate key there is a conflict, anything else a 500
    ensures Acceptable(req) && EmailIds(t, req.email.value) == {}
            && NoneFail(fails, {FindEmail, HashPassword}) && InsertAdmin in fails ==>
              o == Outcome(if fails[InsertAdmin].code == DupEntry then Notice(409, MsgEmailTaken)
                           else ServerError(fails[InsertAdmin]), t)
    // only the INSERT's duplicate-key error reads as a conflict; every other failing call is a 500
    ensures Acceptable(req) && FindEmail in fails ==> o == Outcome(ServerError(fails[FindEmail]), t)
    ensures Acceptable(req) && FindEmail !in fails && EmailIds(t, req.email.value) == {}
            && HashPassword in fails ==>
              o == Outcome(ServerError(fails[HashPassword]), t)
    // reading the new row back fails after the INSERT has happened
    ensures Acceptable(req) && EmailIds(t, req.email.value) == {}
            && NoneFail(fails, {FindEmail, HashPassword, InsertAdmin}) && ReadBack in fails ==>
              o == Outcome(ServerError(fails[ReadBack]), Insert(t, NewAdmin(req, h)).0)
    // the table changes exactly when the INSERT runs and succeeds
    ensures o.table != t <==>
              Acceptable(req) && EmailIds(t, req.email.value) == {}
              && NoneFail(fails, {FindEmail, HashPassword, InsertAdmin})
    ensures o.response.status == 201 <==>
              Acceptable(req) && EmailIds(t, req.email.value) == {}
              && NoneFail(fails, {FindEmail, HashPassword, InsertAdmin, ReadBack})
    // success: the row read back by the new id, projected
    ensures o.response.status == 201 ==>
              o.table == Insert(t, NewAdmin(req, h)).0
              && o.response.body == Body(MsgRegistered,
                                         Some(ToPublicAdmin(t.nextId, o.table.rows[t.nextId])),
                                         None)
              && o.response.body.user.value == PublicAdmin(t.nextId, req.name.value, req.email.value, req.age)
    ensures o.table == t || (Acceptable(req) && o.table == Insert(t, NewAdmin(req, h)).0)
    ensures o.response.status == 409 ==> o.response.body == Body(MsgEmailTaken, None, None)
    // every 500 names "Server error" and the text of the error that caused it
    ensures o.response.status == 500 ==>
              o.response.body.message == MsgServerError && o.response.body.user == None
              && exists c :: c in fails && o.response.body.error == Some(fails[c].message)
  {
    if !FieldsGiven(req) then Outcome(Notice(400, MsgFieldsRequired), t)
    else if |req.password.value| < MinPasswordLength then Outcome(Notice(400, MsgPasswordTooShort), t)
    else if FindEmail in fails then Outcome(ServerError(fails[FindEmail]), t)
    else if EmailIds(t, req.email.value) != {} then Outcome(Notice(409, MsgEmailTaken), t)
    else if HashPassword in fails then Outcome(ServerError(fails[HashPassword]), t)
    else if InsertAdmin in fails then
      if fails[InsertAdmin].code == DupEntry then Outcome(Notice(409, MsgEmailTaken), t)
      else Outcome(ServerError(fails[InsertAdmin]), t)
    else
      var (t', id) := Insert(t, NewAdmin(req, h));
      // the row is inserted even when reading it back fails
      if ReadBack in fails then Outcome(ServerError(fails[ReadBack]), t')
      else Outcome(Response(201, Body(MsgRegistered, Some(ToPublicAdmin(id, t'.rows[id])), None)), t')
  }

  /** POST /api/users/login. The table is only read. */
  function Login(t: AdminTable, req: LoginRequest, h: Hasher, fails: Failures): (r: Response)
    ensures r.status in {200, 400, 401, 500}
    ensures r.status == 400 <==> !CredentialsGiven(req)
    ensures r.status == 400 ==> r.body == Body(MsgCredentialsRequired, None, None)
    ensures r.status == 401 ==> r.body == Body(MsgInvalidCredentials, None, None)
    ensures CredentialsGiven(req) && FindUser !in fails && EmailIds(t, req.email.value) == {} ==>
              r.status == 401
    ensures r.status == 500 ==>
              (FindUser in fails && r == ServerError(fails[FindUser]))
              || (ComparePassword in fails && r == ServerError(fails[ComparePassword]))
    ensures CredentialsGiven(req) && FindUser in fails ==> r == ServerError(fails[FindUser])
    ensures CredentialsGiven(req) && FindUser !in fails && FindByEmail(t, req.email.value).Some?
            && ComparePassword in fails ==>
              r == ServerError(fails[ComparePassword])
    ensures r.status == 200 <==>
              CredentialsGiven(req) && NoneFail(fails, {FindUser, ComparePassword})
              && FindByEmail(t, req.email.value).Some?
              && h.compare(req.password.value, t.rows[FindByEmail(t, req.email.value).value].passwordHash)
    ensures r.status == 200 ==>
              var id := FindByEmail(t, req.email.value).value;
              r.body == Body(MsgLoggedIn, Some(ToPublicAdmin(id, t.rows[id])), None)
  {
    if !Truthy(req.email) || !Truthy(req.password) then Notice(400, MsgCredentialsRequired)
    else if FindUser in fails then ServerError(fails[FindUser])
    else match FindByEmail(t, req.email.value)
      case None => Notice(401, MsgInvalidCredentials)
      case Some(id) =>
        if ComparePassword in fails then ServerError(fails[ComparePassword])
        else if !h.compare(req.password.value, t.rows[id].passwordHash) then Notice(401, MsgInvalidCredentials)
        else Response(200, Body(MsgLoggedIn, Some(ToPublicAdmin(id, t.rows[id])), None))
  }

  /** Registration through this module keeps the store consistent too. */
  lemma RegisterPreservesConsistency(t: AdminTable, req: RegisterRequest, h: Hasher, fails: Failures)
    requires Consistent(t)
    ensures Consistent(Register(t, req, h, fails).table)
  {
    var o := Register(t, req, h, fails);
    if o.table != t {
      var (t', id) := Insert(t, NewAdmin(req, h));
      var email := req.email.value;
      assert EmailIds(t, email) == {};
      assert forall j :: j in t.rows ==> t'.rows[j] == t.rows[j] && t.rows[j].email != email;
    }
  }

  /** The two route modules differ only where a collaborator fails: on every
      request whose calls all succeed they give the same answer and leave the
      same table. */
  lemma AgreesWithAuthRoutes(t: AdminTable, reg: RegisterRequest, login: LoginRequest, h: Hasher)
    ensures Register(t, reg, h, map[]) == AuthRoutes.Register(t, reg, h, map[])
    ensures Login(t, login, h, map[]) == AuthRoutes.Login(t, login, h, map[])
  {
  }

  /** The two modules also agree whenever every failing call raises a
      duplicate-key error at the INSERT or a non-duplicate error elsewhere,
      up to the error text attached to a 500. */
  lemma StatusAgreesWithAuthRoutes(t: AdminTable, reg: RegisterRequest, h: Hasher, fails: Failures)
    requires forall c :: c in fails && c != InsertAdmin ==> fails[c].code != DupEntry
    ensures Register(t, reg, h, fails).table == AuthRoutes.Register(t, reg, h, fails).table
    ensures Register(t, reg, h, fails).response.status == AuthRoutes.Register(t, reg, h, fails).response.status
    ensures Register(t, reg, h, fails).response.body.message
            == AuthRoutes.Register(t, reg, h, fails).response.body.message
  {
  }

  // The handlers as wired in this repository. `backend/db.js` exports a mysql2
  // promise pool, whose `query(sql, values)` returns a promise and ignores a
  // third, callback argument. Validation still answers, but once a request
  // passes it the first query's callback never runs: the client gets no
  // response and nothing is written.

  /** What a client of a handler sees: a response, if one is ever sent, and the table afterwards. */
  datatype Wired = Wired(response: Option<Response>, table: AdminTable)

  /** POST /api/users/register against the promise pool. */
  function RegisterAsWired(t: AdminTable, req: RegisterRequest, h: Hasher, fails: Failures): (w: Wired)
    ensures w.table == t
    ensures w.response.None? <==> Acceptable(req)
    ensures w.response.Some? ==>
              w.response.value == Register(t, req, h, fails).response && w.response.value.status == 400
  {
    if Acceptable(req) then Wired(None, t) else Wired(Some(Register(t, req, h, fails).response), t)
  }

  /** POST /api/users/login against the promise pool. */
  function LoginAsWired(t: AdminTable, req: LoginRequest, h: Hasher, fails: Failures): (r: Option<Response>)
    ensures r.None? <==> CredentialsGiven(req)
    ensures r.Some? ==> r.value == Login(t, req, h, fails) && r.value.status == 400
  {
    if CredentialsGiven(req) then None else Some(Login(t, req, h, fails))
  }

  /** On an empty table a well-formed registration, and then the login that
      should follow it, get no answer at all, where the handlers with their
      callbacks invoked answer 201 and 200. */
  lemma AsWiredNeverAnswers(h: Hasher)
    requires Sound(h)
    ensures var t := Empty<Admin>();
            var reg := RegisterRequest(Some("Ann"), Some("ann@example.com"), Some("secret1"), None);
            var login := LoginRequest(Some("ann@example.com"), Some("secret1"));
            RegisterAsWired(t, reg, h, map[]).response == None
            && Register(t, reg, h, map[]).response.status == 201
            && LoginAsWired(Register(t, reg, h, map[]).table, login, h, map[]) == None
            && Login(Register(t, reg, h, map[]).table, login, h, map[]).status == 200
  {
    var t := Empty<Admin>();
    var reg := RegisterRequest(Some("Ann"), Some("ann@example.com"), Some("secret1"), None);
    var login := LoginRequest(Some("ann@example.com"), Some("secret1"));
    EmptyIsConsistent("ann@example.com");
    var t' := Register(t, reg, h, map[]).table;
    assert t' == Insert(t, NewAdmin(reg, h)).0;
    assert EmailIds(t', "ann@example.com") == {1};
    assert FindByEmail(t', "ann@example.com") == Some(1);
  }
}
