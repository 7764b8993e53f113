/** The promise-style credential handlers mounted at `/api/auth`: each request
    is a pure transition from the admin table (and the collaborators' failures)
    to a response and the table afterwards. Each handler catches every
    collaborator error in one `catch` block. In `/register` that block answers
    409 for a duplicate-key error raised by any of its calls and a bare 500
    "Server error" otherwise; in `/login` it answers 500 for every error. */
module AuthRoutes {
  import opened JsValues
  import opened Tables
  import opened Hashing
  import opened Admins

  /** The `catch` block of `/register`: a duplicate key reads as a taken
      email, anything else as a server error that does not reveal its text. */
  function RegisterCaught(f: Failure, t: AdminTable): (o: Outcome)
    ensures o.table == t
    ensures o.response.status in {409, 500}
    ensures o.response.status == 409 <==> f.code == DupEntry
    ensures o.response.status == 409 ==> o.response.body == Body(MsgEmailTaken, None, None)
    ensures o.response.status == 500 ==> o.response.body == Body(MsgServerError, None, None)
  {
    if f.code == DupEntry then Outcome(Notice(409, MsgEmailTaken), t)
    else Outcome(Notice(500, MsgServerError), t)
  }

  /** POST /api/auth/register. */
  function Register(t: AdminTable, req: RegisterRequest, h: Hasher, fails: Failures): (o: Outcome)
    ensures o.response.status in {201, 400, 409, 500}
    // validation, in order, without touching the store
    ensures o.response.status == 400 <==> !Acceptable(req)
    ensures !FieldsGiven(req) ==> o == Outcome(Notice(400, MsgFieldsRequired), t)
    ensures FieldsGiven(req) && !Acceptable(req) ==> o == Outcome(Notice(400, MsgPasswordTooShort), t)
    // an existing email is a conflict, whatever the later calls would have done
    ensures Acceptable(req) && FindEmail !in fails && EmailIds(t, req.email.value) != {} ==>
              o == Outcome(Notice(409, MsgEmailTaken), t)
    // each failing call, in the order the handler reaches them, goes to the catch block
    ensures Acceptable(req) && FindEmail in fails ==> o == RegisterCaught(fails[FindEmail], t)
    ensures Acceptable(req) && FindEmail !in fails && EmailIds(t, req.email.value) == {}
            && HashPassword in fails ==>
              o == RegisterCaught(fails[HashPassword], t)
    ensures Acceptable(req) && EmailIds(t, req.email.value) == {}
            && NoneFail(fails, {FindEmail, HashPassword}) && InsertAdmin in fails ==>
              o == RegisterCaught(fails[InsertAdmin], t)
    // reading the new row back fails after the INSERT has happened
    ensures Acceptable(req) && EmailIds(t, req.email.value) == {}
            && NoneFail(fails, {FindEmail, HashPassword, InsertAdmin}) && ReadBack in fails ==>
              o == RegisterCaught(fails[ReadBack], Insert(t, NewAdmin(req, h)).0)
    // the table changes exactly when the INSERT runs and succeeds
    ensures o.table != t <==>
              Acceptable(req) && EmailIds(t, req.email.value) == {}
              && NoneFail(fails, {FindEmail, HashPassword, InsertAdmin})
    // success
    ensures o.response.status == 201 <==>
              Acceptable(req) && EmailIds(t, req.email.value) == {}
              && NoneFail(fails, {FindEmail, HashPassword, InsertAdmin, ReadBack})
    ensures o.response.status == 201 ==>
              o.table == Insert(t, NewAdmin(req, h)).0
              && o.response.body == Body(MsgRegistered,
                                         Some(PublicAdmin(t.nextId, req.name.value, req.email.value, req.age)),
                                         None)
    // at most the one new row is ever added
    ensures o.table == t || (Acceptable(req) && o.table == Insert(t, NewAdmin(req, h)).0)
    // error bodies
    ensures o.response.status == 409 ==> o.response.body == Body(MsgEmailTaken, None, None)
    ensures o.response.status == 500 ==> o.response.body == Body(MsgServerError, None, None)
    ensures o.response.status == 500 ==> exists c :: c in fails && fails[c].code != DupEntry
  {
    if !FieldsGiven(req) then Outcome(Notice(400, MsgFieldsRequired), t)
    else if |req.password.value| < MinPasswordLength then Outcome(Notice(400, MsgPasswordTooShort), t)
    else if FindEmail in fails then RegisterCaught(fails[FindEmail], t)
    else if EmailIds(t, req.email.value) != {} then Outcome(Notice(409, MsgEmailTaken), t)
    else if HashPassword in fails then RegisterCaught(fails[HashPassword], t)
    else if InsertAdmin in fails then RegisterCaught(fails[InsertAdmin], t)
    else
      var (t', id) := Insert(t, NewAdmin(req, h));
      // the row is inserted even when reading it back fails
      if ReadBack in fails then RegisterCaught(fails[ReadBack], t')
      else Outcome(Response(201, Body(MsgRegistered, Some(ToPublicAdmin(id, t'.rows[id])), None)), t')
  }

  /** POST /api/auth/login. The table is only read. */
  function Login(t: AdminTable, req: LoginRequest, h: Hasher, fails: Failures): (r: Response)
    ensures r.status in {200, 400, 401, 500}
    ensures r.status == 400 <==> !CredentialsGiven(req)
    ensures r.status == 400 ==> r.body == Body(MsgCredentialsRequired, None, None)
    // one message for an unknown email and for a wrong password
    ensures r.status == 401 ==> r.body == Body(MsgInvalidCredentials, None, None)
    ensures CredentialsGiven(req) && FindUser !in fails && EmailIds(t, req.email.value) == {} ==>
              r.status == 401
    ensures r.status == 500 ==> r.body == Body(MsgServerError, None, None)
    ensures r.status == 500 ==> FindUser in fails || ComparePassword in fails
    // every error goes to the catch block, whatever its code
    ensures CredentialsGiven(req) && FindUser in fails ==> r == Notice(500, MsgServerError)
    ensures CredentialsGiven(req) && FindUser !in fails && FindByEmail(t, req.email.value).Some?
            && ComparePassword in fails ==>
              r == Notice(500, MsgServerError)
    ensures r.status == 200 <==>
              CredentialsGiven(req) && NoneFail(fails, {FindUser, ComparePassword})
              && FindByEmail(t, req.email.value).Some?
              && h.compare(req.password.value, t.rows[FindByEmail(t, req.email.value).value].passwordHash)
    ensures r.status == 200 ==>
              var id := FindByEmail(t, req.email.value).value;
              r.body == Body(MsgLoggedIn, Some(ToPublicAdmin(id, t.rows[id])), None)
  {
    if !Truthy(req.email) || !Truthy(req.password) then Notice(400, MsgCredentialsRequired)
    else if FindUser in fails then Notice(500, MsgServerError)
    else match FindByEmail(t, req.email.value)
      case None => Notice(401, MsgInvalidCredentials)
      case Some(id) =>
        if ComparePassword in fails then Notice(500, MsgServerError)
        else if !h.compare(req.password.value, t.rows[id].passwordHash) then Notice(401, MsgInvalidCredentials)
        else Response(200, Body(MsgLoggedIn, Some(ToPublicAdmin(id, t.rows[id])), None))
  }

  /** Registration keeps the store consistent: ids stay AUTO_INCREMENT ids and
      no email is stored twice. */
  lemma RegisterPreservesConsistency(t: AdminTable, req: RegisterRequest, h: Hasher, fails: Failures)
    requires Consistent(t)
    ensures Consistent(Register(t, req, h, fails).table)
  {
    var o := Register(t, req, h, fails);
    if o.table != t {
      var (t', id) := Insert(t, NewAdmin(req, h));
      var email := req.email.value;
      assert EmailIds(t, email) == {};
      assert forall j :: j in t.rows ==> t'.rows[j] == t.rows[j] && t.rows[j].email != email;
    }
  }

  /** With a sound hasher, logging in with the credentials just registered
      succeeds and returns the user the registration returned. */
  lemma LoginAfterRegister(t: AdminTable, req: RegisterRequest, h: Hasher, fails: Failures, loginFails: Failures)
    requires Sound(h)
    requires Register(t, req, h, fails).response.status == 201
    requires NoneFail(loginFails, {FindUser, ComparePassword})
    ensures Login(Register(t, req, h, fails).table, LoginRequest(req.email, req.password), h, loginFails)
            == Response(200, Body(MsgLoggedIn, Register(t, req, h, fails).response.body.user, None))
  {
    var (t', id) := Insert(t, NewAdmin(req, h));
    var email := req.email.value;
    assert id in EmailIds(t', email);
    assert forall j :: j in t.rows ==> t.rows[j].email != email;
    assert EmailIds(t', email) == {id};
    assert FindByEmail(t', email) == Some(id);
    assert h.compare(req.password.value, h.hash(req.password.value));
  }

  /** An unknown email and a wrong password are answered identically. */
  lemma UnknownEmailLooksLikeWrongPassword(
    t1: AdminTable, t2: AdminTable, req: LoginRequest, h: Hasher, fails: Failures)
    requires CredentialsGiven(req) && FindUser !in fails
    requires EmailIds(t1, req.email.value) == {}
    requires FindByEmail(t2, req.email.value).Some?
    requires !h.compare(req.password.value, t2.rows[FindByEmail(t2, req.email.value).value].passwordHash)
    requires ComparePassword !in fails
    ensures Login(t1, req, h, fails) == Login(t2, req, h, fails) == Notice(401, MsgInvalidCredentials)
  {
  }

  /** With a collision-free hasher, a password other than the registered one is refused. */
  lemma OtherPasswordRefused(
    t: AdminTable, req: RegisterRequest, h: Hasher, fails: Failures, other: string, loginFails: Failures)
    requires Exact(h)
    requires Register(t, req, h, fails).response.status == 201
    requires other != "" && other != req.password.value
    requires NoneFail(loginFails, {FindUser, ComparePassword})
    ensures Login(Register(t, req, h, fails).table, LoginRequest(req.email, Some(other)), h, loginFails)
            == Notice(401, MsgInvalidCredentials)
  {
    var (t', id) := Insert(t, NewAdmin(req, h));
    var email := req.email.value;
    assert forall j :: j in t.rows ==> t.rows[j].email != email;
    assert EmailIds(t', email) == {id};
    assert FindByEmail(t', email) == Some(id);
    assert !h.compare(other, h.hash(req.password.value));
  }

  /** Login answers do not depend on the stored hash beyond whether the
      password matches it: changing the matched row's hash without changing
      that verdict changes nothing in the response. */
  lemma LoginRevealsOnlyTheVerdict(
    t: AdminTable, req: LoginRequest, h: Hasher, fails: Failures, hash: string)
    requires CredentialsGiven(req) && FindByEmail(t, req.email.value).Some?
    requires var id := FindByEmail(t, req.email.value).value;
             h.compare(req.password.value, hash) == h.compare(req.password.value, t.rows[id].passwordHash)
    ensures var id := FindByEmail(t, req.email.value).value;
            Login(t.(rows := t.rows[id := t.rows[id].(passwordHash := hash)]), req, h, fails)
            == Login(t, req, h, fails)
  {
    var email := req.email.value;
    var id := FindByEmail(t, email).value;
    var t2 := t.(rows := t.rows[id := t.rows[id].(passwordHash := hash)]);
    assert EmailIds(t2, email) == EmailIds(t, email);
    assert FindByEmail(t2, email) == Some(id);
  }
}
