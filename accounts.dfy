/** The account routes, backend/src/routes/auth.js: POST /auth/login,
    GET /auth/me and POST /auth/change-password. Password hashing and
    comparison (bcrypt) are the parameters `compare` and `newHash`; the
    session token is the pair of claims it signs. */
module Accounts {
  import opened Base
  import opened Text
  import opened Records
  import opened Http
  import opened Db
  import opened Guard

  const MSG_LOGIN_FIELDS := "Email și parolă sunt obligatorii"
  const MSG_BAD_CREDENTIALS := "Credențiale invalide"
  const MSG_ACCOUNT_INACTIVE := "Contul este inactiv"
  const MSG_LOGIN_ERROR := "Eroare la autentificare"
  const MSG_PASSWORDS_REQUIRED := "Ambele parole sunt obligatorii"
  const MSG_PASSWORD_TOO_SHORT := "Parola nouă trebuie să aibă cel puțin 8 caractere"
  const MSG_WRONG_PASSWORD := "Parola curentă este incorectă"
  const MSG_PASSWORD_CHANGED := "Parola a fost schimbată cu succes"
  const MSG_CHANGE_ERROR := "Eroare la schimbarea parolei"
  const MIN_PASSWORD_LENGTH: nat := 8

  /** Body of POST /auth/login. */
  datatype Credentials = Credentials(email: Option<string>, password: Option<string>)

  /** The login checks' verdict: a refusal, or the account (its position in
      the users table) and its clinic. */
  datatype LoginOutcome = Refused(response: Response) | Granted(index: nat, user: User, clinic: Clinic)

  /** The user and clinic as the login and /me responses describe them. */
  function Summary(u: User, c: Clinic): (s: UserSummary)
    ensures s.id == u.id && s.email == u.email && s.role == u.role
    ensures s.clinicId == c.id && s.clinicName == c.name
  {
    UserSummary(u.id, u.email, u.firstName, u.lastName, u.role, c.id, c.name)
  }

  /** The checks of POST /auth/login, in the handler's order: both fields,
      the account by lower-cased email, the password, the account's and then
      the clinic's active flags. */
  function CheckLogin(users: seq<User>, clinics: seq<Clinic>, b: Credentials,
                      compare: (string, string) -> bool): (r: LoginOutcome)
    ensures !Present(b.email) || !Present(b.password) ==> r == Refused(Fail(BAD_REQUEST, MSG_LOGIN_FIELDS))
    ensures r == Refused(Fail(UNAUTHORIZED, MSG_BAD_CREDENTIALS)) <==>
              && Present(b.email) && Present(b.password)
              && (|| FindUserByEmail(users, Lower(b.email.value)).None?
                  || !compare(b.password.value, users[FindUserByEmail(users, Lower(b.email.value)).value].passwordHash))
    ensures r.Granted? ==>
              && Present(b.email) && Present(b.password)
              && FindUserByEmail(users, Lower(b.email.value)) == Some(r.index)
              && r.index < |users| && r.user == users[r.index]
              && r.user.email == Lower(b.email.value)
              && compare(b.password.value, r.user.passwordHash)
              && r.user.isActive
              && r.clinic in clinics && r.clinic.id == r.user.clinicId && r.clinic.isActive
    ensures Present(b.email) && Present(b.password) && FindUserByEmail(users, Lower(b.email.value)).Some? ==>
              var i := FindUserByEmail(users, Lower(b.email.value)).value;
              var c := FindClinic(clinics, users[i].clinicId);
              && (compare(b.password.value, users[i].passwordHash) && !users[i].isActive ==>
                    r == Refused(Fail(FORBIDDEN, MSG_ACCOUNT_INACTIVE)))
              && (compare(b.password.value, users[i].passwordHash) && users[i].isActive && c.None? ==>
                    r == Refused(Fail(INTERNAL, MSG_LOGIN_ERROR)))
              && (compare(b.password.value, users[i].passwordHash) && users[i].isActive && c.Some? && !c.value.isActive ==>
                    r == Refused(Fail(FORBIDDEN, MSG_CLINIC_INACTIVE)))
              && (compare(b.password.value, users[i].passwordHash) && users[i].isActive && c.Some? && c.value.isActive ==>
                    r == Granted(i, users[i], c.value))
    ensures r.Refused? ==> r.response.status in {BAD_REQUEST, UNAUTHORIZED, FORBIDDEN, INTERNAL}
  {
    if !Present(b.email) || !Present(b.password) then Refused(Fail(BAD_REQUEST, MSG_LOGIN_FIELDS))
    else match FindUserByEmail(users, Lower(b.email.value))
      case None => Refused(Fail(UNAUTHORIZED, MSG_BAD_CREDENTIALS))
      case Some(i) =>
        var user := users[i];
        if !compare(b.password.value, user.passwordHash) then Refused(Fail(UNAUTHORIZED, MSG_BAD_CREDENTIALS))
        else if !user.isActive then Refused(Fail(FORBIDDEN, MSG_ACCOUNT_INACTIVE))
        else match FindClinic(clinics, user.clinicId)
          // user.clinic is null: reading its isActive throws
          case None => Refused(Fail(INTERNAL, MSG_LOGIN_ERROR))
          case Some(clinic) =>
            if !clinic.isActive then Refused(Fail(FORBIDDEN, MSG_CLINIC_INACTIVE))
            else Granted(i, user, clinic)
  }

  /** The right password for an active account of a deactivated clinic is refused with 403. */
  lemma InactiveClinicRefusesLogin(users: seq<User>, clinics: seq<Clinic>, b: Credentials,
                                   compare: (string, string) -> bool, j: nat)
    requires ClinicIdsUnique(clinics)
    requires Present(b.email) && Present(b.password)
    requires FindUserByEmail(users, Lower(b.email.value)).Some?
    requires var u := users[FindUserByEmail(users, Lower(b.email.value)).value];
             compare(b.password.value, u.passwordHash) && u.isActive
             && j < |clinics| && clinics[j].id == u.clinicId && !clinics[j].isActive
    ensures CheckLogin(users, clinics, b, compare) == Refused(Fail(FORBIDDEN, MSG_CLINIC_INACTIVE))
  {
    var u := users[FindUserByEmail(users, Lower(b.email.value)).value];
    var c := FindClinic(clinics, u.clinicId);
    var k :| 0 <= k < |clinics| && clinics[k] == c.value;
    assert clinics[k].id == clinics[j].id;
  }

  /** The email is lower-cased before the lookup: any capitalisation of it logs in the same way. */
  lemma EmailCaseIgnored(users: seq<User>, clinics: seq<Clinic>, email: string, password: Option<string>,
                         compare: (string, string) -> bool)
    ensures CheckLogin(users, clinics, Credentials(Some(email), password), compare)
         == CheckLogin(users, clinics, Credentials(Some(Lower(email)), password), compare)
  {
    LowerIdempotent(email);
    assert |Lower(email)| == |email|;
  }

  /** The account's state is disclosed only to someone who knows its
      password: with a wrong password an inactive account, or one of an
      inactive clinic, is refused exactly like an unknown email. */
  lemma StatusHiddenWithoutPassword(users: seq<User>, users': seq<User>, clinics: seq<Clinic>, b: Credentials,
                                    compare: (string, string) -> bool)
    requires Present(b.email) && Present(b.password)
    requires FindUserByEmail(users, Lower(b.email.value)).Some?
    requires !compare(b.password.value, users[FindUserByEmail(users, Lower(b.email.value)).value].passwordHash)
    requires FindUserByEmail(users', Lower(b.email.value)).None?
    ensures CheckLogin(users, clinics, b, compare) == CheckLogin(users', clinics, b, compare)
  {
  }

  /** The account after a successful login. */
  function LoggedIn(u: User, now: Time): (v: User)
    ensures v.lastLoginAt == Some(now)
    ensures v.(lastLoginAt := u.lastLoginAt) == u
  {
    u.(lastLoginAt := Some(now))
  }

  /** The audit entry of a login: the route runs without `authenticateToken`,
      so the entry carries neither a clinic nor a user. */
  function LoginAudit(env: Env): AuditEntry {
    AuditEntryFor(Action.Login, None, None, RouteParams(None, None), env.request, env.now)
  }

  /** POST /auth/login. */
  method Login(db: Store, b: Credentials, compare: (string, string) -> bool, env: Env) returns (resp: Response)
    requires db.Valid()
    modifies db
    ensures db.Valid()
    ensures var r := CheckLogin(old(db.users), db.clinics, b, compare);
            && (r.Refused? ==> resp == r.response && db.users == old(db.users))
            && (r.Granted? ==>
                  && db.users == old(db.users)[r.index := LoggedIn(r.user, env.now)]
                  && resp == Response(OK, LoginBody(Claims(r.user.id, r.user.clinicId), Summary(r.user, r.clinic))))
    ensures db.clinics == old(db.clinics) && db.patients == old(db.patients) && db.evaluations == old(db.evaluations)
    ensures db.auditLog == AfterResponse(old(db.auditLog), resp.status, env.auditWrites, LoginAudit(env))
  {
    var r := CheckLogin(db.users, db.clinics, b, compare);
    if r.Refused? {
      resp := r.response;
    } else {
      var users := db.users[r.index := LoggedIn(r.user, env.now)];
      assert forall j :: 0 <= j < |users| ==> users[j].id == db.users[j].id && users[j].email == db.users[j].email;
      db.users := users;
      resp := Response(OK, LoginBody(Claims(r.user.id, r.user.clinicId), Summary(r.user, r.clinic)));
    }
    RecordAudit(db, resp.status, LoginAudit(env), env.auditWrites);
  }

  /** GET /auth/me: the authenticated user and clinic. */
  function MeResponse(ctx: Context): (r: Response)
    ensures r.status == OK && r.body.UserBody?
    ensures r.body.user.id == ctx.user.id && r.body.user.clinicId == ctx.clinic.id
  {
    Response(OK, UserBody(Summary(ctx.user, ctx.clinic)))
  }

  /** The token a login issues opens the account it was issued for: presented
      as a bearer token after the login, it authenticates that user in that
      clinic, and /auth/me then describes the user as the login did. */
  lemma {:induction false} LoginTokenAuthenticates(users: seq<User>, clinics: seq<Clinic>, b: Credentials,
                                                   compare: (string, string) -> bool, now: Time,
                                                   header: Option<string>, verify: string -> TokenCheck)
    requires UserIdsUnique(users) && ClinicIdsUnique(clinics)
    requires CheckLogin(users, clinics, b, compare).Granted?
    requires var g := CheckLogin(users, clinics, b, compare);
             BearerToken(header).Some? && verify(BearerToken(header).value) == Decoded(Claims(g.user.id, g.user.clinicId))
    ensures var g := CheckLogin(users, clinics, b, compare);
            var a := Authenticate(users[g.index := LoggedIn(g.user, now)], clinics, header, verify);
            && a.Pass?
            && a.ctx.user == LoggedIn(g.user, now) && a.ctx.clinic == g.clinic && a.ctx.clinicId == g.user.clinicId
            && MeResponse(a.ctx).body.user == Summary(g.user, g.clinic)
  {
    var g := CheckLogin(users, clinics, b, compare);
    var users' := users[g.index := LoggedIn(g.user, now)];
    assert users'[g.index].id == g.user.id;
    assert FindUser(users', g.user.id) == Some(g.index) by {
      var k := FindUser(users', g.user.id);
      assert k.Some?;
      assert users'[k.value].id == users[k.value].id;
    }
    var c := FindClinic(clinics, g.user.clinicId);
    assert c.Some?;
    assert c.value == g.clinic by {
      var i :| 0 <= i < |clinics| && clinics[i] == c.value;
      var j :| 0 <= j < |clinics| && clinics[j] == g.clinic;
      assert clinics[i].id == clinics[j].id;
    }
  }

  /** Body of POST /auth/change-password. */
  datatype PasswordChange = PasswordChange(currentPassword: Option<string>, newPassword: Option<string>)

  /** The checks of POST /auth/change-password, in the handler's order;
      None when the password is changed. */
  function CheckPasswordChange(users: seq<User>, userId: Id, b: PasswordChange,
                               compare: (string, string) -> bool): (r: Option<Response>)
    ensures !Present(b.currentPassword) || !Present(b.newPassword) ==> r == Some(Fail(BAD_REQUEST, MSG_PASSWORDS_REQUIRED))
    ensures Present(b.currentPassword) && Present(b.newPassword) && |b.newPassword.value| < MIN_PASSWORD_LENGTH ==>
              r == Some(Fail(BAD_REQUEST, MSG_PASSWORD_TOO_SHORT))
    ensures r.None? <==>
              && Present(b.currentPassword) && Present(b.newPassword)
              && |b.newPassword.value| >= MIN_PASSWORD_LENGTH
              && FindUser(users, userId).Some?
              && compare(b.currentPassword.value, users[FindUser(users, userId).value].passwordHash)
    ensures r == Some(Fail(UNAUTHORIZED, MSG_WRONG_PASSWORD)) <==>
              && Present(b.currentPassword) && Present(b.newPassword)
              && |b.newPassword.value| >= MIN_PASSWORD_LENGTH
              && FindUser(users, userId).Some?
              && !compare(b.currentPassword.value, users[FindUser(users, userId).value].passwordHash)
  {
    if !Present(b.currentPassword) || !Present(b.newPassword) then Some(Fail(BAD_REQUEST, MSG_PASSWORDS_REQUIRED))
    else if |b.newPassword.value| < MIN_PASSWORD_LENGTH then Some(Fail(BAD_REQUEST, MSG_PASSWORD_TOO_SHORT))
    else match FindUser(users, userId)
      // findUnique returned null: reading its passwordHash throws
      case None => Some(Fail(INTERNAL, MSG_CHANGE_ERROR))
      case Some(i) =>
        if !compare(b.currentPassword.value, users[i].passwordHash) then Some(Fail(UNAUTHORIZED, MSG_WRONG_PASSWORD))
        else None
  }

  /** POST /auth/change-password; `newHash` is bcrypt's hash of the new password. */
  method ChangePassword(db: Store, ctx: Context, b: PasswordChange, compare: (string, string) -> bool, newHash: string)
    returns (resp: Response)
    requires db.Valid()
    modifies db`users
    ensures db.Valid()
    ensures var r := CheckPasswordChange(old(db.users), ctx.user.id, b, compare);
            && (r.Some? ==> resp == r.value && db.users == old(db.users))
            && (r.None? ==>
                  var i := FindUser(old(db.users), ctx.user.id).value;
                  && db.users == old(db.users)[i := old(db.users)[i].(passwordHash := newHash)]
                  && resp == Response(OK, MessageBody(MSG_PASSWORD_CHANGED)))
  {
    var r := CheckPasswordChange(db.users, ctx.user.id, b, compare);
    if r.Some? {
      resp := r.value;
    } else {
      var i := FindUser(db.users, ctx.user.id).value;
      var users := db.users[i := db.users[i].(passwordHash := newHash)];
      assert forall j :: 0 <= j < |users| ==> users[j].id == db.users[j].id && users[j].email == db.users[j].email;
      db.users := users;
      resp := Response(OK, MessageBody(MSG_PASSWORD_CHANGED));
    }
  }

  /** After a change the new password logs in and the old one no longer
      does, provided bcrypt matches the new password against its own hash
      and not the old password. */
  lemma {:induction false} PasswordChangeTakesEffect(users: seq<User>, clinics: seq<Clinic>, i: nat, newHash: string,
                                                     current: string, next: string, compare: (string, string) -> bool)
    requires EmailsUnique(users)
    requires i < |users| && users[i].email != ""
    requires forall k :: 0 <= k < |users[i].email| ==> !IsUpper(users[i].email[k])
    requires current != "" && next != ""
    requires compare(next, newHash) && !compare(current, newHash)
    ensures var users' := users[i := users[i].(passwordHash := newHash)];
            && CheckLogin(users', clinics, Credentials(Some(users[i].email), Some(current)), compare)
               == Refused(Fail(UNAUTHORIZED, MSG_BAD_CREDENTIALS))
            && CheckLogin(users', clinics, Credentials(Some(users[i].email), Some(next)), compare)
               != Refused(Fail(UNAUTHORIZED, MSG_BAD_CREDENTIALS))
  {
    var users' := users[i := users[i].(passwordHash := newHash)];
    var email := users[i].email;
    assert users'[i].email == email;
    assert FindUserByEmail(users', email) == Some(i) by {
      var k := FindUserByEmail(users', email);
      assert k.Some?;
      assert users'[k.value].email == users[k.value].email;
    }
    assert FindUserByEmail(users, email) == Some(i) by {
      var k := FindUserByEmail(users, email);
      assert k.Some?;
    }
  }
}
