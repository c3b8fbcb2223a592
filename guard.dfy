/** The middleware of backend/src/middleware/auth.js: `authenticateToken`
    (bearer token to active user and active clinic, and the request's
    clinic scope), `requireRole`, and the `auditLog` hook that appends an
    audit entry after a 2xx response and swallows a failed append. */
module Guard {
  import opened Base
  import opened Text
  import opened Records
  import opened Http
  import opened Db

  const MSG_TOKEN_MISSING := "Token de autentificare lipsă"
  const MSG_USER_INVALID := "Utilizator invalid sau inactiv"
  const MSG_CLINIC_INACTIVE := "Clinica este inactivă"
  const MSG_TOKEN_INVALID := "Token invalid"
  const MSG_TOKEN_EXPIRED := "Token expirat"
  const MSG_AUTH_ERROR := "Eroare de autentificare"
  const MSG_AUTH_REQUIRED := "Autentificare necesară"
  const MSG_NO_PERMISSION := "Nu aveți permisiunile necesare pentru această acțiune"

  /** What jwt.verify does with a token: it returns the claims, or throws
      an error whose name the guard inspects (NotBeforeError is "other"). */
  datatype TokenCheck =
    | Decoded(claims: Claims)
    | JsonWebTokenError
    | TokenExpiredError
    | OtherTokenError

  /** `authHeader && authHeader.split(' ')[1]`, with "" and undefined as "no token". */
  function BearerToken(header: Option<string>): (t: Option<string>)
    ensures t.Some? ==> t.value != "" && ' ' !in t.value
    ensures !Present(header) ==> t.None?
    ensures Present(header) ==>
              (t.Some? <==> |SplitOn(header.value, ' ')| >= 2 && SplitOn(header.value, ' ')[1] != "")
    ensures t.Some? ==> t.value == SplitOn(header.value, ' ')[1]
  {
    if !Present(header) then None
    else
      var parts := SplitOn(header.value, ' ');
      if |parts| < 2 || parts[1] == "" then None else Some(parts[1])
  }

  /** "Bearer TOKEN" yields TOKEN; the scheme word itself is not checked,
      and anything after a further space is ignored. */
  lemma BearerTokenOf(scheme: string, token: string, rest: string)
    requires ' ' !in scheme && ' ' !in token && token != ""
    requires rest == [] || rest[0] == ' '
    ensures BearerToken(Some(scheme + " " + token + rest)) == Some(token)
  {
    var h := scheme + " " + token + rest;
    assert h == scheme + [' '] + (token + rest);
    SplitWord(scheme, ' ', token + rest);
    SplitFirst(token, ' ', rest);
  }

  /** A header of one word, or one whose second word is empty ("Bearer",
      "Bearer ", "Bearer  TOKEN"), carries no token. */
  lemma BearerTokenAbsent(scheme: string, rest: string)
    requires ' ' !in scheme
    requires rest == [] || rest[0] == ' '
    ensures BearerToken(Some(scheme)).None?
    ensures BearerToken(Some(scheme + " " + rest)).None?
  {
    SplitNone(scheme, ' ');
    assert scheme + " " + rest == scheme + [' '] + rest;
    SplitWord(scheme, ' ', rest);
    SplitFirst([], ' ', rest);
    assert [] + rest == rest;
  }

  /** The authenticated request: `req.user` (with its clinic) and `req.clinicId`. */
  datatype Context = Context(user: User, clinic: Clinic, clinicId: Id)

  datatype AuthOutcome = Pass(ctx: Context) | Reject(response: Response)

  /** `authenticateToken`. The users and clinics tables are read; nothing is written. */
  function Authenticate(users: seq<User>, clinics: seq<Clinic>, header: Option<string>, verify: string -> TokenCheck): (r: AuthOutcome)
    ensures BearerToken(header).None? ==> r == Reject(Fail(UNAUTHORIZED, MSG_TOKEN_MISSING))
    ensures BearerToken(header).Some? && verify(BearerToken(header).value).JsonWebTokenError? ==>
              r == Reject(Fail(FORBIDDEN, MSG_TOKEN_INVALID))
    ensures BearerToken(header).Some? && verify(BearerToken(header).value).TokenExpiredError? ==>
              r == Reject(Fail(FORBIDDEN, MSG_TOKEN_EXPIRED))
    ensures BearerToken(header).Some? && verify(BearerToken(header).value).OtherTokenError? ==>
              r == Reject(Fail(INTERNAL, MSG_AUTH_ERROR))
    ensures r.Pass? ==>
              && BearerToken(header).Some?
              && verify(BearerToken(header).value).Decoded?
              && r.ctx.user in users
              && r.ctx.user.id == verify(BearerToken(header).value).claims.userId
              && r.ctx.user.isActive
              && r.ctx.clinic in clinics && r.ctx.clinic.id == r.ctx.user.clinicId && r.ctx.clinic.isActive
              && r.ctx.clinicId == r.ctx.user.clinicId
    ensures r.Reject? ==> r.response.status in {UNAUTHORIZED, FORBIDDEN, INTERNAL}
  {
    match BearerToken(header)
    case None => Reject(Fail(UNAUTHORIZED, MSG_TOKEN_MISSING))
    case Some(token) =>
      match verify(token)
      case JsonWebTokenError => Reject(Fail(FORBIDDEN, MSG_TOKEN_INVALID))
      case TokenExpiredError => Reject(Fail(FORBIDDEN, MSG_TOKEN_EXPIRED))
      case OtherTokenError => Reject(Fail(INTERNAL, MSG_AUTH_ERROR))
      case Decoded(claims) =>
        match FindUser(users, claims.userId)
        case None => Reject(Fail(UNAUTHORIZED, MSG_USER_INVALID))
        case Some(i) =>
          var user := users[i];
          if !user.isActive then Reject(Fail(UNAUTHORIZED, MSG_USER_INVALID))
          else match FindClinic(clinics, user.clinicId)
            // user.clinic is null: reading its isActive throws a TypeError
            case None => Reject(Fail(INTERNAL, MSG_AUTH_ERROR))
            case Some(clinic) =>
              if !clinic.isActive then Reject(Fail(FORBIDDEN, MSG_CLINIC_INACTIVE))
              else Pass(Context(user, clinic, user.clinicId))
  }

  /** The user test comes before the clinic test: a missing or inactive user
      is refused with 401 whatever the state of the clinics. */
  lemma UserCheckedBeforeClinic(users: seq<User>, clinics: seq<Clinic>, clinics': seq<Clinic>,
                                header: Option<string>, verify: string -> TokenCheck, claims: Claims)
    requires BearerToken(header).Some? && verify(BearerToken(header).value) == Decoded(claims)
    requires forall j :: 0 <= j < |users| && users[j].id == claims.userId ==> !users[j].isActive
    ensures Authenticate(users, clinics, header, verify) == Reject(Fail(UNAUTHORIZED, MSG_USER_INVALID))
    ensures Authenticate(users, clinics, header, verify) == Authenticate(users, clinics', header, verify)
  {
  }

  /** The request's clinic scope comes from the user record: two tokens for the
      same user with different clinic claims authenticate identically. */
  lemma ClinicClaimIgnored(users: seq<User>, clinics: seq<Clinic>, header: Option<string>,
                           verify: string -> TokenCheck, verify': string -> TokenCheck)
    requires BearerToken(header).Some?
    requires verify(BearerToken(header).value).Decoded? && verify'(BearerToken(header).value).Decoded?
    requires verify(BearerToken(header).value).claims.userId == verify'(BearerToken(header).value).claims.userId
    ensures Authenticate(users, clinics, header, verify) == Authenticate(users, clinics, header, verify')
  {
  }

  /** An inactive clinic shuts out every one of its active users with 403. */
  lemma InactiveClinicLocksOut(users: seq<User>, clinics: seq<Clinic>, header: Option<string>,
                               verify: string -> TokenCheck, k: nat)
    requires UserIdsUnique(users) && ClinicIdsUnique(clinics)
    requires BearerToken(header).Some? && verify(BearerToken(header).value).Decoded?
    requires k < |users| && users[k].id == verify(BearerToken(header).value).claims.userId && users[k].isActive
    requires exists j :: 0 <= j < |clinics| && clinics[j].id == users[k].clinicId && !clinics[j].isActive
    ensures Authenticate(users, clinics, header, verify) == Reject(Fail(FORBIDDEN, MSG_CLINIC_INACTIVE))
  {
    var i := FindUser(users, users[k].id);
    assert i == Some(k);
    var j :| 0 <= j < |clinics| && clinics[j].id == users[k].clinicId && !clinics[j].isActive;
    assert FindClinic(clinics, users[k].clinicId) == Some(clinics[j]);
  }

  /** `requireRole(...roles)`. */
  function RequireRole(user: Option<User>, roles: seq<Role>): (r: Option<Response>)
    ensures r.None? <==> user.Some? && user.value.role in roles
    ensures user.None? ==> r == Some(Fail(UNAUTHORIZED, MSG_AUTH_REQUIRED))
    ensures user.Some? && user.value.role !in roles ==> r == Some(Fail(FORBIDDEN, MSG_NO_PERMISSION))
  {
    if user.None? then Some(Fail(UNAUTHORIZED, MSG_AUTH_REQUIRED))
    else if user.value.role !in roles then Some(Fail(FORBIDDEN, MSG_NO_PERMISSION))
    else None
  }

  /** The route parameters the audit entry reads. */
  datatype RouteParams = RouteParams(id: Option<string>, entityType: Option<string>)

  /** `param || 'UNKNOWN'`. */
  function OrUnknown(param: Option<string>): (r: string)
    ensures Present(param) ==> r == param.value
    ensures !Present(param) ==> r == "UNKNOWN"
  {
    if Present(param) then param.value else "UNKNOWN"
  }

  /** The entry `auditLog(action)` writes for a request. */
  function AuditEntryFor(action: Action, clinicId: Option<Id>, userId: Option<Id>,
                         params: RouteParams, request: RequestMeta, now: Time): AuditEntry
  {
    AuditEntry(clinicId, userId, action, OrUnknown(params.entityType), OrUnknown(params.id), request, now)
  }

  /** The entry of a request that passed `authenticateToken`, for a route whose only parameter is `:id`. */
  function AuditFor(action: Action, ctx: Context, id: Option<Id>, env: Env): AuditEntry {
    AuditEntryFor(action, Some(ctx.clinicId), Some(ctx.user.id), RouteParams(id, None), env.request, env.now)
  }

  /** The audit table after a response with `status` was sent: the entry is
      appended on a 2xx status when the write succeeds; otherwise nothing
      changes. Earlier entries are never altered. */
  function AfterResponse(log: seq<AuditEntry>, status: nat, writes: bool, entry: AuditEntry): (r: seq<AuditEntry>)
    ensures |r| == |log| || |r| == |log| + 1
    ensures r[..|log|] == log
    ensures |r| == |log| + 1 <==> IsSuccess(status) && writes
    ensures |r| == |log| + 1 ==> r[|log|] == entry
  {
    if IsSuccess(status) && writes then log + [entry] else log
  }

  /** The post-response hook. A failed write is swallowed: the caller's
      response is untouched and the table is unchanged. */
  method RecordAudit(db: Store, status: nat, entry: AuditEntry, writes: bool)
    modifies db`auditLog
    ensures db.auditLog == AfterResponse(old(db.auditLog), status, writes, entry)
  {
    if IsSuccess(status) && writes {
      db.auditLog := db.auditLog + [entry];
    }
  }
}
