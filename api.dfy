/** The routes as the server mounts them: /api/auth, /api/patients,
    /api/evaluations, /api/search and /api/clinics. Every route but
    /auth/login runs `authenticateToken` first (a `router.use` for the
    patient, evaluation, search and clinic routers, a per-route guard for
    /auth/me and /auth/change-password), and the audit hook is installed
    after it, so a refused request changes nothing at all. */
module Api {
  import opened Base
  import opened Records
  import opened Http
  import opened Db
  import opened Guard
  import Patients
  import Evaluations
  import Search
  import Accounts
  import Clinics

  /** The account routes, mounted at /api/auth. */
  datatype AccountRoute =
    | LoginRoute(credentials: Accounts.Credentials)
    | MeRoute
    | ChangePasswordRoute(change: Accounts.PasswordChange)

  /** The patient routes, mounted at /api/patients. */
  datatype PatientRoute =
    | CreatePatientRoute(patient: PatientInput)
    | ListPatientsRoute(patientQuery: Patients.ListQuery)
    | GetPatientRoute(id: Id)
    | UpdatePatientRoute(id: Id, patientPatch: PatientPatch)
    | ArchivePatientRoute(id: Id)
    | UnarchivePatientRoute(id: Id)

  /** The evaluation routes, mounted at /api/evaluations. */
  datatype EvaluationRoute =
    | CreateEvaluationRoute(evaluation: EvaluationInput)
    | ListEvaluationsRoute(evaluationQuery: Evaluations.EvaluationQuery)
    | GetEvaluationRoute(id: Id)
    | UpdateEvaluationRoute(id: Id, evaluationPatch: EvaluationInput)
    | ArchiveEvaluationRoute(id: Id)

  /** The clinic routes, mounted at /api/clinics. */
  datatype ClinicRoute = GetClinicRoute | UpdateClinicRoute(clinicPatch: ClinicPatch)

  datatype Route =
    | AccountApi(account: AccountRoute)
    | PatientApi(patient: PatientRoute)
    | EvaluationApi(evaluation: EvaluationRoute)
    | SearchApi(query: Option<string>, kind: Option<string>, limit: Option<nat>)
    | ClinicApi(clinic: ClinicRoute)

  predicate IsLogin(route: Route) {
    route.AccountApi? && route.account.LoginRoute?
  }

  /** The oracles a request may consult: jwt.verify, bcrypt.compare and the
      bcrypt hash a password change would store. */
  datatype Crypto = Crypto(verify: string -> TokenCheck, compare: (string, string) -> bool, newHash: string)

  /** Rows of other clinics are left as they were, and new rows belong to this clinic. */
  ghost predicate PatientsConfined(before: seq<Patient>, after: seq<Patient>, clinicId: Id) {
    && |before| <= |after|
    && (forall j :: 0 <= j < |before| && before[j].clinicId != clinicId ==> after[j] == before[j])
    && (forall j :: |before| <= j < |after| ==> after[j].clinicId == clinicId)
  }

  ghost predicate EvaluationsConfined(before: seq<Evaluation>, after: seq<Evaluation>, clinicId: Id) {
    && |before| <= |after|
    && (forall j :: 0 <= j < |before| && before[j].clinicId != clinicId ==> after[j] == before[j])
    && (forall j :: |before| <= j < |after| ==> after[j].clinicId == clinicId)
  }

  ghost predicate ClinicsConfined(before: seq<Clinic>, after: seq<Clinic>, clinicId: Id) {
    && |before| == |after|
    && (forall j :: 0 <= j < |before| && before[j].id != clinicId ==> after[j] == before[j])
  }

  /** Only the caller's own account may change, and only its password hash. */
  ghost predicate UsersConfined(before: seq<User>, after: seq<User>, userId: Id) {
    && |before| == |after|
    && (forall j :: 0 <= j < |before| && before[j].id != userId ==> after[j] == before[j])
    && (forall j :: 0 <= j < |before| ==> after[j] == before[j].(passwordHash := after[j].passwordHash))
  }

  /** The audit trail only grows, by at most one entry, and only on a 2xx response. */
  ghost predicate LogGrows(before: seq<AuditEntry>, after: seq<AuditEntry>, status: nat) {
    && |before| <= |after| <= |before| + 1
    && after[..|before|] == before
    && (|after| > |before| ==> IsSuccess(status))
  }

  method ServePatients(db: Store, ctx: Context, route: PatientRoute, env: Env) returns (resp: Response)
    requires db.Valid()
    requires forall j :: 0 <= j < |db.patients| ==> db.patients[j].id != env.freshId
    modifies db
    ensures db.Valid()
    ensures db.clinics == old(db.clinics) && db.users == old(db.users) && db.evaluations == old(db.evaluations)
    ensures PatientsConfined(old(db.patients), db.patients, ctx.clinicId)
    ensures LogGrows(old(db.auditLog), db.auditLog, resp.status)
  {
    match route {
      case CreatePatientRoute(body) =>
        resp := Patients.CreatePatient(db, ctx, body, env);
      case ListPatientsRoute(q) =>
        resp := Patients.ListPatients(db.patients, ctx.clinicId, q);
      case GetPatientRoute(id) =>
        resp := Patients.GetPatient(db, ctx, id, env);
      case UpdatePatientRoute(id, patch) =>
        resp := Patients.UpdatePatient(db, ctx, id, patch, env);
      case ArchivePatientRoute(id) =>
        resp := Patients.SetArchived(db, ctx, id, true, env);
      case UnarchivePatientRoute(id) =>
        resp := Patients.SetArchived(db, ctx, id, false, env);
    }
  }

  method ServeEvaluations(db: Store, ctx: Context, route: EvaluationRoute, env: Env) returns (resp: Response)
    requires db.Valid()
    requires forall j :: 0 <= j < |db.evaluations| ==> db.evaluations[j].id != env.freshId
    modifies db
    ensures db.Valid()
    ensures db.clinics == old(db.clinics) && db.users == old(db.users) && db.patients == old(db.patients)
    ensures EvaluationsConfined(old(db.evaluations), db.evaluations, ctx.clinicId)
    ensures LogGrows(old(db.auditLog), db.auditLog, resp.status)
  {
    match route {
      case CreateEvaluationRoute(body) =>
        resp := Evaluations.CreateEvaluation(db, ctx, body, env);
      case ListEvaluationsRoute(q) =>
        resp := Evaluations.ListEvaluations(db.evaluations, ctx.clinicId, q);
      case GetEvaluationRoute(id) =>
        resp := Evaluations.GetEvaluation(db, ctx, id, env);
      case UpdateEvaluationRoute(id, patch) =>
        resp := Evaluations.UpdateEvaluation(db, ctx, id, patch, env);
      case ArchiveEvaluationRoute(id) =>
        resp := Evaluations.ArchiveEvaluation(db, ctx, id, env);
    }
  }

  method ServeClinic(db: Store, ctx: Context, route: ClinicRoute) returns (resp: Response)
    requires db.Valid()
    modifies db
    ensures db.Valid()
    ensures db.users == old(db.users) && db.patients == old(db.patients) && db.evaluations == old(db.evaluations)
    ensures db.auditLog == old(db.auditLog)
    ensures ClinicsConfined(old(db.clinics), db.clinics, ctx.clinicId)
  {
    match route {
      case GetClinicRoute =>
        resp := Clinics.CurrentClinic(db.clinics, db.users, db.patients, db.evaluations, ctx.clinicId);
      case UpdateClinicRoute(patch) =>
        resp := Clinics.UpdateClinic(db, ctx, patch);
    }
  }

  /** Serves one request against the database. */
  method Serve(db: Store, header: Option<string>, route: Route, crypto: Crypto, env: Env) returns (resp: Response)
    requires db.Valid()
    requires forall j :: 0 <= j < |db.patients| ==> db.patients[j].id != env.freshId
    requires forall j :: 0 <= j < |db.evaluations| ==> db.evaluations[j].id != env.freshId
    modifies db
    ensures db.Valid()
    ensures !IsLogin(route) && Authenticate(old(db.users), old(db.clinics), header, crypto.verify).Reject? ==>
              && resp == Authenticate(old(db.users), old(db.clinics), header, crypto.verify).response
              && db.clinics == old(db.clinics) && db.users == old(db.users) && db.patients == old(db.patients)
              && db.evaluations == old(db.evaluations) && db.auditLog == old(db.auditLog)
    ensures !IsLogin(route) && Authenticate(old(db.users), old(db.clinics), header, crypto.verify).Pass? ==>
              var clinicId := Authenticate(old(db.users), old(db.clinics), header, crypto.verify).ctx.clinicId;
              && PatientsConfined(old(db.patients), db.patients, clinicId)
              && EvaluationsConfined(old(db.evaluations), db.evaluations, clinicId)
              && ClinicsConfined(old(db.clinics), db.clinics, clinicId)
              && UsersConfined(old(db.users), db.users, Authenticate(old(db.users), old(db.clinics), header, crypto.verify).ctx.user.id)
    ensures IsLogin(route) ==>
              db.clinics == old(db.clinics) && db.patients == old(db.patients) && db.evaluations == old(db.evaluations)
    ensures LogGrows(old(db.auditLog), db.auditLog, resp.status)
  {
    if IsLogin(route) {
      resp := Accounts.Login(db, route.account.credentials, crypto.compare, env);
      return;
    }
    var auth := Authenticate(db.users, db.clinics, header, crypto.verify);
    if auth.Reject? {
      return auth.response;
    }
    var ctx := auth.ctx;
    match route {
      case AccountApi(account) =>
        if account.MeRoute? {
          resp := Accounts.MeResponse(ctx);
        } else {
          resp := Accounts.ChangePassword(db, ctx, account.change, crypto.compare, crypto.newHash);
        }
      case PatientApi(r) =>
        resp := ServePatients(db, ctx, r, env);
      case EvaluationApi(r) =>
        resp := ServeEvaluations(db, ctx, r, env);
      case SearchApi(query, kind, limit) =>
        resp := Search.SearchRecords(db, ctx, query, kind, limit, env);
      case ClinicApi(r) =>
        resp := ServeClinic(db, ctx, r);
    }
  }
}
