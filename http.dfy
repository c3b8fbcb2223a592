/** Responses as the handlers send them: an HTTP status and a JSON body. */
module Http {
  import opened Base
  import opened Records

  const OK: nat := 200
  const CREATED: nat := 201
  const BAD_REQUEST: nat := 400
  const UNAUTHORIZED: nat := 401
  const FORBIDDEN: nat := 403
  const NOT_FOUND: nat := 404
  const CONFLICT: nat := 409
  const INTERNAL: nat := 500

  /** The audit hook fires only on these. */
  predicate IsSuccess(status: nat) {
    200 <= status < 300
  }

  /** `pages` is Math.ceil(total / limit), which JSON renders as null when limit is 0. */
  datatype Pagination = Pagination(total: nat, page: nat, limit: nat, pages: Option<nat>)

  /** The user as /auth/login and /auth/me describe it, with the clinic's id and name. */
  datatype UserSummary = UserSummary(
    id: Id, email: string, firstName: string, lastName: string, role: Role,
    clinicId: Id, clinicName: string)

  datatype ClinicCounts = ClinicCounts(users: nat, patients: nat, evaluations: nat)

  datatype Body =
    | ErrorBody(error: string)
    | MessageBody(message: string)
    | PatientBody(patient: Patient)
    | PatientDetail(patient: Patient, recent: seq<Evaluation>)
    | PatientPage(patients: seq<Patient>, pagination: Pagination)
    | EvaluationBody(evaluation: Evaluation)
    | EvaluationDetail(evaluation: Evaluation, subject: Option<Patient>)
    | EvaluationPage(evaluations: seq<Evaluation>, pagination: Pagination)
    | SearchBody(patientHits: seq<Patient>, evaluationHits: seq<Evaluation>)
    | LoginBody(token: Claims, user: UserSummary)
    | UserBody(user: UserSummary)
    | ClinicBody(clinic: Clinic)
    | ClinicDetail(clinic: Clinic, counts: ClinicCounts)

  datatype Response = Response(status: nat, body: Body)

  /** What a handler takes from its surroundings besides the request:
      the clock (`new Date()`), the id the database generates for a new row,
      whether an audit write would succeed, and the request as the audit
      trail records it. */
  datatype Env = Env(now: Time, freshId: Id, auditWrites: bool, request: RequestMeta)

  /** `res.status(status).json({ error: message })`. */
  function Fail(status: nat, message: string): Response {
    Response(status, ErrorBody(message))
  }
}
