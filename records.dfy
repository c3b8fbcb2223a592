/** The rows of the database tables (Clinic, User, Patient, MedicalEvaluation,
    AuditLog), the request bodies that create or update them, and what a
    Prisma `update` does with a body: every supplied column overwrites the
    stored one, every absent column is left as it was. */
module Records {
  import opened Base

  /** A key of a body that names a relation rather than a column. Prisma
      reads it as a nested write to related rows: `clinic: { connect: { id } }`,
      `patient: { connect: { id } }`, `user: { connect: { id } }`,
      `user: { update: { role } }`, `patients: { connect: [{ id }, ...] }`,
      `evaluations: { deleteMany: {} }`. The Apply...Patch functions below
      write columns only; what the update routes as written do with these
      keys is stated separately, next to each route. */
  datatype RelationWrite =
    | ConnectClinic(clinicId: Id)
    | ConnectPatient(patientId: Id)
    | ConnectUser(userId: Id)
    | UpdateAuthorRole(role: Role)
    | ConnectPatients(patientIds: seq<Id>)
    | DeleteEvaluations

  /** The tenancy root. */
  datatype Clinic = Clinic(
    id: Id,
    name: string,
    address: Option<string>,
    phone: Option<string>,
    email: Option<string>,
    dataControllerName: Option<string>,
    dataControllerContact: Option<string>,
    isActive: bool,
    createdAt: Time)

  /** Body of PUT /clinics/current: a field is None when the body leaves it out;
      a nullable column takes Some(None) for an explicit null. */
  datatype ClinicPatch = ClinicPatch(
    id: Option<Id>,
    name: Option<string>,
    address: Option<Option<string>>,
    phone: Option<Option<string>>,
    email: Option<Option<string>>,
    dataControllerName: Option<Option<string>>,
    dataControllerContact: Option<Option<string>>,
    isActive: Option<bool>,
    createdAt: Option<Time>,
    relations: seq<RelationWrite>)

  function ApplyClinicPatch(c: Clinic, d: ClinicPatch): Clinic {
    c.(id := d.id.GetOr(c.id),
       name := d.name.GetOr(c.name),
       address := d.address.GetOr(c.address),
       phone := d.phone.GetOr(c.phone),
       email := d.email.GetOr(c.email),
       dataControllerName := d.dataControllerName.GetOr(c.dataControllerName),
       dataControllerContact := d.dataControllerContact.GetOr(c.dataControllerContact),
       isActive := d.isActive.GetOr(c.isActive),
       createdAt := d.createdAt.GetOr(c.createdAt))
  }

  datatype User = User(
    id: Id,
    email: string,
    passwordHash: string,
    firstName: string,
    lastName: string,
    role: Role,
    clinicId: Id,
    isActive: bool,
    lastLoginAt: Option<Time>)

  datatype Patient = Patient(
    id: Id,
    clinicId: Id,
    firstName: string,
    lastName: string,
    cnp: string,
    address: string,
    city: Option<string>,
    county: Option<string>,
    idType: Option<string>,
    idSeries: Option<string>,
    idNumber: Option<string>,
    phone: Option<string>,
    email: Option<string>,
    gdprConsent: bool,
    gdprConsentDate: Option<Time>,
    isArchived: bool,
    archivedAt: Option<Time>,
    createdAt: Time)

  /** The fields POST /patients reads from its body; any other key of the body
      is ignored. An absent gdprConsent is false. */
  datatype PatientInput = PatientInput(
    firstName: Option<string>,
    lastName: Option<string>,
    cnp: Option<string>,
    address: Option<string>,
    city: Option<string>,
    county: Option<string>,
    idType: Option<string>,
    idSeries: Option<string>,
    idNumber: Option<string>,
    phone: Option<string>,
    email: Option<string>,
    gdprConsent: bool)

  /** Body of PUT /patients/:id, one entry per column the body may name. */
  datatype PatientPatch = PatientPatch(
    id: Option<Id>,
    clinicId: Option<Id>,
    firstName: Option<string>,
    lastName: Option<string>,
    cnp: Option<string>,
    address: Option<string>,
    city: Option<Option<string>>,
    county: Option<Option<string>>,
    idType: Option<Option<string>>,
    idSeries: Option<Option<string>>,
    idNumber: Option<Option<string>>,
    phone: Option<Option<string>>,
    email: Option<Option<string>>,
    gdprConsent: Option<bool>,
    gdprConsentDate: Option<Option<Time>>,
    isArchived: Option<bool>,
    archivedAt: Option<Option<Time>>,
    createdAt: Option<Time>,
    relations: seq<RelationWrite>)

  function ApplyPatientPatch(p: Patient, d: PatientPatch): Patient {
    p.(id := d.id.GetOr(p.id),
       clinicId := d.clinicId.GetOr(p.clinicId),
       firstName := d.firstName.GetOr(p.firstName),
       lastName := d.lastName.GetOr(p.lastName),
       cnp := d.cnp.GetOr(p.cnp),
       address := d.address.GetOr(p.address),
       city := d.city.GetOr(p.city),
       county := d.county.GetOr(p.county),
       idType := d.idType.GetOr(p.idType),
       idSeries := d.idSeries.GetOr(p.idSeries),
       idNumber := d.idNumber.GetOr(p.idNumber),
       phone := d.phone.GetOr(p.phone),
       email := d.email.GetOr(p.email),
       gdprConsent := d.gdprConsent.GetOr(p.gdprConsent),
       gdprConsentDate := d.gdprConsentDate.GetOr(p.gdprConsentDate),
       isArchived := d.isArchived.GetOr(p.isArchived),
       archivedAt := d.archivedAt.GetOr(p.archivedAt),
       createdAt := d.createdAt.GetOr(p.createdAt))
  }

  /** One answer of the questionnaire: a gate flag, a detail text, a number
      (weeks, doses, a date in milliseconds), or an explicit null. */
  datatype Answer = FlagAnswer(flag: bool) | TextAnswer(text: string) | NumberAnswer(number: int) | NullAnswer

  /** A medical evaluation: the columns the backend itself reads or writes,
      and the questionnaire's sections as a map from field name to answer.
      Gate flags and their detail fields are not checked against each other. */
  datatype Evaluation = Evaluation(
    id: Id,
    clinicId: Id,
    patientId: Id,
    userId: Id,
    evaluationDate: Time,
    evaluationType: Option<string>,
    isArchived: bool,
    archivedAt: Option<Time>,
    createdAt: Time,
    answers: map<string, Answer>)

  /** Body of POST /evaluations and PUT /evaluations/:id. */
  datatype EvaluationInput = EvaluationInput(
    id: Option<Id>,
    clinicId: Option<Id>,
    patientId: Option<Id>,
    userId: Option<Id>,
    evaluationDate: Option<Time>,
    evaluationType: Option<Option<string>>,
    isArchived: Option<bool>,
    archivedAt: Option<Option<Time>>,
    createdAt: Option<Time>,
    answers: map<string, Answer>,
    relations: seq<RelationWrite>)

  function ApplyEvaluationPatch(e: Evaluation, d: EvaluationInput): Evaluation {
    e.(id := d.id.GetOr(e.id),
       clinicId := d.clinicId.GetOr(e.clinicId),
       patientId := d.patientId.GetOr(e.patientId),
       userId := d.userId.GetOr(e.userId),
       evaluationDate := d.evaluationDate.GetOr(e.evaluationDate),
       evaluationType := d.evaluationType.GetOr(e.evaluationType),
       isArchived := d.isArchived.GetOr(e.isArchived),
       archivedAt := d.archivedAt.GetOr(e.archivedAt),
       createdAt := d.createdAt.GetOr(e.createdAt),
       answers := e.answers + d.answers)
  }

  /** What Express knows of the request, as the audit trail stores it. */
  datatype RequestMeta = RequestMeta(path: string, verb: string, body: string, ip: string, userAgent: Option<string>)

  datatype Action = Create | Read | Update | Login

  datatype AuditEntry = AuditEntry(
    clinicId: Option<Id>,
    userId: Option<Id>,
    action: Action,
    entityType: string,
    entityId: string,
    request: RequestMeta,
    createdAt: Time)

  /** The claims a session token carries. */
  datatype Claims = Claims(userId: Id, clinicId: Id)
}
