/** The database the handlers share: the tables, the lookups the handlers
    run against them (each a Prisma findFirst / findUnique), and the
    constraints the tables keep. */
module Db {
  import opened Base
  import opened Query
  import opened Records

  /** `patient.findFirst({ where: { id, clinicId } })`: the tenant-scoped lookup. */
  function FindPatient(ps: seq<Patient>, id: Id, clinicId: Id): (r: Option<nat>)
    ensures r.Some? ==> r.value < |ps| && ps[r.value].id == id && ps[r.value].clinicId == clinicId
    ensures r.None? <==> forall j :: 0 <= j < |ps| ==> !(ps[j].id == id && ps[j].clinicId == clinicId)
  {
    IndexWhere(ps, (p: Patient) => p.id == id && p.clinicId == clinicId)
  }

  /** The `patient` relation of an evaluation: a lookup by id alone. */
  function PatientById(ps: seq<Patient>, id: Id): (r: Option<Patient>)
    ensures r.Some? ==> r.value in ps && r.value.id == id
    ensures r.None? <==> forall j :: 0 <= j < |ps| ==> ps[j].id != id
  {
    match IndexWhere(ps, (p: Patient) => p.id == id)
    case Some(i) => Some(ps[i])
    case None => None
  }

  /** `patient.findUnique({ where: { clinicId_cnp: { clinicId, cnp } } })` found a row. */
  predicate CnpTaken(ps: seq<Patient>, clinicId: Id, cnp: string) {
    IndexWhere(ps, (p: Patient) => p.clinicId == clinicId && p.cnp == cnp).Some?
  }

  lemma CnpTakenIff(ps: seq<Patient>, clinicId: Id, cnp: string)
    ensures CnpTaken(ps, clinicId, cnp) <==> exists j :: 0 <= j < |ps| && ps[j].clinicId == clinicId && ps[j].cnp == cnp
  {
    var r := IndexWhere(ps, (p: Patient) => p.clinicId == clinicId && p.cnp == cnp);
    if r.Some? {
      assert ps[r.value].clinicId == clinicId && ps[r.value].cnp == cnp;
    }
  }

  /** `medicalEvaluation.findFirst({ where: { id, clinicId } })`. */
  function FindEvaluation(es: seq<Evaluation>, id: Id, clinicId: Id): (r: Option<nat>)
    ensures r.Some? ==> r.value < |es| && es[r.value].id == id && es[r.value].clinicId == clinicId
    ensures r.None? <==> forall j :: 0 <= j < |es| ==> !(es[j].id == id && es[j].clinicId == clinicId)
  {
    IndexWhere(es, (e: Evaluation) => e.id == id && e.clinicId == clinicId)
  }

  /** `user.findUnique({ where: { id } })`. */
  function FindUser(us: seq<User>, id: Id): (r: Option<nat>)
    ensures r.Some? ==> r.value < |us| && us[r.value].id == id
    ensures r.None? <==> forall j :: 0 <= j < |us| ==> us[j].id != id
  {
    IndexWhere(us, (u: User) => u.id == id)
  }

  /** `user.findUnique({ where: { email } })`: exact, case-sensitive equality. */
  function FindUserByEmail(us: seq<User>, email: string): (r: Option<nat>)
    ensures r.Some? ==> r.value < |us| && us[r.value].email == email
    ensures r.None? <==> forall j :: 0 <= j < |us| ==> us[j].email != email
  {
    IndexWhere(us, (u: User) => u.email == email)
  }

  /** The `clinic` relation of a user, or `clinic.findUnique({ where: { id } })`. */
  function FindClinic(cs: seq<Clinic>, id: Id): (r: Option<Clinic>)
    ensures r.Some? ==> r.value in cs && r.value.id == id
    ensures r.None? <==> forall j :: 0 <= j < |cs| ==> cs[j].id != id
  {
    match IndexWhere(cs, (c: Clinic) => c.id == id)
    case Some(i) => Some(cs[i])
    case None => None
  }

  // The constraints of the tables.

  ghost predicate ClinicIdsUnique(cs: seq<Clinic>) {
    forall i, j :: 0 <= i < j < |cs| ==> cs[i].id != cs[j].id
  }

  ghost predicate UserIdsUnique(us: seq<User>) {
    forall i, j :: 0 <= i < j < |us| ==> us[i].id != us[j].id
  }

  ghost predicate EmailsUnique(us: seq<User>) {
    forall i, j :: 0 <= i < j < |us| ==> us[i].email != us[j].email
  }

  ghost predicate PatientIdsUnique(ps: seq<Patient>) {
    forall i, j :: 0 <= i < j < |ps| ==> ps[i].id != ps[j].id
  }

  /** The @@unique([clinicId, cnp]) constraint. */
  ghost predicate CnpUniquePerClinic(ps: seq<Patient>) {
    forall i, j :: 0 <= i < j < |ps| ==> ps[i].clinicId != ps[j].clinicId || ps[i].cnp != ps[j].cnp
  }

  ghost predicate EvaluationIdsUnique(es: seq<Evaluation>) {
    forall i, j :: 0 <= i < j < |es| ==> es[i].id != es[j].id
  }

  /** The evaluation's patient exists and belongs to the evaluation's clinic. */
  ghost predicate Owned(ps: seq<Patient>, e: Evaluation) {
    exists j :: 0 <= j < |ps| && ps[j].id == e.patientId && ps[j].clinicId == e.clinicId
  }

  ghost predicate EvaluationsOwned(ps: seq<Patient>, es: seq<Evaluation>) {
    forall i :: 0 <= i < |es| ==> Owned(ps, es[i])
  }

  /** Two patient tables that agree, row by row, on id, clinic and CNP. */
  ghost predicate SamePatientKeys(ps: seq<Patient>, ps': seq<Patient>) {
    |ps| == |ps'| &&
    forall i :: 0 <= i < |ps| ==>
      ps'[i].id == ps[i].id && ps'[i].clinicId == ps[i].clinicId && ps'[i].cnp == ps[i].cnp
  }

  /** Rewriting patients without touching their keys keeps every constraint. */
  lemma {:induction false} SameKeysKeepInvariants(ps: seq<Patient>, ps': seq<Patient>, es: seq<Evaluation>)
    requires SamePatientKeys(ps, ps')
    requires PatientIdsUnique(ps) && CnpUniquePerClinic(ps) && EvaluationsOwned(ps, es)
    ensures PatientIdsUnique(ps') && CnpUniquePerClinic(ps') && EvaluationsOwned(ps', es)
  {
    forall i | 0 <= i < |es| ensures Owned(ps', es[i]) {
      assert Owned(ps, es[i]);
      var j :| 0 <= j < |ps| && ps[j].id == es[i].patientId && ps[j].clinicId == es[i].clinicId;
      assert ps'[j].id == es[i].patientId && ps'[j].clinicId == es[i].clinicId;
    }
  }

  /** Appending a patient with a fresh id and an unused (clinic, CNP) pair keeps every constraint. */
  lemma {:induction false} AppendPatientKeepsInvariants(ps: seq<Patient>, es: seq<Evaluation>, p: Patient)
    requires PatientIdsUnique(ps) && CnpUniquePerClinic(ps) && EvaluationsOwned(ps, es)
    requires forall j :: 0 <= j < |ps| ==> ps[j].id != p.id
    requires !CnpTaken(ps, p.clinicId, p.cnp)
    ensures PatientIdsUnique(ps + [p]) && CnpUniquePerClinic(ps + [p]) && EvaluationsOwned(ps + [p], es)
  {
    CnpTakenIff(ps, p.clinicId, p.cnp);
    var ps' := ps + [p];
    forall i | 0 <= i < |es| ensures Owned(ps', es[i]) {
      assert Owned(ps, es[i]);
      var j :| 0 <= j < |ps| && ps[j].id == es[i].patientId && ps[j].clinicId == es[i].clinicId;
      assert ps'[j] == ps[j];
    }
  }

  /** Appending an evaluation with a fresh id for an owned patient keeps every constraint. */
  lemma AppendEvaluationKeepsInvariants(ps: seq<Patient>, es: seq<Evaluation>, e: Evaluation)
    requires EvaluationIdsUnique(es) && EvaluationsOwned(ps, es)
    requires forall j :: 0 <= j < |es| ==> es[j].id != e.id
    requires Owned(ps, e)
    ensures EvaluationIdsUnique(es + [e]) && EvaluationsOwned(ps, es + [e])
  {
  }

  /** Rewriting an evaluation without touching its id, clinic or patient keeps every constraint. */
  lemma ReplaceEvaluationKeepsInvariants(ps: seq<Patient>, es: seq<Evaluation>, i: nat, e: Evaluation)
    requires EvaluationIdsUnique(es) && EvaluationsOwned(ps, es)
    requires i < |es| && e.id == es[i].id && e.clinicId == es[i].clinicId && e.patientId == es[i].patientId
    ensures EvaluationIdsUnique(es[i := e]) && EvaluationsOwned(ps, es[i := e])
  {
    assert Owned(ps, es[i]);
  }

  /** Only the patient whose id was looked up in another clinic's scope
      is reported missing: cross-tenant ids are indistinguishable from absent ones. */
  lemma {:induction false} OtherTenantNotFound(ps: seq<Patient>, k: nat, clinicId: Id)
    requires PatientIdsUnique(ps)
    requires k < |ps| && ps[k].clinicId != clinicId
    ensures FindPatient(ps, ps[k].id, clinicId).None?
  {
    forall j | 0 <= j < |ps| ensures !(ps[j].id == ps[k].id && ps[j].clinicId == clinicId) {
      if j < k {
        assert ps[j].id != ps[k].id;
      } else if k < j {
        assert ps[k].id != ps[j].id;
      }
    }
  }

  /** The shared database. */
  class Store {
    var clinics: seq<Clinic>
    var users: seq<User>
    var patients: seq<Patient>
    var evaluations: seq<Evaluation>
    var auditLog: seq<AuditEntry>

    ghost predicate Valid()
      reads this
    {
      && ClinicIdsUnique(clinics)
      && UserIdsUnique(users) && EmailsUnique(users)
      && PatientIdsUnique(patients) && CnpUniquePerClinic(patients)
      && EvaluationIdsUnique(evaluations) && EvaluationsOwned(patients, evaluations)
    }

    /** A database holding provisioned clinics and users and nothing else. */
    constructor (clinics: seq<Clinic>, users: seq<User>)
      requires ClinicIdsUnique(clinics) && UserIdsUnique(users) && EmailsUnique(users)
      ensures Valid()
      ensures this.clinics == clinics && this.users == users
      ensures patients == [] && evaluations == [] && auditLog == []
    {
      this.clinics := clinics;
      this.users := users;
      patients := [];
      evaluations := [];
      auditLog := [];
    }
  }
}
