/** The caller's own clinic, backend/src/routes/clinics.js: GET and PUT
    /clinics/current. Neither route writes an audit entry. */
module Clinics {
  import opened Base
  import opened Query
  import opened Records
  import opened Http
  import opened Db
  import opened Guard

  const MSG_NOT_FOUND := "Clinica nu a fost găsită"
  const MSG_UPDATE_ERROR := "Eroare la actualizarea clinicii"

  function UserOf(clinicId: Id): User -> bool {
    (u: User) => u.clinicId == clinicId
  }

  function PatientOf(clinicId: Id): Patient -> bool {
    (p: Patient) => p.clinicId == clinicId
  }

  function EvaluationOf(clinicId: Id): Evaluation -> bool {
    (e: Evaluation) => e.clinicId == clinicId
  }

  /** The `_count` of the clinic's users, patients and evaluations, archived rows included. */
  function Counts(us: seq<User>, ps: seq<Patient>, es: seq<Evaluation>, clinicId: Id): (c: ClinicCounts)
    ensures c.users <= |us| && c.patients <= |ps| && c.evaluations <= |es|
  {
    ClinicCounts(|Filter(us, UserOf(clinicId))|, |Filter(ps, PatientOf(clinicId))|, |Filter(es, EvaluationOf(clinicId))|)
  }

  /** Adding a row to a table raises the count of its clinic by one and leaves the other clinics' counts. */
  lemma {:induction false} CountAppend<T>(s: seq<T>, x: T, p: T -> bool)
    ensures |Filter(s + [x], p)| == |Filter(s, p)| + (if p(x) then 1 else 0)
  {
    if |s| == 0 {
      assert s + [x] == [x];
    } else {
      CountAppend(s[1..], x, p);
      assert (s + [x])[1..] == s[1..] + [x];
    }
  }

  /** A new patient counts in its own clinic only. */
  lemma NewPatientCounted(us: seq<User>, ps: seq<Patient>, es: seq<Evaluation>, p: Patient, clinicId: Id)
    ensures Counts(us, ps + [p], es, clinicId).patients
         == Counts(us, ps, es, clinicId).patients + (if p.clinicId == clinicId then 1 else 0)
    ensures Counts(us, ps + [p], es, clinicId).users == Counts(us, ps, es, clinicId).users
  {
    CountAppend(ps, p, PatientOf(clinicId));
  }

  /** GET /clinics/current. */
  function CurrentClinic(cs: seq<Clinic>, us: seq<User>, ps: seq<Patient>, es: seq<Evaluation>, clinicId: Id): (r: Response)
    ensures FindClinic(cs, clinicId).None? <==> r == Fail(NOT_FOUND, MSG_NOT_FOUND)
    ensures r.status == OK ==> r.body.ClinicDetail? && r.body.clinic in cs && r.body.clinic.id == clinicId
  {
    match FindClinic(cs, clinicId)
    case None => Fail(NOT_FOUND, MSG_NOT_FOUND)
    case Some(c) => Response(OK, ClinicDetail(c, Counts(us, ps, es, clinicId)))
  }

  /** An authenticated request always finds its clinic, and it is the clinic the guard attached. */
  lemma AuthenticatedClinicFound(users: seq<User>, cs: seq<Clinic>, us: seq<User>, ps: seq<Patient>, es: seq<Evaluation>,
                                 header: Option<string>, verify: string -> TokenCheck)
    requires ClinicIdsUnique(cs)
    requires Authenticate(users, cs, header, verify).Pass?
    ensures var ctx := Authenticate(users, cs, header, verify).ctx;
            CurrentClinic(cs, us, ps, es, ctx.clinicId) == Response(OK, ClinicDetail(ctx.clinic, Counts(us, ps, es, ctx.clinicId)))
  {
    var ctx := Authenticate(users, cs, header, verify).ctx;
    var c := FindClinic(cs, ctx.clinicId);
    assert c.Some?;
    var i :| 0 <= i < |cs| && cs[i] == c.value;
    var j :| 0 <= j < |cs| && cs[j] == ctx.clinic;
    assert cs[i].id == cs[j].id;
  }

  /** The body of PUT /clinics/current once id and createdAt are deleted from it. */
  function Stripped(d: ClinicPatch): (s: ClinicPatch)
    ensures s.id.None? && s.createdAt.None?
    ensures s.(id := d.id, createdAt := d.createdAt) == d
  {
    d.(id := None, createdAt := None)
  }

  /** The clinic after an update keeps its identity and creation time; every
      other field the body carries, `isActive` included, is written. */
  lemma UpdateKeepsIdentity(c: Clinic, d: ClinicPatch)
    ensures var u := ApplyClinicPatch(c, Stripped(d));
            && u.id == c.id && u.createdAt == c.createdAt
            && u.name == d.name.GetOr(c.name)
            && u.address == d.address.GetOr(c.address)
            && u.phone == d.phone.GetOr(c.phone)
            && u.email == d.email.GetOr(c.email)
            && u.dataControllerName == d.dataControllerName.GetOr(c.dataControllerName)
            && u.dataControllerContact == d.dataControllerContact.GetOr(c.dataControllerContact)
            && u.isActive == d.isActive.GetOr(c.isActive)
  {
  }

  /** PUT /clinics/current: requireRole('ADMIN'), then `clinic.update` by the
      caller's clinic id; a missing row makes Prisma throw, answered with 500. */
  method UpdateClinic(db: Store, ctx: Context, body: ClinicPatch) returns (resp: Response)
    requires db.Valid()
    modifies db`clinics
    ensures db.Valid()
    ensures var denied := RequireRole(Some(ctx.user), [ADMIN]);
            var i := IndexWhere(old(db.clinics), (c: Clinic) => c.id == ctx.clinicId);
            && (denied.Some? ==> resp == denied.value && db.clinics == old(db.clinics))
            && (denied.None? && i.None? ==> resp == Fail(INTERNAL, MSG_UPDATE_ERROR) && db.clinics == old(db.clinics))
            && (denied.None? && i.Some? ==>
                  var updated := ApplyClinicPatch(old(db.clinics)[i.value], Stripped(body));
                  db.clinics == old(db.clinics)[i.value := updated] && resp == Response(OK, ClinicBody(updated)))
  {
    var denied := RequireRole(Some(ctx.user), [ADMIN]);
    if denied.Some? {
      return denied.value;
    }
    // the relation keys are not applied: see RelationKeyTakesPatient
    var updateData := Stripped(body).(relations := []);
    var i := IndexWhere(db.clinics, (c: Clinic) => c.id == ctx.clinicId);
    if i.None? {
      resp := Fail(INTERNAL, MSG_UPDATE_ERROR);
    } else {
      var updated := ApplyClinicPatch(db.clinics[i.value], updateData);
      var cs := db.clinics[i.value := updated];
      assert forall j :: 0 <= j < |cs| ==> cs[j].id == db.clinics[j].id;
      db.clinics := cs;
      resp := Response(OK, ClinicBody(updated));
    }
  }

  /** The body's relation keys name the patient with this id in a
      `patients: { connect: [...] }`. */
  predicate ConnectsPatient(rs: seq<RelationWrite>, id: Id) {
    exists k :: 0 <= k < |rs| && rs[k].ConnectPatients? && id in rs[k].patientIds
  }

  /** The patients table after PUT /clinics/current as the code stands: the
      body goes to `clinic.update` with only id and createdAt deleted, so a
      `patients: { connect: [...] }` key moves every listed patient, of
      whatever clinic, into the caller's. */
  function PatientsAfterAsWritten(ps: seq<Patient>, clinicId: Id, body: ClinicPatch): seq<Patient> {
    seq(|ps|, j requires 0 <= j < |ps| =>
      if ConnectsPatient(body.relations, ps[j].id) then ps[j].(clinicId := clinicId) else ps[j])
  }

  /** As written, an administrator of clinic A who sends
      `{ "patients": { "connect": [{ "id": P }] } }` takes patient P away from
      its own clinic B. The update as modelled (UpdateClinic) writes the
      clinic's columns only and leaves the patients table as it was. */
  lemma RelationKeyTakesPatient(ps: seq<Patient>, clinicId: Id, j: nat, body: ClinicPatch)
    requires j < |ps| && ps[j].clinicId != clinicId
    requires body.relations == [ConnectPatients([ps[j].id])]
    ensures |PatientsAfterAsWritten(ps, clinicId, body)| == |ps|
    ensures PatientsAfterAsWritten(ps, clinicId, body)[j].clinicId == clinicId
    ensures PatientsAfterAsWritten(ps, clinicId, body)[j] != ps[j]
  {
    assert body.relations[0].ConnectPatients? && ps[j].id in body.relations[0].patientIds;
  }

  /** An administrator who sends `isActive: false` deactivates the clinic,
      and from then on every member of it, the administrator included, is
      refused by the guard. */
  lemma SelfDeactivationLocksOut(users: seq<User>, cs: seq<Clinic>, i: nat, d: ClinicPatch,
                                 header: Option<string>, verify: string -> TokenCheck, k: nat)
    requires UserIdsUnique(users) && ClinicIdsUnique(cs)
    requires i < |cs| && d.isActive == Some(false)
    requires BearerToken(header).Some? && verify(BearerToken(header).value).Decoded?
    requires k < |users| && users[k].id == verify(BearerToken(header).value).claims.userId && users[k].isActive
    requires users[k].clinicId == cs[i].id
    ensures Authenticate(users, cs[i := ApplyClinicPatch(cs[i], Stripped(d))], header, verify)
         == Reject(Fail(FORBIDDEN, MSG_CLINIC_INACTIVE))
  {
    var cs' := cs[i := ApplyClinicPatch(cs[i], Stripped(d))];
    assert forall j :: 0 <= j < |cs'| ==> cs'[j].id == cs[j].id;
    assert cs'[i].id == users[k].clinicId && !cs'[i].isActive;
    InactiveClinicLocksOut(users, cs', header, verify, k);
  }
}
