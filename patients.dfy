/** The patient registry, backend/src/routes/patients.js. Every route runs
    behind `authenticateToken`; its Context gives the caller's clinic, and
    every read and write below is scoped by it. */
module Patients {
  import opened Base
  import opened Text
  import opened Query
  import opened Records
  import opened Http
  import opened Db
  import opened Guard

  const MSG_REQUIRED := "Numele, prenumele, CNP și adresa sunt obligatorii"
  const MSG_CONSENT := "Consimțământul GDPR este obligatoriu"
  const MSG_CNP_EXISTS := "Un pacient cu acest CNP există deja în această clinică"
  const MSG_NOT_FOUND := "Pacientul nu a fost găsit"
  const MSG_LIST_ERROR := "Eroare la obținerea pacienților"
  const DEFAULT_PAGE: nat := 1
  const DEFAULT_LIMIT: nat := 20

  /** First name, last name, CNP and address are all present and non-empty. */
  predicate HasRequiredFields(b: PatientInput) {
    Present(b.firstName) && Present(b.lastName) && Present(b.cnp) && Present(b.address)
  }

  /** The checks of POST /patients, in the order the handler makes them;
      None when the patient may be created. */
  function CreateCheck(ps: seq<Patient>, clinicId: Id, b: PatientInput): (r: Option<Response>)
    ensures !HasRequiredFields(b) ==> r == Some(Fail(BAD_REQUEST, MSG_REQUIRED))
    ensures HasRequiredFields(b) && !b.gdprConsent ==> r == Some(Fail(BAD_REQUEST, MSG_CONSENT))
    ensures r == Some(Fail(CONFLICT, MSG_CNP_EXISTS)) <==>
              HasRequiredFields(b) && b.gdprConsent && CnpTaken(ps, clinicId, b.cnp.value)
    ensures r.None? <==> HasRequiredFields(b) && b.gdprConsent && !CnpTaken(ps, clinicId, b.cnp.value)
  {
    if !HasRequiredFields(b) then Some(Fail(BAD_REQUEST, MSG_REQUIRED))
    else if !b.gdprConsent then Some(Fail(BAD_REQUEST, MSG_CONSENT))
    else if CnpTaken(ps, clinicId, b.cnp.value) then Some(Fail(CONFLICT, MSG_CNP_EXISTS))
    else None
  }

  /** The row `patient.create` writes: the body's fields, the caller's clinic,
      and the consent date stamped from the clock. */
  function NewPatient(id: Id, clinicId: Id, b: PatientInput, now: Time): (p: Patient)
    requires HasRequiredFields(b)
    ensures p.id == id && p.clinicId == clinicId && p.cnp == b.cnp.value
    ensures p.gdprConsent == b.gdprConsent
    ensures p.gdprConsentDate == if b.gdprConsent then Some(now) else None
    ensures !p.isArchived && p.archivedAt.None?
  {
    Patient(id, clinicId, b.firstName.value, b.lastName.value, b.cnp.value, b.address.value,
            b.city, b.county, b.idType, b.idSeries, b.idNumber, b.phone, b.email,
            b.gdprConsent, if b.gdprConsent then Some(now) else None,
            false, None, now)
  }

  /** Registering the same CNP twice in one clinic: the second attempt is a conflict. */
  lemma {:induction false} SecondCreateConflicts(ps: seq<Patient>, clinicId: Id, b: PatientInput, id: Id, now: Time)
    requires CreateCheck(ps, clinicId, b).None?
    ensures CreateCheck(ps + [NewPatient(id, clinicId, b, now)], clinicId, b) == Some(Fail(CONFLICT, MSG_CNP_EXISTS))
  {
    var ps' := ps + [NewPatient(id, clinicId, b, now)];
    CnpTakenIff(ps', clinicId, b.cnp.value);
    assert ps'[|ps|].clinicId == clinicId && ps'[|ps|].cnp == b.cnp.value;
  }

  /** CNP uniqueness is per clinic: a CNP registered only in other clinics is no conflict. */
  lemma {:induction false} OtherClinicsDoNotConflict(ps: seq<Patient>, clinicId: Id, b: PatientInput)
    requires HasRequiredFields(b) && b.gdprConsent
    requires forall j :: 0 <= j < |ps| && ps[j].cnp == b.cnp.value ==> ps[j].clinicId != clinicId
    ensures CreateCheck(ps, clinicId, b).None?
  {
    CnpTakenIff(ps, clinicId, b.cnp.value);
  }

  /** POST /patients. */
  method CreatePatient(db: Store, ctx: Context, body: PatientInput, env: Env) returns (resp: Response)
    requires db.Valid()
    requires forall j :: 0 <= j < |db.patients| ==> db.patients[j].id != env.freshId
    modifies db
    ensures db.Valid()
    ensures CreateCheck(old(db.patients), ctx.clinicId, body).Some? ==>
              resp == CreateCheck(old(db.patients), ctx.clinicId, body).value && db.patients == old(db.patients)
    ensures CreateCheck(old(db.patients), ctx.clinicId, body).None? ==>
              var p := NewPatient(env.freshId, ctx.clinicId, body, env.now);
              resp == Response(CREATED, PatientBody(p)) && db.patients == old(db.patients) + [p]
    ensures db.clinics == old(db.clinics) && db.users == old(db.users) && db.evaluations == old(db.evaluations)
    ensures db.auditLog == AfterResponse(old(db.auditLog), resp.status, env.auditWrites, AuditFor(Create, ctx, None, env))
  {
    var check := CreateCheck(db.patients, ctx.clinicId, body);
    if check.Some? {
      resp := check.value;
    } else {
      var patient := NewPatient(env.freshId, ctx.clinicId, body, env.now);
      AppendPatientKeepsInvariants(db.patients, db.evaluations, patient);
      db.patients := db.patients + [patient];
      resp := Response(CREATED, PatientBody(patient));
    }
    RecordAudit(db, resp.status, AuditFor(Create, ctx, None, env), env.auditWrites);
  }

  /** The query string of GET /patients: page and limit as parsed integers
      when given, and the raw `search` and `archived` parameters. */
  datatype ListQuery = ListQuery(page: Option<nat>, limit: Option<nat>, filter: PatientFilter) {
    /** `page = 1` when the parameter is absent. */
    function PageNumber(): nat {
      page.GetOr(DEFAULT_PAGE)
    }

    /** `limit = 20` when the parameter is absent. */
    function PageSize(): nat {
      limit.GetOr(DEFAULT_LIMIT)
    }
  }

  datatype PatientFilter = PatientFilter(search: Option<string>, archived: Option<string>)

  /** The `where` of GET /patients: the caller's clinic, the archived flag
      (`archived === 'true'`), and with a search term a case-insensitive match
      on first or last name or a case-sensitive match on the CNP. */
  predicate Listed(p: Patient, clinicId: Id, f: PatientFilter) {
    && p.clinicId == clinicId
    && p.isArchived == (f.archived == Some("true"))
    && (Present(f.search) ==>
          || ContainsInsensitive(p.firstName, f.search.value)
          || ContainsInsensitive(p.lastName, f.search.value)
          || Contains(p.cnp, f.search.value))
  }

  function CreatedAt(p: Patient): int {
    p.createdAt
  }

  function IsListed(clinicId: Id, f: PatientFilter): Patient -> bool {
    (p: Patient) => Listed(p, clinicId, f)
  }

  /** Every matching patient, newest first. */
  function Matches(ps: seq<Patient>, clinicId: Id, f: PatientFilter): seq<Patient> {
    Ranked(ps, IsListed(clinicId, f), CreatedAt)
  }

  /** GET /patients. A page of 0 makes the skip (0 - 1) * limit negative,
      which Prisma refuses, unless the limit is 0 too: the skip is then -0,
      which passes as 0, and the page is empty. */
  function ListPatients(ps: seq<Patient>, clinicId: Id, q: ListQuery): (r: Response)
    ensures q.page == Some(0) && q.PageSize() > 0 <==> r == Fail(INTERNAL, MSG_LIST_ERROR)
    ensures q.PageNumber() > 0 || q.PageSize() == 0 ==>
              r.status == OK && r.body.PatientPage? && |r.body.patients| <= q.PageSize()
    ensures q.PageNumber() > 0 || q.PageSize() == 0 ==>
              r.body.pagination.page == q.PageNumber() && r.body.pagination.limit == q.PageSize()
  {
    var page := q.PageNumber();
    var limit := q.PageSize();
    if page == 0 && limit > 0 then Fail(INTERNAL, MSG_LIST_ERROR)
    else
      var rows := Matches(ps, clinicId, q.filter);
      Response(OK, PatientPage(NthPage(rows, limit, page),
                               Pagination(|rows|, page, limit, PageCount(|rows|, limit))))
  }

  /** What a page holds: the window of the ranking that skips (page - 1) *
      limit rows, so only patients of the caller's clinic that match the
      filter, newest first; the total counting every match, and
      pages = Math.ceil(total / limit). */
  lemma ListPatientsSound(ps: seq<Patient>, clinicId: Id, q: ListQuery)
    requires q.PageNumber() > 0 || q.PageSize() == 0
    ensures var r := ListPatients(ps, clinicId, q);
            && r.body.patients == NthPage(Matches(ps, clinicId, q.filter), q.PageSize(), q.PageNumber())
            && (forall i :: 0 <= i < |r.body.patients| ==>
                  r.body.patients[i] in ps && r.body.patients[i].clinicId == clinicId && Listed(r.body.patients[i], clinicId, q.filter))
            && SortedDesc(r.body.patients, CreatedAt)
            && r.body.pagination.total == |Filter(ps, IsListed(clinicId, q.filter))|
            && (q.PageSize() > 0 ==> r.body.pagination.pages == Some(CeilDiv(r.body.pagination.total, q.PageSize())))
  {
    var rows := Matches(ps, clinicId, q.filter);
    assert ListPatients(ps, clinicId, q).body.patients == NthPage(rows, q.PageSize(), q.PageNumber());
    RankedCorrect(ps, IsListed(clinicId, q.filter), CreatedAt);
    MatchesPage(ps, clinicId, q.filter, q.PageSize(), q.PageNumber());
  }

  /** Page n of the matches holds matching patients of the clinic, newest first. */
  lemma MatchesPage(ps: seq<Patient>, clinicId: Id, f: PatientFilter, limit: nat, n: nat)
    ensures var page := NthPage(Matches(ps, clinicId, f), limit, n);
            && (forall i :: 0 <= i < |page| ==> page[i] in ps && page[i].clinicId == clinicId && Listed(page[i], clinicId, f))
            && SortedDesc(page, CreatedAt)
  {
    RankedPage(ps, IsListed(clinicId, f), CreatedAt, limit, n);
  }

  /** Walking pages 1 to `pages` reaches every matching patient. */
  lemma EveryMatchOnSomePage(ps: seq<Patient>, clinicId: Id, q: ListQuery, k: nat)
    requires q.PageSize() > 0
    requires k < |ps| && Listed(ps[k], clinicId, q.filter)
    ensures exists n :: 1 <= n <= CeilDiv(|Matches(ps, clinicId, q.filter)|, q.PageSize()) &&
              ps[k] in ListPatients(ps, clinicId, q.(page := Some(n))).body.patients
  {
    var rows := Matches(ps, clinicId, q.filter);
    assert IsListed(clinicId, q.filter)(ps[k]);
    RankedOnSomePage(ps, IsListed(clinicId, q.filter), CreatedAt, q.PageSize(), k);
    var n :| 1 <= n <= CeilDiv(|rows|, q.PageSize()) && ps[k] in NthPage(rows, q.PageSize(), n);
    assert ListPatients(ps, clinicId, q.(page := Some(n))).body.patients == NthPage(rows, q.PageSize(), n);
  }

  function EvaluationDate(e: Evaluation): int {
    e.evaluationDate
  }

  function OfPatient(patientId: Id): Evaluation -> bool {
    (e: Evaluation) => e.patientId == patientId
  }

  /** The `evaluations` included by GET /patients/:id: the patient's ten most recent. */
  function RecentEvaluations(es: seq<Evaluation>, patientId: Id): seq<Evaluation> {
    PageOf(Ranked(es, OfPatient(patientId), EvaluationDate), 0, 10)
  }

  /** Ten of the patient's evaluations, or all of them when there are fewer;
      newest first, and none left out is newer than any shown. */
  lemma RecentAreNewest(es: seq<Evaluation>, patientId: Id)
    ensures var recent := RecentEvaluations(es, patientId);
            && |recent| == Min(10, |Filter(es, OfPatient(patientId))|)
            && (|Filter(es, OfPatient(patientId))| <= 10 ==>
                  forall j :: 0 <= j < |es| && es[j].patientId == patientId ==> es[j] in recent)
            && (forall i :: 0 <= i < |recent| ==> recent[i] in es && recent[i].patientId == patientId)
            && SortedDesc(recent, EvaluationDate)
            && (forall j :: 0 <= j < |es| && es[j].patientId == patientId && es[j] !in recent ==>
                  forall i :: 0 <= i < |recent| ==> recent[i].evaluationDate >= es[j].evaluationDate)
  {
    var ranked := Ranked(es, OfPatient(patientId), EvaluationDate);
    RankedCorrect(es, OfPatient(patientId), EvaluationDate);
    TopRanked(es, OfPatient(patientId), EvaluationDate, 10);
    var recent := RecentEvaluations(es, patientId);
    assert forall i :: 0 <= i < |recent| ==> recent[i] == ranked[i];
  }

  /** GET /patients/:id: the patient of the caller's clinic with its recent evaluations. */
  function PatientDetailResponse(ps: seq<Patient>, es: seq<Evaluation>, clinicId: Id, id: Id): (r: Response)
    ensures FindPatient(ps, id, clinicId).None? <==> r == Fail(NOT_FOUND, MSG_NOT_FOUND)
    ensures FindPatient(ps, id, clinicId).Some? ==>
              r == Response(OK, PatientDetail(ps[FindPatient(ps, id, clinicId).value], RecentEvaluations(es, id)))
    ensures r.status == OK ==>
              r.body.PatientDetail? && r.body.patient in ps && r.body.patient.id == id && r.body.patient.clinicId == clinicId
  {
    match FindPatient(ps, id, clinicId)
    case None => Fail(NOT_FOUND, MSG_NOT_FOUND)
    case Some(i) => Response(OK, PatientDetail(ps[i], RecentEvaluations(es, ps[i].id)))
  }

  /** GET /patients/:id with its READ audit entry. */
  method GetPatient(db: Store, ctx: Context, id: Id, env: Env) returns (resp: Response)
    modifies db`auditLog
    ensures resp == PatientDetailResponse(db.patients, db.evaluations, ctx.clinicId, id)
    ensures db.auditLog == AfterResponse(old(db.auditLog), resp.status, env.auditWrites, AuditFor(Read, ctx, Some(id), env))
  {
    resp := PatientDetailResponse(db.patients, db.evaluations, ctx.clinicId, id);
    RecordAudit(db, resp.status, AuditFor(Read, ctx, Some(id), env), env.auditWrites);
  }

  /** PUT /patients/:id. The body is copied and its id, clinicId and cnp are
      deleted before the lookup; the row is then overwritten with the rest. */
  method UpdatePatient(db: Store, ctx: Context, id: Id, body: PatientPatch, env: Env) returns (resp: Response)
    requires db.Valid()
    modifies db
    ensures db.Valid()
    ensures var i := FindPatient(old(db.patients), id, ctx.clinicId);
            && (i.None? ==> resp == Fail(NOT_FOUND, MSG_NOT_FOUND) && db.patients == old(db.patients))
            && (i.Some? ==>
                  && db.patients == old(db.patients)[i.value := ApplyPatientPatch(old(db.patients)[i.value],
                                                          body.(id := None, clinicId := None, cnp := None))]
                  && resp == Response(OK, PatientBody(db.patients[i.value])))
    ensures forall j :: 0 <= j < |db.patients| ==>
              db.patients[j].id == old(db.patients)[j].id
              && db.patients[j].clinicId == old(db.patients)[j].clinicId
              && db.patients[j].cnp == old(db.patients)[j].cnp
    ensures db.clinics == old(db.clinics) && db.users == old(db.users) && db.evaluations == old(db.evaluations)
    ensures db.auditLog == AfterResponse(old(db.auditLog), resp.status, env.auditWrites, AuditFor(Update, ctx, Some(id), env))
  {
    var updateData := body;
    updateData := updateData.(clinicId := None);
    updateData := updateData.(cnp := None);
    updateData := updateData.(id := None);
    // the relation keys are not applied: see RelationKeyMovesPatient
    updateData := updateData.(relations := []);
    var i := FindPatient(db.patients, id, ctx.clinicId);
    if i.None? {
      resp := Fail(NOT_FOUND, MSG_NOT_FOUND);
    } else {
      var updated := ApplyPatientPatch(db.patients[i.value], updateData);
      var ps := db.patients[i.value := updated];
      assert SamePatientKeys(db.patients, ps);
      SameKeysKeepInvariants(db.patients, ps, db.evaluations);
      db.patients := ps;
      resp := Response(OK, PatientBody(updated));
    }
    RecordAudit(db, resp.status, AuditFor(Update, ctx, Some(id), env), env.auditWrites);
  }

  /** A patient row after the `clinic: { connect: { id } }` keys of a body
      are applied in order; nothing but the clinic changes. */
  function ConnectedClinic(p: Patient, rs: seq<RelationWrite>): (r: Patient)
    ensures r == p.(clinicId := r.clinicId)
    decreases rs
  {
    if |rs| == 0 then p
    else ConnectedClinic(if rs[0].ConnectClinic? then p.(clinicId := rs[0].clinicId) else p, rs[1..])
  }

  /** The row PUT /patients/:id writes as the code stands: the body goes to
      `patient.update` with only id, clinicId and cnp deleted, so its
      relation keys are applied too. */
  function UpdatedAsWritten(p: Patient, body: PatientPatch): Patient {
    ConnectedClinic(ApplyPatientPatch(p, body.(id := None, clinicId := None, cnp := None)), body.relations)
  }

  /** As written, a body `{ "clinic": { "connect": { "id": B } } }` moves a
      patient of clinic A into clinic B, although clinicId is deleted from the
      body to prevent just that; the patient's evaluations stay in A and lose
      their owner there, so the database is no longer consistent. The update
      as modelled (UpdatePatient) writes columns only and keeps the patient in A. */
  lemma RelationKeyMovesPatient(ps: seq<Patient>, es: seq<Evaluation>, i: nat, k: nat, body: PatientPatch, other: Id)
    requires PatientIdsUnique(ps)
    requires i < |ps| && k < |es| && es[k].patientId == ps[i].id && es[k].clinicId == ps[i].clinicId
    requires other != ps[i].clinicId && body.relations == [ConnectClinic(other)]
    ensures UpdatedAsWritten(ps[i], body).clinicId == other
    ensures !EvaluationsOwned(ps[i := UpdatedAsWritten(ps[i], body)], es)
    ensures ApplyPatientPatch(ps[i], body.(id := None, clinicId := None, cnp := None)).clinicId == ps[i].clinicId
  {
    var x := ApplyPatientPatch(ps[i], body.(id := None, clinicId := None, cnp := None));
    assert body.relations[1..] == [];
    assert UpdatedAsWritten(ps[i], body) == ConnectedClinic(x.(clinicId := other), []);
    var ps' := ps[i := UpdatedAsWritten(ps[i], body)];
    forall j | 0 <= j < |ps'| && ps'[j].id == es[k].patientId
      ensures ps'[j].clinicId != es[k].clinicId
    {
      assert ps'[j].id == ps[j].id;
      assert j == i;
    }
    assert !Owned(ps', es[k]);
  }

  /** The row after POST /patients/:id/archive. */
  function Archived(p: Patient, now: Time): Patient {
    p.(isArchived := true, archivedAt := Some(now))
  }

  /** The row after POST /patients/:id/unarchive. */
  function Unarchived(p: Patient): Patient {
    p.(isArchived := false, archivedAt := None)
  }

  /** Unarchiving undoes archiving, and an archived patient leaves the default listing. */
  lemma ArchiveRoundTrip(p: Patient, now: Time, clinicId: Id, f: PatientFilter)
    requires !p.isArchived && p.archivedAt.None?
    ensures Unarchived(Archived(p, now)) == p
    ensures f.archived != Some("true") ==> Listed(p, clinicId, f) == Listed(Archived(p, now), clinicId, f.(archived := Some("true")))
    ensures f.archived != Some("true") ==> !Listed(Archived(p, now), clinicId, f)
  {
  }

  /** PUT /patients/:id deletes only id, clinicId and cnp from the body and
      checks no role: a body carrying `isArchived` and `archivedAt` gives the
      row the same archived state the role-restricted archive route gives it. */
  lemma UpdateCanSetArchivedState(p: Patient, d: PatientPatch, now: Time)
    requires d.isArchived == Some(true) && d.archivedAt == Some(Some(now))
    ensures var u := ApplyPatientPatch(p, d.(id := None, clinicId := None, cnp := None));
            u.isArchived == Archived(p, now).isArchived && u.archivedAt == Archived(p, now).archivedAt
            && u.id == p.id && u.clinicId == p.clinicId && u.cnp == p.cnp
  {
  }

  /** Both archive routes: requireRole('ADMIN', 'DOCTOR'), the scoped lookup,
      then the flag and the timestamp of exactly that row. */
  method SetArchived(db: Store, ctx: Context, id: Id, archive: bool, env: Env) returns (resp: Response)
    requires db.Valid()
    modifies db
    ensures db.Valid()
    ensures var denied := RequireRole(Some(ctx.user), [ADMIN, DOCTOR]);
            var i := FindPatient(old(db.patients), id, ctx.clinicId);
            && (denied.Some? ==> resp == denied.value && db.patients == old(db.patients))
            && (denied.None? && i.None? ==> resp == Fail(NOT_FOUND, MSG_NOT_FOUND) && db.patients == old(db.patients))
            && (denied.None? && i.Some? ==>
                  var row := old(db.patients)[i.value];
                  var updated := if archive then Archived(row, env.now) else Unarchived(row);
                  db.patients == old(db.patients)[i.value := updated] && resp == Response(OK, PatientBody(updated)))
    ensures db.clinics == old(db.clinics) && db.users == old(db.users) && db.evaluations == old(db.evaluations)
    ensures RequireRole(Some(ctx.user), [ADMIN, DOCTOR]).Some? ==> db.auditLog == old(db.auditLog)
    ensures RequireRole(Some(ctx.user), [ADMIN, DOCTOR]).None? ==>
              db.auditLog == AfterResponse(old(db.auditLog), resp.status, env.auditWrites, AuditFor(Update, ctx, Some(id), env))
  {
    var denied := RequireRole(Some(ctx.user), [ADMIN, DOCTOR]);
    if denied.Some? {
      return denied.value;
    }
    var i := FindPatient(db.patients, id, ctx.clinicId);
    if i.None? {
      resp := Fail(NOT_FOUND, MSG_NOT_FOUND);
    } else {
      var row := db.patients[i.value];
      var updated := if archive then Archived(row, env.now) else Unarchived(row);
      var ps := db.patients[i.value := updated];
      assert SamePatientKeys(db.patients, ps);
      SameKeysKeepInvariants(db.patients, ps, db.evaluations);
      db.patients := ps;
      resp := Response(OK, PatientBody(updated));
    }
    RecordAudit(db, resp.status, AuditFor(Update, ctx, Some(id), env), env.auditWrites);
  }
}
