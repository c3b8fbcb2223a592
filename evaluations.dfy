/** The medical evaluations, backend/src/routes/evaluations.js: create,
    list with filters, read, update and archive, every one scoped by the
    caller's clinic. */
module Evaluations {
  import opened Base
  import opened Query
  import opened Records
  import opened Http
  import opened Db
  import opened Guard
  import Patients

  const MSG_PATIENT_REQUIRED := "ID-ul pacientului este obligatoriu"
  const MSG_CREATE_ERROR := "Eroare la crearea evaluării medicale"
  const MSG_NOT_FOUND := "Evaluarea nu a fost găsită"
  const MSG_LIST_ERROR := "Eroare la obținerea evaluărilor"

  /** The row `medicalEvaluation.create` writes: the body's own fields, with
      patientId, clinicId, userId and evaluationDate set by the handler. A
      column the body leaves out takes its default (the generated id, not
      archived, created now). */
  function NewEvaluation(freshId: Id, patientId: Id, ctx: Context, b: EvaluationInput, now: Time): (e: Evaluation)
    ensures e.patientId == patientId && e.clinicId == ctx.clinicId && e.userId == ctx.user.id
    ensures e.evaluationDate == now && e.answers == b.answers
    ensures e.id == if b.id.Some? then b.id.value else freshId
    ensures e.evaluationType == b.evaluationType.GetOr(None)
    ensures e.isArchived == b.isArchived.GetOr(false) && e.archivedAt == b.archivedAt.GetOr(None)
    ensures e.createdAt == b.createdAt.GetOr(now)
  {
    Evaluation(b.id.GetOr(freshId), ctx.clinicId, patientId, ctx.user.id, now,
               b.evaluationType.GetOr(None), b.isArchived.GetOr(false), b.archivedAt.GetOr(None),
               b.createdAt.GetOr(now), b.answers)
  }

  /** The `medicalEvaluation.create` throws: an id the body supplies that is
      already in use violates the primary key, and a relation key in the
      body, next to the foreign keys the handler sets, is an input Prisma
      refuses. */
  predicate CreateRefused(es: seq<Evaluation>, b: EvaluationInput) {
    || (b.id.Some? && exists j :: 0 <= j < |es| && es[j].id == b.id.value)
    || |b.relations| > 0
  }

  /** POST /evaluations. */
  method CreateEvaluation(db: Store, ctx: Context, body: EvaluationInput, env: Env) returns (resp: Response)
    requires db.Valid()
    requires forall j :: 0 <= j < |db.evaluations| ==> db.evaluations[j].id != env.freshId
    modifies db
    ensures db.Valid()
    ensures !Present(body.patientId) ==>
              resp == Fail(BAD_REQUEST, MSG_PATIENT_REQUIRED) && db.evaluations == old(db.evaluations)
    ensures Present(body.patientId) && FindPatient(db.patients, body.patientId.value, ctx.clinicId).None? ==>
              resp == Fail(NOT_FOUND, Patients.MSG_NOT_FOUND) && db.evaluations == old(db.evaluations)
    ensures Present(body.patientId) && FindPatient(db.patients, body.patientId.value, ctx.clinicId).Some? ==>
              if CreateRefused(old(db.evaluations), body) then
                resp == Fail(INTERNAL, MSG_CREATE_ERROR) && db.evaluations == old(db.evaluations)
              else
                var e := NewEvaluation(env.freshId, body.patientId.value, ctx, body, env.now);
                var p := db.patients[FindPatient(db.patients, body.patientId.value, ctx.clinicId).value];
                db.evaluations == old(db.evaluations) + [e] && resp == Response(CREATED, EvaluationDetail(e, Some(p)))
    ensures db.clinics == old(db.clinics) && db.users == old(db.users) && db.patients == old(db.patients)
    ensures db.auditLog == AfterResponse(old(db.auditLog), resp.status, env.auditWrites, AuditFor(Create, ctx, None, env))
  {
    if !Present(body.patientId) {
      resp := Fail(BAD_REQUEST, MSG_PATIENT_REQUIRED);
    } else {
      var patientId := body.patientId.value;
      var i := FindPatient(db.patients, patientId, ctx.clinicId);
      if i.None? {
        resp := Fail(NOT_FOUND, Patients.MSG_NOT_FOUND);
      } else if CreateRefused(db.evaluations, body) {
        resp := Fail(INTERNAL, MSG_CREATE_ERROR);
      } else {
        var e := NewEvaluation(env.freshId, patientId, ctx, body, env.now);
        assert Owned(db.patients, e) by {
          assert db.patients[i.value].id == e.patientId && db.patients[i.value].clinicId == e.clinicId;
        }
        AppendEvaluationKeepsInvariants(db.patients, db.evaluations, e);
        db.evaluations := db.evaluations + [e];
        resp := Response(CREATED, EvaluationDetail(e, Some(db.patients[i.value])));
      }
    }
    RecordAudit(db, resp.status, AuditFor(Create, ctx, None, env), env.auditWrites);
  }

  /** The filters of GET /evaluations; the dates are the parsed `startDate` and `endDate`. */
  datatype EvaluationFilter = EvaluationFilter(
    patientId: Option<string>,
    evaluationType: Option<string>,
    startDate: Option<Time>,
    endDate: Option<Time>,
    archived: Option<string>)

  /** The query string of GET /evaluations: page and limit as parsed
      integers when given, and the filters. */
  datatype EvaluationQuery = EvaluationQuery(page: Option<nat>, limit: Option<nat>, filter: EvaluationFilter) {
    /** `page = 1` when the parameter is absent. */
    function PageNumber(): nat {
      page.GetOr(Patients.DEFAULT_PAGE)
    }

    /** `limit = 20` when the parameter is absent. */
    function PageSize(): nat {
      limit.GetOr(Patients.DEFAULT_LIMIT)
    }
  }

  /** The `where` of GET /evaluations: the caller's clinic, the archived flag,
      and each filter that is given (an empty string is no filter); the date
      bounds are inclusive. */
  predicate Selected(e: Evaluation, clinicId: Id, f: EvaluationFilter) {
    && e.clinicId == clinicId
    && e.isArchived == (f.archived == Some("true"))
    && (Present(f.patientId) ==> e.patientId == f.patientId.value)
    && (Present(f.evaluationType) ==> e.evaluationType == f.evaluationType)
    && (f.startDate.Some? ==> e.evaluationDate >= f.startDate.value)
    && (f.endDate.Some? ==> e.evaluationDate <= f.endDate.value)
  }

  function IsSelected(clinicId: Id, f: EvaluationFilter): Evaluation -> bool {
    (e: Evaluation) => Selected(e, clinicId, f)
  }

  /** Every selected evaluation, latest evaluation date first. */
  function Selection(es: seq<Evaluation>, clinicId: Id, f: EvaluationFilter): seq<Evaluation> {
    Ranked(es, IsSelected(clinicId, f), Patients.EvaluationDate)
  }

  /** GET /evaluations. A page of 0 makes the skip negative, which Prisma
      refuses, unless the limit is 0 too (a skip of -0 passes as 0). */
  function ListEvaluations(es: seq<Evaluation>, clinicId: Id, q: EvaluationQuery): (r: Response)
    ensures q.page == Some(0) && q.PageSize() > 0 <==> r == Fail(INTERNAL, MSG_LIST_ERROR)
    ensures q.PageNumber() > 0 || q.PageSize() == 0 ==>
              r.status == OK && r.body.EvaluationPage? && |r.body.evaluations| <= q.PageSize()
    ensures q.PageNumber() > 0 || q.PageSize() == 0 ==>
              r.body.pagination.page == q.PageNumber() && r.body.pagination.limit == q.PageSize()
  {
    var page := q.PageNumber();
    var limit := q.PageSize();
    if page == 0 && limit > 0 then Fail(INTERNAL, MSG_LIST_ERROR)
    else
      var rows := Selection(es, clinicId, q.filter);
      Response(OK, EvaluationPage(NthPage(rows, limit, page),
                                  Pagination(|rows|, page, limit, PageCount(|rows|, limit))))
  }

  /** A page is the window of the selection that skips (page - 1) * limit
      rows, so it holds only evaluations of the caller's clinic that pass
      every filter, latest first; the total counts every one that passes. */
  lemma ListEvaluationsSound(es: seq<Evaluation>, clinicId: Id, q: EvaluationQuery)
    requires q.PageNumber() > 0 || q.PageSize() == 0
    ensures var r := ListEvaluations(es, clinicId, q);
            && r.body.evaluations == NthPage(Selection(es, clinicId, q.filter), q.PageSize(), q.PageNumber())
            && (forall i :: 0 <= i < |r.body.evaluations| ==>
                  r.body.evaluations[i] in es && r.body.evaluations[i].clinicId == clinicId
                  && Selected(r.body.evaluations[i], clinicId, q.filter))
            && SortedDesc(r.body.evaluations, Patients.EvaluationDate)
            && r.body.pagination.total == |Filter(es, IsSelected(clinicId, q.filter))|
            && (q.PageSize() > 0 ==> r.body.pagination.pages == Some(CeilDiv(r.body.pagination.total, q.PageSize())))
  {
    var rows := Selection(es, clinicId, q.filter);
    assert ListEvaluations(es, clinicId, q).body.evaluations == NthPage(rows, q.PageSize(), q.PageNumber());
    RankedCorrect(es, IsSelected(clinicId, q.filter), Patients.EvaluationDate);
    SelectionPage(es, clinicId, q.filter, q.PageSize(), q.PageNumber());
  }

  /** Page n of the selection holds selected evaluations of the clinic, latest first. */
  lemma SelectionPage(es: seq<Evaluation>, clinicId: Id, f: EvaluationFilter, limit: nat, n: nat)
    ensures var page := NthPage(Selection(es, clinicId, f), limit, n);
            && (forall i :: 0 <= i < |page| ==> page[i] in es && page[i].clinicId == clinicId && Selected(page[i], clinicId, f))
            && SortedDesc(page, Patients.EvaluationDate)
  {
    RankedPage(es, IsSelected(clinicId, f), Patients.EvaluationDate, limit, n);
  }

  /** Walking pages 1 to `pages` reaches every selected evaluation. */
  lemma EverySelectedOnSomePage(es: seq<Evaluation>, clinicId: Id, q: EvaluationQuery, k: nat)
    requires q.PageSize() > 0
    requires k < |es| && Selected(es[k], clinicId, q.filter)
    ensures exists n :: 1 <= n <= CeilDiv(|Selection(es, clinicId, q.filter)|, q.PageSize()) &&
              es[k] in ListEvaluations(es, clinicId, q.(page := Some(n))).body.evaluations
  {
    var rows := Selection(es, clinicId, q.filter);
    assert IsSelected(clinicId, q.filter)(es[k]);
    RankedOnSomePage(es, IsSelected(clinicId, q.filter), Patients.EvaluationDate, q.PageSize(), k);
    var n :| 1 <= n <= CeilDiv(|rows|, q.PageSize()) && es[k] in NthPage(rows, q.PageSize(), n);
    assert ListEvaluations(es, clinicId, q.(page := Some(n))).body.evaluations == NthPage(rows, q.PageSize(), n);
  }

  /** GET /evaluations/:id: the evaluation of the caller's clinic with its patient. */
  function EvaluationDetailResponse(ps: seq<Patient>, es: seq<Evaluation>, clinicId: Id, id: Id): (r: Response)
    ensures FindEvaluation(es, id, clinicId).None? <==> r == Fail(NOT_FOUND, MSG_NOT_FOUND)
    ensures FindEvaluation(es, id, clinicId).Some? ==>
              var e := es[FindEvaluation(es, id, clinicId).value];
              r == Response(OK, EvaluationDetail(e, PatientById(ps, e.patientId)))
    ensures r.status == OK ==>
              r.body.EvaluationDetail? && r.body.evaluation in es && r.body.evaluation.id == id
              && r.body.evaluation.clinicId == clinicId
  {
    match FindEvaluation(es, id, clinicId)
    case None => Fail(NOT_FOUND, MSG_NOT_FOUND)
    case Some(i) => Response(OK, EvaluationDetail(es[i], PatientById(ps, es[i].patientId)))
  }

  /** In a consistent database the included patient is always there, and
      belongs to the caller's clinic too. */
  lemma IncludedPatientSameClinic(ps: seq<Patient>, es: seq<Evaluation>, clinicId: Id, id: Id)
    requires PatientIdsUnique(ps) && EvaluationsOwned(ps, es)
    requires EvaluationDetailResponse(ps, es, clinicId, id).status == OK
    ensures var r := EvaluationDetailResponse(ps, es, clinicId, id);
            r.body.subject.Some? && r.body.subject.value.id == r.body.evaluation.patientId
            && r.body.subject.value.clinicId == clinicId
  {
    var i := FindEvaluation(es, id, clinicId).value;
    assert Owned(ps, es[i]);
    var j :| 0 <= j < |ps| && ps[j].id == es[i].patientId && ps[j].clinicId == es[i].clinicId;
    var p := PatientById(ps, es[i].patientId);
    assert p.Some? by {
      assert ps[j].id == es[i].patientId;
    }
    var k :| 0 <= k < |ps| && ps[k] == p.value;
    assert ps[k].id == ps[j].id;
  }

  /** A freshly created evaluation is found by its id in the creator's clinic, and nowhere else. */
  lemma CreatedIsReadable(ps: seq<Patient>, es: seq<Evaluation>, e: Evaluation, clinicId: Id)
    requires forall j :: 0 <= j < |es| ==> es[j].id != e.id
    ensures clinicId == e.clinicId ==>
              EvaluationDetailResponse(ps, es + [e], clinicId, e.id).body == EvaluationDetail(e, PatientById(ps, e.patientId))
    ensures clinicId != e.clinicId ==> EvaluationDetailResponse(ps, es + [e], clinicId, e.id) == Fail(NOT_FOUND, MSG_NOT_FOUND)
  {
    var es' := es + [e];
    if clinicId == e.clinicId {
      assert es'[|es|] == e;
    }
  }

  /** GET /evaluations/:id with its READ audit entry. */
  method GetEvaluation(db: Store, ctx: Context, id: Id, env: Env) returns (resp: Response)
    modifies db`auditLog
    ensures resp == EvaluationDetailResponse(db.patients, db.evaluations, ctx.clinicId, id)
    ensures db.auditLog == AfterResponse(old(db.auditLog), resp.status, env.auditWrites, AuditFor(Read, ctx, Some(id), env))
  {
    resp := EvaluationDetailResponse(db.patients, db.evaluations, ctx.clinicId, id);
    RecordAudit(db, resp.status, AuditFor(Read, ctx, Some(id), env), env.auditWrites);
  }

  /** The body of PUT /evaluations/:id once id, clinicId, patientId, userId
      and createdAt are deleted from it. */
  function Stripped(b: EvaluationInput): (d: EvaluationInput)
    ensures d.id.None? && d.clinicId.None? && d.patientId.None? && d.userId.None? && d.createdAt.None?
    ensures d.evaluationDate == b.evaluationDate && d.evaluationType == b.evaluationType
    ensures d.isArchived == b.isArchived && d.archivedAt == b.archivedAt && d.answers == b.answers
  {
    b.(id := None, clinicId := None, patientId := None, userId := None, createdAt := None)
  }

  /** An update through the route never moves an evaluation to another
      patient, clinic or author, nor rewrites its identity or creation time;
      the answers it sends replace those fields and leave the rest. */
  lemma UpdateKeepsOwnership(e: Evaluation, b: EvaluationInput)
    ensures var u := ApplyEvaluationPatch(e, Stripped(b));
            && u.id == e.id && u.clinicId == e.clinicId && u.patientId == e.patientId
            && u.userId == e.userId && u.createdAt == e.createdAt
            && (forall k :: k in b.answers ==> k in u.answers && u.answers[k] == b.answers[k])
            && (forall k :: k in e.answers && k !in b.answers ==> k in u.answers && u.answers[k] == e.answers[k])
            && u.answers.Keys == e.answers.Keys + b.answers.Keys
  {
  }

  /** An evaluation row after the `patient`, `clinic` and `user` connect keys
      of a body are applied in order; its id and answers never change. */
  function ConnectedOwners(e: Evaluation, rs: seq<RelationWrite>): (r: Evaluation)
    ensures r.id == e.id && r.answers == e.answers
    decreases rs
  {
    if |rs| == 0 then e
    else
      var next := match rs[0]
        case ConnectPatient(patientId) => e.(patientId := patientId)
        case ConnectClinic(clinicId) => e.(clinicId := clinicId)
        case ConnectUser(userId) => e.(userId := userId)
        case _ => e;
      ConnectedOwners(next, rs[1..])
  }

  /** The row PUT /evaluations/:id writes as the code stands: patientId,
      clinicId and userId are deleted from the body, but its relation keys
      are handed to `medicalEvaluation.update` with the rest. */
  function UpdatedAsWritten(e: Evaluation, body: EvaluationInput): Evaluation {
    ConnectedOwners(ApplyEvaluationPatch(e, Stripped(body)), body.relations)
  }

  /** As written, a body `{ "patient": { "connect": { "id": P } } }` attaches
      the evaluation to P even when P is a patient of another clinic, so the
      evaluation loses its owner in its own clinic. The update as modelled
      (UpdateEvaluation) writes columns only and keeps the patient. */
  lemma RelationKeyReassignsEvaluation(ps: seq<Patient>, e: Evaluation, body: EvaluationInput, j: nat)
    requires PatientIdsUnique(ps)
    requires j < |ps| && ps[j].clinicId != e.clinicId && body.relations == [ConnectPatient(ps[j].id)]
    ensures UpdatedAsWritten(e, body).patientId == ps[j].id
    ensures !Owned(ps, UpdatedAsWritten(e, body))
    ensures ApplyEvaluationPatch(e, Stripped(body)).patientId == e.patientId
  {
    var x := ApplyEvaluationPatch(e, Stripped(body));
    assert body.relations[1..] == [];
    var u := UpdatedAsWritten(e, body);
    assert u == ConnectedOwners(x.(patientId := ps[j].id), []);
    forall k | 0 <= k < |ps| && ps[k].id == u.patientId
      ensures ps[k].clinicId != u.clinicId
    {
      assert k == j;
    }
  }

  /** PUT /evaluations/:id: requireRole('ADMIN', 'DOCTOR'), then the scoped
      lookup, then the stripped body written over that row. */
  method UpdateEvaluation(db: Store, ctx: Context, id: Id, body: EvaluationInput, env: Env) returns (resp: Response)
    requires db.Valid()
    modifies db
    ensures db.Valid()
    ensures var denied := RequireRole(Some(ctx.user), [ADMIN, DOCTOR]);
            var i := FindEvaluation(old(db.evaluations), id, ctx.clinicId);
            && (denied.Some? ==> resp == denied.value && db.evaluations == old(db.evaluations))
            && (denied.None? && i.None? ==> resp == Fail(NOT_FOUND, MSG_NOT_FOUND) && db.evaluations == old(db.evaluations))
            && (denied.None? && i.Some? ==>
                  var updated := ApplyEvaluationPatch(old(db.evaluations)[i.value], Stripped(body));
                  && db.evaluations == old(db.evaluations)[i.value := updated]
                  && resp == Response(OK, EvaluationDetail(updated, PatientById(db.patients, updated.patientId))))
    ensures db.clinics == old(db.clinics) && db.users == old(db.users) && db.patients == old(db.patients)
    ensures RequireRole(Some(ctx.user), [ADMIN, DOCTOR]).Some? ==> db.auditLog == old(db.auditLog)
    ensures RequireRole(Some(ctx.user), [ADMIN, DOCTOR]).None? ==>
              db.auditLog == AfterResponse(old(db.auditLog), resp.status, env.auditWrites, AuditFor(Update, ctx, Some(id), env))
  {
    var denied := RequireRole(Some(ctx.user), [ADMIN, DOCTOR]);
    if denied.Some? {
      return denied.value;
    }
    // the relation keys are not applied: see RelationKeyReassignsEvaluation
    var updateData := Stripped(body).(relations := []);
    var i := FindEvaluation(db.evaluations, id, ctx.clinicId);
    if i.None? {
      resp := Fail(NOT_FOUND, MSG_NOT_FOUND);
    } else {
      var updated := ApplyEvaluationPatch(db.evaluations[i.value], updateData);
      ReplaceEvaluationKeepsInvariants(db.patients, db.evaluations, i.value, updated);
      db.evaluations := db.evaluations[i.value := updated];
      resp := Response(OK, EvaluationDetail(updated, PatientById(db.patients, updated.patientId)));
    }
    RecordAudit(db, resp.status, AuditFor(Update, ctx, Some(id), env), env.auditWrites);
  }

  /** The row after POST /evaluations/:id/archive. */
  function ArchivedEvaluation(e: Evaluation, now: Time): (a: Evaluation)
    ensures a.isArchived && a.archivedAt == Some(now)
    ensures a.(isArchived := e.isArchived, archivedAt := e.archivedAt) == e
  {
    e.(isArchived := true, archivedAt := Some(now))
  }

  /** An archived evaluation drops out of every listing that does not ask for
      archived ones, and appears in the archived listing under the same filters. */
  lemma ArchivedLeavesDefaultList(e: Evaluation, now: Time, clinicId: Id, f: EvaluationFilter)
    requires f.archived != Some("true")
    ensures !Selected(ArchivedEvaluation(e, now), clinicId, f)
    ensures Selected(e, clinicId, f) ==> Selected(ArchivedEvaluation(e, now), clinicId, f.(archived := Some("true")))
  {
  }

  /** POST /evaluations/:id/archive. */
  method ArchiveEvaluation(db: Store, ctx: Context, id: Id, env: Env) returns (resp: Response)
    requires db.Valid()
    modifies db
    ensures db.Valid()
    ensures var denied := RequireRole(Some(ctx.user), [ADMIN, DOCTOR]);
            var i := FindEvaluation(old(db.evaluations), id, ctx.clinicId);
            && (denied.Some? ==> resp == denied.value && db.evaluations == old(db.evaluations))
            && (denied.None? && i.None? ==> resp == Fail(NOT_FOUND, MSG_NOT_FOUND) && db.evaluations == old(db.evaluations))
            && (denied.None? && i.Some? ==>
                  var updated := ArchivedEvaluation(old(db.evaluations)[i.value], env.now);
                  db.evaluations == old(db.evaluations)[i.value := updated] && resp == Response(OK, EvaluationBody(updated)))
    ensures db.clinics == old(db.clinics) && db.users == old(db.users) && db.patients == old(db.patients)
    ensures RequireRole(Some(ctx.user), [ADMIN, DOCTOR]).Some? ==> db.auditLog == old(db.auditLog)
    ensures RequireRole(Some(ctx.user), [ADMIN, DOCTOR]).None? ==>
              db.auditLog == AfterResponse(old(db.auditLog), resp.status, env.auditWrites, AuditFor(Update, ctx, Some(id), env))
  {
    var denied := RequireRole(Some(ctx.user), [ADMIN, DOCTOR]);
    if denied.Some? {
      return denied.value;
    }
    var i := FindEvaluation(db.evaluations, id, ctx.clinicId);
    if i.None? {
      resp := Fail(NOT_FOUND, MSG_NOT_FOUND);
    } else {
      var updated := ArchivedEvaluation(db.evaluations[i.value], env.now);
      ReplaceEvaluationKeepsInvariants(db.patients, db.evaluations, i.value, updated);
      db.evaluations := db.evaluations[i.value := updated];
      resp := Response(OK, EvaluationBody(updated));
    }
    RecordAudit(db, resp.status, AuditFor(Update, ctx, Some(id), env), env.auditWrites);
  }
}
