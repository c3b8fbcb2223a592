/** The global search, backend/src/routes/search.js: one query string
    matched against the clinic's active patients and against the active
    evaluations through their patient. */
module Search {
  import opened Base
  import opened Text
  import opened Query
  import opened Records
  import opened Http
  import opened Db
  import opened Guard
  import Patients

  const MSG_QUERY_TOO_SHORT := "Interogarea trebuie să conțină cel puțin 2 caractere"
  const DEFAULT_KIND := "all"
  const DEFAULT_LIMIT: nat := 20

  /** The name or the CNP holds the query: names ignoring case, the CNP exactly. */
  predicate NameOrCnpMatch(p: Patient, q: string) {
    || ContainsInsensitive(p.firstName, q)
    || ContainsInsensitive(p.lastName, q)
    || Contains(p.cnp, q)
  }

  /** The patient `where`: the caller's clinic, not archived, and the query in
      a name, the CNP or the phone number. */
  predicate PatientHit(p: Patient, clinicId: Id, q: string) {
    && p.clinicId == clinicId
    && !p.isArchived
    && (NameOrCnpMatch(p, q) || (p.phone.Some? && Contains(p.phone.value, q)))
  }

  /** The evaluation `where`: the caller's clinic, not archived, and its
      patient's name or CNP holds the query (the phone is not searched here). */
  predicate EvaluationHit(ps: seq<Patient>, e: Evaluation, clinicId: Id, q: string) {
    && e.clinicId == clinicId
    && !e.isArchived
    && PatientById(ps, e.patientId).Some?
    && NameOrCnpMatch(PatientById(ps, e.patientId).value, q)
  }

  function IsPatientHit(clinicId: Id, q: string): Patient -> bool {
    (p: Patient) => PatientHit(p, clinicId, q)
  }

  function IsEvaluationHit(ps: seq<Patient>, clinicId: Id, q: string): Evaluation -> bool {
    (e: Evaluation) => EvaluationHit(ps, e, clinicId, q)
  }

  /** The patient hits: newest first, at most `take`. */
  function PatientHits(ps: seq<Patient>, clinicId: Id, q: string, take: nat): seq<Patient> {
    PageOf(Ranked(ps, IsPatientHit(clinicId, q), Patients.CreatedAt), 0, take)
  }

  /** The evaluation hits: latest first, at most `take`. */
  function EvaluationHits(ps: seq<Patient>, es: seq<Evaluation>, clinicId: Id, q: string, take: nat): seq<Evaluation> {
    PageOf(Ranked(es, IsEvaluationHit(ps, clinicId, q), Patients.EvaluationDate), 0, take)
  }

  /** GET /search with its `query`, `type` (default 'all') and `limit` (default 20). */
  function SearchResponse(ps: seq<Patient>, es: seq<Evaluation>, clinicId: Id,
                          query: Option<string>, kind: Option<string>, limit: Option<nat>): (r: Response)
    ensures query.None? || |query.value| < 2 <==> r == Fail(BAD_REQUEST, MSG_QUERY_TOO_SHORT)
    ensures r.status == OK <==> query.Some? && |query.value| >= 2
    ensures r.status == OK ==>
              && r.body.SearchBody?
              && |r.body.patientHits| <= limit.GetOr(DEFAULT_LIMIT)
              && |r.body.evaluationHits| <= limit.GetOr(DEFAULT_LIMIT)
  {
    if query.None? || |query.value| < 2 then Fail(BAD_REQUEST, MSG_QUERY_TOO_SHORT)
    else
      var q := query.value;
      var k := kind.GetOr(DEFAULT_KIND);
      var take := limit.GetOr(DEFAULT_LIMIT);
      Response(OK, SearchBody(
        if k == "all" || k == "patients" then PatientHits(ps, clinicId, q, take) else [],
        if k == "all" || k == "evaluations" then EvaluationHits(ps, es, clinicId, q, take) else []))
  }

  /** The hits are rows of the caller's clinic that match, none archived,
      newest first; there are as many as there are matches, up to `take`,
      so every match is found when no more than `take` match; and a
      matching row left out is no newer than any row shown. */
  lemma SearchSound(ps: seq<Patient>, es: seq<Evaluation>, clinicId: Id, q: string, take: nat)
    ensures var hits := PatientHits(ps, clinicId, q, take);
            && |hits| == Min(take, |Filter(ps, IsPatientHit(clinicId, q))|)
            && (take >= |Filter(ps, IsPatientHit(clinicId, q))| ==>
                  forall j :: 0 <= j < |ps| && PatientHit(ps[j], clinicId, q) ==> ps[j] in hits)
            && (forall i :: 0 <= i < |hits| ==> hits[i] in ps && PatientHit(hits[i], clinicId, q))
            && SortedDesc(hits, Patients.CreatedAt)
            && (forall j :: 0 <= j < |ps| && PatientHit(ps[j], clinicId, q) && ps[j] !in hits ==>
                  forall i :: 0 <= i < |hits| ==> hits[i].createdAt >= ps[j].createdAt)
    ensures var hits := EvaluationHits(ps, es, clinicId, q, take);
            && |hits| == Min(take, |Filter(es, IsEvaluationHit(ps, clinicId, q))|)
            && (take >= |Filter(es, IsEvaluationHit(ps, clinicId, q))| ==>
                  forall j :: 0 <= j < |es| && EvaluationHit(ps, es[j], clinicId, q) ==> es[j] in hits)
            && (forall i :: 0 <= i < |hits| ==> hits[i] in es && EvaluationHit(ps, hits[i], clinicId, q))
            && SortedDesc(hits, Patients.EvaluationDate)
            && (forall j :: 0 <= j < |es| && EvaluationHit(ps, es[j], clinicId, q) && es[j] !in hits ==>
                  forall i :: 0 <= i < |hits| ==> hits[i].evaluationDate >= es[j].evaluationDate)
  {
    RankedPage(ps, IsPatientHit(clinicId, q), Patients.CreatedAt, take, 1);
    TopRanked(ps, IsPatientHit(clinicId, q), Patients.CreatedAt, take);
    RankedPage(es, IsEvaluationHit(ps, clinicId, q), Patients.EvaluationDate, take, 1);
    TopRanked(es, IsEvaluationHit(ps, clinicId, q), Patients.EvaluationDate, take);
  }

  /** `type` picks the lists that are searched, each the newest hits up to
      `limit` (default 20); any other value returns both empty. */
  lemma KindSelectsLists(ps: seq<Patient>, es: seq<Evaluation>, clinicId: Id, query: string,
                         kind: Option<string>, limit: Option<nat>)
    requires |query| >= 2
    ensures var r := SearchResponse(ps, es, clinicId, Some(query), kind, limit);
            && (kind.GetOr(DEFAULT_KIND) in {"all", "patients"} ==>
                  r.body.patientHits == PatientHits(ps, clinicId, query, limit.GetOr(DEFAULT_LIMIT)))
            && (kind.GetOr(DEFAULT_KIND) in {"all", "evaluations"} ==>
                  r.body.evaluationHits == EvaluationHits(ps, es, clinicId, query, limit.GetOr(DEFAULT_LIMIT)))
            && (kind == Some("patients") ==> r.body.evaluationHits == [])
            && (kind == Some("evaluations") ==> r.body.patientHits == [])
            && (kind.Some? && kind.value !in {"all", "patients", "evaluations"} ==>
                  r.body.patientHits == [] && r.body.evaluationHits == [])
            && (kind.None? ==> r == SearchResponse(ps, es, clinicId, Some(query), Some("all"), limit))
  {
  }

  /** Every patient the patient listing finds for a search term of two or more
      characters, the global search matches too; the global search also
      reads the phone number, which the listing does not. */
  lemma ListingMatchesAreSearchHits(p: Patient, clinicId: Id, q: string)
    requires |q| >= 2
    ensures Patients.Listed(p, clinicId, Patients.PatientFilter(Some(q), None)) ==> PatientHit(p, clinicId, q)
    ensures PatientHit(p, clinicId, q) && NameOrCnpMatch(p, q) ==>
              Patients.Listed(p, clinicId, Patients.PatientFilter(Some(q), None))
  {
  }

  /** An evaluation is found through its patient's name or CNP alone: a
      query that only the phone matches finds the patient but none of the
      patient's evaluations. */
  lemma PhoneMatchFindsPatientOnly(ps: seq<Patient>, e: Evaluation, clinicId: Id, q: string, p: Patient)
    requires PatientById(ps, e.patientId) == Some(p)
    requires p.clinicId == clinicId && !p.isArchived && !NameOrCnpMatch(p, q)
    requires p.phone.Some? && Contains(p.phone.value, q)
    ensures PatientHit(p, clinicId, q)
    ensures !EvaluationHit(ps, e, clinicId, q)
  {
  }

  /** GET /search with its READ audit entry (the route has no `:id`). */
  method SearchRecords(db: Store, ctx: Context, query: Option<string>, kind: Option<string>, limit: Option<nat>, env: Env)
    returns (resp: Response)
    modifies db`auditLog
    ensures resp == SearchResponse(db.patients, db.evaluations, ctx.clinicId, query, kind, limit)
    ensures db.auditLog == AfterResponse(old(db.auditLog), resp.status, env.auditWrites, AuditFor(Read, ctx, None, env))
  {
    resp := SearchResponse(db.patients, db.evaluations, ctx.clinicId, query, kind, limit);
    RecordAudit(db, resp.status, AuditFor(Read, ctx, None, env), env.auditWrites);
  }
}
