# Dentist_RO backend core in Dafny

This project models the request handlers of the Dentist_RO backend, a
multi-clinic patient register with pre-operative medical evaluations. It
covers the authentication guard, role check and audit hook
(`middleware/auth.js`), the patient routes, the evaluation routes, the
global search, login, `/me` and password change (`routes/auth.js`), and
the current-clinic routes.

The database is a class, `Db.Store`. It holds one sequence per table
(clinics, users, patients, evaluations, audit log), kept in insertion
order. `Store.Valid()` states the constraints the tables keep: unique ids,
unique emails, one CNP (the Romanian personal numeric code) per clinic,
and every evaluation owned by a patient of its own clinic. Handlers that
change the database are methods taking the store. Their `ensures` give
the response and the whole new state. Read-only handlers are functions.
Every query is an operation on sequences (`Query`): `findFirst` is the
first matching row, `findMany` and `count` are `Filter`, `orderBy desc` is
a descending sort that keeps rows with equal keys in storage order, and
`skip`/`take` is `PageOf`.

The handlers get everything outside the code as parameters:

- `jwt.verify` is a function from token to `TokenCheck`, which holds the
  decoded claims or one of the three kinds of error.
- `bcrypt.compare` is a function `(password, hash) -> bool`. The hash a
  password change stores is a parameter.
- `Env` holds the clock (`new Date()`), the id the database would
  generate, whether an audit write succeeds, and the request data the
  audit entry records.

Tenant isolation is proved at two levels, for the update handlers as
corrected under "## Findings". Each handler reads and writes only rows
found by the clinic-scoped lookup. `Api.Serve` proves that a request
rejected by the guard changes nothing. It also proves that an
authenticated request leaves other clinics' rows untouched, and that any
row it adds belongs to the caller's clinic.

The three update handlers (patient, evaluation, clinic) pass the request
body to Prisma's `update` after deleting a few keys. A body key naming a
relation (`clinic`, `patient`, `user`, `patients`, `users`,
`evaluations`) is then a nested write, and such writes cross clinics.
Request bodies therefore carry these keys as `RelationWrite`s. The
as-written functions (`Patients.UpdatedAsWritten`,
`Evaluations.UpdatedAsWritten`, `Clinics.PatientsAfterAsWritten`) apply
them, and one lemma per handler shows the isolation they break. The
handlers themselves model the evidently intended behaviour, which writes
columns only. Every isolation property above is proved about that
behaviour.

## Model

| member | source | states |
|---|---|---|
| Text.Lower | backend/src/routes/auth.js:19 | lower-casing maps each character to its lower-case form, keeps the length, leaves no capital letter of the modelled alphabet, and changes nothing in a string without capitals |
| Text.LowerIdempotent | backend/src/routes/auth.js:19 | lower-casing an already lower-cased email changes nothing |
| Text.ContainsIff | backend/src/routes/patients.js:97 | the `contains` filter holds exactly when the query occurs at some position of the value |
| Text.ContainsIsInsensitive | backend/src/routes/patients.js:95-96 | an exact occurrence is also a case-insensitive match |
| Text.InsensitiveIgnoresQueryCase | backend/src/routes/patients.js:95-96 | the case of the query does not change a case-insensitive match |
| Text.SplitOn | backend/src/middleware/auth.js:8 | `split(' ')` gives at least one piece, and no piece contains the separator |
| Text.JoinSplit | backend/src/middleware/auth.js:8 | joining the pieces of a split with the separator gives back the header |
| Query.IndexWhere | backend/src/routes/patients.js:134-153 | findFirst returns the first matching row, or none exactly when no row matches |
| Query.Filter | backend/src/routes/patients.js:101-114 | findMany/count returns only matching rows of the table and every matching row |
| Query.SortDescCorrect | backend/src/routes/patients.js:106 | `orderBy desc` gives a descending permutation of the rows |
| Query.RankedCorrect | backend/src/routes/evaluations.js:93-116 | the ordered result of a `where` is sorted and holds exactly the rows that match |
| Query.TopRanked | backend/src/routes/patients.js:140-142 | with `take: k`, min(k, matches) rows are returned, every match when there are at most k, and no matching row that is left out has a key above any row returned |
| Query.NthPageWindow | backend/src/routes/patients.js:103-104 | page n holds the rows from position (n - 1) * limit on, as many as remain up to `limit` |
| Query.RankedPage | backend/src/routes/patients.js:102-106 | a page of an ordered result holds only matching rows and is still in order |
| Query.OnSomePage | backend/src/routes/patients.js:104-105 | every row lies on one of pages 1 to ceil(total / limit) |
| Query.PageOf | backend/src/routes/patients.js:104-105 | `skip`/`take` returns at most `take` rows, the rows from position `skip` on |
| Query.CeilDiv | backend/src/routes/patients.js:122 | Math.ceil(total / limit): the smallest page count whose pages hold `total` rows |
| Query.PageCount | backend/src/routes/evaluations.js:124 | `pages` is absent (JSON null) exactly when the limit is 0 |
| Query.PagesCoverAll | backend/src/routes/patients.js:116-124 | pages 1 to `pages`, in order, list every row exactly once |
| Db.FindPatient | backend/src/routes/patients.js:134-138 | the clinic-scoped lookup returns a row with this id and clinic, or none when no such row exists |
| Db.PatientById | backend/src/routes/evaluations.js:141-142 | the evaluation's `patient` relation finds a row with that id, or none when there is none |
| Db.CnpTakenIff | backend/src/routes/patients.js:42-49 | the `clinicId_cnp` lookup succeeds exactly when a patient of this clinic has this CNP |
| Db.FindEvaluation | backend/src/routes/evaluations.js:136-140 | the clinic-scoped evaluation lookup returns a matching row, or none when there is none |
| Db.FindUser | backend/src/middleware/auth.js:17-22 | `findUnique` by id finds a user with that id, or none when there is none |
| Db.FindUserByEmail | backend/src/routes/auth.js:18-23 | `findUnique` by email finds a user with exactly that email, or none |
| Db.FindClinic | backend/src/routes/clinics.js:13-24 | `findUnique` by id finds a clinic with that id, or none when there is none |
| Db.SameKeysKeepInvariants | backend/src/routes/patients.js:172-175 | rewriting patients without changing id, clinic or CNP keeps every table constraint |
| Db.AppendPatientKeepsInvariants | backend/src/routes/patients.js:41-74 | adding a patient with a fresh id and an unused (clinic, CNP) pair keeps every constraint |
| Db.AppendEvaluationKeepsInvariants | backend/src/routes/evaluations.js:19-38 | adding an evaluation with a fresh id for a patient of its clinic keeps every constraint |
| Db.ReplaceEvaluationKeepsInvariants | backend/src/routes/evaluations.js:170-175 | rewriting an evaluation without changing its id, clinic or patient keeps every constraint |
| Db.OtherTenantNotFound | backend/src/routes/patients.js:134-138 | a patient of another clinic is not found under the caller's clinic |
| Db.Store.constructor | backend/prisma/seed.js:10-56 | a database with only provisioned clinics and users satisfies every constraint |
| Guard.BearerToken | backend/src/middleware/auth.js:7-12 | without a header there is no token; with one, there is a token exactly when the header's second space-separated word exists and is non-empty, and it is that word |
| Guard.BearerTokenAbsent | backend/src/middleware/auth.js:7-12 | a one-word header, or one whose second word is empty ("Bearer", "Bearer "), carries no token |
| Guard.BearerTokenOf | backend/src/middleware/auth.js:8 | from `Bearer TOKEN` the token is TOKEN, whatever the first word and whatever follows a further space |
| Guard.Authenticate | backend/src/middleware/auth.js:5-45 | 401 without a token, 403 for an invalid or expired one, 500 for any other error. On success the user exists with the token's user id and is active, its clinic exists and is active, and the scope is the user's own clinic |
| Guard.UserCheckedBeforeClinic | backend/src/middleware/auth.js:24-30 | a missing or inactive user gets 401 whatever the state of the clinics |
| Guard.ClinicClaimIgnored | backend/src/middleware/auth.js:32-33 | the clinic claim in the token plays no part: only the user id decides the outcome |
| Guard.InactiveClinicLocksOut | backend/src/middleware/auth.js:28-30 | every active user of an inactive clinic is refused with 403 |
| Guard.RequireRole | backend/src/middleware/auth.js:47-61 | passes exactly when there is a user and its role is listed; 401 without a user, 403 for another role |
| Guard.OrUnknown | backend/src/middleware/auth.js:77-78 | a route parameter, or 'UNKNOWN' when it is absent or empty |
| Guard.AfterResponse | backend/src/middleware/auth.js:68-93 | earlier entries stay as they were; one entry is added exactly when the status is 2xx and the write succeeds |
| Guard.RecordAudit | backend/src/middleware/auth.js:70-91 | the audit table becomes AfterResponse of the old table, so a failed write is swallowed |
| Patients.CreateCheck | backend/src/routes/patients.js:29-55 | 400 for missing required fields, then 400 without consent, then 409 exactly when the CNP is taken in this clinic, and no error exactly when none applies |
| Patients.NewPatient | backend/src/routes/patients.js:57-74 | the new row carries the caller's clinic and the body's CNP. Its consent date is stamped now, and it is not archived |
| Patients.SecondCreateConflicts | backend/src/routes/patients.js:41-55 | registering the same CNP again in the same clinic is a 409 conflict |
| Patients.OtherClinicsDoNotConflict | backend/src/routes/patients.js:42-49 | a CNP registered only in other clinics is no conflict |
| Patients.CreatePatient | backend/src/routes/patients.js:11-81 | an error response leaves the table unchanged; success appends exactly the new row and answers 201. The constraints hold afterwards and a CREATE entry is audited |
| Patients.ListPatients | backend/src/routes/patients.js:84-129 | page and limit default to 1 and 20; page 0 with a positive limit gives 500 (negative skip), while page 0 with limit 0 gives skip -0, which Prisma accepts; otherwise 200 with at most `limit` rows, echoing page and limit |
| Patients.ListPatientsSound | backend/src/routes/patients.js:88-124 | whenever the handler answers 200, the rows are page `page` of the newest-first matches (skip (page - 1) * limit, take limit); they belong to the caller's clinic and match the archived flag and the search. `total` counts every match and `pages` is ceil(total / limit) |
| Patients.MatchesPage | backend/src/routes/patients.js:88-108 | any page of the matches holds matching patients of the clinic, newest first |
| Patients.EveryMatchOnSomePage | backend/src/routes/patients.js:101-124 | every matching patient appears on one of pages 1 to `pages` |
| Patients.RecentAreNewest | backend/src/routes/patients.js:139-152 | the included evaluations are min(10, own evaluations) of the patient's own, all of them when there are at most ten, newest first, and none left out is newer |
| Patients.PatientDetailResponse | backend/src/routes/patients.js:132-164 | 404 exactly when no patient has this id in the caller's clinic; otherwise 200 with that patient and its recent evaluations |
| Patients.GetPatient | backend/src/routes/patients.js:132-164 | answers as PatientDetailResponse and audits a READ entry for the id |
| Patients.UpdatePatient | backend/src/routes/patients.js:167-198 | 404 when not found in the caller's clinic. Otherwise only that row changes, to the body's columns minus id, clinicId and cnp, so no row's id, clinic or CNP changes. Relation keys are not applied (corrected behaviour, see Findings). Audited as UPDATE |
| Patients.UpdateCanSetArchivedState | backend/src/routes/patients.js:167-191 | the update route, which checks no role, can set the same archived flag and timestamp as the archive route |
| Patients.ArchiveRoundTrip | backend/src/routes/patients.js:216-253 | unarchiving undoes archiving; an archived patient leaves the default listing and appears in the archived one |
| Patients.SetArchived | backend/src/routes/patients.js:201-260 | the role check comes first and a refusal is not audited. Then a 404 or exactly the found row gets the flag and timestamp |
| Evaluations.NewEvaluation | backend/src/routes/evaluations.js:31-38 | the patient, clinic, author and date are set by the handler; the answers and any supplied id come from the body, as do the type (default null), the archived flag (default false), the archive time (default null) and the creation time (default now) |
| Evaluations.CreateEvaluation | backend/src/routes/evaluations.js:11-55 | 400 without patientId, 404 for a patient outside the caller's clinic, 500 for a taken id or for a relation key next to the foreign keys the handler sets (Prisma refuses the mix). Otherwise exactly the new row is appended, the constraints hold, and the request is audited |
| Evaluations.ListEvaluations | backend/src/routes/evaluations.js:58-131 | page and limit default to 1 and 20; page 0 with a positive limit gives 500 (negative skip), while page 0 with limit 0 gives skip -0, which Prisma accepts; otherwise 200 with at most `limit` rows, echoing page and limit |
| Evaluations.ListEvaluationsSound | backend/src/routes/evaluations.js:70-126 | whenever the handler answers 200, the rows are page `page` of the latest-first selection (skip (page - 1) * limit, take limit); they belong to the caller's clinic and pass every given filter, with inclusive date bounds. `total` counts every match and `pages` is ceil(total / limit) |
| Evaluations.SelectionPage | backend/src/routes/evaluations.js:70-108 | any page of the selection holds selected evaluations of the clinic, latest first |
| Evaluations.EverySelectedOnSomePage | backend/src/routes/evaluations.js:93-126 | every selected evaluation appears on one of pages 1 to `pages` |
| Evaluations.EvaluationDetailResponse | backend/src/routes/evaluations.js:134-162 | 404 exactly when no evaluation has this id in the caller's clinic; otherwise 200 with that evaluation and its patient |
| Evaluations.IncludedPatientSameClinic | backend/src/routes/evaluations.js:141-142 | under the table constraints the included patient exists, is the evaluation's patient, and belongs to the caller's clinic |
| Evaluations.CreatedIsReadable | backend/src/routes/evaluations.js:134-157 | a new evaluation is found by its id in its own clinic and answers 404 in every other clinic |
| Evaluations.GetEvaluation | backend/src/routes/evaluations.js:134-162 | answers as EvaluationDetailResponse and audits a READ entry for the id |
| Evaluations.Stripped | backend/src/routes/evaluations.js:168-175 | id, clinicId, patientId, userId and createdAt are removed and every other field is kept |
| Evaluations.UpdateKeepsOwnership | backend/src/routes/evaluations.js:168-200 | an update that writes columns only never changes the identity, clinic, patient, author or creation time. Sent answers replace the stored ones and the others stay |
| Evaluations.UpdateEvaluation | backend/src/routes/evaluations.js:165-207 | the role check comes first and a refusal is not audited. Then a 404 or exactly the found row is updated with the body's columns, and the constraints hold. Relation keys are not applied (corrected behaviour, see Findings) |
| Evaluations.ArchivedEvaluation | backend/src/routes/evaluations.js:225-231 | the row is archived at `now`, and nothing else about it changes |
| Evaluations.ArchivedLeavesDefaultList | backend/src/routes/evaluations.js:70-73 | an archived evaluation leaves every non-archived listing and appears in the archived one |
| Evaluations.ArchiveEvaluation | backend/src/routes/evaluations.js:210-238 | the role check comes first. Then a 404, or exactly the found row is archived and audited |
| Search.SearchResponse | backend/src/routes/search.js:11-88 | 400 exactly when the query is missing or shorter than 2 characters; otherwise 200 with at most `limit` (default 20) hits per list |
| Search.SearchSound | backend/src/routes/search.js:27-81 | hits belong to the caller's clinic, are not archived and match, newest first; there are min(limit, matches) of them, so every match is found when there are at most `limit`; no match left out is newer than a hit |
| Search.KindSelectsLists | backend/src/routes/search.js:13-50 | `type` picks the lists searched, each the newest hits up to `limit`; it defaults to 'all', and any other value returns both lists empty |
| Search.ListingMatchesAreSearchHits | backend/src/routes/search.js:28-38 | a patient the listing finds for a search term is a search hit. A search hit matched by name or CNP is found by the listing |
| Search.PhoneMatchFindsPatientOnly | backend/src/routes/search.js:35-60 | a query matching only the phone finds the patient but none of the patient's evaluations |
| Search.SearchRecords | backend/src/routes/search.js:11-88 | answers as SearchResponse and audits a READ entry |
| Accounts.Summary | backend/src/routes/auth.js:53-63 | the user's id, email and role with the clinic's id and name |
| Accounts.CheckLogin | backend/src/routes/auth.js:10-41 | 400 without both fields. The same 401 exactly when the lower-cased email is unknown or the password is wrong. With the right password, an inactive account gets 403 "Contul este inactiv", then a missing clinic 500, then an inactive clinic 403 "Clinica este inactivă", and otherwise the login is granted. A granted login names an active user with that email and password whose clinic exists and is active |
| Accounts.InactiveClinicRefusesLogin | backend/src/routes/auth.js:39-41 | the right password for an active account of a deactivated clinic is refused with 403 |
| Accounts.EmailCaseIgnored | backend/src/routes/auth.js:19 | any capitalisation of the email logs in the same way |
| Accounts.StatusHiddenWithoutPassword | backend/src/routes/auth.js:25-41 | with a wrong password an existing account is refused exactly as an unknown email is |
| Accounts.LoggedIn | backend/src/routes/auth.js:43-47 | only `lastLoginAt` changes, to now |
| Accounts.Login | backend/src/routes/auth.js:10-69 | a refusal changes no user. A success updates only that user's last login and returns the token claims and summary. Audited as LOGIN without clinic or user |
| Accounts.MeResponse | backend/src/routes/auth.js:72-89 | 200 with the authenticated user and clinic |
| Accounts.LoginTokenAuthenticates | backend/src/routes/auth.js:43-49 | the token a login issues authenticates that user in that clinic, and /me then describes the user as the login did |
| Accounts.CheckPasswordChange | backend/src/routes/auth.js:94-114 | 400 without both passwords, 400 for a new password under 8 characters, 401 exactly when the current password is wrong; success needs all checks to pass |
| Accounts.ChangePassword | backend/src/routes/auth.js:92-128 | an error changes nothing; success replaces only the caller's password hash |
| Accounts.PasswordChangeTakesEffect | backend/src/routes/auth.js:116-121 | after a change the old password is refused and the new one passes the credential check |
| Clinics.Counts | backend/src/routes/clinics.js:15-23 | the users, patients and evaluations of the clinic, each at most its table's size |
| Clinics.CountAppend | backend/src/routes/clinics.js:15-23 | a new row raises the count of its own clinic by one and no other |
| Clinics.NewPatientCounted | backend/src/routes/clinics.js:15-23 | registering a patient raises its clinic's patient count by one and leaves the user count |
| Clinics.CurrentClinic | backend/src/routes/clinics.js:11-35 | 404 exactly when the caller's clinic is missing; otherwise that clinic with its counts |
| Clinics.AuthenticatedClinicFound | backend/src/routes/clinics.js:13-28 | for an authenticated request the clinic is always found, and it is the one the guard attached |
| Clinics.Stripped | backend/src/routes/clinics.js:40-44 | id and createdAt are removed and every other field is kept |
| Clinics.UpdateKeepsIdentity | backend/src/routes/clinics.js:40-49 | the update keeps the clinic's id and creation time and writes each other supplied field (name, address, phone, email, the data controller's name and contact, `isActive`), keeping the ones not supplied |
| Clinics.UpdateClinic | backend/src/routes/clinics.js:38-56 | only ADMIN may update; exactly the caller's clinic row changes, and a missing row gives 500. Relation keys are not applied (corrected behaviour, see Findings) |
| Clinics.SelfDeactivationLocksOut | backend/src/routes/clinics.js:46-49 | an update with `isActive: false` locks every member of the clinic out of the guard with 403 |
| Api.ServePatients | backend/src/routes/patients.js:8-260 | the patient routes keep the constraints, touch only the patient and audit tables, and leave other clinics' patients alone |
| Api.ServeEvaluations | backend/src/routes/evaluations.js:8-238 | the evaluation routes keep the constraints, touch only the evaluation and audit tables, and leave other clinics' evaluations alone |
| Api.ServeClinic | backend/src/routes/clinics.js:8-56 | the clinic routes change no table except the caller's own clinic row |
| Patients.RelationKeyMovesPatient | backend/src/routes/patients.js:170-191 | as written, a body `clinic: { connect }` naming another clinic moves the patient there, and its evaluations are then no longer owned by a patient of their clinic; the corrected update keeps the clinic |
| Evaluations.RelationKeyReassignsEvaluation | backend/src/routes/evaluations.js:168-191 | as written, a body `patient: { connect }` naming another clinic's patient attaches the evaluation to that patient, breaking ownership; the corrected update keeps the patient |
| Clinics.RelationKeyTakesPatient | backend/src/routes/clinics.js:40-49 | as written, a body `patients: { connect }` naming another clinic's patient moves that patient into the caller's clinic; the corrected update changes no patient |
| Api.Serve | backend/src/index.js:98-102 | the guard runs first, and a refusal changes no table. An authenticated request changes only the caller's clinic's patients, evaluations and clinic row, and of the users only the caller's own password hash. The audit trail only grows, by at most one entry, on a 2xx response |

## Left out

- Concurrency: the handlers are modelled as atomic. `Promise.all` runs the page query and the count one after the other against the same state.
- The Prisma schema is not part of this model. Column defaults are assumed: a generated id, `isArchived = false`, `archivedAt = null`, `createdAt = now`.
- The evaluation questionnaire is modelled as a map from field name to answer. Its roughly ninety columns and the gate-flag and detail-field pairs are not modelled one by one. The backend never checks them against each other.
- Text.Lower: lower-cases ASCII, Latin-1 and the Romanian capitals only. Full Unicode case folding, PostgreSQL collations and JavaScript's UTF-16 string lengths are not modelled.
- Prisma's `contains` wildcard escaping and the database's own matching rules are not modelled. `contains` is plain substring search.
- Query strings arrive already parsed. `page` and `limit` are naturals when given, so `parseInt` giving NaN and negative numbers are not modelled. `startDate`/`endDate` are parsed times, so an invalid date is not modelled.
- Response bodies leave out the joined author names, the patient fields selected for lists, and the per-patient `_count` of the list and search routes.
- Request bodies carry the known columns and the relation keys listed in `RelationWrite`. Other unknown keys, which make Prisma throw and the handler answer 500, are not modelled.
- Patients.UpdatePatient: its contract is the corrected behaviour, which does not apply relation keys. The source applies them (see Findings).
- Evaluations.UpdateEvaluation: its contract is the corrected behaviour, which does not apply relation keys. The source applies them (see Findings).
- Clinics.UpdateClinic: its contract is the corrected behaviour, which does not apply relation keys. The source applies them (see Findings).
- Evaluations.UpdateKeepsOwnership: holds for the column-only update. A body with relation keys breaks it as written (Evaluations.RelationKeyReassignsEvaluation).
- Api.ServePatients: the isolation it states holds for the corrected patient update only.
- Api.ServeEvaluations: the isolation it states holds for the corrected evaluation update only.
- Api.ServeClinic: the isolation it states holds for the corrected clinic update only. As written, the clinic update can also move other clinics' patients and users.
- Api.Serve: the tenant isolation it states holds for the corrected update handlers only.
- The as-written functions apply the `connect` keys only. The nested writes `user: { update: { role } }` (evaluation update) and `evaluations: { deleteMany }` (patient update) are named in `RelationWrite` but are not applied by any as-written function. They are described under Findings.
- Database failures are not modelled, apart from the taken evaluation id and the missing clinic row on update. Those two are modelled as the 500 they cause.
- jwt signing and verification, token expiry and bcrypt are oracles. The secret, the salt rounds and the expiry time are not modelled.
- Express, helmet, CORS, the rate limiter, the body-size limit, the request logger and the error handlers in backend/src/index.js are not modelled. The frontend and backend/src/utils/jwt.js `verifyToken` are not modelled either.
- Query.SortDesc: rows with equal keys are ordered by their position in storage. PostgreSQL promises no order among ties, nor the same order across two queries with different OFFSETs. Ties happen: two rows can be created at the same instant, the patient update can write `createdAt`, and many evaluations share one `evaluationDate`.
- Patients.EveryMatchOnSomePage: holds because ties keep one fixed order across page queries, as above. Against PostgreSQL a patient sharing `createdAt` with another may be skipped by paging.
- Evaluations.EverySelectedOnSomePage: holds because ties keep one fixed order across page queries, as above. Against PostgreSQL an evaluation sharing `evaluationDate` with another may be skipped by paging.
- Accounts.Login: the audit write is an oracle. Whether an entry without a clinic or user can be stored depends on the schema, which is not part of this model.

## Findings

| source | as written | input that shows it | evidently intended | confidence | as-written member | corrected member |
|---|---|---|---|---|---|---|
| backend/src/routes/patients.js:170-191 | the update deletes `id`, `clinicId` and `cnp` from the body and passes the rest to `prisma.patient.update`, so relation keys are nested writes | `PUT /api/patients/P` with body `{ "clinic": { "connect": { "id": "C2" } } }` moves patient P to clinic C2, leaving its evaluations in the old clinic; `{ "evaluations": { "deleteMany": {} } }` deletes its evaluations | a patient update changes the patient's own columns only, never its clinic | not executed | Patients.RelationKeyMovesPatient | Patients.UpdatePatient |
| backend/src/routes/evaluations.js:168-191 | the update deletes the foreign keys from the body and passes the rest to `prisma.medicalEvaluation.update`, so relation keys are nested writes | a DOCTOR sends `PUT /api/evaluations/E` with `{ "patient": { "connect": { "id": "P2" } } }` for a patient P2 of another clinic; or `{ "user": { "update": { "role": "ADMIN" } } }`, which promotes the author to ADMIN | an evaluation update changes the questionnaire columns only, never its patient, clinic or author | not executed | Evaluations.RelationKeyReassignsEvaluation | Evaluations.UpdateEvaluation |
| backend/src/routes/clinics.js:40-49 | the update deletes `id` and `createdAt` from the body and passes the rest to `prisma.clinic.update`, so relation keys are nested writes | an ADMIN sends `PUT /api/clinics/current` with `{ "patients": { "connect": [{ "id": "P" }] } }` for a patient P of another clinic, which moves P into the caller's clinic | a clinic update changes the clinic's own columns only | not executed | Clinics.RelationKeyTakesPatient | Clinics.UpdateClinic |
