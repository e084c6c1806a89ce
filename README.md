# Classroom attendance: store, report fan-out, error mapping and presence report

This project models the core logic of a photo-based classroom attendance system.

The web application (TypeScript) keeps four tables: students, classes, attendances and
student attendances. An *attendance* is one photographed roll call of a class on a date. A
*student attendance* is one student's presence or absence for one attendance. The model
covers:

- the student-attendance controller. Its one real operation is `processReport`. It turns a
  *report* (a map from student id to presence) into one new row per entry.
- the attendance controller. Its `delete` removes the attendance's dependent rows first, and
  its `findAll` joins each attendance with its class and its rows.
- the `/attendances` endpoint. `GET` lists the attendances. `POST` creates one for an
  existing class.
- the error-to-response mapping.
- the Python image-processing service's `generate_presence_report`. It decides which
  students of a roster appear in a photo.

Both TypeScript tables live in one Dafny class, `Controllers.Store`. The database becomes
maps from id to row plus a fresh-id counter. `Store.Valid()` says that every row is stored
under its own id and that every id in use is below the counter. Rows are only ever
addressed by id, so the table properties are stated over sets of ids and rows, never over
an order.

The fan-out is specified by the predicate `Controllers.FannedOut(before, after, a, report,
done)`. It holds when `after` equals `before` plus exactly one new row for each student in
`done`. Each new row carries attendance `a` and the student's presence from `report`, and
no existing row changes. `ProcessReport` proves that predicate for `done == report.Keys`,
and the lemmas beside it derive the listed consequences.

In the presence report, face recognition is abstracted away. Each student carries a flag
that says whether a reference encoding was obtained. The comparison of every detected face
against every known encoding is a boolean matrix `matches[face][knownIndex]`. These are
the values that `face_recognition.compare_faces` would return.

Three points about the code that the model keeps as written:

- Attendances created through POST get the database's default status, because the handler
  calls `create` without one (attendance-app/src/app/api/attendances/route.ts:38), although
  the controller's interface declares a status field
  (attendance-app/src/controllers/attendances.ts:7). That default is a constant of the
  store (`Store.defaultStatus`) and is left unspecified.
- The POST handler takes an optional `photoUrl` from the JSON body. It neither uploads a
  photo nor starts image processing (attendance-app/src/app/api/attendances/route.ts:16-43).
- Deleting an attendance runs two successive statements that are not in a transaction
  (attendance-app/src/controllers/attendances.ts:46-47): first the dependent rows are
  deleted, then the attendance. When the attendance does not exist, the dependent-row
  deletion still runs, and the attendance deletion then fails with "record not found".

A status is always `pending` or `processed`, because `Entities.Status` has exactly those
two constructors.

## Model

| member | source | states |
|---|---|---|
| `Controllers.Store.CreateStudentAttendance` | attendance-app/src/controllers/studentAttendances.ts:14-18 | adds one row under a fresh id whose student, attendance and presence equal the arguments, returns it, and changes nothing else; there is no uniqueness check |
| `Controllers.Store.FindStudentAttendance` | attendance-app/src/controllers/studentAttendances.ts:20-24 | returns the row with that id when there is one, and nothing exactly when the id is absent |
| `Controllers.Store.FindAllStudentAttendances` | attendance-app/src/controllers/studentAttendances.ts:26-30 | returns exactly the rows of the table |
| `Controllers.Store.UpdateStudentAttendance` | attendance-app/src/controllers/studentAttendances.ts:32-39 | on an existing id, replaces only `present`, and only when a value is given; the row's ids and all other rows stay the same; a missing id fails with record-not-found and leaves the table unchanged |
| `Controllers.Store.DeleteStudentAttendance` | attendance-app/src/controllers/studentAttendances.ts:41-43 | removes exactly the row with that id and nothing else; reports whether it existed |
| `Controllers.Store.ProcessReport` | attendance-app/src/controllers/studentAttendances.ts:45-53 | the table after the call is the old table fanned out by the whole report (one new row per entry, old rows untouched, size grows by the report's size); returns one new row per entry, with pairwise distinct students and exactly the reported students; an empty report leaves the table unchanged; for an existing attendance, every row still references an existing attendance |
| `Controllers.FannedOutOnePerEntry` | attendance-app/src/controllers/studentAttendances.ts:48-50 | after the fan-out, each reported student has exactly one new row for the attendance, and an unreported student has no new row |
| `Controllers.FannedOutEmpty` | attendance-app/src/controllers/studentAttendances.ts:48-52 | a fan-out of the empty report leaves the table identical |
| `Controllers.FannedOutIntact` | attendance-app/src/controllers/studentAttendances.ts:45-53 | a report for an existing attendance creates no row that references a missing attendance |
| `Controllers.FannedOutTwice` | attendance-app/src/controllers/studentAttendances.ts:45-53 | two fan-outs of the same report for one attendance leave every reported student with two more rows, because creation does not deduplicate |
| `Controllers.Store.CreateAttendance` | attendance-app/src/controllers/attendances.ts:16-20 | adds one attendance under a fresh id with the given class id, date and optional photo URL; the status is the given one, or the store's default when none is given; nothing else changes |
| `Controllers.Store.FindAttendance` | attendance-app/src/controllers/attendances.ts:22-26 | returns the attendance with that id when there is one, and nothing exactly when the id is absent |
| `Controllers.Join` | attendance-app/src/controllers/attendances.ts:28-37 | the listing has one entry per attendance; each entry holds that attendance, its class when the class exists, and exactly the rows whose `attendanceId` is its id |
| `Controllers.JoinShowsEveryRowOnce` | attendance-app/src/controllers/attendances.ts:28-37 | when every row references an existing attendance, each row is listed under its own attendance and under no other |
| `Controllers.Store.FindAllAttendances` | attendance-app/src/controllers/attendances.ts:28-37 | returns the join of the attendance table with the classes and the student-attendance rows |
| `Controllers.Store.UpdateAttendance` | attendance-app/src/controllers/attendances.ts:39-43 | on an existing id, replaces only the photo URL and/or the status, each only when given; class id and date are kept; a missing id fails with record-not-found and leaves the table unchanged |
| `Controllers.WithoutAttendance` | attendance-app/src/controllers/attendances.ts:46 | keeps exactly the rows whose `attendanceId` differs from the given id, each unchanged |
| `Controllers.Store.DeleteStudentAttendancesOf` | attendance-app/src/controllers/attendances.ts:46 | the student-attendance table loses exactly the rows of that attendance |
| `Controllers.Store.DeleteAttendance` | attendance-app/src/controllers/attendances.ts:45-48 | afterwards no attendance has the id and no row references it; rows of other attendances and other attendances are unchanged; a row-integrity invariant is preserved; reports whether the attendance existed |
| `Controllers.Store.FindClass` | attendance-app/src/controllers/classes.ts:33-37 | returns the class with that id exactly when it exists |
| `AttendancesRoute.Get` | attendance-app/src/app/api/attendances/route.ts:7-14 | responds 200 with the full attendance listing; it can modify nothing |
| `AttendancesRoute.Post` | attendance-app/src/app/api/attendances/route.ts:16-43 | a body that cannot be read or parsed throws and leaves the store unchanged; an unknown class answers 404 "Class not found" and leaves it unchanged; otherwise responds 200 with a new attendance carrying the parsed class id, date and optional photo URL and the default status; the table changes exactly when parse and class lookup both succeed |
| `ApiErrors.ApiError` | attendance-app/src/errors/apiError.ts:3-19 | total; the message is always the error's message; the status is 404 exactly for `NotFoundError`, 400 exactly for `AlreadyExistsError` and `ValidationError`, and 500 for every other name, so it is always one of 400, 404 and 500 |
| `PresenceReport.CollectKnownIds` | image-processing-api/app.py:11-34 | the known ids are the ids of the encoded students, in roster order |
| `PresenceReport.KnownIdsAppend` | image-processing-api/app.py:13-32 | collecting known ids distributes over concatenation of rosters, so the roster's order is kept |
| `PresenceReport.KnownIdsMembers` | image-processing-api/app.py:27-34 | an id is known exactly when some encoded student has it |
| `PresenceReport.FirstMatch` | image-processing-api/app.py:51-54 | the index a face is matched to is the first true entry of its comparison row, and there is none exactly when the row has no true entry |
| `PresenceReport.MarkedMembers` | image-processing-api/app.py:49-54 | an id is marked present exactly when some face's first match is a known index holding that id |
| `PresenceReport.MarkedAreKnown` | image-processing-api/app.py:51-53 | only known ids are ever marked |
| `PresenceReport.OneFaceMarksAtMostOne` | image-processing-api/app.py:51-54 | one more face adds at most one marked id |
| `PresenceReport.MarkedBound` | image-processing-api/app.py:49-54 | no more ids are marked than faces were detected |
| `PresenceReport.MarkPresent` | image-processing-api/app.py:48-54 | after the nested loops, the report holds exactly the marked ids, all true |
| `PresenceReport.MarkAbsent` | image-processing-api/app.py:56-59 | after the defaults loop, the keys are exactly the known ids and an id is true exactly when it was marked |
| `PresenceReport.GeneratePresenceReport` | image-processing-api/app.py:10-59 | the keys are exactly the ids of the encoded students; an id is true exactly when some face's first match is that id; at most as many ids are true as faces were detected; with no faces every id is false |

## Left out

- Persistence: the database is replaced by in-memory tables. Transactions, foreign-key enforcement and the database's id generation are not modelled. Ids come from one counter and are never reused.
- Controllers.Store.ProcessReport: the controller starts its creates concurrently and waits for all of them. The model creates the rows one after another, in an unspecified order of the report's keys. A failure partway through a batch is not modelled.
- Controllers.Store.DeleteAttendance: the contract states the final state only. The order of the two deletions (dependent rows first, then the attendance) shows in the body, which asserts that no row references the attendance at the point where it is removed.
- Controllers.Store.CreateAttendance: the database's default status is a constant of the store and is not pinned to `pending`, because the schema that defines it is not part of this model.
- AttendancesRoute.Post: the request body's JSON decoding and the schema parse are a single input. It is either absent or the parsed class id, date and optional photo URL. Absent stands for every exception raised while the body is read or parsed: a body that is not JSON, a `null` body, and a schema rejection. The model does not tell these exceptions apart. The date coercion itself is not modelled.
- Logging in every handler and in the error mapping is a side effect only and is not modelled.
- PresenceReport.GeneratePresenceReport: image downloads, file writes and removals, and the early returns when a download fails or the attendance photo cannot be loaded are left out. Face encoding and comparison are floating-point computations inside a library; they become the `encoded` flags and the `matches` matrix.
- The Flask endpoint that calls the presence report and posts it to the web application is not modelled.
- The webhook endpoint that calls `ProcessReport` and then marks the attendance processed is not part of this model. `UpdateAttendance` allows every status change and guarantees nothing more.
- The students and classes controllers are direct database pass-throughs. Only the class lookup used by the POST handler is modelled. The UI components are not part of this model.
