/** The attendance and student-attendance controllers over an in-memory store. Both tables
    live in one object so that the cross-table effects (the report fan-out and the
    deletion of an attendance's dependent rows) can be stated. */
module Controllers {
  import opened Entities

  /** The ids of the rows of table `rows` that record student `studentId` for attendance `attendanceId`. */
  function RowsFor(rows: map<Id, StudentAttendance>, attendanceId: Id, studentId: StudentId): set<Id>
  {
    set id | id in rows && rows[id].attendanceId == attendanceId && rows[id].studentId == studentId
  }

  /** Adding one row with a fresh id adds it to the ids recorded for its own pair and nowhere else. */
  lemma RowsForInsert(rows: map<Id, StudentAttendance>, row: StudentAttendance, attendanceId: Id, studentId: StudentId)
    requires row.id !in rows
    ensures |RowsFor(rows[row.id := row], attendanceId, studentId)| ==
            |RowsFor(rows, attendanceId, studentId)| +
            (if row.attendanceId == attendanceId && row.studentId == studentId then 1 else 0)
  {
    var after := RowsFor(rows[row.id := row], attendanceId, studentId);
    if row.attendanceId == attendanceId && row.studentId == studentId {
      assert after == RowsFor(rows, attendanceId, studentId) + {row.id};
    } else {
      assert after == RowsFor(rows, attendanceId, studentId);
    }
  }

  /** For every student, `after` records `attendanceId` once more than `before` exactly when the student is in `done`. */
  ghost predicate CountedOnce(before: map<Id, StudentAttendance>, after: map<Id, StudentAttendance>,
                              attendanceId: Id, done: set<StudentId>)
  {
    forall s :: |RowsFor(after, attendanceId, s)| == |RowsFor(before, attendanceId, s)| + (if s in done then 1 else 0)
  }

  lemma CountedOnceStep(before: map<Id, StudentAttendance>, mid: map<Id, StudentAttendance>, row: StudentAttendance,
                        attendanceId: Id, done: set<StudentId>)
    requires CountedOnce(before, mid, attendanceId, done)
    requires row.id !in mid && row.studentId !in done && row.attendanceId == attendanceId
    ensures CountedOnce(before, mid[row.id := row], attendanceId, done + {row.studentId})
  {
    forall s ensures |RowsFor(mid[row.id := row], attendanceId, s)| ==
                     |RowsFor(before, attendanceId, s)| + (if s in done + {row.studentId} then 1 else 0) {
      RowsForInsert(mid, row, attendanceId, s);
    }
  }

  /** Every row of `before` is in `after`, unchanged. */
  ghost predicate Kept(before: map<Id, StudentAttendance>, after: map<Id, StudentAttendance>)
  {
    forall id :: id in before ==> id in after && after[id] == before[id]
  }

  /** Every row of `after` that `before` lacks records a student of `done` for `attendanceId`, with that student's presence from `report`. */
  ghost predicate AddedFromReport(before: map<Id, StudentAttendance>, after: map<Id, StudentAttendance>,
                                  attendanceId: Id, report: map<StudentId, bool>, done: set<StudentId>)
  {
    forall id :: id in after && id !in before ==>
      && after[id].attendanceId == attendanceId
      && after[id].studentId in done
      && after[id].studentId in report
      && after[id].present == report[after[id].studentId]
  }

  /** `after` is `before` plus exactly one new row for `attendanceId` per student of `done`,
      carrying that student's presence from `report`; no existing row is changed. */
  ghost predicate FannedOut(before: map<Id, StudentAttendance>, after: map<Id, StudentAttendance>,
                            attendanceId: Id, report: map<StudentId, bool>, done: set<StudentId>)
  {
    && Kept(before, after)
    && |after| == |before| + |done|
    && AddedFromReport(before, after, attendanceId, report, done)
    && CountedOnce(before, after, attendanceId, done)
  }

  lemma KeptStep(before: map<Id, StudentAttendance>, mid: map<Id, StudentAttendance>, row: StudentAttendance)
    requires Kept(before, mid) && row.id !in mid
    ensures Kept(before, mid[row.id := row])
  {
  }

  lemma AddedFromReportStep(before: map<Id, StudentAttendance>, mid: map<Id, StudentAttendance>, row: StudentAttendance,
                            attendanceId: Id, report: map<StudentId, bool>, done: set<StudentId>)
    requires AddedFromReport(before, mid, attendanceId, report, done)
    requires row.studentId in report && row.attendanceId == attendanceId && row.present == report[row.studentId]
    ensures AddedFromReport(before, mid[row.id := row], attendanceId, report, done + {row.studentId})
  {
  }

  /** Every row of `created` is a row of `after` that `before` lacks. */
  ghost predicate AllNew(created: seq<StudentAttendance>, before: map<Id, StudentAttendance>, after: map<Id, StudentAttendance>)
  {
    forall row :: row in created ==> row.id !in before && row.id in after && after[row.id] == row
  }

  lemma AllNewStep(created: seq<StudentAttendance>, before: map<Id, StudentAttendance>, mid: map<Id, StudentAttendance>,
                   row: StudentAttendance)
    requires AllNew(created, before, mid) && Kept(before, mid) && row.id !in mid
    ensures AllNew(created + [row], before, mid[row.id := row])
  {
  }

  /** The returned rows name each student of `done` once, and no other student. */
  ghost predicate OneRowPerStudent(created: seq<StudentAttendance>, done: set<StudentId>)
  {
    && (forall i, j :: 0 <= i < j < |created| ==> created[i].studentId != created[j].studentId)
    && (forall s :: s in done <==> exists r :: r in created && r.studentId == s)
  }

  lemma OneRowPerStudentStep(created: seq<StudentAttendance>, done: set<StudentId>, row: StudentAttendance)
    requires OneRowPerStudent(created, done) && row.studentId !in done
    ensures OneRowPerStudent(created + [row], done + {row.studentId})
  {
    var created' := created + [row];
    forall i, j | 0 <= i < j < |created'|
      ensures created'[i].studentId != created'[j].studentId
    {
      if j == |created| {
        assert created[i] in created;
      }
    }
    forall s
      ensures s in done + {row.studentId} <==> exists r :: r in created' && r.studentId == s
    {
      if s in done {
        var r :| r in created && r.studentId == s;
        assert r in created';
      }
      if s == row.studentId {
        assert row in created';
      }
    }
  }

  /** Creating the row of one more reported student extends the fan-out by that student. */
  lemma FannedOutStep(before: map<Id, StudentAttendance>, mid: map<Id, StudentAttendance>, row: StudentAttendance,
                      attendanceId: Id, report: map<StudentId, bool>, done: set<StudentId>)
    requires FannedOut(before, mid, attendanceId, report, done)
    requires row.id !in mid && row.studentId in report && row.studentId !in done
    requires row.attendanceId == attendanceId && row.present == report[row.studentId]
    ensures FannedOut(before, mid[row.id := row], attendanceId, report, done + {row.studentId})
  {
    KeptStep(before, mid, row);
    AddedFromReportStep(before, mid, row, attendanceId, report, done);
    CountedOnceStep(before, mid, row, attendanceId, done);
  }

  lemma SubsetDifferenceSize(small: set<Id>, large: set<Id>)
    requires small <= large
    ensures |large - small| == |large| - |small|
  {
    assert large == (large - small) + small;
  }

  /** The rows of one (attendance, student) pair only grow when no existing row changes. */
  lemma KeptRowsFor(before: map<Id, StudentAttendance>, after: map<Id, StudentAttendance>, attendanceId: Id, s: StudentId)
    requires Kept(before, after)
    ensures RowsFor(before, attendanceId, s) <= RowsFor(after, attendanceId, s)
  {
  }

  /** Every reported student gets exactly one new row for the attendance, and no other
      student gets any. */
  lemma FannedOutOnePerEntry(before: map<Id, StudentAttendance>, after: map<Id, StudentAttendance>,
                             attendanceId: Id, report: map<StudentId, bool>, s: StudentId)
    requires FannedOut(before, after, attendanceId, report, report.Keys)
    ensures RowsFor(before, attendanceId, s) <= RowsFor(after, attendanceId, s)
    ensures s in report ==> |RowsFor(after, attendanceId, s) - RowsFor(before, attendanceId, s)| == 1
    ensures s !in report ==> RowsFor(after, attendanceId, s) == RowsFor(before, attendanceId, s)
  {
    KeptRowsFor(before, after, attendanceId, s);
    SubsetDifferenceSize(RowsFor(before, attendanceId, s), RowsFor(after, attendanceId, s));
    if s !in report {
      assert RowsFor(after, attendanceId, s) - RowsFor(before, attendanceId, s) == {};
    }
  }

  /** An empty report leaves the table exactly as it was. */
  lemma FannedOutEmpty(before: map<Id, StudentAttendance>, after: map<Id, StudentAttendance>, attendanceId: Id)
    requires FannedOut(before, after, attendanceId, map[], {})
    ensures after == before
  {
    assert after.Keys == before.Keys by {
      assert before.Keys <= after.Keys;
      assert |after.Keys| == |before.Keys|;
      assert after.Keys - before.Keys == {} by {
        assert |after.Keys - before.Keys| == |after.Keys| - |before.Keys| by {
          assert after.Keys == (after.Keys - before.Keys) + before.Keys;
        }
      }
    }
  }

  /** No student-attendance row references a missing attendance. */
  ghost predicate Intact(attendances: map<Id, Attendance>, rows: map<Id, StudentAttendance>)
  {
    forall id :: id in rows ==> rows[id].attendanceId in attendances
  }

  /** A report for an existing attendance keeps every row pointing at an existing attendance. */
  lemma FannedOutIntact(attendances: map<Id, Attendance>, before: map<Id, StudentAttendance>, after: map<Id, StudentAttendance>,
                        attendanceId: Id, report: map<StudentId, bool>)
    requires FannedOut(before, after, attendanceId, report, report.Keys)
    requires Intact(attendances, before) && attendanceId in attendances
    ensures Intact(attendances, after)
  {
  }

  /** The same report applied twice for one attendance records each reported student twice:
      nothing deduplicates. */
  lemma FannedOutTwice(t0: map<Id, StudentAttendance>, t1: map<Id, StudentAttendance>, t2: map<Id, StudentAttendance>,
                       attendanceId: Id, report: map<StudentId, bool>, s: StudentId)
    requires FannedOut(t0, t1, attendanceId, report, report.Keys)
    requires FannedOut(t1, t2, attendanceId, report, report.Keys)
    requires s in report
    ensures |RowsFor(t2, attendanceId, s)| == |RowsFor(t0, attendanceId, s)| + 2
  {
  }

  /** The rows that remain once every row of `attendanceId` is deleted (deleteMany). */
  function WithoutAttendance(rows: map<Id, StudentAttendance>, attendanceId: Id): (r: map<Id, StudentAttendance>)
    ensures forall id :: id in r <==> id in rows && rows[id].attendanceId != attendanceId
    ensures forall id :: id in r ==> r[id] == rows[id]
  {
    map id | id in rows && rows[id].attendanceId != attendanceId :: rows[id]
  }

  /** The attendance listing: every attendance joined with its class and with exactly the
      student-attendance rows that reference it. */
  function Join(attendances: map<Id, Attendance>, classes: map<ClassId, Class>, rows: map<Id, StudentAttendance>)
    : (r: map<Id, AttendanceWithRelations>)
    ensures r.Keys == attendances.Keys
    ensures forall id :: id in r ==> r[id].attendance == attendances[id]
    ensures forall id :: id in r ==>
              r[id].classInfo == if attendances[id].classId in classes then Some(classes[attendances[id].classId]) else None
    ensures forall id, row :: id in r ==> (row in r[id].studentAttendances <==> row in rows.Values && row.attendanceId == id)
  {
    map id | id in attendances ::
      var a := attendances[id];
      AttendanceWithRelations(
        a,
        if a.classId in classes then Some(classes[a.classId]) else None,
        set row | row in rows.Values && row.attendanceId == id)
  }

  /** When every row references an existing attendance, the listing shows each row under
      its own attendance and under no other. */
  lemma JoinShowsEveryRowOnce(attendances: map<Id, Attendance>, classes: map<ClassId, Class>,
                              rows: map<Id, StudentAttendance>, id: Id)
    requires Intact(attendances, rows) && id in rows
    ensures rows[id].attendanceId in Join(attendances, classes, rows)
    ensures forall aid :: aid in Join(attendances, classes, rows) ==>
              (rows[id] in Join(attendances, classes, rows)[aid].studentAttendances <==> aid == rows[id].attendanceId)
  {
    assert rows[id] in rows.Values;
  }

  /** What the report fan-out has achieved once the students of `done` are handled: the
      table is fanned out by `done`, and `created` holds exactly the new rows, one per
      student of `done`. */
  ghost predicate ReportProgress(before: map<Id, StudentAttendance>, after: map<Id, StudentAttendance>,
                                 attendanceId: Id, report: map<StudentId, bool>, done: set<StudentId>,
                                 created: seq<StudentAttendance>)
  {
    && done <= report.Keys
    && FannedOut(before, after, attendanceId, report, done)
    && |created| == |done|
    && AllNew(created, before, after)
    && OneRowPerStudent(created, done)
  }

  /** Creating the row of one more reported student extends the progress by that student. */
  lemma ReportProgressStep(before: map<Id, StudentAttendance>, mid: map<Id, StudentAttendance>, row: StudentAttendance,
                           attendanceId: Id, report: map<StudentId, bool>, done: set<StudentId>,
                           created: seq<StudentAttendance>)
    requires ReportProgress(before, mid, attendanceId, report, done, created)
    requires row.id !in mid && row.studentId in report && row.studentId !in done
    requires row.attendanceId == attendanceId && row.present == report[row.studentId]
    ensures ReportProgress(before, mid[row.id := row], attendanceId, report, done + {row.studentId}, created + [row])
  {
    var after := mid[row.id := row];
    assert FannedOut(before, after, attendanceId, report, done + {row.studentId}) by {
      FannedOutStep(before, mid, row, attendanceId, report, done);
    }
    assert AllNew(created + [row], before, after) by {
      AllNewStep(created, before, mid, row);
    }
    assert OneRowPerStudent(created + [row], done + {row.studentId}) by {
      OneRowPerStudentStep(created, done, row);
    }
  }

  class Store {
    var classes: map<ClassId, Class>
    var attendances: map<Id, Attendance>
    var studentAttendances: map<Id, StudentAttendance>
    /** The next id the store hands out; ids are never reused. */
    var nextId: Id
    /** The status the database gives an attendance created without one. */
    const defaultStatus: Status

    /** Every row is stored under its own id, and every id in use is below the counter. */
    ghost predicate Valid()
      reads this
    {
      && (forall id :: id in attendances ==> attendances[id].id == id && id < nextId)
      && (forall id :: id in studentAttendances ==> studentAttendances[id].id == id && id < nextId)
    }

    ghost predicate ReferentiallyIntact()
      reads this
    {
      Intact(attendances, studentAttendances)
    }

    constructor (classes: map<ClassId, Class>, defaultStatus: Status)
      ensures Valid() && ReferentiallyIntact()
      ensures this.classes == classes && this.defaultStatus == defaultStatus
      ensures attendances == map[] && studentAttendances == map[]
    {
      this.classes := classes;
      this.defaultStatus := defaultStatus;
      attendances := map[];
      studentAttendances := map[];
      nextId := 0;
    }

    method FreshId() returns (id: Id)
      requires Valid()
      modifies this
      ensures Valid()
      ensures id !in attendances && id !in studentAttendances && id < nextId
      ensures classes == old(classes) && attendances == old(attendances) && studentAttendances == old(studentAttendances)
    {
      id := nextId;
      nextId := nextId + 1;
    }

    /** The class lookup of the classes controller. */
    method FindClass(id: ClassId) returns (r: Option<Class>)
      ensures r.Some? <==> id in classes
      ensures r.Some? ==> r.value == classes[id]
    {
      r := if id in classes then Some(classes[id]) else None;
    }

    // ---- student attendances ----

    /** Inserts one row with a fresh id and the given fields; nothing is checked for uniqueness. */
    method CreateStudentAttendance(studentId: StudentId, attendanceId: Id, present: bool) returns (row: StudentAttendance)
      requires Valid()
      modifies this
      ensures Valid()
      ensures row.studentId == studentId && row.attendanceId == attendanceId && row.present == present
      ensures row.id !in old(studentAttendances)
      ensures studentAttendances == old(studentAttendances)[row.id := row]
      ensures classes == old(classes) && attendances == old(attendances)
    {
      var id := FreshId();
      row := StudentAttendance(id, studentId, attendanceId, present);
      studentAttendances := studentAttendances[id := row];
    }

    /** The row with that id, or nothing. */
    method FindStudentAttendance(id: Id) returns (r: Option<StudentAttendance>)
      requires Valid()
      ensures r.Some? <==> id in studentAttendances
      ensures r.Some? ==> r.value == studentAttendances[id] && r.value.id == id
    {
      r := if id in studentAttendances then Some(studentAttendances[id]) else None;
    }

    /** All rows of the table, in no particular order. */
    method FindAllStudentAttendances() returns (rows: set<StudentAttendance>)
      requires Valid()
      ensures forall row :: row in rows <==> row.id in studentAttendances && studentAttendances[row.id] == row
    {
      rows := studentAttendances.Values;
    }

    /** Sets `present` on the row with that id when a value is given; the row's ids and every
        other row stay as they were. A missing id is the store's not-found failure. */
    method UpdateStudentAttendance(id: Id, present: Option<bool>) returns (r: Result<StudentAttendance>)
      requires Valid()
      modifies this
      ensures Valid()
      ensures r.Ok? <==> id in old(studentAttendances)
      ensures r.Ok? ==>
                && r.value.id == id
                && r.value.studentId == old(studentAttendances)[id].studentId
                && r.value.attendanceId == old(studentAttendances)[id].attendanceId
                && r.value.present == present.GetOr(old(studentAttendances)[id].present)
                && studentAttendances == old(studentAttendances)[id := r.value]
      ensures r.RecordNotFound? ==> studentAttendances == old(studentAttendances)
      ensures classes == old(classes) && attendances == old(attendances) && nextId == old(nextId)
    {
      if id !in studentAttendances {
        return RecordNotFound;
      }
      var row := studentAttendances[id];
      row := row.(present := present.GetOr(row.present));
      studentAttendances := studentAttendances[id := row];
      r := Ok(row);
    }

    /** Removes the row with that id and nothing else; a missing id is the store's not-found failure. */
    method DeleteStudentAttendance(id: Id) returns (deleted: bool)
      requires Valid()
      modifies this
      ensures Valid()
      ensures deleted <==> id in old(studentAttendances)
      ensures studentAttendances == old(studentAttendances) - {id}
      ensures classes == old(classes) && attendances == old(attendances) && nextId == old(nextId)
    {
      deleted := id in studentAttendances;
      studentAttendances := studentAttendances - {id};
    }

    /** The report fan-out: one new row per entry of `report`, for `attendanceId`, with the
        entry's student and presence. Existing rows are kept as they are, so a second report
        for the same attendance adds a second row per student. The controller issues the creates
        concurrently; here they run one after another in an unspecified order. */
    method ProcessReport(attendanceId: Id, report: map<StudentId, bool>) returns (created: seq<StudentAttendance>)
      requires Valid()
      modifies this
      ensures Valid()
      ensures FannedOut(old(studentAttendances), studentAttendances, attendanceId, report, report.Keys)
      ensures |created| == |report| && AllNew(created, old(studentAttendances), studentAttendances)
      ensures forall i, j :: 0 <= i < j < |created| ==> created[i].studentId != created[j].studentId
      ensures forall s :: s in report <==> exists r :: r in created && r.studentId == s
      ensures report == map[] ==> studentAttendances == old(studentAttendances)
      ensures old(ReferentiallyIntact()) && attendanceId in attendances ==> ReferentiallyIntact()
      ensures classes == old(classes) && attendances == old(attendances)
    {
      created := [];
      var remaining := report.Keys;
      ghost var done: set<StudentId> := {};
      while remaining != {}
        invariant Valid()
        invariant forall s :: s in remaining <==> s in report && s !in done
        invariant ReportProgress(old(studentAttendances), studentAttendances, attendanceId, report, done, created)
        invariant classes == old(classes) && attendances == old(attendances)
        decreases remaining
      {
        var studentId :| studentId in remaining;
        ghost var before := studentAttendances;
        var row := CreateStudentAttendance(studentId, attendanceId, report[studentId]);
        ReportProgressStep(old(studentAttendances), before, row, attendanceId, report, done, created);
        created := created + [row];
        remaining := remaining - {studentId};
        done := done + {studentId};
      }
      assert done == report.Keys;
      if report == map[] {
        FannedOutEmpty(old(studentAttendances), studentAttendances, attendanceId);
      }
      if old(ReferentiallyIntact()) && attendanceId in attendances {
        FannedOutIntact(attendances, old(studentAttendances), studentAttendances, attendanceId, report);
      }
    }

    // ---- attendances ----

    /** Inserts an attendance with a fresh id and the given fields; without a status the
        database default applies. */
    method CreateAttendance(classId: ClassId, date: Date, photoUrl: Option<string>, status: Option<Status>)
      returns (a: Attendance)
      requires Valid()
      modifies this
      ensures Valid()
      ensures a.classId == classId && a.date == date && a.photoUrl == photoUrl
      ensures a.status == status.GetOr(defaultStatus)
      ensures a.id !in old(attendances)
      ensures attendances == old(attendances)[a.id := a]
      ensures classes == old(classes) && studentAttendances == old(studentAttendances)
    {
      var id := FreshId();
      a := Attendance(id, classId, date, photoUrl, status.GetOr(defaultStatus));
      attendances := attendances[id := a];
    }

    /** The attendance with that id, or nothing. */
    method FindAttendance(id: Id) returns (r: Option<Attendance>)
      requires Valid()
      ensures r.Some? <==> id in attendances
      ensures r.Some? ==> r.value == attendances[id] && r.value.id == id
    {
      r := if id in attendances then Some(attendances[id]) else None;
    }

    /** Every attendance with its class and its student-attendance rows. */
    method FindAllAttendances() returns (joined: map<Id, AttendanceWithRelations>)
      ensures joined == Join(attendances, classes, studentAttendances)
    {
      joined := Join(attendances, classes, studentAttendances);
    }

    /** Sets `photoUrl` and/or `status` where given; the class and the date never change.
        A missing id is the store's not-found failure. */
    method UpdateAttendance(id: Id, photoUrl: Option<string>, status: Option<Status>) returns (r: Result<Attendance>)
      requires Valid()
      modifies this
      ensures Valid()
      ensures r.Ok? <==> id in old(attendances)
      ensures r.Ok? ==>
                && r.value.id == id
                && r.value.classId == old(attendances)[id].classId
                && r.value.date == old(attendances)[id].date
                && r.value.photoUrl == (if photoUrl.Some? then photoUrl else old(attendances)[id].photoUrl)
                && r.value.status == status.GetOr(old(attendances)[id].status)
                && attendances == old(attendances)[id := r.value]
      ensures r.RecordNotFound? ==> attendances == old(attendances)
      ensures classes == old(classes) && studentAttendances == old(studentAttendances) && nextId == old(nextId)
    {
      if id !in attendances {
        return RecordNotFound;
      }
      var a := attendances[id];
      a := a.(photoUrl := if photoUrl.Some? then photoUrl else a.photoUrl, status := status.GetOr(a.status));
      attendances := attendances[id := a];
      r := Ok(a);
    }

    /** deleteMany on the student-attendance table: every row of that attendance goes. */
    method DeleteStudentAttendancesOf(attendanceId: Id)
      requires Valid()
      modifies this
      ensures Valid()
      ensures studentAttendances == WithoutAttendance(old(studentAttendances), attendanceId)
      ensures classes == old(classes) && attendances == old(attendances) && nextId == old(nextId)
    {
      studentAttendances := WithoutAttendance(studentAttendances, attendanceId);
    }

    /** Deletes the attendance's dependent rows first, then the attendance itself. The first
        step always runs; a missing attendance is then the store's not-found failure. */
    method DeleteAttendance(id: Id) returns (deleted: bool)
      requires Valid()
      modifies this
      ensures Valid()
      ensures deleted <==> id in old(attendances)
      ensures id !in attendances
      ensures forall rid :: rid in studentAttendances ==> studentAttendances[rid].attendanceId != id
      ensures attendances == old(attendances) - {id}
      ensures studentAttendances == WithoutAttendance(old(studentAttendances), id)
      ensures old(ReferentiallyIntact()) ==> ReferentiallyIntact()
      ensures classes == old(classes) && nextId == old(nextId)
    {
      DeleteStudentAttendancesOf(id);
      // no row references the attendance any more, so removing it leaves no row dangling
      assert forall rid :: rid in studentAttendances ==> studentAttendances[rid].attendanceId != id;
      deleted := id in attendances;
      attendances := attendances - {id};
    }
  }
}
