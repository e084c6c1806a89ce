/** The `/attendances` collection endpoint: listing every attendance, and creating one
    for an existing class. */
module AttendancesRoute {
  import opened Entities
  import opened Controllers

  datatype Body =
    | AttendanceBody(attendance: Attendance)
    | AttendancesBody(attendances: map<Id, AttendanceWithRelations>)
    | MessageBody(message: string)

  /** What a handler produces: a JSON response, or an exception it does not catch
      (which the web framework turns into an internal error). */
  datatype Outcome = Response(status: int, body: Body) | Thrown

  /** The fields the request schema accepts: a class id, a date coerced from the input,
      and an optional photo URL. */
  datatype CreateAttendanceInput = CreateAttendanceInput(classId: ClassId, date: Date, photoUrl: Option<string>)

  /** GET: every attendance with its class and student-attendance rows, status 200. */
  method Get(store: Store) returns (r: Outcome)
    ensures r == Response(200, AttendancesBody(Join(store.attendances, store.classes, store.studentAttendances)))
  {
    var attendances := store.FindAllAttendances();
    r := Response(200, AttendancesBody(attendances));
  }

  /** POST: `input` is the outcome of reading and parsing the request body (None when
      that throws: the body is not JSON, is `null`, or the schema rejects it). Such a
      failure throws before anything is looked up; an unknown
      class answers 404 without writing; otherwise the attendance is created without a
      status (so the store's default applies) and returned with status 200. */
  method Post(store: Store, input: Option<CreateAttendanceInput>) returns (r: Outcome)
    requires store.Valid()
    modifies store
    ensures store.Valid()
    ensures input.None? ==> r == Thrown && unchanged(store)
    ensures input.Some? && input.value.classId !in old(store.classes) ==>
              r == Response(404, MessageBody("Class not found")) && unchanged(store)
    ensures input.Some? && input.value.classId in old(store.classes) ==>
              && r.Response? && r.status == 200 && r.body.AttendanceBody?
              && var a := r.body.attendance;
              && a.classId == input.value.classId && a.date == input.value.date && a.photoUrl == input.value.photoUrl
              && a.status == store.defaultStatus
              && a.id !in old(store.attendances)
              && store.attendances == old(store.attendances)[a.id := a]
              && store.studentAttendances == old(store.studentAttendances)
              && store.classes == old(store.classes)
    ensures store.attendances != old(store.attendances) <==> input.Some? && input.value.classId in old(store.classes)
  {
    if input.None? {
      return Thrown;
    }
    var CreateAttendanceInput(classId, date, photoUrl) := input.value;
    var foundClass := store.FindClass(classId);
    if foundClass.None? {
      return Response(404, MessageBody("Class not found"));
    }
    var attendance := store.CreateAttendance(classId, date, photoUrl, None);
    r := Response(200, AttendanceBody(attendance));
  }
}
