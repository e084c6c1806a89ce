/** The records of the attendance application's relational store, as plain values. */
module Entities {

  datatype Option<+T> = None | Some(value: T) {
    function GetOr(default: T): T {
      match this
      case Some(v) => v
      case None => default
    }
  }

  /** The outcome of a store write that addresses one row by id: the row, or the
      store's "record to update/delete not found" failure. */
  datatype Result<+T> = Ok(value: T) | RecordNotFound

  /** Ids of rows this store assigns (attendances and student attendances). */
  type Id = nat

  /** Ids of rows owned by other controllers (classes, students). */
  type ClassId = string
  type StudentId = string

  /** A calendar instant, after the request's date has been coerced. */
  type Date = int

  datatype Status = Pending | Processed

  datatype Class = Class(id: ClassId, name: string, abbreviation: string, teacher: string, totalHours: int)

  datatype Attendance = Attendance(id: Id, classId: ClassId, date: Date, photoUrl: Option<string>, status: Status)

  datatype StudentAttendance = StudentAttendance(id: Id, studentId: StudentId, attendanceId: Id, present: bool)

  /** One element of the attendance listing: the attendance, its class, and its student-attendance rows. */
  datatype AttendanceWithRelations =
    AttendanceWithRelations(attendance: Attendance, classInfo: Option<Class>, studentAttendances: set<StudentAttendance>)
}
