/** The LMS database as the route handlers see it: one map per table, keyed by the table's
    primary key, and the next value of each auto-increment counter. */
module Store {
  import opened Schema

  class Database {
    /** attendance, keyed by attendance_id. */
    var attendance: map<Id, AttendanceRow>
    var nextAttendanceId: Id
    /** grades_and_attendance, keyed by record_id. */
    var records: map<Id, GradeRecord>
    var nextRecordId: Id
    /** class_session, keyed by session_id. */
    var sessions: map<Id, ClassSession>
    var nextSessionId: Id
    /** enrolment, keyed by enrolment_id. */
    var enrolments: map<Id, Enrolment>
    var nextEnrolmentId: Id
    /** teaching_assignment, keyed by (instructor_id, class_offering_id), holding teaching_role. */
    var assignments: map<(Id, Id), string>
    /** student ⋈ person: a student's full_name. No modelled handler writes it. */
    const studentNames: map<Id, string>
    /** class_offering ⋈ course ⋈ term, by class_offering_id. No modelled handler writes it. */
    const offerings: map<Id, Offering>

    /** Every key is below its auto-increment counter, and attendance is unique on
        (enrolment_id, session_id). */
    ghost predicate Valid()
      reads this
    {
      && KeyUnique(attendance)
      && (forall id :: id in attendance ==> id < nextAttendanceId)
      && (forall id :: id in records ==> id < nextRecordId)
      && (forall id :: id in sessions ==> id < nextSessionId)
      && (forall id :: id in enrolments ==> id < nextEnrolmentId)
    }

    /** An empty schema over the given students and class offerings. */
    constructor (studentNames: map<Id, string>, offerings: map<Id, Offering>)
      ensures Valid()
      ensures this.studentNames == studentNames && this.offerings == offerings
      ensures attendance == map[] && records == map[] && sessions == map[]
      ensures enrolments == map[] && assignments == map[]
    {
      this.studentNames := studentNames;
      this.offerings := offerings;
      attendance, records, sessions, enrolments, assignments := map[], map[], map[], map[], map[];
      nextAttendanceId, nextRecordId, nextSessionId, nextEnrolmentId := 1, 1, 1, 1;
    }
  }
}
