/** Row types, status enumerations and request outcomes shared by the route modules,
    and the one uniqueness rule of the schema that the handlers rely on:
    the attendance table holds at most one row per (enrolment_id, session_id). */
module Schema {

  /** Auto-increment primary keys. */
  type Id = nat

  /** A SQL value that may be NULL, or a request field that may be absent. */
  datatype Option<T> = None | Some(value: T) {
    /** SQL's COALESCE(this, default). */
    function GetOr(default: T): T {
      match this
      case Some(v) => v
      case None => default
    }
  }

  /** The attendance_status enumeration: 'Not attended', 'Pending', 'Verified'. */
  datatype AttendanceStatus = NotAttended | Pending | Verified

  /** The enrolment_status enumeration: 'Active', 'Inactive'. */
  datatype EnrolmentStatus = Active | Inactive

  /** The HTTP status a handler answers with: 200, 201, 204, 400, 403, 404, 409. */
  datatype Outcome = Ok | Created | NoContent | BadRequest | Forbidden | NotFound | Conflict

  /** A row of attendance (its attendance_id is the key of the table's map). */
  datatype AttendanceRow = AttendanceRow(enrolmentId: Id, sessionId: Id, status: AttendanceStatus)

  /** A row of grades_and_attendance (its record_id is the key of the table's map). */
  datatype GradeRecord = GradeRecord(
    enrolmentId: Id, sessionId: Id, assessmentType: string,
    score: int, weight: int, attendanceStatus: AttendanceStatus)

  /** A row of class_session; session dates are 'YYYY-MM-DD HH:MM:SS' strings. */
  datatype ClassSession = ClassSession(
    offeringId: Id, sessionNo: int, start: string, end: string,
    title: Option<string>, room: Option<string>)

  /** A row of enrolment. */
  datatype Enrolment = Enrolment(offeringId: Id, studentId: Id, status: EnrolmentStatus)

  /** What the class_offering ⋈ course ⋈ term join contributes to session listings. */
  datatype Offering = Offering(courseCode: string, courseName: string)

  /** Row `id` of the attendance table belongs to enrolment `e` and session `s`. */
  predicate IsRowFor(t: map<Id, AttendanceRow>, id: Id, e: Id, s: Id) {
    id in t && t[id].enrolmentId == e && t[id].sessionId == s
  }

  /** UNIQUE(enrolment_id, session_id) of the attendance table. */
  ghost predicate KeyUnique(t: map<Id, AttendanceRow>) {
    forall a, b ::
      a in t && b in t && t[a].enrolmentId == t[b].enrolmentId && t[a].sessionId == t[b].sessionId
      ==> a == b
  }

  /** The attendance_id of the row for (e, s), if there is one (a lookup on the unique key). */
  function RowFor(t: map<Id, AttendanceRow>, e: Id, s: Id): (r: Option<Id>)
    requires KeyUnique(t)
    ensures forall id: Id :: IsRowFor(t, id, e, s) <==> r == Some(id)
  {
    if exists id :: id in t && IsRowFor(t, id, e, s) then
      var id :| id in t && IsRowFor(t, id, e, s); Some(id)
    else
      None
  }

  /** The table seen as a map from (enrolment, session) to status: the status recorded
      for the pair, or None when the pair has no row. */
  function StatusOf(t: map<Id, AttendanceRow>, e: Id, s: Id): Option<AttendanceStatus>
    requires KeyUnique(t)
  {
    match RowFor(t, e, s)
    case Some(id) => Some(t[id].status)
    case None => None
  }

  /** Writing row `k` leaves the status of every pair other than the old and the new pair of
      row `k` as it was. */
  lemma StatusOfElsewhere(t: map<Id, AttendanceRow>, k: Id, row: AttendanceRow, e: Id, s: Id)
    requires KeyUnique(t) && KeyUnique(t[k := row])
    requires row.enrolmentId != e || row.sessionId != s
    requires k in t ==> t[k].enrolmentId != e || t[k].sessionId != s
    ensures StatusOf(t[k := row], e, s) == StatusOf(t, e, s)
  {
    var t' := t[k := row];
    match RowFor(t, e, s)
    case Some(id) =>
      assert IsRowFor(t', id, e, s);
    case None =>
      if RowFor(t', e, s).Some? {
        var id := RowFor(t', e, s).value;
        assert IsRowFor(t, id, e, s);
      }
  }

  /** Removing row `k` leaves the status of every pair other than its own as it was. */
  lemma StatusOfAfterRemove(t: map<Id, AttendanceRow>, k: Id, e: Id, s: Id)
    requires KeyUnique(t)
    requires k in t ==> t[k].enrolmentId != e || t[k].sessionId != s
    ensures KeyUnique(t - {k})
    ensures StatusOf(t - {k}, e, s) == StatusOf(t, e, s)
  {
    var t' := t - {k};
    match RowFor(t, e, s)
    case Some(id) =>
      assert IsRowFor(t', id, e, s);
    case None =>
      if RowFor(t', e, s).Some? {
        var id := RowFor(t', e, s).value;
        assert IsRowFor(t, id, e, s);
      }
  }
}
