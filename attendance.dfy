/** server/routes/attendance.js: the attendance table, at most one row per
    (enrolment, session), and its status machine Not attended -> Pending -> Verified.
    Writes are functions from the old table to the new one, each stated through the
    table's (enrolment, session) -> status view `StatusOf`; the handlers are methods on
    the database that apply them and answer with an HTTP outcome. */
module AttendanceRoutes {
  import opened Schema
  import opened Ordering
  import opened Store

  type Table = map<Id, AttendanceRow>

  // ---------------------------------------------------------------------------
  // The status machine

  /** Not attended < Pending < Verified. */
  function Rank(st: AttendanceStatus): nat {
    match st
    case NotAttended => 0
    case Pending => 1
    case Verified => 2
  }

  /** A student's request applied to the current status of the pair (None: no row yet).
      Only Not attended (or no row) moves, and only one step, to Pending; a student can
      never lower a status. */
  function StudentTransition(current: Option<AttendanceStatus>): (next: AttendanceStatus)
    ensures next != NotAttended
    ensures current.Some? ==> Rank(current.value) <= Rank(next) <= Rank(current.value) + 1
    ensures current.Some? && current.value != NotAttended ==> next == current.value
  {
    match current
    case Some(Pending) => Pending
    case Some(Verified) => Verified
    case _ => Pending
  }

  // ---------------------------------------------------------------------------
  // Frames

  /** Every (enrolment, session) pair other than (e, s) has the same status in r as in t. */
  ghost predicate SameElsewhere(t: Table, r: Table, e: Id, s: Id)
    requires KeyUnique(t) && KeyUnique(r)
  {
    forall e': Id, s': Id :: e' != e || s' != s ==> StatusOf(r, e', s') == StatusOf(t, e', s')
  }

  /** Every row of t is still in r, with its attendance_id and its (enrolment, session). */
  ghost predicate PairsKept(t: Table, r: Table) {
    forall id :: id in t ==>
      id in r && r[id].enrolmentId == t[id].enrolmentId && r[id].sessionId == t[id].sessionId
  }

  /** The attendance_ids whose row differs between t and r (what affectedRows counts). */
  function ChangedIds(t: Table, r: Table): set<Id> {
    set id | id in t && id in r && r[id] != t[id]
  }

  /** A table whose rows keep their pairs keeps its uniqueness and its row for every pair. */
  lemma PairsKeptRowFor(t: Table, r: Table, e: Id, s: Id)
    requires KeyUnique(t) && PairsKept(t, r) && r.Keys == t.Keys
    ensures KeyUnique(r) && RowFor(r, e, s) == RowFor(t, e, s)
  {
    match RowFor(t, e, s)
    case Some(id) =>
      assert IsRowFor(r, id, e, s);
    case None =>
      if RowFor(r, e, s).Some? {
        assert IsRowFor(t, RowFor(r, e, s).value, e, s);
      }
  }

  // ---------------------------------------------------------------------------
  // One-row writes

  /** Row k becomes `row`: k is either the row of row's pair, or a newId key when the pair
      has no row. The pair now has row's status, and nothing else changes. */
  function WriteRow(t: Table, k: Id, row: AttendanceRow): (r: Table)
    requires KeyUnique(t)
    requires k in t ==> t[k].enrolmentId == row.enrolmentId && t[k].sessionId == row.sessionId
    requires k !in t ==> RowFor(t, row.enrolmentId, row.sessionId) == None
    ensures KeyUnique(r)
    ensures StatusOf(r, row.enrolmentId, row.sessionId) == Some(row.status)
    ensures SameElsewhere(t, r, row.enrolmentId, row.sessionId)
    ensures PairsKept(t, r) && r.Keys == t.Keys + {k} && r[k] == row
  {
    var r := t[k := row];
    assert forall b :: IsRowFor(t, b, row.enrolmentId, row.sessionId) ==> b == k;
    assert KeyUnique(r);
    assert IsRowFor(r, k, row.enrolmentId, row.sessionId);
    assert SameElsewhere(t, r, row.enrolmentId, row.sessionId) by {
      forall e': Id, s': Id | e' != row.enrolmentId || s' != row.sessionId
        ensures StatusOf(r, e', s') == StatusOf(t, e', s')
      {
        StatusOfElsewhere(t, k, row, e', s');
      }
    }
    r
  }

  /** INSERT ... ON DUPLICATE KEY UPDATE writing status v for (e, s): the pair's row is
      updated in place, or a row is added at the newId key when the pair has none. */
  function WriteStatus(t: Table, newId: Id, e: Id, s: Id, v: AttendanceStatus): (r: Table)
    requires KeyUnique(t) && newId !in t
    ensures KeyUnique(r) && StatusOf(r, e, s) == Some(v)
    ensures SameElsewhere(t, r, e, s) && PairsKept(t, r)
    ensures r.Keys == if RowFor(t, e, s).Some? then t.Keys else t.Keys + {newId}
    ensures RowFor(t, e, s).None? ==> r[newId] == AttendanceRow(e, s, v)
  {
    var k := RowFor(t, e, s).GetOr(newId);
    assert RowFor(t, e, s).Some? ==> IsRowFor(t, k, e, s);
    WriteRow(t, k, AttendanceRow(e, s, v))
  }

  /** The upsert of attendance.js:113-121 and 252-260: VALUES(COALESCE(status, 'Not attended'))
      ON DUPLICATE KEY UPDATE attendance_status = VALUES(attendance_status). The pair ends
      with the given status, or Not attended when none is given (also over an existing
      Pending or Verified row); a row is added only when the pair had none. */
  function UpsertRows(t: Table, newId: Id, e: Id, s: Id, status: Option<AttendanceStatus>): (r: Table)
    requires KeyUnique(t) && newId !in t
    ensures KeyUnique(r) && SameElsewhere(t, r, e, s) && PairsKept(t, r)
    ensures StatusOf(r, e, s) == Some(if status.Some? then status.value else NotAttended)
    ensures |r| == if StatusOf(t, e, s).Some? then |t| else |t| + 1
    ensures r.Keys <= t.Keys + {newId}
    ensures StatusOf(t, e, s) == None ==> newId in r && r[newId] == AttendanceRow(e, s, status.GetOr(NotAttended))
  {
    WriteStatus(t, newId, e, s, status.GetOr(NotAttended))
  }

  /** Repeating an upsert changes nothing more. */
  lemma UpsertIdempotent(t: Table, f1: Id, f2: Id, e: Id, s: Id, status: Option<AttendanceStatus>)
    requires KeyUnique(t) && f1 !in t && f2 !in UpsertRows(t, f1, e, s, status)
    ensures UpsertRows(UpsertRows(t, f1, e, s, status), f2, e, s, status) == UpsertRows(t, f1, e, s, status)
  {
    var r := UpsertRows(t, f1, e, s, status);
    var k := RowFor(r, e, s).value;
    assert IsRowFor(r, k, e, s);
    assert r[k] == AttendanceRow(e, s, status.GetOr(NotAttended));
    assert r[k := r[k]] == r;
  }

  /** The student self-service write of attendance.js:214-225: a missing row is added as
      Pending; otherwise CASE WHEN 'Not attended' THEN 'Pending' ELSE unchanged. */
  function StudentPendingRows(t: Table, newId: Id, e: Id, s: Id): (r: Table)
    requires KeyUnique(t) && newId !in t
    ensures KeyUnique(r) && SameElsewhere(t, r, e, s) && PairsKept(t, r)
    ensures StatusOf(r, e, s) == Some(StudentTransition(StatusOf(t, e, s)))
    ensures StatusOf(t, e, s) == None ==> StatusOf(r, e, s) == Some(Pending) && |r| == |t| + 1
    ensures StatusOf(t, e, s).Some? ==> |r| == |t|
  {
    WriteStatus(t, newId, e, s, StudentTransition(StatusOf(t, e, s)))
  }

  /** Asking twice is the same as asking once. */
  lemma {:induction false} StudentPendingIdempotent(t: Table, f1: Id, f2: Id, e: Id, s: Id)
    requires KeyUnique(t) && f1 !in t && f2 !in StudentPendingRows(t, f1, e, s)
    ensures StudentPendingRows(StudentPendingRows(t, f1, e, s), f2, e, s) == StudentPendingRows(t, f1, e, s)
  {
    var r := StudentPendingRows(t, f1, e, s);
    var k := RowFor(r, e, s).value;
    assert IsRowFor(r, k, e, s);
    assert r[k] == AttendanceRow(e, s, r[k].status);
    assert StudentTransition(StatusOf(r, e, s)) == r[k].status;
    assert r[k := r[k]] == r;
  }

  /** A Verified pair stays Verified, and a Pending one stays Pending. */
  lemma StudentPendingNeverDowngrades(t: Table, newId: Id, e: Id, s: Id)
    requires KeyUnique(t) && newId !in t
    requires StatusOf(t, e, s) == Some(Verified) || StatusOf(t, e, s) == Some(Pending)
    ensures StatusOf(StudentPendingRows(t, newId, e, s), e, s) == StatusOf(t, e, s)
  {
  }

  // ---------------------------------------------------------------------------
  // Per-id writes

  /** PUT of attendance.js:375-382: SET attendance_status = COALESCE(status, attendance_status)
      WHERE attendance_id = id. Only that row's pair may change status; an absent status
      or an unknown id leaves the table as it was. */
  function PutStatusRows(t: Table, id: Id, status: Option<AttendanceStatus>): (r: Table)
    requires KeyUnique(t)
    ensures KeyUnique(r) && PairsKept(t, r) && r.Keys == t.Keys
    ensures id !in t || status.None? ==> r == t
    ensures id in t ==>
      && StatusOf(r, t[id].enrolmentId, t[id].sessionId) == Some(status.GetOr(t[id].status))
      && SameElsewhere(t, r, t[id].enrolmentId, t[id].sessionId)
  {
    if id in t then
      var r := WriteRow(t, id, t[id].(status := status.GetOr(t[id].status)));
      assert status.None? ==> t[id].(status := status.GetOr(t[id].status)) == t[id];
      r
    else t
  }

  /** PATCH pending of attendance.js:402-409: the row becomes Pending from any state,
      Verified included; an unknown id leaves the table as it was. */
  function ForcePendingRows(t: Table, id: Id): (r: Table)
    requires KeyUnique(t)
    ensures KeyUnique(r) && PairsKept(t, r) && r.Keys == t.Keys
    ensures id !in t ==> r == t
    ensures id in t ==>
      && StatusOf(r, t[id].enrolmentId, t[id].sessionId) == Some(Pending)
      && SameElsewhere(t, r, t[id].enrolmentId, t[id].sessionId)
  {
    if id in t then WriteRow(t, id, t[id].(status := Pending)) else t
  }

  /** DELETE of attendance.js:451-454: only row `id` goes; its pair has no row afterwards. */
  function DeleteRows(t: Table, id: Id): (r: Table)
    requires KeyUnique(t)
    ensures KeyUnique(r) && r.Keys == t.Keys - {id}
    ensures forall k :: k in r ==> r[k] == t[k]
    ensures id in t ==>
      && StatusOf(r, t[id].enrolmentId, t[id].sessionId) == None
      && SameElsewhere(t, r, t[id].enrolmentId, t[id].sessionId)
  {
    var r := t - {id};
    if id in t then
      assert KeyUnique(r);
      assert SameElsewhere(t, r, t[id].enrolmentId, t[id].sessionId) by {
        forall e': Id, s': Id | e' != t[id].enrolmentId || s' != t[id].sessionId
          ensures StatusOf(r, e', s') == StatusOf(t, e', s')
        {
          StatusOfAfterRemove(t, id, e', s');
        }
      }
      assert IsRowFor(t, id, t[id].enrolmentId, t[id].sessionId);
      r
    else
      assert r == t;
      r
  }

  // ---------------------------------------------------------------------------
  // Bulk verification

  /** The rows of session s that are Pending. */
  function PendingIds(t: Table, s: Id): set<Id> {
    set id | id in t && t[id].sessionId == s && t[id].status == Pending
  }

  /** PATCH verify-all of attendance.js:429-437: UPDATE ... SET 'Verified' WHERE session_id = s
      AND attendance_status = 'Pending'. Exactly the Pending pairs of session s become
      Verified; the rows changed are exactly PendingIds(t, s). */
  function VerifyAllRows(t: Table, s: Id): (r: Table)
    requires KeyUnique(t)
    ensures KeyUnique(r) && PairsKept(t, r) && r.Keys == t.Keys
    ensures forall e: Id, s': Id ::
      StatusOf(r, e, s') == if s' == s && StatusOf(t, e, s') == Some(Pending) then Some(Verified) else StatusOf(t, e, s')
    ensures ChangedIds(t, r) == PendingIds(t, s)
  {
    var r := map id | id in t ::
      if t[id].sessionId == s && t[id].status == Pending then t[id].(status := Verified) else t[id];
    assert KeyUnique(r) by { PairsKeptRowFor(t, r, 0, 0); }
    assert forall e: Id, s': Id ::
      StatusOf(r, e, s') == if s' == s && StatusOf(t, e, s') == Some(Pending) then Some(Verified) else StatusOf(t, e, s')
    by {
      forall e: Id, s': Id ensures StatusOf(r, e, s') ==
        if s' == s && StatusOf(t, e, s') == Some(Pending) then Some(Verified) else StatusOf(t, e, s')
      {
        PairsKeptRowFor(t, r, e, s');
      }
    }
    r
  }

  /** A second verify-all finds nothing Pending in the session and changes nothing. */
  lemma VerifyAllIdempotent(t: Table, s: Id)
    requires KeyUnique(t)
    ensures PendingIds(VerifyAllRows(t, s), s) == {}
    ensures VerifyAllRows(VerifyAllRows(t, s), s) == VerifyAllRows(t, s)
  {
    var r := VerifyAllRows(t, s);
    assert ChangedIds(r, VerifyAllRows(r, s)) == {};
  }

  /** The attendance row's enrolment belongs to class offering o. */
  predicate InOffering(enrolments: map<Id, Enrolment>, row: AttendanceRow, o: Id) {
    row.enrolmentId in enrolments && enrolments[row.enrolmentId].offeringId == o
  }

  /** The instructor verify-pending UPDATE as written at attendance.js:163-175: attendance
      JOIN enrolment JOIN class_session ON the offering, WHERE cs.session_id = s (of offering
      o) AND status = 'Pending'. No condition ties the row's own session_id to s, so every
      Pending row of the offering, in any of its sessions, becomes Verified. */
  function VerifyOfferingRowsAsWritten(t: Table, enrolments: map<Id, Enrolment>, o: Id): (r: Table)
    ensures PairsKept(t, r) && r.Keys == t.Keys
    ensures forall id :: id in t ==>
      r[id].status == if InOffering(enrolments, t[id], o) && t[id].status == Pending then Verified else t[id].status
    ensures ChangedIds(t, r) == set id | id in t && InOffering(enrolments, t[id], o) && t[id].status == Pending
  {
    map id | id in t ::
      if InOffering(enrolments, t[id], o) && t[id].status == Pending then t[id].(status := Verified) else t[id]
  }

  /** The evidently intended verify-pending: the same UPDATE with a.session_id = s added, so
      only the Pending rows of session s (whose enrolment is in the offering) change. */
  function VerifySessionRows(t: Table, enrolments: map<Id, Enrolment>, s: Id, o: Id): (r: Table)
    ensures PairsKept(t, r) && r.Keys == t.Keys
    ensures forall id :: id in t && t[id].sessionId != s ==> r[id] == t[id]
    ensures forall id :: id in t && t[id].sessionId == s ==>
      r[id].status == if InOffering(enrolments, t[id], o) && t[id].status == Pending then Verified else t[id].status
    ensures ChangedIds(t, r) ==
      set id | id in t && t[id].sessionId == s && InOffering(enrolments, t[id], o) && t[id].status == Pending
  {
    map id | id in t ::
      if t[id].sessionId == s && InOffering(enrolments, t[id], o) && t[id].status == Pending
      then t[id].(status := Verified) else t[id]
  }

  /** The discrepancy: a Pending row of a sibling session of the same offering is verified
      by the UPDATE as written and left alone by the intended one. */
  lemma SiblingSessionVerified(t: Table, enrolments: map<Id, Enrolment>, s: Id, o: Id, id: Id)
    requires id in t && t[id].sessionId != s && t[id].status == Pending
    requires InOffering(enrolments, t[id], o)
    ensures VerifyOfferingRowsAsWritten(t, enrolments, o)[id].status == Verified
    ensures VerifySessionRows(t, enrolments, s, o)[id].status == Pending
  {
  }

  /** A concrete instance: offering 1 has sessions 10 and 11; enrolment 5 is Pending in
      session 11; verifying session 10 as written verifies it. */
  lemma SiblingSessionExample()
    ensures VerifyOfferingRowsAsWritten(map[7 := AttendanceRow(5, 11, Pending)],
      map[5 := Enrolment(1, 3, Active)], 1)[7].status == Verified
    ensures VerifySessionRows(map[7 := AttendanceRow(5, 11, Pending)],
      map[5 := Enrolment(1, 3, Active)], 10, 1)[7].status == Pending
  {
    SiblingSessionVerified(map[7 := AttendanceRow(5, 11, Pending)],
      map[5 := Enrolment(1, 3, Active)], 10, 1, 7);
  }

  // ---------------------------------------------------------------------------
  // Queries

  /** assertInstructorTeachesSession (attendance.js:13-27) and the same join at 38-49 and
      145-156: the session exists and a teaching assignment links the instructor to the
      session's class offering. */
  predicate TeachesSession(sessions: map<Id, ClassSession>, assignments: map<(Id, Id), string>,
                           instructor: Id, s: Id)
  {
    s in sessions && (instructor, sessions[s].offeringId) in assignments
  }

  /** Enrolment eid belongs to the class offering of session s. */
  predicate EnrolledInSessionOffering(sessions: map<Id, ClassSession>, enrolments: map<Id, Enrolment>,
                                      s: Id, eid: Id)
  {
    s in sessions && eid in enrolments && enrolments[eid].offeringId == sessions[s].offeringId
  }

  datatype RosterEntry = RosterEntry(
    enrolmentId: Id, studentId: Id, studentName: string,
    status: AttendanceStatus, attendanceId: Option<Id>)

  /** ORDER BY p.full_name. */
  function RosterKey(x: RosterEntry): seq<SortKey> { [Text(x.studentName)] }

  /** Enrolment eid is on the roster of session s: it is in the session's offering and the
      inner joins to student and person find its student. */
  predicate OnRoster(sessions: map<Id, ClassSession>, enrolments: map<Id, Enrolment>,
                     names: map<Id, string>, s: Id, eid: Id)
  {
    EnrolledInSessionOffering(sessions, enrolments, s, eid) && enrolments[eid].studentId in names
  }

  /** One roster line: the LEFT JOIN finds the pair's row, if any, and COALESCE gives
      Not attended when there is none. */
  function RosterEntryFor(enrolments: map<Id, Enrolment>, names: map<Id, string>, att: Table, s: Id, eid: Id)
    : RosterEntry
    requires KeyUnique(att) && eid in enrolments && enrolments[eid].studentId in names
  {
    var student := enrolments[eid].studentId;
    RosterEntry(eid, student, names[student], StatusOf(att, eid, s).GetOr(NotAttended), RowFor(att, eid, s))
  }

  /** The roster lines as a set: each is the line of its own enrolment. */
  ghost function RosterRows(sessions: map<Id, ClassSession>, enrolments: map<Id, Enrolment>,
                            names: map<Id, string>, att: Table, s: Id): (rows: set<RosterEntry>)
    requires KeyUnique(att)
    ensures forall x :: x in rows <==>
      && OnRoster(sessions, enrolments, names, s, x.enrolmentId)
      && x == RosterEntryFor(enrolments, names, att, s, x.enrolmentId)
  {
    set eid | eid in enrolments && OnRoster(sessions, enrolments, names, s, eid)
      :: RosterEntryFor(enrolments, names, att, s, eid)
  }

  /** GET roster of attendance.js:33-85. Without an assignment linking the instructor to the
      session's offering the answer is 404 and no rows. Otherwise every enrolment of the
      offering appears exactly once, with its recorded status or Not attended, ordered by
      student name. */
  ghost function InstructorRoster(sessions: map<Id, ClassSession>, assignments: map<(Id, Id), string>,
                                  enrolments: map<Id, Enrolment>, names: map<Id, string>, att: Table,
                                  instructor: Id, s: Id): (res: (Outcome, seq<RosterEntry>))
    requires KeyUnique(att)
    ensures res.0 == (if TeachesSession(sessions, assignments, instructor, s) then Ok else NotFound)
    ensures res.0 == NotFound ==> res.1 == []
    ensures forall eid :: res.0 == Ok && OnRoster(sessions, enrolments, names, s, eid) ==>
      RosterEntryFor(enrolments, names, att, s, eid) in res.1
    ensures forall i :: 0 <= i < |res.1| ==>
      && OnRoster(sessions, enrolments, names, s, res.1[i].enrolmentId)
      && res.1[i] == RosterEntryFor(enrolments, names, att, s, res.1[i].enrolmentId)
    ensures forall i, j :: 0 <= i < j < |res.1| ==> res.1[i].enrolmentId != res.1[j].enrolmentId
    ensures Sorted(res.1, RosterKey)
  {
    if !TeachesSession(sessions, assignments, instructor, s) then (NotFound, [])
    else
      var r := SortedList(RosterRows(sessions, enrolments, names, att, s), RosterKey);
      assert forall i :: 0 <= i < |r| ==> r[i] in r;
      (Ok, r)
  }

  datatype AttendanceListRow = AttendanceListRow(
    attendanceId: Id, enrolmentId: Id, sessionId: Id, status: AttendanceStatus,
    offeringId: Id, sessionNo: int, studentId: Id, studentName: string)

  /** ORDER BY cs.session_no, p.full_name, a.attendance_id. */
  function ListKey(x: AttendanceListRow): seq<SortKey> {
    [Num(x.sessionNo), Text(x.studentName), Num(x.attendanceId)]
  }

  /** Row id survives the inner joins to enrolment, student, person and class_session and
      matches each filter that is given. */
  predicate Listed(att: Table, enrolments: map<Id, Enrolment>, sessions: map<Id, ClassSession>,
                   names: map<Id, string>, enrolmentFilter: Option<Id>, sessionFilter: Option<Id>, id: Id)
  {
    && id in att
    && att[id].enrolmentId in enrolments
    && enrolments[att[id].enrolmentId].studentId in names
    && att[id].sessionId in sessions
    && (enrolmentFilter.Some? ==> att[id].enrolmentId == enrolmentFilter.value)
    && (sessionFilter.Some? ==> att[id].sessionId == sessionFilter.value)
  }

  function ListRowFor(att: Table, enrolments: map<Id, Enrolment>, sessions: map<Id, ClassSession>,
                      names: map<Id, string>, id: Id): AttendanceListRow
    requires id in att && att[id].enrolmentId in enrolments && att[id].sessionId in sessions
    requires enrolments[att[id].enrolmentId].studentId in names
  {
    var a := att[id];
    var student := enrolments[a.enrolmentId].studentId;
    AttendanceListRow(id, a.enrolmentId, a.sessionId, a.status,
      sessions[a.sessionId].offeringId, sessions[a.sessionId].sessionNo, student, names[student])
  }

  /** The rows the SELECT yields, as a set: each is the list row of its own attendance_id. */
  ghost function ListedRows(att: Table, enrolments: map<Id, Enrolment>, sessions: map<Id, ClassSession>,
                            names: map<Id, string>, enrolmentFilter: Option<Id>, sessionFilter: Option<Id>)
    : (rows: set<AttendanceListRow>)
    ensures forall x :: x in rows <==>
      && Listed(att, enrolments, sessions, names, enrolmentFilter, sessionFilter, x.attendanceId)
      && x == ListRowFor(att, enrolments, sessions, names, x.attendanceId)
  {
    set id | id in att && Listed(att, enrolments, sessions, names, enrolmentFilter, sessionFilter, id)
      :: ListRowFor(att, enrolments, sessions, names, id)
  }

  /** What a listing holding each of ListedRows once contains. */
  lemma ListedRowsListing(att: Table, enrolments: map<Id, Enrolment>, sessions: map<Id, ClassSession>,
                          names: map<Id, string>, enrolmentFilter: Option<Id>, sessionFilter: Option<Id>,
                          r: seq<AttendanceListRow>)
    requires Distinct(r)
    requires forall x :: x in r <==>
      && Listed(att, enrolments, sessions, names, enrolmentFilter, sessionFilter, x.attendanceId)
      && x == ListRowFor(att, enrolments, sessions, names, x.attendanceId)
    ensures forall id :: Listed(att, enrolments, sessions, names, enrolmentFilter, sessionFilter, id) ==>
      ListRowFor(att, enrolments, sessions, names, id) in r
    ensures forall i :: 0 <= i < |r| ==>
      && Listed(att, enrolments, sessions, names, enrolmentFilter, sessionFilter, r[i].attendanceId)
      && r[i] == ListRowFor(att, enrolments, sessions, names, r[i].attendanceId)
    ensures forall i, j :: 0 <= i < j < |r| ==> r[i].attendanceId != r[j].attendanceId
  {
    assert forall i :: 0 <= i < |r| ==> r[i] in r;
    forall id | Listed(att, enrolments, sessions, names, enrolmentFilter, sessionFilter, id)
      ensures ListRowFor(att, enrolments, sessions, names, id) in r
    {
      assert ListRowFor(att, enrolments, sessions, names, id).attendanceId == id;
    }
  }

  /** GET / of attendance.js:277-326: exactly the rows that survive the joins and match
      every given filter, each once, ordered by session_no, student name, attendance_id. */
  ghost function ListAttendance(att: Table, enrolments: map<Id, Enrolment>, sessions: map<Id, ClassSession>,
                                names: map<Id, string>, enrolmentFilter: Option<Id>, sessionFilter: Option<Id>)
    : (r: seq<AttendanceListRow>)
    ensures forall id :: Listed(att, enrolments, sessions, names, enrolmentFilter, sessionFilter, id) ==>
      ListRowFor(att, enrolments, sessions, names, id) in r
    ensures forall i :: 0 <= i < |r| ==>
      && Listed(att, enrolments, sessions, names, enrolmentFilter, sessionFilter, r[i].attendanceId)
      && r[i] == ListRowFor(att, enrolments, sessions, names, r[i].attendanceId)
    ensures forall i, j :: 0 <= i < j < |r| ==> r[i].attendanceId != r[j].attendanceId
    ensures Sorted(r, ListKey)
  {
    var r := SortedList(ListedRows(att, enrolments, sessions, names, enrolmentFilter, sessionFilter), ListKey);
    ListedRowsListing(att, enrolments, sessions, names, enrolmentFilter, sessionFilter, r);
    r
  }

  // ---------------------------------------------------------------------------
  // Handlers

  /** The upsert statement followed by the SELECT of the pair's row. The auto-increment
      counter advances even when the statement only updates. */
  method Upsert(db: Database, e: Id, s: Id, status: Option<AttendanceStatus>)
    returns (id: Id, row: AttendanceRow)
    requires db.Valid()
    modifies db`attendance, db`nextAttendanceId
    ensures db.Valid()
    ensures db.attendance == UpsertRows(old(db.attendance), old(db.nextAttendanceId), e, s, status)
    ensures IsRowFor(db.attendance, id, e, s) && row == db.attendance[id]
    ensures StatusOf(old(db.attendance), e, s) == None ==> id == old(db.nextAttendanceId)
    ensures db.nextAttendanceId == old(db.nextAttendanceId) + 1
  {
    var t, next := db.attendance, db.nextAttendanceId;
    var r := UpsertRows(t, next, e, s, status);
    id := RowFor(r, e, s).value;
    UpsertedRow(t, next, e, s, status, r, id);
    row := r[id];
    db.attendance, db.nextAttendanceId := r, next + 1;
  }

  /** After an upsert under the counter's value, the pair's row is the new row exactly when
      the pair had none, and every key is below the advanced counter. */
  lemma UpsertedRow(t: Table, next: Id, e: Id, s: Id, status: Option<AttendanceStatus>, r: Table, id: Id)
    requires KeyUnique(t) && forall k :: k in t ==> k < next
    requires r == UpsertRows(t, next, e, s, status) && RowFor(r, e, s) == Some(id)
    ensures KeyUnique(r) && forall k :: k in r ==> k < next + 1
    ensures IsRowFor(r, id, e, s)
    ensures StatusOf(t, e, s) == None ==> id == next
  {
    if StatusOf(t, e, s) == None {
      assert IsRowFor(r, next, e, s);
    }
  }

  /** POST /attendance (attendance.js:248-273): the upsert, unguarded, answering with the
      pair's row: 201 when insertId is truthy, else 200. A real insert reports the new id;
      whether an update reports one is up to the database driver, so `updateReportsId`
      stands for it. */
  method PostAttendance(db: Database, e: Id, s: Id, status: Option<AttendanceStatus>, updateReportsId: bool)
    returns (outcome: Outcome, id: Id, row: AttendanceRow)
    requires db.Valid()
    modifies db`attendance, db`nextAttendanceId
    ensures db.Valid()
    ensures db.attendance == UpsertRows(old(db.attendance), old(db.nextAttendanceId), e, s, status)
    ensures IsRowFor(db.attendance, id, e, s) && row == db.attendance[id]
    ensures outcome == if StatusOf(old(db.attendance), e, s) == None || updateReportsId then Created else Ok
    ensures db.nextAttendanceId == old(db.nextAttendanceId) + 1
  {
    var inserted := StatusOf(db.attendance, e, s) == None;
    id, row := Upsert(db, e, s, status);
    outcome := if inserted || updateReportsId then Created else Ok;
  }

  /** POST /attendance/instructor/:instructor_id/session/:session_id (attendance.js:91-137):
      403 and no change unless the instructor teaches the session's offering; 400 and no
      change unless the enrolment is in that offering; otherwise the upsert. */
  method InstructorUpsert(db: Database, instructor: Id, s: Id, e: Id, status: Option<AttendanceStatus>)
    returns (outcome: Outcome, body: Option<(Id, AttendanceRow)>)
    requires db.Valid()
    modifies db`attendance, db`nextAttendanceId
    ensures db.Valid()
    ensures !TeachesSession(db.sessions, db.assignments, instructor, s) ==>
      && outcome == Forbidden && db.attendance == old(db.attendance) && body == None
      && db.nextAttendanceId == old(db.nextAttendanceId)
    ensures TeachesSession(db.sessions, db.assignments, instructor, s) &&
            !EnrolledInSessionOffering(db.sessions, db.enrolments, s, e) ==>
      && outcome == BadRequest && db.attendance == old(db.attendance) && body == None
      && db.nextAttendanceId == old(db.nextAttendanceId)
    ensures TeachesSession(db.sessions, db.assignments, instructor, s) &&
            EnrolledInSessionOffering(db.sessions, db.enrolments, s, e) ==>
      && outcome == Ok
      && db.attendance == UpsertRows(old(db.attendance), old(db.nextAttendanceId), e, s, status)
      && db.nextAttendanceId == old(db.nextAttendanceId) + 1
      && body.Some? && IsRowFor(db.attendance, body.value.0, e, s)
      && body.value.1 == db.attendance[body.value.0]
  {
    if !TeachesSession(db.sessions, db.assignments, instructor, s) {
      return Forbidden, None;
    }
    if !EnrolledInSessionOffering(db.sessions, db.enrolments, s, e) {
      return BadRequest, None;
    }
    var id, row := Upsert(db, e, s, status);
    outcome, body := Ok, Some((id, row));
  }

  /** POST .../verify-pending (attendance.js:140-184): 403 and no change unless the
      instructor teaches the session's offering; otherwise the Pending rows of the session
      become Verified and the count is returned. This applies the corrected UPDATE
      (VerifySessionRows); see VerifyOfferingRowsAsWritten for the one in the source. */
  method InstructorVerifyPending(db: Database, instructor: Id, s: Id) returns (outcome: Outcome, updated: nat)
    requires db.Valid()
    modifies db`attendance
    ensures db.Valid()
    ensures !TeachesSession(db.sessions, db.assignments, instructor, s) ==>
      outcome == Forbidden && db.attendance == old(db.attendance) && updated == 0
    ensures TeachesSession(db.sessions, db.assignments, instructor, s) ==>
      && outcome == Ok
      && db.attendance == VerifySessionRows(old(db.attendance), db.enrolments, s, db.sessions[s].offeringId)
      && updated == |ChangedIds(old(db.attendance), db.attendance)|
  {
    if !TeachesSession(db.sessions, db.assignments, instructor, s) {
      return Forbidden, 0;
    }
    var before := db.attendance;
    db.attendance := VerifySessionRows(db.attendance, db.enrolments, s, db.sessions[s].offeringId);
    assert KeyUnique(db.attendance) by { PairsKeptRowFor(before, db.attendance, 0, 0); }
    outcome, updated := Ok, |ChangedIds(before, db.attendance)|;
  }

  /** Enrolment eid is the student's, in the class offering of session s. */
  predicate StudentInSession(sessions: map<Id, ClassSession>, enrolments: map<Id, Enrolment>,
                             student: Id, s: Id, eid: Id)
  {
    EnrolledInSessionOffering(sessions, enrolments, s, eid) && enrolments[eid].studentId == student
  }

  /** PATCH /attendance/student/:student_id/session/:session_id/pending
      (attendance.js:188-243): 404 and no change when the student has no enrolment in the
      session's offering; otherwise the student transition on the pair of one such
      enrolment, answering with the pair's row. */
  method StudentSetPending(db: Database, student: Id, s: Id)
    returns (outcome: Outcome, body: Option<(Id, AttendanceStatus)>)
    requires db.Valid()
    modifies db`attendance, db`nextAttendanceId
    ensures db.Valid()
    ensures outcome == NotFound || outcome == Ok
    ensures outcome == NotFound <==> !exists eid :: eid in db.enrolments && StudentInSession(db.sessions, db.enrolments, student, s, eid)
    ensures outcome == NotFound ==>
      db.attendance == old(db.attendance) && db.nextAttendanceId == old(db.nextAttendanceId) && body == None
    ensures outcome == Ok ==> db.nextAttendanceId == old(db.nextAttendanceId) + 1
    ensures outcome == Ok ==> exists eid ::
      && StudentInSession(db.sessions, db.enrolments, student, s, eid)
      && db.attendance == StudentPendingRows(old(db.attendance), old(db.nextAttendanceId), eid, s)
      && body.Some? && IsRowFor(db.attendance, body.value.0, eid, s)
      && body.value.1 == db.attendance[body.value.0].status
  {
    if !exists eid :: eid in db.enrolments && StudentInSession(db.sessions, db.enrolments, student, s, eid) {
      return NotFound, None;
    }
    var eid :| eid in db.enrolments && StudentInSession(db.sessions, db.enrolments, student, s, eid);
    db.attendance := StudentPendingRows(db.attendance, db.nextAttendanceId, eid, s);
    db.nextAttendanceId := db.nextAttendanceId + 1;
    var id := RowFor(db.attendance, eid, s).value;
    outcome, body := Ok, Some((id, db.attendance[id].status));
    assert eid in db.enrolments && StudentInSession(db.sessions, db.enrolments, student, s, eid);
  }

  /** PUT /attendance/:attendance_id (attendance.js:370-394): 404 and no change for an
      unknown id; otherwise COALESCE(status, old status). */
  method PutAttendance(db: Database, id: Id, status: Option<AttendanceStatus>)
    returns (outcome: Outcome, body: Option<AttendanceRow>)
    requires db.Valid()
    modifies db`attendance
    ensures db.Valid()
    ensures db.attendance == PutStatusRows(old(db.attendance), id, status)
    ensures id !in old(db.attendance) ==> outcome == NotFound && body == None
    ensures id in old(db.attendance) ==> outcome == Ok && body == Some(db.attendance[id])
  {
    if id !in db.attendance {
      return NotFound, None;
    }
    db.attendance := PutStatusRows(db.attendance, id, status);
    outcome, body := Ok, Some(db.attendance[id]);
  }

  /** PATCH /attendance/:attendance_id/pending (attendance.js:398-421). */
  method PatchPending(db: Database, id: Id) returns (outcome: Outcome, body: Option<AttendanceRow>)
    requires db.Valid()
    modifies db`attendance
    ensures db.Valid()
    ensures db.attendance == ForcePendingRows(old(db.attendance), id)
    ensures id !in old(db.attendance) ==> outcome == NotFound && body == None
    ensures id in old(db.attendance) ==> outcome == Ok && body == Some(db.attendance[id])
  {
    if id !in db.attendance {
      return NotFound, None;
    }
    db.attendance := ForcePendingRows(db.attendance, id);
    outcome, body := Ok, Some(db.attendance[id]);
  }

  /** PATCH /attendance/verify-all/:session_id (attendance.js:425-443): answers with the
      number of rows changed. */
  method VerifyAll(db: Database, s: Id) returns (outcome: Outcome, updated: nat)
    requires db.Valid()
    modifies db`attendance
    ensures db.Valid() && outcome == Ok
    ensures db.attendance == VerifyAllRows(old(db.attendance), s)
    ensures updated == |ChangedIds(old(db.attendance), db.attendance)| == |PendingIds(old(db.attendance), s)|
  {
    updated := |PendingIds(db.attendance, s)|;
    db.attendance := VerifyAllRows(db.attendance, s);
    outcome := Ok;
  }

  /** DELETE /attendance/:attendance_id (attendance.js:447-461): 204, or 404 and no change. */
  method DeleteAttendance(db: Database, id: Id) returns (outcome: Outcome)
    requires db.Valid()
    modifies db`attendance
    ensures db.Valid()
    ensures db.attendance == DeleteRows(old(db.attendance), id)
    ensures outcome == if id in old(db.attendance) then NoContent else NotFound
  {
    outcome := if id in db.attendance then NoContent else NotFound;
    db.attendance := DeleteRows(db.attendance, id);
  }
}
