/** server/routes/grades_attendance.js: the denormalised grades_and_attendance table, keyed
    by an auto-increment record_id with no uniqueness on (enrolment, session), and the same
    status operations as the attendance table plus field-wise partial updates. */
module GradesAttendanceRoutes {
  import opened Schema
  import opened Ordering
  import opened Store

  type Records = map<Id, GradeRecord>

  /** The optional body fields of a PUT; an absent field (undefined or null) keeps the
      stored value. */
  datatype RecordPatch = RecordPatch(
    assessmentType: Option<string>, score: Option<int>, weight: Option<int>,
    attendanceStatus: Option<AttendanceStatus>)

  /** SET f = COALESCE(?, f) for the four editable fields (grades_attendance.js:131-138):
      a supplied field replaces the stored one, an absent one keeps it, and the record's
      enrolment and session never change. */
  function PatchFields(rec: GradeRecord, p: RecordPatch): (r: GradeRecord)
    ensures r.enrolmentId == rec.enrolmentId && r.sessionId == rec.sessionId
    ensures r.assessmentType == (if p.assessmentType.Some? then p.assessmentType.value else rec.assessmentType)
    ensures r.score == (if p.score.Some? then p.score.value else rec.score)
    ensures r.weight == (if p.weight.Some? then p.weight.value else rec.weight)
    ensures r.attendanceStatus == (if p.attendanceStatus.Some? then p.attendanceStatus.value else rec.attendanceStatus)
  {
    rec.(assessmentType := p.assessmentType.GetOr(rec.assessmentType),
         score := p.score.GetOr(rec.score),
         weight := p.weight.GetOr(rec.weight),
         attendanceStatus := p.attendanceStatus.GetOr(rec.attendanceStatus))
  }

  /** A PUT with no fields changes nothing. */
  lemma EmptyPatchKeepsRecord(rec: GradeRecord)
    ensures PatchFields(rec, RecordPatch(None, None, None, None)) == rec
  {
  }

  /** Repeating a PUT changes nothing more. */
  lemma PatchFieldsIdempotent(rec: GradeRecord, p: RecordPatch)
    ensures PatchFields(PatchFields(rec, p), p) == PatchFields(rec, p)
  {
  }

  /** Record id is changed by the write from t to r; everything else is as it was. */
  ghost predicate OnlyRecordChanged(t: Records, r: Records, id: Id) {
    r.Keys == t.Keys && forall k :: k in t && k != id ==> r[k] == t[k]
  }

  /** PUT /grades-attendance/:record_id on the table: an unknown id leaves it as it was. */
  function PutRecordRows(t: Records, id: Id, p: RecordPatch): (r: Records)
    ensures OnlyRecordChanged(t, r, id)
    ensures id !in t ==> r == t
    ensures id in t ==> r[id] == PatchFields(t[id], p)
  {
    if id in t then t[id := PatchFields(t[id], p)] else t
  }

  /** PATCH attendance-pending (grades_attendance.js:152-158): the record becomes Pending
      from any state, Verified included, and no other field or record changes. */
  function PendingRecordRows(t: Records, id: Id): (r: Records)
    ensures OnlyRecordChanged(t, r, id)
    ensures id !in t ==> r == t
    ensures id in t ==> r[id].attendanceStatus == Pending
    ensures id in t ==> r[id] == PatchFields(t[id], RecordPatch(None, None, None, Some(Pending)))
  {
    if id in t then t[id := t[id].(attendanceStatus := Pending)] else t
  }

  /** DELETE (grades_attendance.js:202): exactly record id goes. */
  function DeleteRecordRows(t: Records, id: Id): (r: Records)
    ensures r.Keys == t.Keys - {id}
    ensures forall k :: k in r ==> r[k] == t[k]
    ensures |r| == if id in t then |t| - 1 else |t|
  {
    t - {id}
  }

  /** The records of session s whose status is Pending. */
  function PendingRecordIds(t: Records, s: Id): set<Id> {
    set id | id in t && t[id].sessionId == s && t[id].attendanceStatus == Pending
  }

  /** The record_ids whose record differs between t and r. */
  function ChangedRecordIds(t: Records, r: Records): set<Id> {
    set id | id in t && id in r && r[id] != t[id]
  }

  /** PATCH verify-all (grades_attendance.js:180-186): exactly the Pending records of
      session s become Verified; no other field and no other record changes. */
  function VerifyRecordRows(t: Records, s: Id): (r: Records)
    ensures r.Keys == t.Keys
    ensures forall id :: id in t ==>
      r[id] == if t[id].sessionId == s && t[id].attendanceStatus == Pending
               then t[id].(attendanceStatus := Verified) else t[id]
    ensures ChangedRecordIds(t, r) == PendingRecordIds(t, s)
  {
    map id | id in t ::
      if t[id].sessionId == s && t[id].attendanceStatus == Pending then t[id].(attendanceStatus := Verified) else t[id]
  }

  /** A second verify-all of the same session finds nothing Pending and changes nothing. */
  lemma VerifyRecordRowsIdempotent(t: Records, s: Id)
    ensures PendingRecordIds(VerifyRecordRows(t, s), s) == {}
    ensures VerifyRecordRows(VerifyRecordRows(t, s), s) == VerifyRecordRows(t, s)
  {
    var r := VerifyRecordRows(t, s);
    assert ChangedRecordIds(r, VerifyRecordRows(r, s)) == {};
  }

  /** Verify-all never lowers a status: each record ends at the same or a higher rank. */
  lemma VerifyRecordRowsMonotone(t: Records, s: Id, id: Id)
    requires id in t
    ensures VerifyRecordRows(t, s)[id].attendanceStatus == t[id].attendanceStatus
      || (t[id].attendanceStatus == Pending && VerifyRecordRows(t, s)[id].attendanceStatus == Verified)
  {
  }

  // ---------------------------------------------------------------------------
  // The list

  datatype RecordListRow = RecordListRow(record: GradeRecord, recordId: Id, studentId: Id, studentName: string)

  /** ORDER BY p.full_name, ga.record_id. */
  function RecordKey(x: RecordListRow): seq<SortKey> { [Text(x.studentName), Num(x.recordId)] }

  /** Record id survives the joins to enrolment, student and person and matches each filter
      that is given (a filter that is absent or empty is not applied). */
  predicate RecordListed(t: Records, enrolments: map<Id, Enrolment>, names: map<Id, string>,
                         enrolmentFilter: Option<Id>, sessionFilter: Option<Id>, id: Id)
  {
    && id in t
    && t[id].enrolmentId in enrolments
    && enrolments[t[id].enrolmentId].studentId in names
    && (enrolmentFilter.Some? ==> t[id].enrolmentId == enrolmentFilter.value)
    && (sessionFilter.Some? ==> t[id].sessionId == sessionFilter.value)
  }

  function RecordRowFor(t: Records, enrolments: map<Id, Enrolment>, names: map<Id, string>, id: Id): RecordListRow
    requires id in t && t[id].enrolmentId in enrolments && enrolments[t[id].enrolmentId].studentId in names
  {
    var student := enrolments[t[id].enrolmentId].studentId;
    RecordListRow(t[id], id, student, names[student])
  }

  /** GET / (grades_attendance.js:20-60): exactly the records that pass the joins and every
      given filter, each once, ordered by student name then record_id. */
  ghost function ListRecords(t: Records, enrolments: map<Id, Enrolment>, names: map<Id, string>,
                             enrolmentFilter: Option<Id>, sessionFilter: Option<Id>): (r: seq<RecordListRow>)
    ensures forall id :: RecordListed(t, enrolments, names, enrolmentFilter, sessionFilter, id) ==>
      RecordRowFor(t, enrolments, names, id) in r
    ensures forall i :: 0 <= i < |r| ==>
      && RecordListed(t, enrolments, names, enrolmentFilter, sessionFilter, r[i].recordId)
      && r[i] == RecordRowFor(t, enrolments, names, r[i].recordId)
    ensures forall i, j :: 0 <= i < j < |r| ==> r[i].recordId != r[j].recordId
    ensures Sorted(r, RecordKey)
  {
    var rows := set id | id in t && RecordListed(t, enrolments, names, enrolmentFilter, sessionFilter, id)
      :: RecordRowFor(t, enrolments, names, id);
    var r := SortedList(rows, RecordKey);
    assert forall i :: 0 <= i < |r| ==>
      && RecordListed(t, enrolments, names, enrolmentFilter, sessionFilter, r[i].recordId)
      && r[i] == RecordRowFor(t, enrolments, names, r[i].recordId)
    by {
      forall i | 0 <= i < |r| ensures
        && RecordListed(t, enrolments, names, enrolmentFilter, sessionFilter, r[i].recordId)
        && r[i] == RecordRowFor(t, enrolments, names, r[i].recordId)
      {
        assert r[i] in rows;
      }
    }
    r
  }

  // ---------------------------------------------------------------------------
  // Handlers

  /** POST / (grades_attendance.js:5-17): always appends a record under a fresh record_id,
      even when the (enrolment, session) pair already has one; the status defaults to
      Not attended. Answers 201 with the new record. */
  method PostRecord(db: Database, e: Id, s: Id, assessmentType: string, score: int, weight: int,
                    status: Option<AttendanceStatus>)
    returns (outcome: Outcome, id: Id, rec: GradeRecord)
    requires db.Valid()
    modifies db`records, db`nextRecordId
    ensures db.Valid() && outcome == Created
    ensures id !in old(db.records) && id == old(db.nextRecordId)
    ensures rec == GradeRecord(e, s, assessmentType, score, weight, status.GetOr(NotAttended))
    ensures db.records == old(db.records)[id := rec] && |db.records| == |old(db.records)| + 1
    ensures db.nextRecordId == old(db.nextRecordId) + 1
  {
    id := db.nextRecordId;
    rec := GradeRecord(e, s, assessmentType, score, weight, status.GetOr(NotAttended));
    db.records := db.records[id := rec];
    db.nextRecordId := db.nextRecordId + 1;
    outcome := Created;
  }

  /** PUT /:record_id (grades_attendance.js:127-144): 404 and no change for an unknown id. */
  method PutRecord(db: Database, id: Id, p: RecordPatch) returns (outcome: Outcome, body: Option<GradeRecord>)
    requires db.Valid()
    modifies db`records
    ensures db.Valid()
    ensures db.records == PutRecordRows(old(db.records), id, p)
    ensures id !in old(db.records) ==> outcome == NotFound && body == None
    ensures id in old(db.records) ==> outcome == Ok && body == Some(db.records[id])
  {
    if id !in db.records {
      return NotFound, None;
    }
    db.records := PutRecordRows(db.records, id, p);
    outcome, body := Ok, Some(db.records[id]);
  }

  /** PATCH /:record_id/attendance-pending (grades_attendance.js:148-172). */
  method PatchRecordPending(db: Database, id: Id) returns (outcome: Outcome, body: Option<GradeRecord>)
    requires db.Valid()
    modifies db`records
    ensures db.Valid()
    ensures db.records == PendingRecordRows(old(db.records), id)
    ensures id !in old(db.records) ==> outcome == NotFound && body == None
    ensures id in old(db.records) ==> outcome == Ok && body == Some(db.records[id])
  {
    if id !in db.records {
      return NotFound, None;
    }
    db.records := PendingRecordRows(db.records, id);
    outcome, body := Ok, Some(db.records[id]);
  }

  /** PATCH /verify-all/:session_id (grades_attendance.js:176-195): answers with the number
      of records changed. */
  method VerifyAllRecords(db: Database, s: Id) returns (outcome: Outcome, updated: nat)
    requires db.Valid()
    modifies db`records
    ensures db.Valid() && outcome == Ok
    ensures db.records == VerifyRecordRows(old(db.records), s)
    ensures updated == |ChangedRecordIds(old(db.records), db.records)| == |PendingRecordIds(old(db.records), s)|
  {
    updated := |PendingRecordIds(db.records, s)|;
    db.records := VerifyRecordRows(db.records, s);
    outcome := Ok;
  }

  /** DELETE /:record_id (grades_attendance.js:199-206): 204, or 404 and no change. */
  method DeleteRecord(db: Database, id: Id) returns (outcome: Outcome)
    requires db.Valid()
    modifies db`records
    ensures db.Valid()
    ensures db.records == DeleteRecordRows(old(db.records), id)
    ensures outcome == if id in old(db.records) then NoContent else NotFound
  {
    outcome := if id in db.records then NoContent else NotFound;
    db.records := DeleteRecordRows(db.records, id);
  }
}
