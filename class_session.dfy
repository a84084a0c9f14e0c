/** server/routes/class_session.js: class sessions and the provisioning fan-out that gives
    every Active enrolment of the session's class offering a placeholder record in
    grades_and_attendance, through one multi-row INSERT whose VALUES list and flat
    parameter array are built by a loop. */
module ClassSessionRoutes {
  import opened Schema
  import opened Ordering
  import opened Store

  type Records = map<Id, GradeRecord>

  // ---------------------------------------------------------------------------
  // Statement parameters

  /** A value bound to a `?` of a prepared statement. */
  datatype SqlValue = SqlInt(n: int) | SqlText(text: string)

  /** The VALUES tuple of one grades_and_attendance row, and the number of `?` in it. */
  const RowPlaceholder: string := "(?, ?, ?, ?, ?, ?)"
  const Arity: nat := 6

  /** How the attendance_status enumeration is spelled in SQL. */
  function StatusText(st: AttendanceStatus): string {
    match st
    case NotAttended => "Not attended"
    case Pending => "Pending"
    case Verified => "Verified"
  }

  /** The enumeration value a string stands for, if any. */
  function ParseStatus(s: string): (r: Option<AttendanceStatus>)
    ensures r.Some? ==> StatusText(r.value) == s
  {
    if s == "Not attended" then Some(NotAttended)
    else if s == "Pending" then Some(Pending)
    else if s == "Verified" then Some(Verified)
    else None
  }

  /** The six parameters of one row, in column order
      (enrolment_id, session_id, assessment_type, score, weight, attendance_status). */
  function EncodeRecord(rec: GradeRecord): (r: seq<SqlValue>)
    ensures |r| == Arity
  {
    [SqlInt(rec.enrolmentId), SqlInt(rec.sessionId), SqlText(rec.assessmentType),
     SqlInt(rec.score), SqlInt(rec.weight), SqlText(StatusText(rec.attendanceStatus))]
  }

  /** How the server reads six parameters back as a row; None when a value does not fit
      its column. */
  function DecodeRecord(ps: seq<SqlValue>): (r: Option<GradeRecord>)
    requires |ps| == Arity
    ensures r.Some? ==> EncodeRecord(r.value) == ps
  {
    match (ps[0], ps[1], ps[2], ps[3], ps[4], ps[5])
    case (SqlInt(e), SqlInt(s), SqlText(kind), SqlInt(score), SqlInt(weight), SqlText(st)) =>
      if e >= 0 && s >= 0 && ParseStatus(st).Some? then
        Some(GradeRecord(e, s, kind, score, weight, ParseStatus(st).value))
      else None
    case _ => None
  }

  lemma DecodeEncodeRecord(rec: GradeRecord)
    ensures DecodeRecord(EncodeRecord(rec)) == Some(rec)
  {
  }

  /** The flat parameter array of a multi-row INSERT: each row's six values in turn. */
  function EncodeRows(rows: seq<GradeRecord>): (r: seq<SqlValue>)
    ensures |r| == Arity * |rows|
  {
    if rows == [] then [] else EncodeRecord(rows[0]) + EncodeRows(rows[1..])
  }

  /** Appending a row appends its six parameters. */
  lemma {:induction false} EncodeRowsAppend(rows: seq<GradeRecord>, rec: GradeRecord)
    ensures EncodeRows(rows + [rec]) == EncodeRows(rows) + EncodeRecord(rec)
  {
    if rows != [] {
      assert (rows + [rec])[1..] == rows[1..] + [rec];
      EncodeRowsAppend(rows[1..], rec);
    }
  }

  /** The rows a parameter array stands for, six values at a time; None when its length is
      not a multiple of six or a group does not decode. */
  function DecodeRows(ps: seq<SqlValue>): (r: Option<seq<GradeRecord>>)
    ensures r.Some? ==> |ps| == Arity * |r.value| && EncodeRows(r.value) == ps
    decreases |ps|
  {
    if ps == [] then Some([])
    else if |ps| < Arity then None
    else
      match (DecodeRecord(ps[..Arity]), DecodeRows(ps[Arity..]))
      case (Some(rec), Some(rest)) =>
        assert ([rec] + rest)[1..] == rest;
        assert ps == ps[..Arity] + ps[Arity..];
        Some([rec] + rest)
      case _ => None
  }

  /** Round trip: the server reads back exactly the rows whose parameters were sent. */
  lemma {:induction false} DecodeEncodeRows(rows: seq<GradeRecord>)
    ensures DecodeRows(EncodeRows(rows)) == Some(rows)
  {
    if rows != [] {
      var ps := EncodeRows(rows);
      assert ps[..Arity] == EncodeRecord(rows[0]);
      assert ps[Arity..] == EncodeRows(rows[1..]);
      DecodeEncodeRecord(rows[0]);
      DecodeEncodeRows(rows[1..]);
      assert [rows[0]] + rows[1..] == rows;
    }
  }

  // ---------------------------------------------------------------------------
  // The multi-row INSERT

  /** INSERT of `rows` under consecutive auto-increment ids from `next`: the old records stay,
      row j gets id next + j, and the table grows by |rows|. */
  function InsertAll(t: Records, next: Id, rows: seq<GradeRecord>): (r: Records)
    requires forall k :: k in t ==> k < next
    ensures forall k :: k in r <==> k in t || next <= k < next + |rows|
    ensures forall k :: k in t ==> r[k] == t[k]
    ensures forall j :: 0 <= j < |rows| ==> r[next + j] == rows[j]
    ensures |r| == |t| + |rows|
    decreases |rows|
  {
    if rows == [] then t
    else
      var prev := InsertAll(t, next, rows[..|rows| - 1]);
      var r := prev[next + |rows| - 1 := rows[|rows| - 1]];
      InsertOneMore(t, next, rows, prev, r);
      r
  }

  /** The last row of an INSERT goes in under the next id after the others. */
  lemma InsertOneMore(t: Records, next: Id, rows: seq<GradeRecord>, prev: Records, r: Records)
    requires |rows| > 0 && forall k :: k in t ==> k < next
    requires forall k :: k in prev <==> k in t || next <= k < next + |rows| - 1
    requires forall k :: k in t ==> prev[k] == t[k]
    requires forall j :: 0 <= j < |rows| - 1 ==> prev[next + j] == rows[j]
    requires |prev| == |t| + |rows| - 1
    requires r == prev[next + |rows| - 1 := rows[|rows| - 1]]
    ensures forall k :: k in r <==> k in t || next <= k < next + |rows|
    ensures forall k :: k in t ==> r[k] == t[k]
    ensures forall j :: 0 <= j < |rows| ==> r[next + j] == rows[j]
    ensures |r| == |t| + |rows|
  {
    assert next + |rows| - 1 !in prev;
    forall j | 0 <= j < |rows| ensures r[next + j] == rows[j] {
      if j < |rows| - 1 {
        assert r[next + j] == prev[next + j];
      }
    }
  }

  /** `INSERT ... VALUES <placeholders joined by ', '>` run with `params`. None stands for the
      statement failing: an empty VALUES list is a syntax error, and the parameter count
      must match the placeholders. */
  function BulkInsert(t: Records, next: Id, placeholders: seq<string>, params: seq<SqlValue>): (r: Option<Records>)
    requires forall k :: k in t ==> k < next
    ensures placeholders == [] ==> r == None
    ensures r.Some? ==> exists rows ::
      |rows| == |placeholders| && EncodeRows(rows) == params && r.value == InsertAll(t, next, rows)
  {
    if placeholders == [] then None
    else if exists k :: 0 <= k < |placeholders| && placeholders[k] != RowPlaceholder then None
    else if |params| != Arity * |placeholders| then None
    else
      match DecodeRows(params)
      case Some(rows) => Some(InsertAll(t, next, rows))
      case None => None
  }

  /** The statement succeeds on a non-empty VALUES list of row tuples bound to the encoded
      rows, and inserts exactly those rows. */
  lemma BulkInsertOfPlaceholders(t: Records, next: Id, rows: seq<GradeRecord>,
                                 placeholders: seq<string>, params: seq<SqlValue>)
    requires forall k :: k in t ==> k < next
    requires |placeholders| == |rows| > 0
    requires forall k :: 0 <= k < |placeholders| ==> placeholders[k] == RowPlaceholder
    requires params == EncodeRows(rows)
    ensures BulkInsert(t, next, placeholders, params) == Some(InsertAll(t, next, rows))
  {
    DecodeEncodeRows(rows);
  }

  // ---------------------------------------------------------------------------
  // Provisioning

  /** Enrolment eid is an Active enrolment of class offering o. */
  predicate ActiveIn(enrolments: map<Id, Enrolment>, o: Id, eid: Id) {
    eid in enrolments && enrolments[eid].offeringId == o && enrolments[eid].status == Active
  }

  /** SELECT enrolment_id FROM enrolment WHERE class_offering_id = o AND status = 'Active'. */
  function ActiveEnrolmentIds(enrolments: map<Id, Enrolment>, o: Id): (r: set<Id>)
    ensures forall eid :: eid in r <==> ActiveIn(enrolments, o, eid)
  {
    set eid | eid in enrolments && ActiveIn(enrolments, o, eid)
  }

  /** The placeholder record of enrolment e for session s (class_session.js:63-70). */
  function Placeholder(e: Id, s: Id): GradeRecord {
    GradeRecord(e, s, "Session", 0, 0, NotAttended)
  }

  /** One placeholder per listed enrolment, in order: a 'Session' record of the enrolment for
      session s, with score 0, weight 0 and status Not attended. */
  function Placeholders(es: seq<Id>, s: Id): (r: seq<GradeRecord>)
    ensures |r| == |es|
    ensures forall j :: 0 <= j < |es| ==>
      && r[j].enrolmentId == es[j] && r[j].sessionId == s && r[j].assessmentType == "Session"
      && r[j].score == 0 && r[j].weight == 0 && r[j].attendanceStatus == NotAttended
  {
    seq(|es|, j requires 0 <= j < |es| => Placeholder(es[j], s))
  }

  /** The records after provisioning session s of class offering o: the placeholders of the
      Active enrolments of o, in ascending enrolment id, inserted under consecutive ids from
      next. What this means is ProvisionSpec. */
  function Provision(t: Records, next: Id, enrolments: map<Id, Enrolment>, o: Id, s: Id): (r: Records)
    requires forall k :: k in t ==> k < next
    ensures |r| == |t| + |ActiveEnrolmentIds(enrolments, o)|
  {
    InsertAll(t, next, Placeholders(SortedIds(ActiveEnrolmentIds(enrolments, o)), s))
  }

  /** Provisioning leaves the old records untouched, adds one new record per Active enrolment
      of o and no other, and each new record is that enrolment's placeholder for s. Inactive
      enrolments and enrolments of other offerings get nothing. */
  lemma ProvisionSpec(t: Records, next: Id, enrolments: map<Id, Enrolment>, o: Id, s: Id, r: Records)
    requires forall k :: k in t ==> k < next
    requires r == Provision(t, next, enrolments, o, s)
    ensures forall k :: k in t ==> k in r && r[k] == t[k]
    ensures forall k :: k in r && k !in t ==>
      ActiveIn(enrolments, o, r[k].enrolmentId) && r[k] == Placeholder(r[k].enrolmentId, s)
    ensures forall eid :: ActiveIn(enrolments, o, eid) ==>
      exists k :: k in r && k !in t && r[k].enrolmentId == eid
    ensures forall k1, k2 ::
      k1 in r && k1 !in t && k2 in r && k2 !in t && r[k1].enrolmentId == r[k2].enrolmentId ==> k1 == k2
  {
    var active := ActiveEnrolmentIds(enrolments, o);
    var es := SortedIds(active);
    var rows := Placeholders(es, s);
    assert r == InsertAll(t, next, rows);
    PlaceholdersAreNew(t, next, es, s, rows, r);
    EveryPlaceholderInserted(t, next, es, s, rows, r);
    PlaceholdersOnce(t, next, es, s, rows, r);
  }

  /** Every record an INSERT of placeholders adds is the placeholder of a listed enrolment. */
  lemma PlaceholdersAreNew(t: Records, next: Id, es: seq<Id>, s: Id, rows: seq<GradeRecord>, r: Records)
    requires forall k :: k in t ==> k < next
    requires rows == Placeholders(es, s) && r == InsertAll(t, next, rows)
    ensures forall k :: k in r && k !in t ==> r[k].enrolmentId in es && r[k] == Placeholder(r[k].enrolmentId, s)
  {
    forall k | k in r && k !in t
      ensures r[k].enrolmentId in es && r[k] == Placeholder(r[k].enrolmentId, s)
    {
      assert r[next + (k - next)] == rows[k - next];
    }
  }

  /** Every listed enrolment gets a new record. */
  lemma EveryPlaceholderInserted(t: Records, next: Id, es: seq<Id>, s: Id, rows: seq<GradeRecord>, r: Records)
    requires forall k :: k in t ==> k < next
    requires rows == Placeholders(es, s) && r == InsertAll(t, next, rows)
    ensures forall eid :: eid in es ==> exists k :: k in r && k !in t && r[k].enrolmentId == eid
  {
    forall eid | eid in es
      ensures exists k :: k in r && k !in t && r[k].enrolmentId == eid
    {
      var j :| 0 <= j < |es| && es[j] == eid;
      assert r[next + j] == rows[j];
    }
  }

  /** No listed enrolment gets two new records, when the list holds no enrolment twice. */
  lemma PlaceholdersOnce(t: Records, next: Id, es: seq<Id>, s: Id, rows: seq<GradeRecord>, r: Records)
    requires forall k :: k in t ==> k < next
    requires forall i, j :: 0 <= i < j < |es| ==> es[i] < es[j]
    requires rows == Placeholders(es, s) && r == InsertAll(t, next, rows)
    ensures forall k1, k2 ::
      k1 in r && k1 !in t && k2 in r && k2 !in t && r[k1].enrolmentId == r[k2].enrolmentId ==> k1 == k2
  {
    forall k1, k2 | k1 in r && k1 !in t && k2 in r && k2 !in t && r[k1].enrolmentId == r[k2].enrolmentId
      ensures k1 == k2
    {
      NewRecordOf(t, next, es, s, rows, r, k1);
      NewRecordOf(t, next, es, s, rows, r, k2);
    }
  }

  /** The new record under id k is the placeholder of the (k - next)-th listed enrolment. */
  lemma NewRecordOf(t: Records, next: Id, es: seq<Id>, s: Id, rows: seq<GradeRecord>, r: Records, k: Id)
    requires forall k :: k in t ==> k < next
    requires rows == Placeholders(es, s) && r == InsertAll(t, next, rows)
    requires k in r && k !in t
    ensures next <= k < next + |es| && r[k].enrolmentId == es[k - next]
  {
    assert r[next + (k - next)] == rows[k - next];
  }

  /** The session row a create or update stores. */
  function SessionRow(o: Id, sessionNo: int, start: string, end: string,
                      title: Option<string>, room: Option<string>): ClassSession
  {
    ClassSession(o, sessionNo, start, end, title, room)
  }

  /** POST /class-sessions (class_session.js:13-106): inserts the session under a fresh id,
      lists the Active enrolments of its offering, and when there is at least one, builds
      the VALUES list and the parameter array row by row and runs one multi-row INSERT.
      With no Active enrolment no INSERT is run; either way the answer is 201 with the
      session. */
  method CreateSession(db: Database, o: Id, sessionNo: int, start: string, end: string,
                       title: Option<string>, room: Option<string>)
    returns (outcome: Outcome, id: Id, session: ClassSession)
    requires db.Valid()
    modifies db`sessions, db`nextSessionId, db`records, db`nextRecordId
    ensures db.Valid() && outcome == Created
    ensures id == old(db.nextSessionId) && id !in old(db.sessions)
    ensures session == SessionRow(o, sessionNo, start, end, title, room)
    ensures db.sessions == old(db.sessions)[id := session]
    ensures db.records == Provision(old(db.records), old(db.nextRecordId), db.enrolments, o, id)
    ensures db.nextSessionId == old(db.nextSessionId) + 1
    ensures db.nextRecordId == old(db.nextRecordId) + |ActiveEnrolmentIds(db.enrolments, o)|
  {
    id := db.nextSessionId;
    session := SessionRow(o, sessionNo, start, end, title, room);
    db.sessions := db.sessions[id := session];
    db.nextSessionId := db.nextSessionId + 1;

    db.records, db.nextRecordId := ProvisionRecords(db.records, db.nextRecordId, db.enrolments, o, id);
    outcome := Created;
  }

  /** Steps 2 and 3 of the create (class_session.js:44-80): list the Active enrolments of
      the offering and, when there is at least one, build and run the multi-row INSERT.
      Returns the new table and the auto-increment counter after it. */
  method ProvisionRecords(records: Records, next: Id, enrolments: map<Id, Enrolment>, o: Id, sid: Id)
    returns (newRecords: Records, newNext: Id)
    requires forall k :: k in records ==> k < next
    ensures newRecords == Provision(records, next, enrolments, o, sid)
    ensures newNext == next + |ActiveEnrolmentIds(enrolments, o)|
    ensures forall k :: k in newRecords ==> k < newNext
  {
    var es := SortedIds(ActiveEnrolmentIds(enrolments, o));
    if |es| > 0 {
      var valuePlaceholders, gaParams := BuildInsertValues(es, sid);
      BulkInsertOfPlaceholders(records, next, Placeholders(es, sid), valuePlaceholders, gaParams);
      var inserted := BulkInsert(records, next, valuePlaceholders, gaParams);
      newRecords, newNext := inserted.value, next + |es|;
    } else {
      assert InsertAll(records, next, Placeholders(es, sid)) == records;
      newRecords, newNext := records, next;
    }
  }

  /** The loop of class_session.js:58-71: one VALUES tuple per enrolment, and the six
      parameters of its placeholder record appended to the flat parameter array. */
  method BuildInsertValues(es: seq<Id>, sid: Id) returns (valuePlaceholders: seq<string>, gaParams: seq<SqlValue>)
    ensures |valuePlaceholders| == |es|
    ensures forall k :: 0 <= k < |es| ==> valuePlaceholders[k] == RowPlaceholder
    ensures gaParams == EncodeRows(Placeholders(es, sid))
    ensures |gaParams| == Arity * |es|
  {
    valuePlaceholders, gaParams := [], [];
    var i := 0;
    while i < |es|
      invariant 0 <= i <= |es|
      invariant |valuePlaceholders| == i
      invariant forall k :: 0 <= k < i ==> valuePlaceholders[k] == RowPlaceholder
      invariant gaParams == EncodeRows(Placeholders(es[..i], sid))
    {
      valuePlaceholders := valuePlaceholders + [RowPlaceholder];
      EncodeRowsAppend(Placeholders(es[..i], sid), Placeholder(es[i], sid));
      assert Placeholders(es[..i + 1], sid) == Placeholders(es[..i], sid) + [Placeholder(es[i], sid)];
      gaParams := gaParams + [SqlInt(es[i]), SqlInt(sid), SqlText("Session"), SqlInt(0), SqlInt(0), SqlText("Not attended")];
      i := i + 1;
    }
    assert es[..i] == es;
  }

  // ---------------------------------------------------------------------------
  // Update and delete

  /** PUT /class-sessions/:id on the table (class_session.js:177-196): all six columns are
      overwritten, title and room becoming NULL when absent; an unknown id changes nothing. */
  function PutSessionRows(t: map<Id, ClassSession>, id: Id, row: ClassSession): (r: map<Id, ClassSession>)
    ensures r.Keys == t.Keys
    ensures forall k :: k in t && k != id ==> r[k] == t[k]
    ensures id in t ==> r[id] == row
    ensures id !in t ==> r == t
  {
    if id in t then t[id := row] else t
  }

  /** PUT /class-sessions/:id (class_session.js:164-226): 404 and no change for an unknown id. */
  method UpdateSession(db: Database, id: Id, o: Id, sessionNo: int, start: string, end: string,
                       title: Option<string>, room: Option<string>)
    returns (outcome: Outcome, body: Option<ClassSession>)
    requires db.Valid()
    modifies db`sessions
    ensures db.Valid()
    ensures db.sessions == PutSessionRows(old(db.sessions), id, SessionRow(o, sessionNo, start, end, title, room))
    ensures id !in old(db.sessions) ==> outcome == NotFound && body == None
    ensures id in old(db.sessions) ==> outcome == Ok && body == Some(SessionRow(o, sessionNo, start, end, title, room))
  {
    if id !in db.sessions {
      return NotFound, None;
    }
    db.sessions := PutSessionRows(db.sessions, id, SessionRow(o, sessionNo, start, end, title, room));
    outcome, body := Ok, Some(db.sessions[id]);
  }

  /** DELETE /class-sessions/:id (class_session.js:230-251): only that session goes; 204,
      or 404 and no change. */
  method DeleteSession(db: Database, id: Id) returns (outcome: Outcome)
    requires db.Valid()
    modifies db`sessions
    ensures db.Valid()
    ensures db.sessions == old(db.sessions) - {id}
    ensures outcome == if id in old(db.sessions) then NoContent else NotFound
  {
    outcome := if id in db.sessions then NoContent else NotFound;
    db.sessions := db.sessions - {id};
  }

  // ---------------------------------------------------------------------------
  // Queries

  /** `x LIKE '%q%'`: q occurs in x as a contiguous substring. */
  predicate Contains(x: string, q: string) {
    exists i :: 0 <= i <= |x| - |q| && OccursAt(x, q, i)
  }

  /** q occurs in x starting at index i. */
  predicate OccursAt(x: string, q: string, i: int) {
    0 <= i <= |x| - |q| && x[i..i + |q|] == q
  }

  /** The search term matches the session's title, room, course code or course name; a NULL
      title or room never matches. */
  predicate SearchMatches(sess: ClassSession, off: Offering, q: string) {
    || (sess.title.Some? && Contains(sess.title.value, q))
    || (sess.room.Some? && Contains(sess.room.value, q))
    || Contains(off.courseCode, q)
    || Contains(off.courseName, q)
  }

  /** Session sid survives the join to its class offering and passes each filter that is
      given (an absent or empty query parameter is not applied). */
  predicate SessionListed(sessions: map<Id, ClassSession>, offerings: map<Id, Offering>,
                          offeringFilter: Option<Id>, q: Option<string>, sid: Id)
  {
    && sid in sessions
    && sessions[sid].offeringId in offerings
    && (offeringFilter.Some? ==> sessions[sid].offeringId == offeringFilter.value)
    && (q.Some? ==> SearchMatches(sessions[sid], offerings[sessions[sid].offeringId], q.value))
  }

  /** The empty search string matches every session, so treating it as absent (as the
      truthiness test does) changes no listing. */
  lemma EmptySearchIsNoFilter(sessions: map<Id, ClassSession>, offerings: map<Id, Offering>,
                              offeringFilter: Option<Id>, sid: Id)
    ensures SessionListed(sessions, offerings, offeringFilter, Some(""), sid)
        <==> SessionListed(sessions, offerings, offeringFilter, None, sid)
  {
    if sid in sessions && sessions[sid].offeringId in offerings {
      assert OccursAt(offerings[sessions[sid].offeringId].courseCode, "", 0);
    }
  }

  datatype SessionListRow = SessionListRow(sessionId: Id, session: ClassSession, offering: Offering)

  /** ORDER BY cs.session_start_date, cs.session_no. */
  function SessionKey(x: SessionListRow): seq<SortKey> { [Text(x.session.start), Num(x.session.sessionNo)] }

  /** GET /class-sessions (class_session.js:111-160): exactly the sessions that pass the
      join and every given filter, each once, ordered by start date then session_no. */
  ghost function ListSessions(sessions: map<Id, ClassSession>, offerings: map<Id, Offering>,
                              offeringFilter: Option<Id>, q: Option<string>): (r: seq<SessionListRow>)
    ensures forall sid :: SessionListed(sessions, offerings, offeringFilter, q, sid) ==>
      SessionListRow(sid, sessions[sid], offerings[sessions[sid].offeringId]) in r
    ensures forall i :: 0 <= i < |r| ==>
      && SessionListed(sessions, offerings, offeringFilter, q, r[i].sessionId)
      && r[i] == SessionListRow(r[i].sessionId, sessions[r[i].sessionId], offerings[sessions[r[i].sessionId].offeringId])
    ensures forall i, j :: 0 <= i < j < |r| ==> r[i].sessionId != r[j].sessionId
    ensures Sorted(r, SessionKey)
  {
    var rows := set sid | sid in sessions && SessionListed(sessions, offerings, offeringFilter, q, sid)
      :: SessionListRow(sid, sessions[sid], offerings[sessions[sid].offeringId]);
    var r := SortedList(rows, SessionKey);
    assert forall i :: 0 <= i < |r| ==>
      && SessionListed(sessions, offerings, offeringFilter, q, r[i].sessionId)
      && r[i] == SessionListRow(r[i].sessionId, sessions[r[i].sessionId], offerings[sessions[r[i].sessionId].offeringId])
    by {
      forall i | 0 <= i < |r| ensures
        && SessionListed(sessions, offerings, offeringFilter, q, r[i].sessionId)
        && r[i] == SessionListRow(r[i].sessionId, sessions[r[i].sessionId], offerings[sessions[r[i].sessionId].offeringId])
      {
        assert r[i] in rows;
      }
    }
    r
  }

  /** One row of GET /class-sessions/by-student: a session, the student's enrolment in its
      offering, and the record of that pair (None: the LEFT JOIN found no record). */
  datatype StudentSessionRow = StudentSessionRow(sessionId: Id, session: ClassSession, enrolmentId: Id,
                                                 record: Option<(Id, GradeRecord)>)

  /** Session sid belongs to class offering o (which exists) and enrolment eid is the
      student's enrolment in o. */
  predicate StudentSessionPair(sessions: map<Id, ClassSession>, enrolments: map<Id, Enrolment>,
                               offerings: map<Id, Offering>, student: Id, o: Id, sid: Id, eid: Id)
  {
    && sid in sessions && sessions[sid].offeringId == o && o in offerings
    && eid in enrolments && enrolments[eid].offeringId == o && enrolments[eid].studentId == student
  }

  /** Record rid belongs to (eid, sid). */
  predicate RecordOf(records: Records, sid: Id, eid: Id, rid: Id) {
    rid in records && records[rid].sessionId == sid && records[rid].enrolmentId == eid
  }

  /** The rows the LEFT JOIN yields: each record of a pair, or one NULL row for a pair that
      has none. */
  predicate JoinRow(sessions: map<Id, ClassSession>, enrolments: map<Id, Enrolment>, offerings: map<Id, Offering>,
                    records: Records, student: Id, o: Id, x: StudentSessionRow)
  {
    && StudentSessionPair(sessions, enrolments, offerings, student, o, x.sessionId, x.enrolmentId)
    && x.session == sessions[x.sessionId]
    && (x.record.Some? ==>
          RecordOf(records, x.sessionId, x.enrolmentId, x.record.value.0) && x.record.value.1 == records[x.record.value.0])
    && (x.record.None? ==> forall rid :: rid in records ==> !RecordOf(records, x.sessionId, x.enrolmentId, rid))
  }

  function BySessionKey(x: StudentSessionRow): seq<SortKey> { [Text(x.session.start), Num(x.session.sessionNo)] }

  /** The LEFT JOIN's result as a set: exactly the rows JoinRow describes. */
  ghost function JoinRows(sessions: map<Id, ClassSession>, enrolments: map<Id, Enrolment>,
                          offerings: map<Id, Offering>, records: Records, student: Id, o: Id)
    : (rows: set<StudentSessionRow>)
    ensures forall x :: x in rows <==> JoinRow(sessions, enrolments, offerings, records, student, o, x)
  {
    var withRecord := set sid, eid, rid | sid in sessions && eid in enrolments && rid in records
      && StudentSessionPair(sessions, enrolments, offerings, student, o, sid, eid) && RecordOf(records, sid, eid, rid)
      :: StudentSessionRow(sid, sessions[sid], eid, Some((rid, records[rid])));
    var withoutRecord := set sid, eid | sid in sessions && eid in enrolments
      && StudentSessionPair(sessions, enrolments, offerings, student, o, sid, eid)
      && (forall rid :: rid in records ==> !RecordOf(records, sid, eid, rid))
      :: StudentSessionRow(sid, sessions[sid], eid, None);
    assert forall x :: JoinRow(sessions, enrolments, offerings, records, student, o, x) ==> x in withRecord + withoutRecord
    by {
      forall x | JoinRow(sessions, enrolments, offerings, records, student, o, x)
        ensures x in withRecord + withoutRecord
      {
        if x.record.Some? {
          var rid := x.record.value.0;
          assert x == StudentSessionRow(x.sessionId, sessions[x.sessionId], x.enrolmentId, Some((rid, records[rid])));
          assert x in withRecord;
        } else {
          assert x in withoutRecord;
        }
      }
    }
    withRecord + withoutRecord
  }

  /** GET /class-sessions/by-student/:student_id/:class_offering_id (class_session.js:255-297):
      for every session of the offering and the student's enrolment in it, each record of
      that pair appears once, and a pair with no record appears once with NULL record
      fields; ordered by start date then session_no. */
  ghost function SessionsByStudent(sessions: map<Id, ClassSession>, enrolments: map<Id, Enrolment>,
                                   offerings: map<Id, Offering>, records: Records, student: Id, o: Id)
    : (r: seq<StudentSessionRow>)
    ensures forall i :: 0 <= i < |r| ==> JoinRow(sessions, enrolments, offerings, records, student, o, r[i])
    ensures forall sid, eid, rid ::
      StudentSessionPair(sessions, enrolments, offerings, student, o, sid, eid) && RecordOf(records, sid, eid, rid) ==>
      StudentSessionRow(sid, sessions[sid], eid, Some((rid, records[rid]))) in r
    ensures forall sid, eid :: StudentSessionPair(sessions, enrolments, offerings, student, o, sid, eid) ==>
      (StudentSessionRow(sid, sessions[sid], eid, None) in r <==>
       forall rid :: rid in records ==> !RecordOf(records, sid, eid, rid))
    ensures forall i, j :: 0 <= i < j < |r| ==> r[i] != r[j]
    ensures Sorted(r, BySessionKey)
  {
    var r := SortedList(JoinRows(sessions, enrolments, offerings, records, student, o), BySessionKey);
    JoinRowsListed(sessions, enrolments, offerings, records, student, o, r);
    r
  }

  /** What a listing holding exactly the JoinRow rows contains. */
  lemma JoinRowsListed(sessions: map<Id, ClassSession>, enrolments: map<Id, Enrolment>,
                       offerings: map<Id, Offering>, records: Records, student: Id, o: Id,
                       r: seq<StudentSessionRow>)
    requires forall x :: x in r <==> JoinRow(sessions, enrolments, offerings, records, student, o, x)
    ensures forall i :: 0 <= i < |r| ==> JoinRow(sessions, enrolments, offerings, records, student, o, r[i])
    ensures forall sid, eid, rid ::
      StudentSessionPair(sessions, enrolments, offerings, student, o, sid, eid) && RecordOf(records, sid, eid, rid) ==>
      StudentSessionRow(sid, sessions[sid], eid, Some((rid, records[rid]))) in r
    ensures forall sid, eid :: StudentSessionPair(sessions, enrolments, offerings, student, o, sid, eid) ==>
      (StudentSessionRow(sid, sessions[sid], eid, None) in r <==>
       forall rid :: rid in records ==> !RecordOf(records, sid, eid, rid))
  {
    assert forall i :: 0 <= i < |r| ==> r[i] in r;
    forall sid, eid, rid |
      StudentSessionPair(sessions, enrolments, offerings, student, o, sid, eid) && RecordOf(records, sid, eid, rid)
      ensures StudentSessionRow(sid, sessions[sid], eid, Some((rid, records[rid]))) in r
    {
      assert JoinRow(sessions, enrolments, offerings, records, student, o,
        StudentSessionRow(sid, sessions[sid], eid, Some((rid, records[rid]))));
    }
    forall sid, eid | StudentSessionPair(sessions, enrolments, offerings, student, o, sid, eid)
      ensures StudentSessionRow(sid, sessions[sid], eid, None) in r <==>
        forall rid :: rid in records ==> !RecordOf(records, sid, eid, rid)
    {
      var x := StudentSessionRow(sid, sessions[sid], eid, None);
      assert x in r <==> JoinRow(sessions, enrolments, offerings, records, student, o, x);
    }
  }
}
