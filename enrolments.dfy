/** server/routes/enrolments.js: the enrolment table, whose status decides which
    enrolments session provisioning gives a placeholder. */
module EnrolmentRoutes {
  import opened Schema
  import opened Ordering
  import opened Store
  import ClassSessionRoutes

  type Enrolments = map<Id, Enrolment>

  /** INSERT of a new enrolment under the fresh id `newId`, with COALESCE(status, 'Active')
      (enrolments.js:8-11): nothing else changes, and an enrolment created without a status
      is Active. */
  function CreateEnrolmentRows(t: Enrolments, newId: Id, offering: Id, student: Id, status: Option<EnrolmentStatus>)
    : (r: Enrolments)
    requires newId !in t
    ensures r.Keys == t.Keys + {newId} && |r| == |t| + 1
    ensures forall k :: k in t ==> r[k] == t[k]
    ensures r[newId].offeringId == offering && r[newId].studentId == student
    ensures status.None? ==> r[newId].status == Active
    ensures status.Some? ==> r[newId].status == status.value
  {
    t[newId := Enrolment(offering, student, status.GetOr(Active))]
  }

  /** UPDATE enrolment SET enrolment_status = ? WHERE enrolment_id = id (enrolments.js:56-59):
      only that enrolment's status changes; an unknown id changes nothing. */
  function SetStatusRows(t: Enrolments, id: Id, status: EnrolmentStatus): (r: Enrolments)
    ensures r.Keys == t.Keys
    ensures forall k :: k in t && k != id ==> r[k] == t[k]
    ensures id in t ==> r[id] == t[id].(status := status)
    ensures id !in t ==> r == t
  {
    if id in t then t[id := t[id].(status := status)] else t
  }

  /** DELETE (enrolments.js:70): exactly enrolment id goes. */
  function DeleteEnrolmentRows(t: Enrolments, id: Id): (r: Enrolments)
    ensures r.Keys == t.Keys - {id}
    ensures forall k :: k in r ==> r[k] == t[k]
  {
    t - {id}
  }

  /** An enrolment created without a status is provisioned by every later session of its
      class offering. */
  lemma CreatedEnrolmentIsProvisioned(t: Enrolments, newId: Id, offering: Id, student: Id)
    requires newId !in t
    ensures ClassSessionRoutes.ActiveIn(CreateEnrolmentRows(t, newId, offering, student, None), offering, newId)
  {
  }

  /** Setting an enrolment Inactive takes it out of provisioning, and setting it Active puts
      it back, without changing any other enrolment's part. */
  lemma StatusDecidesProvisioning(t: Enrolments, id: Id, status: EnrolmentStatus, offering: Id, other: Id)
    requires id in t && t[id].offeringId == offering
    ensures ClassSessionRoutes.ActiveIn(SetStatusRows(t, id, status), offering, id) <==> status == Active
    ensures other != id ==>
      (ClassSessionRoutes.ActiveIn(SetStatusRows(t, id, status), offering, other)
       <==> ClassSessionRoutes.ActiveIn(t, offering, other))
  {
  }

  // ---------------------------------------------------------------------------
  // The list

  /** ORDER BY e.enrolment_id DESC. */
  function EnrolmentKey(x: (Id, Enrolment)): seq<SortKey> { [Num(-(x.0 as int))] }

  /** A listing of rows of `t`, each once, sorted by EnrolmentKey, has strictly falling ids. */
  lemma NewestFirst(t: Enrolments, rows: set<(Id, Enrolment)>, r: seq<(Id, Enrolment)>)
    requires forall x :: x in rows ==> x.0 in t && x.1 == t[x.0]
    requires forall x :: x in r <==> x in rows
    requires Distinct(r) && Sorted(r, EnrolmentKey)
    ensures forall i :: 0 <= i < |r| ==> r[i] in rows
    ensures forall i, j :: 0 <= i < j < |r| ==> r[i].0 > r[j].0
  {
    assert forall i :: 0 <= i < |r| ==> r[i] in r;
    forall i, j | 0 <= i < j < |r| ensures r[i].0 > r[j].0 {
      assert r[i] in rows && r[j] in rows && r[i] != r[j];
      assert KeysLe(EnrolmentKey(r[i]), EnrolmentKey(r[j]));
    }
  }

  /** Enrolment id passes the joins to student and class offering and every filter that is
      given (an absent or empty query parameter is not applied). */
  predicate EnrolmentListed(t: Enrolments, names: map<Id, string>, offerings: map<Id, Offering>,
                            offering: Option<Id>, student: Option<Id>, id: Id)
  {
    && id in t
    && t[id].studentId in names
    && t[id].offeringId in offerings
    && (offering.Some? ==> t[id].offeringId == offering.value)
    && (student.Some? ==> t[id].studentId == student.value)
  }

  /** GET /enrolments (enrolments.js:29-49): exactly the enrolments that pass every given
      filter, each once, newest (highest enrolment_id) first. */
  ghost function ListEnrolments(t: Enrolments, names: map<Id, string>, offerings: map<Id, Offering>,
                                offering: Option<Id>, student: Option<Id>): (r: seq<(Id, Enrolment)>)
    ensures forall id :: EnrolmentListed(t, names, offerings, offering, student, id) ==> (id, t[id]) in r
    ensures forall i :: 0 <= i < |r| ==>
      EnrolmentListed(t, names, offerings, offering, student, r[i].0) && r[i].1 == t[r[i].0]
    ensures forall i, j :: 0 <= i < j < |r| ==> r[i].0 > r[j].0
  {
    var rows := set id | id in t && EnrolmentListed(t, names, offerings, offering, student, id) :: (id, t[id]);
    var r := SortedList(rows, EnrolmentKey);
    NewestFirst(t, rows, r);
    r
  }

  // ---------------------------------------------------------------------------
  // Handlers

  /** POST /enrolments (enrolments.js:4-26): adds the enrolment under a fresh id; 201. */
  method CreateEnrolment(db: Database, offering: Id, student: Id, status: Option<EnrolmentStatus>)
    returns (outcome: Outcome, id: Id, row: Enrolment)
    requires db.Valid()
    modifies db`enrolments, db`nextEnrolmentId
    ensures db.Valid() && outcome == Created
    ensures id == old(db.nextEnrolmentId) && id !in old(db.enrolments)
    ensures db.enrolments == CreateEnrolmentRows(old(db.enrolments), id, offering, student, status)
    ensures row == db.enrolments[id]
    ensures db.nextEnrolmentId == old(db.nextEnrolmentId) + 1
  {
    id := db.nextEnrolmentId;
    db.enrolments := CreateEnrolmentRows(db.enrolments, id, offering, student, status);
    db.nextEnrolmentId := db.nextEnrolmentId + 1;
    outcome, row := Created, db.enrolments[id];
  }

  /** PUT /enrolments/:enrolment_id (enrolments.js:52-64): 404 and no change for an unknown id. */
  method UpdateEnrolmentStatus(db: Database, id: Id, status: EnrolmentStatus)
    returns (outcome: Outcome, body: Option<Enrolment>)
    requires db.Valid()
    modifies db`enrolments
    ensures db.Valid()
    ensures db.enrolments == SetStatusRows(old(db.enrolments), id, status)
    ensures id !in old(db.enrolments) ==> outcome == NotFound && body == None
    ensures id in old(db.enrolments) ==> outcome == Ok && body == Some(db.enrolments[id])
  {
    if id !in db.enrolments {
      return NotFound, None;
    }
    db.enrolments := SetStatusRows(db.enrolments, id, status);
    outcome, body := Ok, Some(db.enrolments[id]);
  }

  /** DELETE /enrolments/:enrolment_id (enrolments.js:67-74): 204, or 404 and no change. */
  method DeleteEnrolment(db: Database, id: Id) returns (outcome: Outcome)
    requires db.Valid()
    modifies db`enrolments
    ensures db.Valid()
    ensures db.enrolments == DeleteEnrolmentRows(old(db.enrolments), id)
    ensures outcome == if id in old(db.enrolments) then NoContent else NotFound
  {
    outcome := if id in db.enrolments then NoContent else NotFound;
    db.enrolments := DeleteEnrolmentRows(db.enrolments, id);
  }
}
