/** server/routes/teaching_assignment.js: the teaching_assignment table, keyed by the
    composite (instructor_id, class_offering_id) and holding the teaching_role. The
    attendance guards read it; these handlers create, list, read, re-role and delete it. */
module TeachingAssignmentRoutes {
  import opened Schema
  import opened Ordering
  import opened Store

  type Assignments = map<(Id, Id), string>

  /** The role a create stores when the body has none (undefined or null). */
  const DefaultRole: string := "Lecturer"

  /** JavaScript truthiness of a body or query id: absent (undefined, null) and 0 are falsy. */
  predicate IdGiven(v: Option<Id>) {
    v.Some? && v.value != 0
  }

  /** JavaScript truthiness of a body or query string: absent and '' are falsy. */
  predicate TextGiven(v: Option<string>) {
    v.Some? && v.value != ""
  }

  /** POST /teaching-assignments on the table (teaching_assignment.js:14-47): 400 when
      either id is missing or falsy; 409 when the pair already exists (the duplicate-key
      error, mapped at index.js:45); otherwise the pair is added with the given role, or
      'Lecturer' when none is given. Only a 201 changes the table. */
  function CreateAssignmentRows(t: Assignments, instructor: Option<Id>, offering: Option<Id>, role: Option<string>)
    : (res: (Outcome, Assignments))
    ensures res.0 in {BadRequest, Conflict, Created}
    ensures res.0 == BadRequest <==> !IdGiven(instructor) || !IdGiven(offering)
    ensures res.0 == Conflict <==> IdGiven(instructor) && IdGiven(offering) && (instructor.value, offering.value) in t
    ensures res.0 != Created ==> res.1 == t
    ensures res.0 == Created ==>
      && (instructor.value, offering.value) !in t
      && res.1 == t[(instructor.value, offering.value) := if role.Some? then role.value else DefaultRole]
      && |res.1| == |t| + 1
  {
    if !IdGiven(instructor) || !IdGiven(offering) then (BadRequest, t)
    else if (instructor.value, offering.value) in t then (Conflict, t)
    else (Created, t[(instructor.value, offering.value) := role.GetOr(DefaultRole)])
  }

  /** GET /teaching-assignments/:instructor_id/:class_offering_id (teaching_assignment.js:90-110). */
  function GetAssignment(t: Assignments, instructor: Id, offering: Id): (res: (Outcome, Option<string>))
    ensures (instructor, offering) in t <==> res.0 == Ok
    ensures res.0 == Ok ==> res.1 == Some(t[(instructor, offering)])
    ensures res.0 != Ok ==> res.0 == NotFound && res.1 == None
  {
    if (instructor, offering) in t then (Ok, Some(t[(instructor, offering)])) else (NotFound, None)
  }

  /** PUT /teaching-assignments/:instructor_id/:class_offering_id on the table
      (teaching_assignment.js:115-152): 400 without a (truthy) role, 404 for an absent pair,
      otherwise only that pair's role changes; the key is never changed. */
  function UpdateRoleRows(t: Assignments, instructor: Id, offering: Id, role: Option<string>)
    : (res: (Outcome, Assignments))
    ensures res.0 == BadRequest <==> !TextGiven(role)
    ensures res.0 == NotFound <==> TextGiven(role) && (instructor, offering) !in t
    ensures res.0 != Ok ==> res.1 == t
    ensures res.0 == Ok ==>
      && res.1.Keys == t.Keys
      && res.1[(instructor, offering)] == role.value
      && forall k :: k in t && k != (instructor, offering) ==> res.1[k] == t[k]
  {
    if !TextGiven(role) then (BadRequest, t)
    else if (instructor, offering) !in t then (NotFound, t)
    else (Ok, t[(instructor, offering) := role.value])
  }

  /** DELETE /teaching-assignments/:instructor_id/:class_offering_id on the table
      (teaching_assignment.js:156-178): exactly that pair goes; 404 when it is absent. */
  function DeleteAssignmentRows(t: Assignments, instructor: Id, offering: Id): (res: (Outcome, Assignments))
    ensures res.0 == (if (instructor, offering) in t then NoContent else NotFound)
    ensures res.1.Keys == t.Keys - {(instructor, offering)}
    ensures forall k :: k in res.1 ==> res.1[k] == t[k]
  {
    (if (instructor, offering) in t then NoContent else NotFound, t - {(instructor, offering)})
  }

  /** A created assignment reads back with the given role or 'Lecturer'. */
  lemma CreateThenGet(t: Assignments, instructor: Id, offering: Id, role: Option<string>)
    requires instructor != 0 && offering != 0 && (instructor, offering) !in t
    ensures var (outcome, t') := CreateAssignmentRows(t, Some(instructor), Some(offering), role);
      outcome == Created && GetAssignment(t', instructor, offering) == (Ok, Some(role.GetOr(DefaultRole)))
  {
  }

  /** Creating the same pair twice: the second is a 409 and changes nothing. */
  lemma CreateTwiceConflicts(t: Assignments, instructor: Id, offering: Id, role: Option<string>, role': Option<string>)
    requires instructor != 0 && offering != 0
    ensures var t' := CreateAssignmentRows(t, Some(instructor), Some(offering), role).1;
      CreateAssignmentRows(t', Some(instructor), Some(offering), role') == (Conflict, t')
  {
  }

  /** Deleting a freshly created pair gives the table back. */
  lemma CreateThenDelete(t: Assignments, instructor: Id, offering: Id, role: Option<string>)
    requires instructor != 0 && offering != 0 && (instructor, offering) !in t
    ensures var t' := CreateAssignmentRows(t, Some(instructor), Some(offering), role).1;
      DeleteAssignmentRows(t', instructor, offering) == (NoContent, t)
  {
    var t' := CreateAssignmentRows(t, Some(instructor), Some(offering), role).1;
    assert t' - {(instructor, offering)} == t;
  }

  // ---------------------------------------------------------------------------
  // The list

  /** ORDER BY instructor_id, class_offering_id. */
  function AssignmentKey(x: ((Id, Id), string)): seq<SortKey> { [Num(x.0.0), Num(x.0.1)] }

  /** Pair k passes every filter that is given. Query parameters are strings, so an id
      filter is skipped only when absent or empty (None); "0" is truthy and is applied. */
  predicate AssignmentListed(t: Assignments, instructor: Option<Id>, offering: Option<Id>, role: Option<string>,
                             k: (Id, Id))
  {
    && k in t
    && (instructor.Some? ==> k.0 == instructor.value)
    && (offering.Some? ==> k.1 == offering.value)
    && (TextGiven(role) ==> t[k] == role.value)
  }

  /** GET /teaching-assignments (teaching_assignment.js:52-86): exactly the assignments that
      pass every given filter, each once, ordered by instructor_id then class_offering_id
      (strictly, since the pair is the key). */
  ghost function ListAssignments(t: Assignments, instructor: Option<Id>, offering: Option<Id>, role: Option<string>)
    : (r: seq<((Id, Id), string)>)
    ensures forall k :: AssignmentListed(t, instructor, offering, role, k) ==> (k, t[k]) in r
    ensures forall i :: 0 <= i < |r| ==>
      AssignmentListed(t, instructor, offering, role, r[i].0) && r[i].1 == t[r[i].0]
    ensures forall i, j :: 0 <= i < j < |r| ==> r[i].0 != r[j].0
    ensures Sorted(r, AssignmentKey)
  {
    var rows := set k | k in t && AssignmentListed(t, instructor, offering, role, k) :: (k, t[k]);
    var r := SortedList(rows, AssignmentKey);
    assert forall i :: 0 <= i < |r| ==> r[i] in rows;
    r
  }

  // ---------------------------------------------------------------------------
  // Handlers

  /** POST /teaching-assignments: answers with the new row on 201. */
  method CreateAssignment(db: Database, instructor: Option<Id>, offering: Option<Id>, role: Option<string>)
    returns (outcome: Outcome, body: Option<string>)
    requires db.Valid()
    modifies db`assignments
    ensures db.Valid()
    ensures (outcome, db.assignments) == CreateAssignmentRows(old(db.assignments), instructor, offering, role)
    ensures outcome == Created ==> body == Some(db.assignments[(instructor.value, offering.value)])
    ensures outcome != Created ==> body == None
  {
    var res := CreateAssignmentRows(db.assignments, instructor, offering, role);
    outcome := res.0;
    db.assignments := res.1;
    body := if outcome == Created then Some(db.assignments[(instructor.value, offering.value)]) else None;
  }

  /** PUT /teaching-assignments/:instructor_id/:class_offering_id: answers with the row on 200. */
  method UpdateRole(db: Database, instructor: Id, offering: Id, role: Option<string>)
    returns (outcome: Outcome, body: Option<string>)
    requires db.Valid()
    modifies db`assignments
    ensures db.Valid()
    ensures (outcome, db.assignments) == UpdateRoleRows(old(db.assignments), instructor, offering, role)
    ensures body == if outcome == Ok then Some(role.value) else None
  {
    var res := UpdateRoleRows(db.assignments, instructor, offering, role);
    outcome := res.0;
    db.assignments := res.1;
    body := if outcome == Ok then Some(db.assignments[(instructor, offering)]) else None;
  }

  /** DELETE /teaching-assignments/:instructor_id/:class_offering_id. */
  method DeleteAssignment(db: Database, instructor: Id, offering: Id) returns (outcome: Outcome)
    requires db.Valid()
    modifies db`assignments
    ensures db.Valid()
    ensures (outcome, db.assignments) == DeleteAssignmentRows(old(db.assignments), instructor, offering)
  {
    var res := DeleteAssignmentRows(db.assignments, instructor, offering);
    outcome := res.0;
    db.assignments := res.1;
  }
}
