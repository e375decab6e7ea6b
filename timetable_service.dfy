/**
 * TimetableService: the timetable life cycle. A new entry is DRAFT, then
 * CONFLICTED or PENDING_APPROVAL depending on conflict detection; an approver
 * moves it to APPROVED (only when none of its conflicts is unresolved) or to
 * REJECTED. The stores and the clock are passed in; notifications are not part
 * of this model.
 */
module TimetableService {
  import opened Wrappers
  import opened Ordering
  import opened Query
  import opened Types
  import opened TimetableEntity
  import opened ConflictEntity
  import TimetableDAO
  import ConflictDAO
  import Store
  import opened ConflictDetection

  /** Why a service call throws. */
  datatype ServiceError =
    | TimetableNotFound(id: nat)
    | PermissionDenied
    | UnresolvedConflicts
    | StoreFailure(error: Store.StoreError)

  /** canApproveTimetables: administrators and exams officers approve. */
  function CanApproveTimetables(user: User): (b: bool)
    ensures !b <==> user.role == LECTURER || user.role == STUDENT
  {
    user.role == ADMIN || user.role == EXAMS_OFFICER
  }

  /** getCurrentLevel: a student's own level; 0 for anyone else or for no user. */
  function GetCurrentLevel(user: Option<User>): (level: int)
    ensures user.Some? && user.value.role == STUDENT ==> level == user.value.level
    ensures user.None? || user.value.role != STUDENT ==> level == 0
  {
    if user.Some? && user.value.role == STUDENT then user.value.level else 0
  }

  /** The semester a month (1 to 12) falls in: February to July is the second semester. */
  function CurrentSemester(month: int): (semester: SemesterType)
    requires 1 <= month <= 12
    ensures semester == SECOND_SEMESTER <==> 2 <= month <= 7
  {
    if 2 <= month <= 7 then SECOND_SEMESTER else FIRST_SEMESTER
  }

  /** getDepartmentalTimetables: the department's entries; none for a null department. */
  function GetDepartmentalTimetables(rows: map<nat, TimetableRecord>, department: Option<Department>): (r: seq<nat>)
    ensures department.None? ==> r == []
    ensures forall id :: id in r <==> (department.Some? && id in rows
              && TimetableDAO.CourseDepartment(rows[id]) == Some(department.value.id))
    ensures SortedBy(rows, r, TimetableDAO.DaySlotKey) && Distinct(r)
  {
    if department.None? then [] else TimetableDAO.FindAllByDepartment(rows, Some(department.value.id))
  }

  /** getStudentTimetables: the approved entries of the student's department and level for the current semester. */
  function GetStudentTimetables(rows: map<nat, TimetableRecord>, student: User, month: int): (r: seq<nat>)
    requires 1 <= month <= 12
    ensures forall id :: id in r <==> (id in rows && rows[id].status == Some(APPROVED)
              && student.department.Some? && TimetableDAO.CourseDepartment(rows[id]) == student.department
              && TimetableDAO.CourseLevel(rows[id]) == Some(GetCurrentLevel(Some(student)))
              && rows[id].semester == Some(CurrentSemester(month)))
    ensures SortedBy(rows, r, TimetableDAO.DaySlotKey) && Distinct(r)
  {
    TimetableDAO.FindApprovedTimetables(rows, student.department, GetCurrentLevel(Some(student)), Some(CurrentSemester(month)))
  }

  /** getLecturerTimetables: the lecturer's entries for the current semester, in every status. */
  function GetLecturerTimetables(rows: map<nat, TimetableRecord>, lecturer: User, month: int): (r: seq<nat>)
    requires 1 <= month <= 12
    ensures forall id :: id in r <==> (id in rows && TimetableDAO.CourseLecturer(rows[id]) == Some(lecturer.id)
              && rows[id].semester == Some(CurrentSemester(month)))
    ensures SortedBy(rows, r, TimetableDAO.DaySlotKey) && Distinct(r)
  {
    TimetableDAO.FindByLecturer(rows, Some(lecturer.id), Some(CurrentSemester(month)))
  }

  /** getAllTimetables: every entry. */
  function GetAllTimetables(rows: map<nat, TimetableRecord>): (r: seq<nat>)
    ensures forall id :: id in r <==> id in rows
    ensures Distinct(r)
  {
    TimetableDAO.FindAll(rows)
  }

  /** A user who is not a student is shown the level-0 timetables of their department. */
  lemma NonStudentsSeeLevelZero(rows: map<nat, TimetableRecord>, user: User, month: int, id: nat)
    requires 1 <= month <= 12 && user.role != STUDENT
    requires id in GetStudentTimetables(rows, user, month)
    ensures TimetableDAO.CourseLevel(rows[id]) == Some(0)
  {
  }

  /**
   * createTimetable: marks the entry DRAFT with its creation time, persists it,
   * detects its conflicts against the stored entries, and stores it again as
   * CONFLICTED (saving the conflicts) or PENDING_APPROVAL. An entry that already
   * has an id cannot be persisted, and nothing is stored.
   */
  method CreateTimetable(timetables: Store.BaseDAO<TimetableRecord>, conflicts: Store.BaseDAO<ConflictRecord>,
                         courses: map<nat, Course>, departments: seq<Department>, t: Timetable, now: Instant)
    returns (o: Outcome<ServiceError>)
    requires timetables.Valid() && conflicts.Valid()
    modifies timetables, conflicts, t`status, t`createdAt, t`id
    ensures timetables.Valid() && conflicts.Valid()
    ensures o.Pass? <==> old(t.id).None?
    ensures o.Fail? ==> && t.Snapshot() == old(t.Snapshot()).(status := Some(DRAFT), createdAt := Some(now))
                        && t.id == old(t.id)
                        && timetables.rows == old(timetables.rows) && conflicts.rows == old(conflicts.rows)
    ensures o.Pass? ==>
              var id := old(timetables.nextId);
              var draft := old(t.Snapshot()).(status := Some(DRAFT), createdAt := Some(now));
              var found := Detected(old(timetables.rows)[id := draft], draft, Some(id), now);
              && id !in old(timetables.rows) && t.id == Some(id)
              && t.Snapshot() == draft.(status := Some(if found == [] then PENDING_APPROVAL else CONFLICTED))
              && timetables.rows == old(timetables.rows)[id := t.Snapshot()]
              && (conflicts.rows, conflicts.nextId) == SaveAll(old(conflicts.rows), old(conflicts.nextId), found)
  {
    MarkDraft(t, now);
    var draft := t.Snapshot();
    var saved := timetables.Save(t.id, draft);
    if saved.Err? {
      return Fail(StoreFailure(saved.error));
    }
    var id := saved.value;
    AssignId(t, id);
    var found := DetectAndRecord(timetables, conflicts, courses, departments, t, id, draft, now);
    o := Pass;
  }

  /** The first step of createTimetable: DRAFT, created now. */
  method MarkDraft(t: Timetable, now: Instant)
    modifies t`status, t`createdAt
    ensures t.Snapshot() == old(t.Snapshot()).(status := Some(DRAFT), createdAt := Some(now))
  {
    t.SetStatus(Some(DRAFT));
    t.SetCreatedAt(Some(now));
  }

  /** Persisting gives the entity its generated id and changes nothing else. */
  method AssignId(t: Timetable, id: nat)
    modifies t`id
    ensures t.id == Some(id) && t.Snapshot() == old(t.Snapshot())
  {
    t.SetId(Some(id));
  }

  /**
   * The second half of createTimetable, for an entry stored as `id`: detects its
   * conflicts and stores it again, CONFLICTED with the conflicts saved, or
   * PENDING_APPROVAL.
   */
  method DetectAndRecord(timetables: Store.BaseDAO<TimetableRecord>, conflicts: Store.BaseDAO<ConflictRecord>,
                         courses: map<nat, Course>, departments: seq<Department>, t: Timetable, id: nat,
                         draft: TimetableRecord, now: Instant)
    returns (found: seq<ConflictRecord>)
    requires timetables.Valid() && conflicts.Valid() && id in timetables.rows && t.Snapshot() == draft
    modifies timetables, conflicts, t`status
    ensures timetables.Valid() && conflicts.Valid()
    ensures found == Detected(old(timetables.rows), draft, Some(id), now)
    ensures t.status == Some(if found == [] then PENDING_APPROVAL else CONFLICTED)
    ensures timetables.rows == old(timetables.rows)[id := t.Snapshot()]
    ensures (conflicts.rows, conflicts.nextId) == SaveAll(old(conflicts.rows), old(conflicts.nextId), found)
  {
    found := DetectConflicts(timetables.rows, courses, departments, draft, Some(id), now);
    if found != [] {
      t.SetStatus(Some(CONFLICTED));
      var updated := timetables.Update(id, t.Snapshot());
      SaveConflicts(conflicts, found);
    } else {
      t.SetStatus(Some(PENDING_APPROVAL));
      var updated := timetables.Update(id, t.Snapshot());
    }
  }

  /** Creating an entry keeps every stored conflict pointing at stored entries. */
  lemma CreateKeepsReferences(timetables: map<nat, TimetableRecord>, conflicts: map<nat, ConflictRecord>,
                              nextId: nat, id: nat, draft: TimetableRecord, final: TimetableRecord, now: Instant)
    requires ConflictsReferToStored(timetables, conflicts)
    ensures ConflictsReferToStored(timetables[id := final],
              SaveAll(conflicts, nextId, Detected(timetables[id := draft], draft, Some(id), now)).0)
  {
    var stored := timetables[id := draft];
    var found := Detected(stored, draft, Some(id), now);
    assert ConflictsReferToStored(stored, conflicts);
    forall c | c in found
      ensures c.timetable1.Some? && c.timetable1.value in stored && c.timetable2.Some? && c.timetable2.value in stored
    {
      DetectedSound(stored, draft, Some(id), now, c);
    }
    SaveAllKeepsReferences(stored, conflicts, nextId, found);
    assert stored.Keys == timetables[id := final].Keys;
  }

  /**
   * updateTimetable: re-runs detection for a stored entry, marks it CONFLICTED
   * (saving the conflicts) when anything clashes, moves a CONFLICTED entry back to
   * PENDING_APPROVAL when nothing does, and stores it. Conflicts are saved before
   * the entry is stored, so they are kept even when storing fails.
   */
  method UpdateTimetable(timetables: Store.BaseDAO<TimetableRecord>, conflicts: Store.BaseDAO<ConflictRecord>,
                         courses: map<nat, Course>, departments: seq<Department>, t: Timetable, now: Instant)
    returns (o: Outcome<ServiceError>)
    requires timetables.Valid() && conflicts.Valid() && t.id.Some?
    modifies timetables, conflicts, t`status
    ensures timetables.Valid() && conflicts.Valid()
    ensures var found := Detected(old(timetables.rows), old(t.Snapshot()), t.id, now);
            && (t.status == Some(CONFLICTED) <==> found != [])
            && (found == [] && old(t.status) != Some(CONFLICTED) ==> t.status == old(t.status))
            && (found == [] && old(t.status) == Some(CONFLICTED) ==> t.status == Some(PENDING_APPROVAL))
            && (conflicts.rows, conflicts.nextId) == SaveAll(old(conflicts.rows), old(conflicts.nextId), found)
    ensures o.Pass? <==> t.id.value in old(timetables.rows)
    ensures timetables.rows == if o.Pass? then old(timetables.rows)[t.id.value := t.Snapshot()] else old(timetables.rows)
  {
    var found := DetectConflicts(timetables.rows, courses, departments, t.Snapshot(), t.id, now);
    if found != [] {
      t.SetStatus(Some(CONFLICTED));
      SaveConflicts(conflicts, found);
    } else if t.status == Some(CONFLICTED) {
      t.SetStatus(Some(PENDING_APPROVAL));
    }
    var updated := timetables.Update(t.id.value, t.Snapshot());
    if updated.Fail? {
      return Fail(StoreFailure(updated.error));
    }
    o := Pass;
  }

  /** Some conflict naming the timetable is still DETECTED or APPEALED. */
  function HasUnresolvedConflicts(conflicts: map<nat, ConflictRecord>, id: nat): (b: bool)
    ensures b <==> exists c :: c in conflicts && ConflictDAO.Involves(conflicts[c], Some(id))
                                && ConflictDAO.IsUnresolved(conflicts[c].status)
  {
    var linked := ConflictDAO.FindByTimetable(conflicts, Some(id));
    exists k :: 0 <= k < |linked| && ConflictDAO.IsUnresolved(conflicts[linked[k]].status)
  }

  /** The checks approveTimetable makes, in its order: the entry exists, the user may approve, no open conflict. */
  function ApprovalCheck(timetables: map<nat, TimetableRecord>, conflicts: map<nat, ConflictRecord>, id: nat,
                         user: User): (o: Outcome<ServiceError>)
    ensures o.Pass? <==> id in timetables && CanApproveTimetables(user) && !HasUnresolvedConflicts(conflicts, id)
    ensures o == Fail(TimetableNotFound(id)) <==> id !in timetables
    ensures o == Fail(PermissionDenied) <==> id in timetables && !CanApproveTimetables(user)
  {
    if id !in timetables then Fail(TimetableNotFound(id))
    else if !CanApproveTimetables(user) then Fail(PermissionDenied)
    else if HasUnresolvedConflicts(conflicts, id) then Fail(UnresolvedConflicts)
    else Pass
  }

  /** The entry as approveTimetable stores it. */
  function Approved(t: TimetableRecord, user: User, now: Instant): (r: TimetableRecord)
    ensures r.status == Some(APPROVED) && r.approvedBy == Some(user.id) && r.approvedAt == Some(now)
    ensures r.(status := t.status, approvedBy := t.approvedBy, approvedAt := t.approvedAt) == t
  {
    t.(status := Some(APPROVED), approvedAt := Some(now), approvedBy := Some(user.id))
  }

  /** approveTimetable: approves a stored entry when the user may and none of its conflicts is open. */
  method ApproveTimetable(timetables: Store.BaseDAO<TimetableRecord>, conflicts: Store.BaseDAO<ConflictRecord>,
                          id: nat, approvedBy: User, now: Instant)
    returns (o: Outcome<ServiceError>)
    requires timetables.Valid()
    modifies timetables
    ensures timetables.Valid()
    ensures o == ApprovalCheck(old(timetables.rows), conflicts.rows, id, approvedBy)
    ensures timetables.rows == if o.Pass? then old(timetables.rows)[id := Approved(old(timetables.rows)[id], approvedBy, now)]
                               else old(timetables.rows)
  {
    var timetable := timetables.FindById(id);
    if timetable.None? {
      return Fail(TimetableNotFound(id));
    }
    if !CanApproveTimetables(approvedBy) {
      return Fail(PermissionDenied);
    }
    if HasUnresolvedConflicts(conflicts.rows, id) {
      return Fail(UnresolvedConflicts);
    }
    var updated := timetables.Update(id, Approved(timetable.value, approvedBy, now));
    o := Pass;
  }

  /** An open conflict that names the entry blocks its approval. */
  lemma OpenConflictBlocksApproval(timetables: map<nat, TimetableRecord>, conflicts: map<nat, ConflictRecord>,
                                   id: nat, user: User, conflictId: nat)
    requires conflictId in conflicts && ConflictDAO.Involves(conflicts[conflictId], Some(id))
    requires ConflictDAO.IsUnresolved(conflicts[conflictId].status)
    ensures ApprovalCheck(timetables, conflicts, id, user).Fail?
  {
    var linked := ConflictDAO.FindByTimetable(conflicts, Some(id));
    var k :| 0 <= k < |linked| && linked[k] == conflictId;
  }

  /** Resolving the last open conflict of an entry unblocks its approval by an approver. */
  lemma ResolvingLastConflictAllowsApproval(timetables: map<nat, TimetableRecord>, conflicts: map<nat, ConflictRecord>,
                                            id: nat, user: User, conflictId: nat, notes: string, resolver: User,
                                            now: Instant)
    requires id in timetables && CanApproveTimetables(user) && conflictId in conflicts
    requires forall k :: k in conflicts && k != conflictId && ConflictDAO.Involves(conflicts[k], Some(id)) ==>
               !ConflictDAO.IsUnresolved(conflicts[k].status)
    ensures ApprovalCheck(timetables, conflicts[conflictId := Resolved(conflicts[conflictId], notes, resolver, now)],
                          id, user) == Pass
  {
    var after := conflicts[conflictId := Resolved(conflicts[conflictId], notes, resolver, now)];
    var linked := ConflictDAO.FindByTimetable(after, Some(id));
    forall k | 0 <= k < |linked| ensures !ConflictDAO.IsUnresolved(after[linked[k]].status) {
      assert linked[k] in linked;
    }
  }

  /**
   * Approval does not look at the entry's status: a DRAFT, CONFLICTED or
   * REJECTED entry with no open conflict is approved like a pending one.
   */
  lemma ApprovalIgnoresStatus(timetables: map<nat, TimetableRecord>, conflicts: map<nat, ConflictRecord>,
                              id: nat, user: User, status: Option<TimetableStatus>)
    requires id in timetables
    ensures ApprovalCheck(timetables[id := timetables[id].(status := status)], conflicts, id, user)
            == ApprovalCheck(timetables, conflicts, id, user)
  {
  }

  /** The entry as rejectTimetable stores it: REJECTED, with the reason as its description. */
  function Rejected(t: TimetableRecord, reason: Option<string>): (r: TimetableRecord)
    ensures r.status == Some(REJECTED) && r.description == reason
    ensures r.(status := t.status, description := t.description) == t
  {
    t.(status := Some(REJECTED), description := reason)
  }

  /** rejectTimetable: rejects a stored entry; an unknown id is an error. Any user may reject. */
  method RejectTimetable(timetables: Store.BaseDAO<TimetableRecord>, id: nat, reason: Option<string>, rejectedBy: User)
    returns (o: Outcome<ServiceError>)
    requires timetables.Valid()
    modifies timetables
    ensures timetables.Valid()
    ensures o.Pass? <==> id in old(timetables.rows)
    ensures o.Fail? ==> o.error == TimetableNotFound(id)
    ensures timetables.rows == if o.Pass? then old(timetables.rows)[id := Rejected(old(timetables.rows)[id], reason)]
                               else old(timetables.rows)
  {
    var timetable := timetables.FindById(id);
    if timetable.None? {
      return Fail(TimetableNotFound(id));
    }
    var updated := timetables.Update(id, Rejected(timetable.value, reason));
    o := Pass;
  }

  /** A rejected entry no longer blocks its slot: the overlap queries never return it. */
  lemma RejectedEntryFreesSlot(rows: map<nat, TimetableRecord>, id: nat, reason: Option<string>, room: Option<nat>,
                               lecturer: Option<nat>, dayOfWeek: Option<DayOfWeek>, startTime: Option<Minute>,
                               endTime: Option<Minute>, semester: Option<SemesterType>, excludeId: Option<nat>)
    requires id in rows
    ensures var after := rows[id := Rejected(rows[id], reason)];
            && id !in TimetableDAO.FindRoomConflicts(after, room, dayOfWeek, startTime, endTime, semester, excludeId)
            && id !in TimetableDAO.FindLecturerConflicts(after, lecturer, dayOfWeek, startTime, endTime, semester, excludeId)
  {
  }

  /**
   * deleteTimetable: deletes every conflict naming a stored entry, then the entry;
   * an unknown id changes nothing.
   */
  method DeleteTimetable(timetables: Store.BaseDAO<TimetableRecord>, conflicts: Store.BaseDAO<ConflictRecord>, id: nat)
    requires timetables.Valid() && conflicts.Valid()
    modifies timetables, conflicts
    ensures timetables.Valid() && conflicts.Valid()
    ensures timetables.rows == old(timetables.rows) - {id}
    ensures forall k :: k in conflicts.rows <==>
              k in old(conflicts.rows) && !(id in old(timetables.rows) && ConflictDAO.Involves(old(conflicts.rows)[k], Some(id)))
    ensures forall k :: k in conflicts.rows ==> conflicts.rows[k] == old(conflicts.rows)[k]
  {
    var timetable := timetables.FindById(id);
    if timetable.Some? {
      var related := ConflictDAO.FindByTimetable(conflicts.rows, Some(id));
      DeleteConflicts(conflicts, related);
      timetables.DeleteById(id);
    }
  }

  /** Deletes the listed conflicts, one at a time; the others are kept as they are. */
  method DeleteConflicts(conflicts: Store.BaseDAO<ConflictRecord>, ids: seq<nat>)
    requires conflicts.Valid()
    modifies conflicts
    ensures conflicts.Valid()
    ensures forall k :: k in conflicts.rows <==> k in old(conflicts.rows) && k !in ids
    ensures forall k :: k in conflicts.rows ==> conflicts.rows[k] == old(conflicts.rows)[k]
  {
    for i := 0 to |ids|
      invariant conflicts.Valid()
      invariant forall k :: k in conflicts.rows <==> k in old(conflicts.rows) && k !in ids[..i]
      invariant forall k :: k in conflicts.rows ==> conflicts.rows[k] == old(conflicts.rows)[k]
    {
      var deleted := conflicts.Delete(ids[i]);
      assert ids[..i + 1] == ids[..i] + [ids[i]];
    }
    assert ids[..|ids|] == ids;
  }

  /** After deleting a stored entry, stored conflicts still name only stored entries. */
  lemma DeleteKeepsReferences(timetables: map<nat, TimetableRecord>, conflicts: map<nat, ConflictRecord>,
                              after: map<nat, ConflictRecord>, id: nat)
    requires ConflictsReferToStored(timetables, conflicts) && id in timetables
    requires forall k :: k in after <==> k in conflicts && !ConflictDAO.Involves(conflicts[k], Some(id))
    requires forall k :: k in after ==> after[k] == conflicts[k]
    ensures ConflictsReferToStored(timetables - {id}, after)
  {
  }
}
