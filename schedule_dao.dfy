/** ScheduleDAO: the exact-slot clash query and the unchecked conflict insert. */
module ScheduleDAO {
  import opened Wrappers
  import opened Ordering
  import opened Query
  import opened Types
  import opened TimetableEntity
  import opened ConflictEntity
  import Store
  import ConflictDAO

  /** The id parameter: the candidate's id, or -1 (which no stored id equals) when it has none. */
  function IdParam(candidateId: Option<nat>): int
  {
    if candidateId.Some? then candidateId.value else -1
  }

  /**
   * findConflicts: entries in the same semester, room and start time on the same
   * date (when the candidate has a specific date) or else the same weekday.
   * End times and status are not compared.
   */
  function FindConflicts(rows: map<nat, TimetableRecord>, candidate: TimetableRecord, candidateId: Option<nat>): (r: seq<nat>)
    ensures forall id :: id in r <==> (id in rows
              && SqlEq(rows[id].semester, candidate.semester)
              && (if candidate.specificDate.Some? then SqlEq(rows[id].specificDate, candidate.specificDate)
                  else SqlEq(rows[id].dayOfWeek, candidate.dayOfWeek))
              && SqlEq(rows[id].startTime, candidate.startTime)
              && SqlEq(rows[id].room, candidate.room)
              && id != IdParam(candidateId))
    ensures Distinct(r)
  {
    if candidate.specificDate.Some? then
      Select(rows, (id: nat, t: TimetableRecord) => SqlEq(t.semester, candidate.semester)
               && SqlEq(t.specificDate, candidate.specificDate) && SqlEq(t.startTime, candidate.startTime)
               && SqlEq(t.room, candidate.room) && id != IdParam(candidateId), Unordered)
    else
      Select(rows, (id: nat, t: TimetableRecord) => SqlEq(t.semester, candidate.semester)
               && SqlEq(t.dayOfWeek, candidate.dayOfWeek) && SqlEq(t.startTime, candidate.startTime)
               && SqlEq(t.room, candidate.room) && id != IdParam(candidateId), Unordered)
  }

  /** A candidate never finds itself, whether or not it has an id yet. */
  lemma FindConflictsExcludesCandidate(rows: map<nat, TimetableRecord>, candidate: TimetableRecord, candidateId: nat)
    ensures candidateId !in FindConflicts(rows, candidate, Some(candidateId))
  {
  }

  /**
   * createConflict: persists a new DETECTED conflict for the pair without looking
   * for an existing one; a failure is logged and swallowed.
   */
  method CreateConflict(conflicts: Store.BaseDAO<ConflictRecord>, timetable1: Option<nat>, timetable2: Option<nat>,
                        conflictType: ConflictType, now: Instant)
    requires conflicts.Valid()
    modifies conflicts
    ensures conflicts.Valid()
    ensures conflicts.rows == old(conflicts.rows)[old(conflicts.nextId) := NewConflict(timetable1, timetable2, conflictType, now)]
  {
    var saved := conflicts.Save(None, NewConflict(timetable1, timetable2, conflictType, now));
  }

  /**
   * Because createConflict does not check, recording the pair a second time (in
   * either order) leaves two conflicts about the same timetables.
   */
  lemma CreateConflictCanDuplicatePairs(rows: map<nat, ConflictRecord>, next: nat, a: nat, b: nat, now: Instant)
    requires ConflictDAO.PairsUnique(rows)
    requires forall id :: id in rows ==> id < next
    requires ConflictDAO.FindExistingConflict(rows, Some(a), Some(b)).Some?
    ensures !ConflictDAO.PairsUnique(rows[next := NewConflict(Some(b), Some(a), ROOM_CONFLICT, now)])
  {
    var old_id := ConflictDAO.FindExistingConflict(rows, Some(a), Some(b)).value;
    var after := rows[next := NewConflict(Some(b), Some(a), ROOM_CONFLICT, now)];
    assert after[old_id] == rows[old_id];
    assert ConflictDAO.SamePair(after[old_id], after[next].timetable1, after[next].timetable2);
  }
}
