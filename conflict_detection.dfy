/**
 * ConflictDetectionService: finds the stored timetable entries a candidate entry
 * clashes with (same room, or same lecturer, at an overlapping time on the same
 * weekday), records the clashes as conflicts, and resolves conflicts.
 */
module ConflictDetection {
  import opened Wrappers
  import opened Ordering
  import opened Query
  import opened Types
  import opened TimetableEntity
  import opened ConflictEntity
  import TimetableDAO
  import ConflictDAO
  import CourseDAO
  import Store

  /** Both ends of the entry's time slot are set. */
  predicate Timed(t: TimetableRecord)
  {
    t.startTime.Some? && t.endTime.Some?
  }

  /**
   * timesOverlap: the same weekday (two null days count as the same) and each
   * slot starts before the other ends.
   */
  function TimesOverlap(t1: TimetableRecord, t2: TimetableRecord): (r: bool)
    requires Timed(t1) && Timed(t2)
    ensures r ==> t1.dayOfWeek == t2.dayOfWeek
    ensures t1.startTime.value < t1.endTime.value && t2.startTime.value < t2.endTime.value ==>
              (r <==> t1.dayOfWeek == t2.dayOfWeek && Occupies(t1, LaterStart(t1, t2)) && Occupies(t2, LaterStart(t1, t2)))
  {
    t1.dayOfWeek == t2.dayOfWeek && t1.startTime.value < t2.endTime.value && t1.endTime.value > t2.startTime.value
  }

  /**
   * timesOverlap as Java evaluates it on entries whose times may be null: the
   * weekdays are compared first, and a time the `&&` chain goes on to read being
   * null throws (None).
   */
  function TimesOverlapAsRead(t1: TimetableRecord, t2: TimetableRecord): (r: Option<bool>)
    ensures Timed(t1) && Timed(t2) ==> r == Some(TimesOverlap(t1, t2))
    ensures t1.dayOfWeek != t2.dayOfWeek ==> r == Some(false)
    ensures r.None? ==> t1.dayOfWeek == t2.dayOfWeek && !(Timed(t1) && Timed(t2))
    ensures r == Some(true) ==> Timed(t1) && Timed(t2) && TimesOverlap(t1, t2)
  {
    if t1.dayOfWeek != t2.dayOfWeek then Some(false)
    else if t1.startTime.None? || t2.endTime.None? then None
    else if !(t1.startTime.value < t2.endTime.value) then Some(false)
    else if t1.endTime.None? || t2.startTime.None? then None
    else Some(t1.endTime.value > t2.startTime.value)
  }

  /** The entry's slot [startTime, endTime) contains minute m. */
  predicate Occupies(t: TimetableRecord, m: int)
    requires Timed(t)
  {
    t.startTime.value <= m < t.endTime.value
  }

  /** The later of the two start times: where two overlapping slots first share a minute. */
  function LaterStart(t1: TimetableRecord, t2: TimetableRecord): int
    requires Timed(t1) && Timed(t2)
  {
    if t1.startTime.value < t2.startTime.value then t2.startTime.value else t1.startTime.value
  }

  /**
   * For well-formed slots (start before end), overlapping means sharing at least
   * one minute of the same weekday.
   */
  lemma OverlapIsSharedMinute(t1: TimetableRecord, t2: TimetableRecord)
    requires Timed(t1) && Timed(t2)
    requires t1.startTime.value < t1.endTime.value && t2.startTime.value < t2.endTime.value
    ensures TimesOverlap(t1, t2) <==> t1.dayOfWeek == t2.dayOfWeek && exists m :: Occupies(t1, m) && Occupies(t2, m)
  {
    if TimesOverlap(t1, t2) {
      var m := if t1.startTime.value < t2.startTime.value then t2.startTime.value else t1.startTime.value;
      assert Occupies(t1, m) && Occupies(t2, m);
    }
  }

  /** Overlap does not depend on which entry is the candidate. */
  lemma TimesOverlapSymmetric(t1: TimetableRecord, t2: TimetableRecord)
    requires Timed(t1) && Timed(t2)
    ensures TimesOverlap(t1, t2) == TimesOverlap(t2, t1)
  {
  }

  /** Back-to-back slots (one ends when the other starts) do not overlap. */
  lemma BackToBackSlotsDoNotOverlap(t1: TimetableRecord, t2: TimetableRecord)
    requires Timed(t1) && Timed(t2)
    requires t1.endTime.value == t2.startTime.value
    ensures !TimesOverlap(t1, t2) && !TimesOverlap(t2, t1)
  {
  }

  /** Both courses are known and taught by the same (non-null) lecturer. */
  predicate SameLecturer(t1: TimetableRecord, t2: TimetableRecord)
  {
    && t1.course.Some? && t2.course.Some?
    && t1.course.value.lecturer.Some? && t2.course.value.lecturer.Some?
    && t1.course.value.lecturer == t2.course.value.lecturer
  }

  /** Both courses are known and belong to the same (non-null) department and level: `Department.equals` compares ids. */
  predicate SameCohort(t1: TimetableRecord, t2: TimetableRecord)
  {
    && t1.course.Some? && t2.course.Some?
    && t1.course.value.department.Some? && t1.course.value.department == t2.course.value.department
    && t1.course.value.level == t2.course.value.level
  }

  /**
   * determineConflictType: the first rule that applies, in the order room,
   * lecturer, cohort (TIME_CONFLICT); null when the slots do not overlap or no
   * rule applies. The courses are only read once the room rule has failed.
   */
  function DetermineConflictType(t1: TimetableRecord, t2: TimetableRecord): (r: Option<ConflictType>)
    requires t1.room.Some? && t2.room.Some? && Timed(t1) && Timed(t2)
    requires !(t1.room == t2.room && TimesOverlap(t1, t2)) ==>
               t1.course.Some? && t2.course.Some? && t1.course.value.department.Some?
    ensures r.Some? ==> TimesOverlap(t1, t2) && r != Some(BORROWED_COURSE_CONFLICT)
    ensures r == Some(ROOM_CONFLICT) <==> t1.room == t2.room && TimesOverlap(t1, t2)
    ensures r == Some(LECTURER_CONFLICT) ==> t1.room != t2.room && SameLecturer(t1, t2)
    ensures r == Some(TIME_CONFLICT) ==> t1.room != t2.room && !SameLecturer(t1, t2) && SameCohort(t1, t2)
    ensures r.None? <==> !TimesOverlap(t1, t2) || (t1.room != t2.room && !SameLecturer(t1, t2) && !SameCohort(t1, t2))
  {
    if t1.room.value == t2.room.value && TimesOverlap(t1, t2) then Some(ROOM_CONFLICT)
    else if t1.course.value.lecturer.Some? && t2.course.value.lecturer.Some?
            && t1.course.value.lecturer.value == t2.course.value.lecturer.value && TimesOverlap(t1, t2) then
      Some(LECTURER_CONFLICT)
    else if t2.course.value.department == t1.course.value.department
            && t1.course.value.level == t2.course.value.level && TimesOverlap(t1, t2) then
      Some(TIME_CONFLICT)
    else None
  }

  /** The stored entry `id` is one the room query returns for the candidate. */
  predicate RoomQueryMatch(rows: map<nat, TimetableRecord>, id: nat, candidate: TimetableRecord, candidateId: Option<nat>)
    requires id in rows
  {
    SqlEq(rows[id].room, candidate.room)
    && TimetableDAO.SlotOverlaps(id, rows[id], candidate.dayOfWeek, candidate.startTime, candidate.endTime,
                                 candidate.semester, candidateId)
  }

  /** The stored entry `id` is one the lecturer query returns for the candidate's lecturer. */
  predicate LecturerQueryMatch(rows: map<nat, TimetableRecord>, id: nat, candidate: TimetableRecord, candidateId: Option<nat>)
    requires id in rows
  {
    candidate.course.Some?
    && SqlEq(TimetableDAO.CourseLecturer(rows[id]), candidate.course.value.lecturer)
    && TimetableDAO.SlotOverlaps(id, rows[id], candidate.dayOfWeek, candidate.startTime, candidate.endTime,
                                 candidate.semester, candidateId)
  }

  /** The query's clauses imply timesOverlap, with a non-null weekday. */
  lemma QueryMatchOverlaps(rows: map<nat, TimetableRecord>, id: nat, candidate: TimetableRecord, candidateId: Option<nat>)
    requires id in rows
    requires TimetableDAO.SlotOverlaps(id, rows[id], candidate.dayOfWeek, candidate.startTime, candidate.endTime,
                                       candidate.semester, candidateId)
    ensures Timed(candidate) && Timed(rows[id]) && TimesOverlap(candidate, rows[id])
    ensures candidate.dayOfWeek.Some? && candidateId != Some(id)
  {
  }

  /** The room rows of detectConflicts for the first n results `ids` of the room query, in order. */
  function RoomPass(rows: map<nat, TimetableRecord>, candidate: TimetableRecord, candidateId: Option<nat>,
                    ids: seq<nat>, n: nat, now: Instant): seq<ConflictRecord>
    requires n <= |ids|
    requires forall id :: id in ids ==> id in rows && RoomQueryMatch(rows, id, candidate, candidateId)
  {
    if n == 0 then []
    else
      var t := ids[n - 1];
      var previous := RoomPass(rows, candidate, candidateId, ids, n - 1, now);
      var conflictType := DetermineConflictType(candidate, rows[t]);
      if conflictType.Some? then previous + [NewConflict(candidateId, Some(t), conflictType.value, now)]
      else previous
  }

  /**
   * Every room-query result becomes exactly one ROOM_CONFLICT, in query order:
   * determineConflictType never answers null, LECTURER or TIME for these entries.
   */
  lemma {:induction false} RoomPassRecordsEveryMatch(rows: map<nat, TimetableRecord>, candidate: TimetableRecord,
                                                     candidateId: Option<nat>, ids: seq<nat>, n: nat, now: Instant)
    requires n <= |ids|
    requires forall id :: id in ids ==> id in rows && RoomQueryMatch(rows, id, candidate, candidateId)
    ensures RoomPass(rows, candidate, candidateId, ids, n, now)
            == seq(n, k requires 0 <= k < n => NewConflict(candidateId, Some(ids[k]), ROOM_CONFLICT, now))
  {
    if n != 0 {
      var t := ids[n - 1];
      RoomPassRecordsEveryMatch(rows, candidate, candidateId, ids, n - 1, now);
      QueryMatchOverlaps(rows, t, candidate, candidateId);
      assert DetermineConflictType(candidate, rows[t]) == Some(ROOM_CONFLICT);
    }
  }

  /** conflictExists, comparing the timetables by id: some conflict in the list is about the pair, in either order. */
  function ConflictExists(conflicts: seq<ConflictRecord>, t1: Option<nat>, t2: Option<nat>): (b: bool)
    ensures b <==> exists k :: 0 <= k < |conflicts| && ConflictDAO.SamePair(conflicts[k], t1, t2)
  {
    if conflicts == [] then false
    else
      var front := conflicts[..|conflicts| - 1];
      var found := ConflictExists(front, t1, t2);
      assert found ==> exists k :: 0 <= k < |conflicts| && ConflictDAO.SamePair(conflicts[k], t1, t2) by {
        if found {
          var k :| 0 <= k < |front| && ConflictDAO.SamePair(front[k], t1, t2);
          assert conflicts[k] == front[k];
        }
      }
      found || ConflictDAO.SamePair(conflicts[|conflicts| - 1], t1, t2)
  }

  /** The lecturer rows of detectConflicts, appended to `previous` for the first n lecturer-query results `ids`. */
  function LecturerPass(candidateId: Option<nat>, previous: seq<ConflictRecord>, ids: seq<nat>, n: nat,
                        now: Instant): seq<ConflictRecord>
    requires n <= |ids|
  {
    if n == 0 then previous
    else
      var t := ids[n - 1];
      var sofar := LecturerPass(candidateId, previous, ids, n - 1, now);
      if ConflictExists(sofar, candidateId, Some(t)) then sofar
      else sofar + [NewConflict(candidateId, Some(t), LECTURER_CONFLICT, now)]
  }

  /** The room rows of detectConflicts: one per room-query result. */
  function RoomConflicts(rows: map<nat, TimetableRecord>, candidate: TimetableRecord, candidateId: Option<nat>,
                         now: Instant): seq<ConflictRecord>
  {
    var roomIds := TimetableDAO.FindRoomConflicts(rows, candidate.room, candidate.dayOfWeek, candidate.startTime,
                                                  candidate.endTime, candidate.semester, candidateId);
    RoomPass(rows, candidate, candidateId, roomIds, |roomIds|, now)
  }

  /** The lecturer query's results for a candidate whose course has a lecturer. */
  function LecturerMatches(rows: map<nat, TimetableRecord>, candidate: TimetableRecord, candidateId: Option<nat>): seq<nat>
    requires candidate.course.Some?
  {
    TimetableDAO.FindLecturerConflicts(rows, candidate.course.value.lecturer, candidate.dayOfWeek,
                                       candidate.startTime, candidate.endTime, candidate.semester, candidateId)
  }

  /**
   * The conflicts detectConflicts returns for `candidate` (stored as `candidateId`,
   * or not yet stored): the room rows, then, when the candidate's course has a
   * lecturer, the lecturer rows for pairs not already listed. A candidate without
   * a course stops the method (the exception is caught) after the room rows.
   * The borrowed-course pass adds nothing (see CheckBorrowedCourseConflicts).
   */
  function Detected(rows: map<nat, TimetableRecord>, candidate: TimetableRecord, candidateId: Option<nat>,
                    now: Instant): seq<ConflictRecord>
  {
    var rooms := RoomConflicts(rows, candidate, candidateId, now);
    if candidate.course.None? || candidate.course.value.lecturer.None? then rooms
    else
      var lecturerIds := LecturerMatches(rows, candidate, candidateId);
      LecturerPass(candidateId, rooms, lecturerIds, |lecturerIds|, now)
  }

  /** Every conflict in the list has the candidate as its first timetable. */
  ghost predicate AllFrom(conflicts: seq<ConflictRecord>, candidateId: Option<nat>)
  {
    forall k :: 0 <= k < |conflicts| ==> conflicts[k].timetable1 == candidateId
  }

  /** No two conflicts in the list name the same second timetable. */
  ghost predicate PartnersDistinct(conflicts: seq<ConflictRecord>)
  {
    forall k, l :: 0 <= k < l < |conflicts| ==> conflicts[k].timetable2 != conflicts[l].timetable2
  }

  /** No two conflicts in the list are about the same pair of timetables, in either order. */
  ghost predicate ListPairsUnique(conflicts: seq<ConflictRecord>)
  {
    forall k, l :: 0 <= k < l < |conflicts| ==>
      !ConflictDAO.SamePair(conflicts[l], conflicts[k].timetable1, conflicts[k].timetable2)
  }

  /** The lecturer pass keeps the list it starts from and appends only LECTURER rows for its query results. */
  lemma {:induction false} LecturerPassAppends(candidateId: Option<nat>, previous: seq<ConflictRecord>, ids: seq<nat>,
                                               n: nat, now: Instant)
    requires n <= |ids|
    ensures var r := LecturerPass(candidateId, previous, ids, n, now);
      && |previous| <= |r| && r[..|previous|] == previous
      && forall k :: |previous| <= k < |r| ==>
           exists j :: 0 <= j < n && r[k] == NewConflict(candidateId, Some(ids[j]), LECTURER_CONFLICT, now)
  {
    if n != 0 {
      LecturerPassAppends(candidateId, previous, ids, n - 1, now);
      var sofar := LecturerPass(candidateId, previous, ids, n - 1, now);
      var r := LecturerPass(candidateId, previous, ids, n, now);
      if r != sofar {
        assert r == sofar + [NewConflict(candidateId, Some(ids[n - 1]), LECTURER_CONFLICT, now)];
        forall k | |previous| <= k < |r|
          ensures exists j :: 0 <= j < n && r[k] == NewConflict(candidateId, Some(ids[j]), LECTURER_CONFLICT, now)
        {
          if k < |sofar| {
            assert r[k] == sofar[k];
          } else {
            assert r[k] == NewConflict(candidateId, Some(ids[n - 1]), LECTURER_CONFLICT, now);
          }
        }
      }
    }
  }

  /**
   * Given a list whose conflicts all start at the candidate, the lecturer pass
   * leaves a conflict with every lecturer-query result as the second timetable.
   */
  lemma {:induction false} LecturerPassCovers(candidateId: Option<nat>, previous: seq<ConflictRecord>, ids: seq<nat>,
                                              n: nat, now: Instant)
    requires n <= |ids| && AllFrom(previous, candidateId)
    ensures AllFrom(LecturerPass(candidateId, previous, ids, n, now), candidateId)
    ensures forall j :: 0 <= j < n ==>
              exists k :: 0 <= k < |LecturerPass(candidateId, previous, ids, n, now)|
                && LecturerPass(candidateId, previous, ids, n, now)[k].timetable2 == Some(ids[j])
  {
    if n != 0 {
      LecturerPassCovers(candidateId, previous, ids, n - 1, now);
      var sofar := LecturerPass(candidateId, previous, ids, n - 1, now);
      var r := LecturerPass(candidateId, previous, ids, n, now);
      var t := ids[n - 1];
      var paired := ConflictExists(sofar, candidateId, Some(t));
      assert paired ==> r == sofar;
      assert !paired ==> r == sofar + [NewConflict(candidateId, Some(t), LECTURER_CONFLICT, now)];
      assert forall k :: 0 <= k < |sofar| ==> r[k] == sofar[k];
      forall j | 0 <= j < n ensures exists k :: 0 <= k < |r| && r[k].timetable2 == Some(ids[j]) {
        if j < n - 1 {
          var k :| 0 <= k < |sofar| && sofar[k].timetable2 == Some(ids[j]);
          assert r[k] == sofar[k];
        } else if paired {
          var k :| 0 <= k < |sofar| && ConflictDAO.SamePair(sofar[k], candidateId, Some(t));
          assert sofar[k].timetable1 == candidateId;
          assert r[k] == sofar[k];
        } else {
          assert r[|r| - 1].timetable2 == Some(t);
        }
      }
      assert AllFrom(r, candidateId);
      assert r == LecturerPass(candidateId, previous, ids, n, now);
    }
  }

  /**
   * Comparing by id, the lecturer pass never adds a second conflict for a
   * timetable already paired with the (stored) candidate.
   */
  lemma {:induction false} LecturerPassKeepsPartnersDistinct(candidateId: Option<nat>, previous: seq<ConflictRecord>,
                                                             ids: seq<nat>, n: nat, now: Instant)
    requires n <= |ids| && candidateId.Some?
    requires AllFrom(previous, candidateId) && PartnersDistinct(previous)
    ensures PartnersDistinct(LecturerPass(candidateId, previous, ids, n, now))
  {
    if n != 0 {
      LecturerPassKeepsPartnersDistinct(candidateId, previous, ids, n - 1, now);
      LecturerPassCovers(candidateId, previous, ids, n - 1, now);
      var sofar := LecturerPass(candidateId, previous, ids, n - 1, now);
      var t := ids[n - 1];
      if !ConflictExists(sofar, candidateId, Some(t)) {
        var r := sofar + [NewConflict(candidateId, Some(t), LECTURER_CONFLICT, now)];
        forall k | 0 <= k < |sofar| ensures sofar[k].timetable2 != Some(t) {
          assert !ConflictDAO.SamePair(sofar[k], candidateId, Some(t));
        }
        assert PartnersDistinct(r);
      }
    }
  }

  /** The room rows of detection, spelled out: one ROOM_CONFLICT per room-query result, in order. */
  lemma RoomConflictsSpelledOut(rows: map<nat, TimetableRecord>, candidate: TimetableRecord, candidateId: Option<nat>,
                                now: Instant)
    ensures var roomIds := TimetableDAO.FindRoomConflicts(rows, candidate.room, candidate.dayOfWeek, candidate.startTime,
                                                          candidate.endTime, candidate.semester, candidateId);
      RoomConflicts(rows, candidate, candidateId, now)
        == seq(|roomIds|, k requires 0 <= k < |roomIds| => NewConflict(candidateId, Some(roomIds[k]), ROOM_CONFLICT, now))
  {
    var roomIds := TimetableDAO.FindRoomConflicts(rows, candidate.room, candidate.dayOfWeek, candidate.startTime,
                                                  candidate.endTime, candidate.semester, candidateId);
    RoomPassRecordsEveryMatch(rows, candidate, candidateId, roomIds, |roomIds|, now);
  }

  /**
   * Soundness of detection: every conflict detected for the candidate starts at
   * the candidate, is DETECTED, and is either a ROOM_CONFLICT with an entry the
   * room query matches or a LECTURER_CONFLICT with an entry the lecturer query
   * matches; either way the two slots overlap and the partner is another entry.
   */
  lemma DetectedSound(rows: map<nat, TimetableRecord>, candidate: TimetableRecord, candidateId: Option<nat>,
                      now: Instant, c: ConflictRecord)
    requires c in Detected(rows, candidate, candidateId, now)
    ensures c.timetable1 == candidateId && c.status == Some(DETECTED)
    ensures c.timetable2.Some? && c.timetable2.value in rows && c.timetable2 != candidateId
    ensures c.conflictType == Some(ROOM_CONFLICT) || c.conflictType == Some(LECTURER_CONFLICT)
    ensures c.conflictType == Some(ROOM_CONFLICT) ==> RoomQueryMatch(rows, c.timetable2.value, candidate, candidateId)
    ensures c.conflictType == Some(LECTURER_CONFLICT) ==> LecturerQueryMatch(rows, c.timetable2.value, candidate, candidateId)
    ensures Timed(candidate) && Timed(rows[c.timetable2.value]) && TimesOverlap(candidate, rows[c.timetable2.value])
  {
    var roomIds := TimetableDAO.FindRoomConflicts(rows, candidate.room, candidate.dayOfWeek, candidate.startTime,
                                                  candidate.endTime, candidate.semester, candidateId);
    var rooms := RoomConflicts(rows, candidate, candidateId, now);
    RoomConflictsSpelledOut(rows, candidate, candidateId, now);
    if c in rooms {
      var k :| 0 <= k < |rooms| && rooms[k] == c;
      assert roomIds[k] in roomIds;
      QueryMatchOverlaps(rows, roomIds[k], candidate, candidateId);
    } else {
      assert candidate.course.Some? && candidate.course.value.lecturer.Some?;
      var lecturerIds := LecturerMatches(rows, candidate, candidateId);
      var all := LecturerPass(candidateId, rooms, lecturerIds, |lecturerIds|, now);
      LecturerPassAppends(candidateId, rooms, lecturerIds, |lecturerIds|, now);
      var k :| 0 <= k < |all| && all[k] == c;
      assert forall i :: 0 <= i < |rooms| ==> all[i] == all[..|rooms|][i];
      assert k >= |rooms|;
      var j :| 0 <= j < |lecturerIds| && c == NewConflict(candidateId, Some(lecturerIds[j]), LECTURER_CONFLICT, now);
      assert lecturerIds[j] in lecturerIds;
      QueryMatchOverlaps(rows, lecturerIds[j], candidate, candidateId);
    }
  }

  /**
   * Completeness of detection: every entry the room query matches is paired with
   * the candidate as a ROOM_CONFLICT, and, when the candidate's course has a
   * lecturer, every entry the lecturer query matches is paired with it too.
   */
  lemma DetectedComplete(rows: map<nat, TimetableRecord>, candidate: TimetableRecord, candidateId: Option<nat>,
                         now: Instant, id: nat)
    requires id in rows
    ensures RoomQueryMatch(rows, id, candidate, candidateId) ==>
              exists k :: 0 <= k < |Detected(rows, candidate, candidateId, now)|
                && Detected(rows, candidate, candidateId, now)[k]
                   == NewConflict(candidateId, Some(id), ROOM_CONFLICT, now)
    ensures LecturerQueryMatch(rows, id, candidate, candidateId) && candidate.course.value.lecturer.Some? ==>
              exists k :: 0 <= k < |Detected(rows, candidate, candidateId, now)|
                && Detected(rows, candidate, candidateId, now)[k].timetable2 == Some(id)
  {
    var roomIds := TimetableDAO.FindRoomConflicts(rows, candidate.room, candidate.dayOfWeek, candidate.startTime,
                                                  candidate.endTime, candidate.semester, candidateId);
    var rooms := RoomConflicts(rows, candidate, candidateId, now);
    var all := Detected(rows, candidate, candidateId, now);
    RoomConflictsSpelledOut(rows, candidate, candidateId, now);
    var lecturerIds: seq<nat> := [];
    if candidate.course.Some? && candidate.course.value.lecturer.Some? {
      lecturerIds := LecturerMatches(rows, candidate, candidateId);
      LecturerPassAppends(candidateId, rooms, lecturerIds, |lecturerIds|, now);
      LecturerPassCovers(candidateId, rooms, lecturerIds, |lecturerIds|, now);
    }
    assert |rooms| <= |all| && all[..|rooms|] == rooms;
    if RoomQueryMatch(rows, id, candidate, candidateId) {
      var k :| 0 <= k < |roomIds| && roomIds[k] == id;
      assert all[k] == all[..|rooms|][k] == rooms[k];
    }
    if LecturerQueryMatch(rows, id, candidate, candidateId) && candidate.course.value.lecturer.Some? {
      var j :| 0 <= j < |lecturerIds| && lecturerIds[j] == id;
    }
  }

  /**
   * For a stored candidate, detection lists each pair of timetables at most once:
   * an entry that shares both the room and the lecturer yields one conflict.
   */
  lemma DetectedPairsUnique(rows: map<nat, TimetableRecord>, candidate: TimetableRecord, candidateId: Option<nat>,
                            now: Instant)
    requires candidateId.Some?
    ensures ListPairsUnique(Detected(rows, candidate, candidateId, now))
  {
    var roomIds := TimetableDAO.FindRoomConflicts(rows, candidate.room, candidate.dayOfWeek, candidate.startTime,
                                                  candidate.endTime, candidate.semester, candidateId);
    var rooms := RoomConflicts(rows, candidate, candidateId, now);
    RoomConflictsSpelledOut(rows, candidate, candidateId, now);
    assert AllFrom(rooms, candidateId) && PartnersDistinct(rooms);
    var all := Detected(rows, candidate, candidateId, now);
    if candidate.course.Some? && candidate.course.value.lecturer.Some? {
      var lecturerIds := LecturerMatches(rows, candidate, candidateId);
      LecturerPassCovers(candidateId, rooms, lecturerIds, |lecturerIds|, now);
      LecturerPassKeepsPartnersDistinct(candidateId, rooms, lecturerIds, |lecturerIds|, now);
    }
    assert AllFrom(all, candidateId) && PartnersDistinct(all);
    forall k, l | 0 <= k < l < |all|
      ensures !ConflictDAO.SamePair(all[l], all[k].timetable1, all[k].timetable2)
    {
      DetectedSound(rows, candidate, candidateId, now, all[k]);
      DetectedSound(rows, candidate, candidateId, now, all[l]);
    }
  }

  /**
   * A single-date entry (an exam, with no weekday) is never found in conflict:
   * both queries compare the weekday with NULL, which matches no row.
   */
  lemma SingleDateEntriesNeverConflict(rows: map<nat, TimetableRecord>, candidate: TimetableRecord,
                                       candidateId: Option<nat>, now: Instant)
    requires candidate.dayOfWeek.None?
    ensures Detected(rows, candidate, candidateId, now) == []
  {
    RoomConflictsSpelledOut(rows, candidate, candidateId, now);
    TimetableDAO.NullDayMatchesNothing(rows, candidate.room, if candidate.course.Some? then candidate.course.value.lecturer else None,
                                       candidate.startTime, candidate.endTime, candidate.semester, candidateId);
  }

  /**
   * A borrowed-course conflict: the candidate against an overlapping entry of a
   * course of the candidate's department that another department borrows.
   */
  ghost predicate BorrowedClash(rows: map<nat, TimetableRecord>, courses: map<nat, Course>, departments: seq<Department>,
                                borrowedCourses: Department -> seq<nat>, candidate: TimetableRecord,
                                candidateId: Option<nat>, c: ConflictRecord)
  {
    && c.timetable1 == candidateId && c.conflictType == Some(BORROWED_COURSE_CONFLICT) && c.status == Some(DETECTED)
    && candidate.course.Some? && c.timetable2.Some? && c.timetable2.value in rows
    && Timed(candidate) && Timed(rows[c.timetable2.value]) && TimesOverlap(candidate, rows[c.timetable2.value])
    && exists d, course :: d in departments && Some(d.id) != candidate.course.value.department
         && course in borrowedCourses(d) && course in courses
         && courses[course].department.Some? && courses[course].department == candidate.course.value.department
         && TimetableDAO.CourseId(rows[c.timetable2.value]) == Some(course)
  }

  /**
   * checkBorrowedCourseConflicts: for every other department, the courses it
   * borrows (`borrowedCourses`) that belong to the candidate's department, and
   * their entries that overlap the candidate. A candidate without a course, a
   * borrowed course without a department, or an entry on the candidate's weekday
   * with a time the overlap test reads unset ends the pass (the exception is
   * caught) with what was collected. With the repository's lookup, which finds
   * nothing, the pass is empty.
   */
  method CheckBorrowedCourseConflicts(rows: map<nat, TimetableRecord>, courses: map<nat, Course>,
                                      departments: seq<Department>, borrowedCourses: Department -> seq<nat>,
                                      candidate: TimetableRecord, candidateId: Option<nat>, now: Instant)
    returns (borrowed: seq<ConflictRecord>)
    ensures forall c :: c in borrowed ==> BorrowedClash(rows, courses, departments, borrowedCourses, candidate, candidateId, c)
    ensures (forall d :: d in departments ==> borrowedCourses(d) == []) ==> borrowed == []
  {
    borrowed := [];
    for d := 0 to |departments|
      invariant forall c :: c in borrowed ==> BorrowedClash(rows, courses, departments, borrowedCourses, candidate, candidateId, c)
      invariant (forall d :: d in departments ==> borrowedCourses(d) == []) ==> borrowed == []
    {
      if candidate.course.None? {
        return;
      }
      var department := departments[d];
      if Some(department.id) != candidate.course.value.department {
        var borrowedHere := borrowedCourses(department);
        for b := 0 to |borrowedHere|
          invariant forall c :: c in borrowed ==> BorrowedClash(rows, courses, departments, borrowedCourses, candidate, candidateId, c)
          invariant (forall d :: d in departments ==> borrowedCourses(d) == []) ==> borrowed == []
        {
          var course := borrowedHere[b];
          if course in courses && courses[course].department.None? {
            return;
          }
          if course in courses && courses[course].department == candidate.course.value.department {
            var entries := TimetableDAO.FindByCourse(rows, Some(course));
            for e := 0 to |entries|
              invariant forall c :: c in borrowed ==> BorrowedClash(rows, courses, departments, borrowedCourses, candidate, candidateId, c)
              invariant (forall d :: d in departments ==> borrowedCourses(d) == []) ==> borrowed == []
            {
              var overlap := TimesOverlapAsRead(candidate, rows[entries[e]]);
              if overlap.None? {
                return;
              }
              if overlap.value {
                var clash := NewConflict(candidateId, Some(entries[e]), BORROWED_COURSE_CONFLICT, now);
                assert BorrowedClash(rows, courses, departments, borrowedCourses, candidate, candidateId, clash) by {
                  assert department in departments && course in borrowedCourses(department);
                }
                borrowed := borrowed + [clash];
              }
            }
          }
        }
      }
    }
  }

  /**
   * detectConflicts: the room query's matches, the lecturer query's matches not
   * already listed, and the borrowed-course pass; a failure part-way returns what
   * was collected so far.
   */
  method DetectConflicts(rows: map<nat, TimetableRecord>, courses: map<nat, Course>, departments: seq<Department>,
                         candidate: TimetableRecord, candidateId: Option<nat>, now: Instant)
    returns (conflicts: seq<ConflictRecord>)
    ensures conflicts == Detected(rows, candidate, candidateId, now)
  {
    conflicts := DetectRoomConflicts(rows, candidate, candidateId, now);
    if candidate.course.None? {
      return;
    }
    if candidate.course.value.lecturer.Some? {
      conflicts := DetectLecturerConflicts(rows, candidate, candidateId, conflicts, now);
    }
    var borrowed := CheckBorrowedCourseConflicts(rows, courses, departments,
                                                 d => CourseDAO.FindBorrowedCourses(courses, Some(d)),
                                                 candidate, candidateId, now);
    conflicts := conflicts + borrowed;
  }

  /** The first block of detectConflicts: a conflict, typed by determineConflictType, per room-query result. */
  method DetectRoomConflicts(rows: map<nat, TimetableRecord>, candidate: TimetableRecord, candidateId: Option<nat>,
                             now: Instant)
    returns (conflicts: seq<ConflictRecord>)
    ensures conflicts == RoomConflicts(rows, candidate, candidateId, now)
  {
    conflicts := [];
    var roomIds := TimetableDAO.FindRoomConflicts(rows, candidate.room, candidate.dayOfWeek, candidate.startTime,
                                                  candidate.endTime, candidate.semester, candidateId);
    for i := 0 to |roomIds|
      invariant conflicts == RoomPass(rows, candidate, candidateId, roomIds, i, now)
    {
      var t := roomIds[i];
      QueryMatchOverlaps(rows, t, candidate, candidateId);
      var conflictType := DetermineConflictType(candidate, rows[t]);
      if conflictType.Some? {
        conflicts := conflicts + [NewConflict(candidateId, Some(t), conflictType.value, now)];
      }
    }
  }

  /**
   * The second block of detectConflicts: a LECTURER conflict per lecturer-query
   * result not yet paired with the candidate in `rooms`.
   */
  method DetectLecturerConflicts(rows: map<nat, TimetableRecord>, candidate: TimetableRecord, candidateId: Option<nat>,
                                 rooms: seq<ConflictRecord>, now: Instant)
    returns (conflicts: seq<ConflictRecord>)
    requires candidate.course.Some?
    ensures var lecturerIds := LecturerMatches(rows, candidate, candidateId);
            conflicts == LecturerPass(candidateId, rooms, lecturerIds, |lecturerIds|, now)
  {
    conflicts := rooms;
    var lecturerIds := LecturerMatches(rows, candidate, candidateId);
    for i := 0 to |lecturerIds|
      invariant conflicts == LecturerPass(candidateId, rooms, lecturerIds, i, now)
    {
      var t := lecturerIds[i];
      if !ConflictExists(conflicts, candidateId, Some(t)) {
        conflicts := conflicts + [NewConflict(candidateId, Some(t), LECTURER_CONFLICT, now)];
      }
    }
  }


  /**
   * A Timetable object as the running program holds it. Timetable does not
   * override equals, so two references are equal only when they are the same
   * object: the same row materialised by the same session. Every DAO call opens a
   * session of its own.
   */
  datatype TimetableObject = TimetableObject(session: nat, id: Option<nat>)

  /** A Conflict object as detectConflicts builds it, holding the two Timetable objects. */
  datatype ConflictObject = ConflictObject(timetable1: TimetableObject, timetable2: TimetableObject, conflictType: ConflictType)

  /** conflictExists as the repository writes it: the timetables are compared as objects. */
  function ConflictExistsAsWritten(conflicts: seq<ConflictObject>, t1: TimetableObject, t2: TimetableObject): (b: bool)
    ensures b <==> exists k :: 0 <= k < |conflicts| &&
                    ((conflicts[k].timetable1 == t1 && conflicts[k].timetable2 == t2)
                     || (conflicts[k].timetable1 == t2 && conflicts[k].timetable2 == t1))
  {
    if conflicts == [] then false
    else
      var front := conflicts[..|conflicts| - 1];
      var last := conflicts[|conflicts| - 1];
      var found := ConflictExistsAsWritten(front, t1, t2);
      assert found ==> exists k :: 0 <= k < |conflicts| &&
                        ((conflicts[k].timetable1 == t1 && conflicts[k].timetable2 == t2)
                         || (conflicts[k].timetable1 == t2 && conflicts[k].timetable2 == t1)) by {
        if found {
          var k :| 0 <= k < |front| && ((front[k].timetable1 == t1 && front[k].timetable2 == t2)
                                        || (front[k].timetable1 == t2 && front[k].timetable2 == t1));
          assert conflicts[k] == front[k];
        }
      }
      found || (last.timetable1 == t1 && last.timetable2 == t2) || (last.timetable1 == t2 && last.timetable2 == t1)
  }

  /** One step of the lecturer loop as written, for a lecturer-query result loaded by `session`. */
  function LecturerStepAsWritten(conflicts: seq<ConflictObject>, candidate: TimetableObject, session: nat, id: nat)
    : (r: seq<ConflictObject>)
    ensures |r| == |conflicts| || r == conflicts + [ConflictObject(candidate, TimetableObject(session, Some(id)), LECTURER_CONFLICT)]
  {
    var other := TimetableObject(session, Some(id));
    if ConflictExistsAsWritten(conflicts, candidate, other) then conflicts
    else conflicts + [ConflictObject(candidate, other, LECTURER_CONFLICT)]
  }

  /**
   * The discrepancy: an entry in the candidate's room that is also taught by the
   * candidate's lecturer comes back from the two queries as two different
   * objects, so the identity check misses the room conflict already listed and
   * the same pair of timetables is listed twice.
   */
  lemma AsWrittenListsPairTwice(candidate: TimetableObject, id: nat, roomSession: nat, lecturerSession: nat)
    requires roomSession != lecturerSession && candidate.session != lecturerSession
    ensures var rooms := [ConflictObject(candidate, TimetableObject(roomSession, Some(id)), ROOM_CONFLICT)];
            var all := LecturerStepAsWritten(rooms, candidate, lecturerSession, id);
            |all| == 2 && all[0].timetable1 == all[1].timetable1 == candidate
            && all[0].timetable2.id == all[1].timetable2.id == Some(id)
  {
    var rooms := [ConflictObject(candidate, TimetableObject(roomSession, Some(id)), ROOM_CONFLICT)];
    assert !ConflictExistsAsWritten(rooms, candidate, TimetableObject(lecturerSession, Some(id)));
  }

  /** Comparing by id, the same situation is recognised: the room conflict already covers the pair. */
  lemma ByIdRecognisesListedPair(candidateId: nat, id: nat, now: Instant)
    ensures var rooms := [NewConflict(Some(candidateId), Some(id), ROOM_CONFLICT, now)];
            LecturerPass(Some(candidateId), rooms, [id], 1, now) == rooms
  {
    var rooms := [NewConflict(Some(candidateId), Some(id), ROOM_CONFLICT, now)];
    assert ConflictDAO.SamePair(rooms[0], Some(candidateId), Some(id));
  }

  /** One pass of saveConflicts' loop body: the conflict is saved under the next id unless its pair is stored. */
  function SaveOne(stored: (map<nat, ConflictRecord>, nat), c: ConflictRecord): (map<nat, ConflictRecord>, nat)
  {
    if ConflictDAO.FindExistingConflict(stored.0, c.timetable1, c.timetable2).Some? then stored
    else (stored.0[stored.1 := c], stored.1 + 1)
  }

  /** The conflict store after saveConflicts: each conflict whose pair is not yet stored is saved under the next id. */
  function SaveAll(rows: map<nat, ConflictRecord>, nextId: nat, conflicts: seq<ConflictRecord>): (map<nat, ConflictRecord>, nat)
  {
    if conflicts == [] then (rows, nextId)
    else SaveOne(SaveAll(rows, nextId, conflicts[..|conflicts| - 1]), conflicts[|conflicts| - 1])
  }

  /** Saving only adds rows, under ids at or above nextId, and keeps every id below the new nextId. */
  lemma {:induction false} SaveAllOnlyAdds(rows: map<nat, ConflictRecord>, nextId: nat, conflicts: seq<ConflictRecord>)
    requires forall id :: id in rows ==> id < nextId
    ensures var (after, next) := SaveAll(rows, nextId, conflicts);
      && nextId <= next
      && (forall id :: id in after ==> id < next)
      && (forall id :: id in rows ==> id in after && after[id] == rows[id])
      && (forall id :: id in after && id !in rows ==> nextId <= id)
  {
    if conflicts != [] {
      SaveAllOnlyAdds(rows, nextId, conflicts[..|conflicts| - 1]);
    }
  }

  /** saveConflicts keeps the stored conflicts free of duplicate pairs. */
  lemma {:induction false} SaveAllPreservesPairsUnique(rows: map<nat, ConflictRecord>, nextId: nat,
                                                       conflicts: seq<ConflictRecord>)
    requires forall id :: id in rows ==> id < nextId
    requires ConflictDAO.PairsUnique(rows)
    ensures ConflictDAO.PairsUnique(SaveAll(rows, nextId, conflicts).0)
  {
    if conflicts != [] {
      var front := conflicts[..|conflicts| - 1];
      var c := conflicts[|conflicts| - 1];
      SaveAllPreservesPairsUnique(rows, nextId, front);
      SaveAllOnlyAdds(rows, nextId, front);
      var (sofar, next) := SaveAll(rows, nextId, front);
      if ConflictDAO.FindExistingConflict(sofar, c.timetable1, c.timetable2).None? {
        var after := sofar[next := c];
        forall i, j | i in after && j in after && i != j
          ensures !ConflictDAO.SamePair(after[j], after[i].timetable1, after[i].timetable2)
        {
          if j == next {
            assert i in sofar;
            if ConflictDAO.SamePair(after[j], after[i].timetable1, after[i].timetable2) {
              ConflictDAO.SamePairSwap(after[j], after[i]);
            }
          } else if i == next {
            assert j in sofar;
          }
        }
      }
    }
  }

  /** After saving, every conflict with both timetables set has its pair stored. */
  lemma {:induction false} SaveAllRecordsEveryPair(rows: map<nat, ConflictRecord>, nextId: nat,
                                                   conflicts: seq<ConflictRecord>)
    requires forall id :: id in rows ==> id < nextId
    ensures forall k :: 0 <= k < |conflicts| && conflicts[k].timetable1.Some? && conflicts[k].timetable2.Some? ==>
              ConflictDAO.FindExistingConflict(SaveAll(rows, nextId, conflicts).0,
                                               conflicts[k].timetable1, conflicts[k].timetable2).Some?
  {
    if conflicts != [] {
      var front := conflicts[..|conflicts| - 1];
      var c := conflicts[|conflicts| - 1];
      SaveAllRecordsEveryPair(rows, nextId, front);
      SaveAllOnlyAdds(rows, nextId, front);
      var (sofar, next) := SaveAll(rows, nextId, front);
      var after := SaveAll(rows, nextId, conflicts).0;
      assert forall id :: id in sofar ==> id in after && after[id] == sofar[id];
      forall k | 0 <= k < |conflicts| && conflicts[k].timetable1.Some? && conflicts[k].timetable2.Some?
        ensures ConflictDAO.FindExistingConflict(after, conflicts[k].timetable1, conflicts[k].timetable2).Some?
      {
        var a := conflicts[k];
        if k < |front| {
          assert a == front[k];
          var found := ConflictDAO.FindExistingConflict(sofar, a.timetable1, a.timetable2).value;
          assert found in after && ConflictDAO.SamePair(after[found], a.timetable1, a.timetable2);
        } else if ConflictDAO.FindExistingConflict(sofar, c.timetable1, c.timetable2).Some? {
          var found := ConflictDAO.FindExistingConflict(sofar, c.timetable1, c.timetable2).value;
          assert found in after && ConflictDAO.SamePair(after[found], a.timetable1, a.timetable2);
        } else {
          assert next in after && ConflictDAO.SamePair(after[next], a.timetable1, a.timetable2);
        }
      }
    }
  }

  /** Saving conflicts whose pairs are all stored already changes nothing. */
  lemma {:induction false} SaveAllOfStoredPairsIsNoOp(rows: map<nat, ConflictRecord>, nextId: nat,
                                                      conflicts: seq<ConflictRecord>)
    requires forall k :: 0 <= k < |conflicts| ==>
               ConflictDAO.FindExistingConflict(rows, conflicts[k].timetable1, conflicts[k].timetable2).Some?
    ensures SaveAll(rows, nextId, conflicts) == (rows, nextId)
  {
    if conflicts != [] {
      var front := conflicts[..|conflicts| - 1];
      assert forall k :: 0 <= k < |front| ==> front[k] == conflicts[k];
      SaveAllOfStoredPairsIsNoOp(rows, nextId, front);
    }
  }

  /** saveConflicts is idempotent: saving the same detected conflicts twice stores them once. */
  lemma SaveAllIdempotent(rows: map<nat, ConflictRecord>, nextId: nat, conflicts: seq<ConflictRecord>)
    requires forall id :: id in rows ==> id < nextId
    requires forall k :: 0 <= k < |conflicts| ==> conflicts[k].timetable1.Some? && conflicts[k].timetable2.Some?
    ensures var once := SaveAll(rows, nextId, conflicts);
            SaveAll(once.0, once.1, conflicts) == once
  {
    SaveAllRecordsEveryPair(rows, nextId, conflicts);
    var once := SaveAll(rows, nextId, conflicts);
    SaveAllOfStoredPairsIsNoOp(once.0, once.1, conflicts);
  }

  /** The lecturer loop as written, over objects: `LecturerStepAsWritten` for the first n lecturer-query results. */
  function LecturerPassObjects(conflicts: seq<ConflictObject>, candidate: TimetableObject, session: nat,
                               ids: seq<nat>, n: nat): seq<ConflictObject>
    requires n <= |ids|
  {
    if n == 0 then conflicts
    else LecturerStepAsWritten(LecturerPassObjects(conflicts, candidate, session, ids, n - 1), candidate, session, ids[n - 1])
  }

  /**
   * As written, the lecturer loop never skips a result: the lecturer query's
   * session loaded none of the objects already listed nor the candidate, and it
   * returns each row once, so the identity check never finds the pair.
   */
  lemma {:induction false} AsWrittenNeverSkips(conflicts: seq<ConflictObject>, candidate: TimetableObject, session: nat,
                                               ids: seq<nat>, n: nat)
    requires n <= |ids| && Distinct(ids) && candidate.session != session
    requires forall k :: 0 <= k < |conflicts| ==>
               conflicts[k].timetable1 == candidate && conflicts[k].timetable2.session != session
    ensures var r := LecturerPassObjects(conflicts, candidate, session, ids, n);
            && |r| == |conflicts| + n && r[..|conflicts|] == conflicts
            && forall k :: 0 <= k < n ==>
                 r[|conflicts| + k] == ConflictObject(candidate, TimetableObject(session, Some(ids[k])), LECTURER_CONFLICT)
  {
    if n != 0 {
      AsWrittenNeverSkips(conflicts, candidate, session, ids, n - 1);
      var sofar := LecturerPassObjects(conflicts, candidate, session, ids, n - 1);
      var other := TimetableObject(session, Some(ids[n - 1]));
      forall k | 0 <= k < |sofar|
        ensures !(sofar[k].timetable1 == candidate && sofar[k].timetable2 == other)
        ensures !(sofar[k].timetable1 == other && sofar[k].timetable2 == candidate)
      {
        if k < |conflicts| {
          assert sofar[k] == conflicts[k];
        } else {
          assert sofar[k].timetable2 == TimetableObject(session, Some(ids[k - |conflicts|]));
        }
      }
      assert !ConflictExistsAsWritten(sofar, candidate, other);
      var r := sofar + [ConflictObject(candidate, other, LECTURER_CONFLICT)];
      assert LecturerPassObjects(conflicts, candidate, session, ids, n) == r;
      assert r[..|conflicts|] == sofar[..|conflicts|];
    }
  }

  /** The lecturer rows as written: a LECTURER conflict for every one of the first n lecturer-query results. */
  function LecturerPassAsWritten(candidateId: Option<nat>, previous: seq<ConflictRecord>, ids: seq<nat>, n: nat,
                                 now: Instant): (r: seq<ConflictRecord>)
    requires n <= |ids|
    ensures |r| == |previous| + n && r[..|previous|] == previous
    ensures forall k :: 0 <= k < n ==> r[|previous| + k] == NewConflict(candidateId, Some(ids[k]), LECTURER_CONFLICT, now)
  {
    if n == 0 then previous
    else LecturerPassAsWritten(candidateId, previous, ids, n - 1, now)
         + [NewConflict(candidateId, Some(ids[n - 1]), LECTURER_CONFLICT, now)]
  }

  /**
   * The list detectConflicts returns as written (see AsWrittenNeverSkips): the
   * room rows, then a LECTURER conflict for every lecturer-query result, even
   * one whose pair the room rows already list.
   */
  function DetectedAsWritten(rows: map<nat, TimetableRecord>, candidate: TimetableRecord, candidateId: Option<nat>,
                             now: Instant): seq<ConflictRecord>
  {
    var rooms := RoomConflicts(rows, candidate, candidateId, now);
    if candidate.course.None? || candidate.course.value.lecturer.None? then rooms
    else
      var lecturerIds := LecturerMatches(rows, candidate, candidateId);
      LecturerPassAsWritten(candidateId, rooms, lecturerIds, |lecturerIds|, now)
  }

  /** Saving one more conflict applies the loop body to the store the list before it leaves. */
  lemma SaveAllSnoc(rows: map<nat, ConflictRecord>, nextId: nat, conflicts: seq<ConflictRecord>, c: ConflictRecord)
    ensures SaveAll(rows, nextId, conflicts + [c]) == SaveOne(SaveAll(rows, nextId, conflicts), c)
  {
    assert (conflicts + [c])[..|conflicts|] == conflicts;
  }

  /** Saving a conflict whose pair an earlier conflict of the list already has changes nothing. */
  lemma SaveAllSkipsListedPair(rows: map<nat, ConflictRecord>, nextId: nat, conflicts: seq<ConflictRecord>,
                               c: ConflictRecord)
    requires forall id :: id in rows ==> id < nextId
    requires exists k :: 0 <= k < |conflicts| && ConflictDAO.SamePair(conflicts[k], c.timetable1, c.timetable2)
    ensures ConflictDAO.FindExistingConflict(SaveAll(rows, nextId, conflicts).0, c.timetable1, c.timetable2).Some?
    ensures SaveAll(rows, nextId, conflicts + [c]) == SaveAll(rows, nextId, conflicts)
  {
    var k :| 0 <= k < |conflicts| && ConflictDAO.SamePair(conflicts[k], c.timetable1, c.timetable2);
    SaveAllRecordsEveryPair(rows, nextId, conflicts);
    var sofar := SaveAll(rows, nextId, conflicts).0;
    ConflictDAO.FindExistingConflictSymmetric(sofar, c.timetable1, c.timetable2);
    SaveAllSnoc(rows, nextId, conflicts, c);
  }

  /** Saving the as-written lecturer rows stores exactly what saving the by-id ones stores. */
  lemma {:induction false} LecturerPassAsWrittenStoresTheSame(rows: map<nat, ConflictRecord>, nextId: nat,
                                                              candidateId: Option<nat>, previous: seq<ConflictRecord>,
                                                              ids: seq<nat>, n: nat, now: Instant)
    requires n <= |ids|
    requires forall id :: id in rows ==> id < nextId
    ensures SaveAll(rows, nextId, LecturerPassAsWritten(candidateId, previous, ids, n, now))
            == SaveAll(rows, nextId, LecturerPass(candidateId, previous, ids, n, now))
  {
    if n != 0 {
      LecturerPassAsWrittenStoresTheSame(rows, nextId, candidateId, previous, ids, n - 1, now);
      var written := LecturerPassAsWritten(candidateId, previous, ids, n - 1, now);
      var byId := LecturerPass(candidateId, previous, ids, n - 1, now);
      var c := NewConflict(candidateId, Some(ids[n - 1]), LECTURER_CONFLICT, now);
      var stored := SaveAll(rows, nextId, byId);
      assert LecturerPassAsWritten(candidateId, previous, ids, n, now) == written + [c];
      SaveAllSnoc(rows, nextId, written, c);
      if ConflictExists(byId, candidateId, Some(ids[n - 1])) {
        assert LecturerPass(candidateId, previous, ids, n, now) == byId;
        SaveAllSkipsListedPair(rows, nextId, byId, c);
        assert SaveAll(rows, nextId, written + [c]) == stored;
      } else {
        assert LecturerPass(candidateId, previous, ids, n, now) == byId + [c];
        SaveAllSnoc(rows, nextId, byId, c);
        assert SaveAll(rows, nextId, written + [c]) == SaveAll(rows, nextId, byId + [c]);
      }
    } else {
      assert LecturerPassAsWritten(candidateId, previous, ids, n, now) == previous;
      assert LecturerPass(candidateId, previous, ids, n, now) == previous;
    }
  }

  /**
   * The duplicate pair of the as-written list is harmless to the store:
   * saveConflicts' findExistingConflict drops it, so saving the as-written list
   * stores exactly what saving `Detected` stores, and the two lists are empty
   * together (so the entry's CONFLICTED status is the same).
   */
  lemma DetectedAsWrittenStoresTheSame(rows: map<nat, TimetableRecord>, candidate: TimetableRecord,
                                       candidateId: Option<nat>, now: Instant,
                                       conflicts: map<nat, ConflictRecord>, nextId: nat)
    requires forall id :: id in conflicts ==> id < nextId
    ensures SaveAll(conflicts, nextId, DetectedAsWritten(rows, candidate, candidateId, now))
            == SaveAll(conflicts, nextId, Detected(rows, candidate, candidateId, now))
    ensures DetectedAsWritten(rows, candidate, candidateId, now) == [] <==> Detected(rows, candidate, candidateId, now) == []
  {
    var rooms := RoomConflicts(rows, candidate, candidateId, now);
    if candidate.course.Some? && candidate.course.value.lecturer.Some? {
      var lecturerIds := LecturerMatches(rows, candidate, candidateId);
      LecturerPassAsWrittenStoresTheSame(conflicts, nextId, candidateId, rooms, lecturerIds, |lecturerIds|, now);
      LecturerPassAppends(candidateId, rooms, lecturerIds, |lecturerIds|, now);
      if rooms == [] && lecturerIds != [] {
        LecturerPassCovers(candidateId, rooms, lecturerIds, |lecturerIds|, now);
      }
    }
  }

  /** saveConflicts: saves each conflict whose pair (in either order) is not stored yet. */
  method SaveConflicts(store: Store.BaseDAO<ConflictRecord>, conflicts: seq<ConflictRecord>)
    requires store.Valid()
    modifies store
    ensures store.Valid()
    ensures (store.rows, store.nextId) == SaveAll(old(store.rows), old(store.nextId), conflicts)
  {
    for i := 0 to |conflicts|
      invariant store.Valid()
      invariant (store.rows, store.nextId) == SaveAll(old(store.rows), old(store.nextId), conflicts[..i])
    {
      var c := conflicts[i];
      assert conflicts[..i + 1][..i] == conflicts[..i];
      var existing := ConflictDAO.FindExistingConflict(store.rows, c.timetable1, c.timetable2);
      if existing.None? {
        var saved := store.Save(None, c);
      }
    }
    assert conflicts[..|conflicts|] == conflicts;
  }

  /** The conflict after resolveConflict: RESOLVED, with the notes, the resolver and the time. */
  function Resolved(c: ConflictRecord, resolution: string, resolvedBy: User, now: Instant): (r: ConflictRecord)
    ensures r.status == Some(RESOLVED) && !ConflictDAO.IsUnresolved(r.status)
    ensures r.timetable1 == c.timetable1 && r.timetable2 == c.timetable2 && r.conflictType == c.conflictType
    ensures r.detectedAt == c.detectedAt
  {
    c.(status := Some(RESOLVED), resolutionNotes := Some(resolution), resolvedBy := Some(resolvedBy.id), resolvedAt := Some(now))
  }

  /** resolveConflict: marks a stored conflict RESOLVED; an unknown id changes nothing. */
  method ResolveConflict(store: Store.BaseDAO<ConflictRecord>, conflictId: nat, resolution: string,
                         resolvedBy: User, now: Instant)
    requires store.Valid()
    modifies store
    ensures store.Valid()
    ensures store.rows == if conflictId in old(store.rows)
                          then old(store.rows)[conflictId := Resolved(old(store.rows)[conflictId], resolution, resolvedBy, now)]
                          else old(store.rows)
  {
    var conflict := store.FindById(conflictId);
    if conflict.Some? {
      var o := store.Update(conflictId, Resolved(conflict.value, resolution, resolvedBy, now));
    }
  }

  /** Resolving changes no conflict's pair, so the store stays free of duplicate pairs. */
  lemma ResolvePreservesPairsUnique(rows: map<nat, ConflictRecord>, conflictId: nat, resolution: string,
                                    resolvedBy: User, now: Instant)
    requires conflictId in rows && ConflictDAO.PairsUnique(rows)
    ensures ConflictDAO.PairsUnique(rows[conflictId := Resolved(rows[conflictId], resolution, resolvedBy, now)])
  {
  }

  /**
   * Detection finds nothing exactly when no stored entry matches the room query
   * and, for a candidate whose course has a lecturer, none matches the lecturer query.
   */
  lemma DetectedEmptyIff(rows: map<nat, TimetableRecord>, candidate: TimetableRecord, candidateId: Option<nat>,
                         now: Instant)
    ensures Detected(rows, candidate, candidateId, now) == [] <==>
              forall id :: id in rows ==>
                && !RoomQueryMatch(rows, id, candidate, candidateId)
                && !(LecturerQueryMatch(rows, id, candidate, candidateId) && candidate.course.value.lecturer.Some?)
  {
    var found := Detected(rows, candidate, candidateId, now);
    if found == [] {
      forall id | id in rows
        ensures !RoomQueryMatch(rows, id, candidate, candidateId)
        ensures !(LecturerQueryMatch(rows, id, candidate, candidateId) && candidate.course.value.lecturer.Some?)
      {
        DetectedComplete(rows, candidate, candidateId, now, id);
      }
    } else {
      DetectedSound(rows, candidate, candidateId, now, found[0]);
    }
  }

  /** Every stored conflict names two stored timetables. */
  ghost predicate ConflictsReferToStored(timetables: map<nat, TimetableRecord>, conflicts: map<nat, ConflictRecord>)
  {
    forall k :: k in conflicts ==>
      && conflicts[k].timetable1.Some? && conflicts[k].timetable1.value in timetables
      && conflicts[k].timetable2.Some? && conflicts[k].timetable2.value in timetables
  }

  /** Saving conflicts that name stored timetables keeps every stored conflict pointing at stored timetables. */
  lemma {:induction false} SaveAllKeepsReferences(timetables: map<nat, TimetableRecord>, rows: map<nat, ConflictRecord>,
                                                  nextId: nat, conflicts: seq<ConflictRecord>)
    requires ConflictsReferToStored(timetables, rows)
    requires forall c :: c in conflicts ==>
               c.timetable1.Some? && c.timetable1.value in timetables && c.timetable2.Some? && c.timetable2.value in timetables
    ensures ConflictsReferToStored(timetables, SaveAll(rows, nextId, conflicts).0)
  {
    if conflicts != [] {
      var front := conflicts[..|conflicts| - 1];
      assert forall c :: c in front ==> c in conflicts;
      SaveAllKeepsReferences(timetables, rows, nextId, front);
    }
  }
}
