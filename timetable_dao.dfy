/**
 * TimetableDAO: the timetable queries, each a filter over the stored rows
 * followed by its ORDER BY. A query returns the ids of the rows it selects.
 */
module TimetableDAO {
  import opened Wrappers
  import opened Ordering
  import opened Query
  import opened Types
  import opened TimetableEntity

  /** `t.course.department`, `t.course.lecturer`, ...: a path through a NULL course is NULL. */
  function CourseId(t: TimetableRecord): Option<nat>
  {
    if t.course.Some? then Some(t.course.value.id) else None
  }

  function CourseDepartment(t: TimetableRecord): Option<nat>
  {
    if t.course.Some? then t.course.value.department else None
  }

  function CourseLecturer(t: TimetableRecord): Option<nat>
  {
    if t.course.Some? then t.course.value.lecturer else None
  }

  function CourseLevel(t: TimetableRecord): Option<int>
  {
    if t.course.Some? then Some(t.course.value.level) else None
  }

  /**
   * The clauses the three overlap queries share: same semester and day, a
   * half-open time overlap with [startTime, endTime), not REJECTED, and not the
   * excluded id (no id is excluded when excludeId is null).
   */
  predicate SlotOverlaps(id: nat, t: TimetableRecord, dayOfWeek: Option<DayOfWeek>, startTime: Option<Minute>,
                         endTime: Option<Minute>, semester: Option<SemesterType>, excludeId: Option<nat>)
  {
    && SqlEq(t.semester, semester)
    && SqlEq(t.dayOfWeek, dayOfWeek)
    && SqlLt(t.startTime, endTime)
    && SqlLt(startTime, t.endTime)
    && SqlNe(t.status, Some(REJECTED))
    && (excludeId.Some? ==> id != excludeId.value)
  }

  /** ORDER BY t.dayOfWeek, t.startTime (the day by its stored name). */
  function DaySlotKey(t: TimetableRecord): seq<int>
  {
    (if t.dayOfWeek.Some? then [1] + EnumKey(t.dayOfWeek.value.Name()) else [0])
    + NullableKey(t.startTime)
  }

  /** ORDER BY t.specificDate, t.startTime */
  function DateSlotKey(t: TimetableRecord): seq<int>
  {
    NullableKey(t.specificDate) + NullableKey(t.startTime)
  }

  /** ORDER BY t.createdAt DESC */
  function NewestFirstKey(t: TimetableRecord): seq<int>
  {
    NullableKeyDesc(t.createdAt)
  }

  /** findAll */
  function FindAll(rows: map<nat, TimetableRecord>): (r: seq<nat>)
    ensures forall id :: id in r <==> id in rows
    ensures Distinct(r)
  {
    AscendingIds(rows.Keys)
  }

  /** findByCourse: the course's timetables, by day then start time. */
  function FindByCourse(rows: map<nat, TimetableRecord>, course: Option<nat>): (r: seq<nat>)
    ensures forall id :: id in r <==> id in rows && SqlEq(CourseId(rows[id]), course)
    ensures SortedBy(rows, r, DaySlotKey) && Distinct(r)
  {
    Select(rows, (id: nat, t: TimetableRecord) => SqlEq(CourseId(t), course), DaySlotKey)
  }

  /** findAllByDepartment: the timetables of the department's courses, by day then start time. */
  function FindAllByDepartment(rows: map<nat, TimetableRecord>, department: Option<nat>): (r: seq<nat>)
    ensures forall id :: id in r <==> id in rows && SqlEq(CourseDepartment(rows[id]), department)
    ensures SortedBy(rows, r, DaySlotKey) && Distinct(r)
  {
    Select(rows, (id: nat, t: TimetableRecord) => SqlEq(CourseDepartment(t), department), DaySlotKey)
  }

  /** findOverlappingStudentSchedules: the cohort query (same course department and level). */
  function FindOverlappingStudentSchedules(rows: map<nat, TimetableRecord>, department: Option<nat>, level: int,
                                           dayOfWeek: Option<DayOfWeek>, startTime: Option<Minute>, endTime: Option<Minute>,
                                           semester: Option<SemesterType>, excludeId: Option<nat>): (r: seq<nat>)
    ensures forall id :: id in r <==> (id in rows && SqlEq(CourseDepartment(rows[id]), department)
              && SqlEq(CourseLevel(rows[id]), Some(level))
              && SlotOverlaps(id, rows[id], dayOfWeek, startTime, endTime, semester, excludeId))
    ensures Distinct(r)
  {
    Select(rows, (id: nat, t: TimetableRecord) => SqlEq(CourseDepartment(t), department) && SqlEq(CourseLevel(t), Some(level))
                            && SlotOverlaps(id, t, dayOfWeek, startTime, endTime, semester, excludeId), Unordered)
  }

  /** findRoomConflicts: entries in the same room that overlap the slot. */
  function FindRoomConflicts(rows: map<nat, TimetableRecord>, room: Option<nat>, dayOfWeek: Option<DayOfWeek>,
                             startTime: Option<Minute>, endTime: Option<Minute>,
                             semester: Option<SemesterType>, excludeId: Option<nat>): (r: seq<nat>)
    ensures forall id :: id in r <==> (id in rows && SqlEq(rows[id].room, room)
              && SlotOverlaps(id, rows[id], dayOfWeek, startTime, endTime, semester, excludeId))
    ensures Distinct(r)
  {
    AscendingIds(set id | id in rows && SqlEq(rows[id].room, room)
                          && SlotOverlaps(id, rows[id], dayOfWeek, startTime, endTime, semester, excludeId))
  }

  /** findLecturerConflicts: entries whose course has the same lecturer and that overlap the slot. */
  function FindLecturerConflicts(rows: map<nat, TimetableRecord>, lecturer: Option<nat>, dayOfWeek: Option<DayOfWeek>,
                                 startTime: Option<Minute>, endTime: Option<Minute>,
                                 semester: Option<SemesterType>, excludeId: Option<nat>): (r: seq<nat>)
    ensures forall id :: id in r <==> (id in rows && SqlEq(CourseLecturer(rows[id]), lecturer)
              && SlotOverlaps(id, rows[id], dayOfWeek, startTime, endTime, semester, excludeId))
    ensures Distinct(r)
  {
    AscendingIds(set id | id in rows && SqlEq(CourseLecturer(rows[id]), lecturer)
                          && SlotOverlaps(id, rows[id], dayOfWeek, startTime, endTime, semester, excludeId))
  }

  /** findApprovedTimetables: the APPROVED entries of a department, level and semester, by day then start. */
  function FindApprovedTimetables(rows: map<nat, TimetableRecord>, department: Option<nat>, level: int,
                                  semester: Option<SemesterType>): (r: seq<nat>)
    ensures forall id :: id in r <==> (id in rows && SqlEq(CourseDepartment(rows[id]), department)
              && SqlEq(CourseLevel(rows[id]), Some(level)) && SqlEq(rows[id].semester, semester)
              && rows[id].status == Some(APPROVED))
    ensures SortedBy(rows, r, DaySlotKey) && Distinct(r)
  {
    Select(rows, (id: nat, t: TimetableRecord) => SqlEq(CourseDepartment(t), department) && SqlEq(CourseLevel(t), Some(level))
                            && SqlEq(t.semester, semester) && t.status == Some(APPROVED), DaySlotKey)
  }

  /** findByStatus: the entries with that status, newest createdAt first. */
  function FindByStatus(rows: map<nat, TimetableRecord>, status: Option<TimetableStatus>): (r: seq<nat>)
    ensures forall id :: id in r <==> id in rows && SqlEq(rows[id].status, status)
    ensures SortedBy(rows, r, NewestFirstKey) && Distinct(r)
  {
    Select(rows, (id: nat, t: TimetableRecord) => SqlEq(t.status, status), NewestFirstKey)
  }

  /** findByLecturer: a lecturer's entries in a semester, in any status, by day then start. */
  function FindByLecturer(rows: map<nat, TimetableRecord>, lecturer: Option<nat>, semester: Option<SemesterType>): (r: seq<nat>)
    ensures forall id :: id in r <==> (id in rows && SqlEq(CourseLecturer(rows[id]), lecturer)
              && SqlEq(rows[id].semester, semester))
    ensures SortedBy(rows, r, DaySlotKey) && Distinct(r)
  {
    Select(rows, (id: nat, t: TimetableRecord) => SqlEq(CourseLecturer(t), lecturer) && SqlEq(t.semester, semester), DaySlotKey)
  }

  /** Activity types the exam queries select: `t.type IN (EXAM, TEST)`. */
  predicate IsExamType(t: Option<ActivityType>)
  {
    t == Some(EXAM) || t == Some(TEST)
  }

  /** findExamsByDateRange: approved exams and tests of a department dated in [startDate, endDate]. */
  function FindExamsByDateRange(rows: map<nat, TimetableRecord>, startDate: Option<Date>, endDate: Option<Date>,
                                department: Option<nat>): (r: seq<nat>)
    ensures forall id :: id in r <==> (id in rows && SqlLe(startDate, rows[id].specificDate)
              && SqlLe(rows[id].specificDate, endDate) && IsExamType(rows[id].activityType)
              && SqlEq(CourseDepartment(rows[id]), department) && rows[id].status == Some(APPROVED))
    ensures SortedBy(rows, r, DateSlotKey) && Distinct(r)
  {
    Select(rows, (id: nat, t: TimetableRecord) => SqlLe(startDate, t.specificDate) && SqlLe(t.specificDate, endDate) && IsExamType(t.activityType)
                            && SqlEq(CourseDepartment(t), department) && t.status == Some(APPROVED), DateSlotKey)
  }

  /** With excludeId null nothing is excluded; with an id, exactly that row is dropped. */
  lemma ExcludeIdDropsOnlyThatRow(rows: map<nat, TimetableRecord>, room: Option<nat>, dayOfWeek: Option<DayOfWeek>,
                                  startTime: Option<Minute>, endTime: Option<Minute>,
                                  semester: Option<SemesterType>, excluded: nat)
    ensures forall id :: id in FindRoomConflicts(rows, room, dayOfWeek, startTime, endTime, semester, Some(excluded))
              <==> id in FindRoomConflicts(rows, room, dayOfWeek, startTime, endTime, semester, None) && id != excluded
  {
  }

  /** A single-date entry (null dayOfWeek) is never matched: `t.dayOfWeek = NULL` holds for no row. */
  lemma NullDayMatchesNothing(rows: map<nat, TimetableRecord>, room: Option<nat>, lecturer: Option<nat>,
                              startTime: Option<Minute>, endTime: Option<Minute>,
                              semester: Option<SemesterType>, excludeId: Option<nat>)
    ensures FindRoomConflicts(rows, room, None, startTime, endTime, semester, excludeId) == []
    ensures FindLecturerConflicts(rows, lecturer, None, startTime, endTime, semester, excludeId) == []
  {
  }
}
