# TimeFlow timetable conflicts and approval, in Dafny

TimeFlow is a university timetabling application. A timetable entry books a
course into a room, either on a weekday or on one date. When an entry is created
or updated, the conflict detection service looks for:

- stored entries in the same room at an overlapping time;
- stored entries taught by the same lecturer at an overlapping time.

It records each clash as a conflict. The entry moves through DRAFT, then
CONFLICTED or PENDING_APPROVAL, then APPROVED or REJECTED. An entry can be
approved only while none of its conflicts is DETECTED or APPEALED. Reports count
entries and conflicts by department, semester and status.

This project models the following in Dafny:

- the persistence layer, as id-keyed stores;
- the query methods of the data access objects (DAOs);
- the two mutable entities;
- the conflict detection service;
- the timetable service's status machine;
- the counting reports.

It proves that each of these behaves as the code says. The exceptions are the two
bugs under "## Findings": for each, the model states the code as written and
shows the bug, and the rest of the model uses the corrected behaviour.

## Modelling choices

- **Stores.** A store is a `Store.BaseDAO<R>` object holding `rows: map<nat, R>`
  (id to record) and `nextId`, the identity column's next value. `Save`,
  `Update`, `Delete` and `DeleteById` change the map in place. The failures the
  store rolls back on are modelled: a persisted entity, a missing row.
- **Entities.** `Timetable` and `Conflict` are classes whose setters each change
  one field. `Snapshot()` gives the record the store keeps. References to other
  entities are ids. The course is embedded in the timetable record, because it
  is fetched eagerly.
- **NULL.** Every nullable field is an `Option`, including a course's department and lecturer.
  - A query's `column = :param` is SQL three-valued: NULL never matches (`Query.SqlEq`).
  - Java `==` on enums is identity, so a null semester equals a null semester.
  - A null weekday never matches a query, but two null weekdays are equal in `timesOverlap`.
- **Queries.** A query returns the ids of the rows it selects, ordered by its
  ORDER BY. Enum columns are stored as names, so they sort alphabetically. SQL
  leaves the order of ties open; the model breaks them by id. The repository configures no particular database, so where
  NULL sorts is an assumption: the model puts NULL first on ascending keys, as
  MySQL and H2 do (PostgreSQL and Oracle put it last).
- **Time and clock.** A time of day is a minute, and a date a day number.
  `LocalDateTime.now()` and the current month are parameters (`now`, `month`).
- **Caught exceptions.** Where the code catches an exception and carries on, the
  model returns what was built up to the throw. Examples: the conflicts collected
  so far; a report map with only the keys put before the throw.
- **Reports.** A report is a `map<string, ReportValue>`.

## Model

| member | source | states |
|---|---|---|
| Store.BaseDAO.constructor | src/main/java/org/timeflow/dao/BaseDAO.java:19-22 | a new store is empty |
| Store.BaseDAO.FindById | src/main/java/org/timeflow/dao/BaseDAO.java:43-50 | the stored record for a known id, null (None) exactly when the id is unknown |
| Store.BaseDAO.Save | src/main/java/org/timeflow/dao/BaseDAO.java:25-40 | an entity without an id is stored under a fresh id (the old nextId, unused before) and FindById then returns it; an entity with an id is refused and the store is unchanged |
| Store.BaseDAO.Update | src/main/java/org/timeflow/dao/BaseDAO.java:53-68 | replaces the record with that id and nothing else; a missing row fails and leaves the store unchanged |
| Store.BaseDAO.Delete | src/main/java/org/timeflow/dao/BaseDAO.java:84-98 | removes exactly that row; it succeeds iff the row existed |
| Store.BaseDAO.DeleteById | src/main/java/org/timeflow/dao/BaseDAO.java:101-108 | removes exactly that row; an absent id leaves the store unchanged |
| TimetableEntity.Timetable.Empty | src/main/java/org/timeflow/entity/Timetable.java:59-60 | the no-argument constructor leaves every field null, status included |
| TimetableEntity.Timetable.constructor | src/main/java/org/timeflow/entity/Timetable.java:63-74 | stores the seven arguments as given, status DRAFT, createdAt the clock; id, date, approval fields and description unset |
| TimetableEntity.Timetable.Loaded | src/main/java/org/timeflow/entity/Timetable.java:11-57 | an entity materialised from the store carries the stored id and exactly the stored record |
| TimetableEntity.Timetable.SetId | src/main/java/org/timeflow/entity/Timetable.java:79 | changes the id field only |
| TimetableEntity.Timetable.SetCourse | src/main/java/org/timeflow/entity/Timetable.java:81 | changes the course field only |
| TimetableEntity.Timetable.SetDayOfWeek | src/main/java/org/timeflow/entity/Timetable.java:83 | changes the weekday field only |
| TimetableEntity.Timetable.SetStartTime | src/main/java/org/timeflow/entity/Timetable.java:85 | changes the start time only |
| TimetableEntity.Timetable.SetEndTime | src/main/java/org/timeflow/entity/Timetable.java:87 | changes the end time only |
| TimetableEntity.Timetable.SetRoom | src/main/java/org/timeflow/entity/Timetable.java:89 | changes the room only |
| TimetableEntity.Timetable.SetType | src/main/java/org/timeflow/entity/Timetable.java:91 | changes the activity type only |
| TimetableEntity.Timetable.SetStatus | src/main/java/org/timeflow/entity/Timetable.java:93 | changes the status only |
| TimetableEntity.Timetable.SetCreatedAt | src/main/java/org/timeflow/entity/Timetable.java:95 | changes createdAt only |
| TimetableEntity.Timetable.SetApprovedAt | src/main/java/org/timeflow/entity/Timetable.java:97 | changes approvedAt only |
| TimetableEntity.Timetable.SetApprovedBy | src/main/java/org/timeflow/entity/Timetable.java:99 | changes approvedBy only |
| TimetableEntity.Timetable.SetSpecificDate | src/main/java/org/timeflow/entity/Timetable.java:101 | changes the date only |
| TimetableEntity.Timetable.SetDescription | src/main/java/org/timeflow/entity/Timetable.java:103 | changes the description only |
| TimetableEntity.Timetable.SetSemester | src/main/java/org/timeflow/entity/Timetable.java:107 | changes the semester only |
| ConflictEntity.NewConflict | src/main/java/org/timeflow/entity/Conflict.java:44-50 | the two timetables in the given order, the given type, status DETECTED, no resolution notes, resolver or resolution time |
| ConflictEntity.Conflict.Empty | src/main/java/org/timeflow/entity/Conflict.java:41-42 | the no-argument constructor leaves status and type (and every other field) null |
| ConflictEntity.Conflict.constructor | src/main/java/org/timeflow/entity/Conflict.java:44-50 | an unsaved conflict whose record is NewConflict of the arguments |
| ConflictEntity.Conflict.Loaded | src/main/java/org/timeflow/entity/Conflict.java:8-38 | an entity materialised from the store carries the stored id and record |
| ConflictEntity.Conflict.SetId | src/main/java/org/timeflow/entity/Conflict.java:57-59 | changes the id only |
| ConflictEntity.Conflict.SetTimetable1 | src/main/java/org/timeflow/entity/Conflict.java:65-67 | changes timetable1 only |
| ConflictEntity.Conflict.SetTimetable2 | src/main/java/org/timeflow/entity/Conflict.java:73-75 | changes timetable2 only |
| ConflictEntity.Conflict.SetStatus | src/main/java/org/timeflow/entity/Conflict.java:81-83 | changes the status only |
| ConflictEntity.Conflict.SetResolutionNotes | src/main/java/org/timeflow/entity/Conflict.java:89-91 | changes the notes only |
| ConflictEntity.Conflict.SetDetectedAt | src/main/java/org/timeflow/entity/Conflict.java:97-99 | changes detectedAt only |
| ConflictEntity.Conflict.SetResolvedAt | src/main/java/org/timeflow/entity/Conflict.java:105-107 | changes resolvedAt only |
| ConflictEntity.Conflict.SetResolvedBy | src/main/java/org/timeflow/entity/Conflict.java:113-115 | changes resolvedBy only |
| ConflictEntity.Conflict.SetType | src/main/java/org/timeflow/entity/Conflict.java:121-123 | changes the type only |
| TimetableDAO.FindAll | src/main/java/org/timeflow/dao/BaseDAO.java:71-79 | every stored timetable, each once |
| TimetableDAO.FindByCourse | src/main/java/org/timeflow/dao/TimetableDAO.java:29-35 | exactly the entries of that course, by weekday then start time |
| TimetableDAO.FindAllByDepartment | src/main/java/org/timeflow/dao/TimetableDAO.java:37-42 | exactly the entries whose course is in that department, by weekday then start time |
| TimetableDAO.FindOverlappingStudentSchedules | src/main/java/org/timeflow/dao/TimetableDAO.java:44-68 | exactly the entries of that department and level on that weekday and semester whose slot overlaps, not REJECTED, not the excluded id |
| TimetableDAO.FindRoomConflicts | src/main/java/org/timeflow/dao/TimetableDAO.java:70-92 | exactly the entries in that room, same semester and weekday, start < end of the candidate and end > its start, not REJECTED, not the excluded id |
| TimetableDAO.FindLecturerConflicts | src/main/java/org/timeflow/dao/TimetableDAO.java:94-116 | the same filter keyed on the course's lecturer |
| TimetableDAO.ExcludeIdDropsOnlyThatRow | src/main/java/org/timeflow/dao/TimetableDAO.java:79-90 | excluding an id removes that row and no other; a null excludeId excludes nothing |
| TimetableDAO.NullDayMatchesNothing | src/main/java/org/timeflow/dao/TimetableDAO.java:76-100 | a null weekday (a single-date candidate) matches no row in the room or lecturer query |
| TimetableDAO.FindApprovedTimetables | src/main/java/org/timeflow/dao/TimetableDAO.java:118-134 | exactly the APPROVED entries of that department, level and semester, by weekday then start time |
| TimetableDAO.FindByStatus | src/main/java/org/timeflow/dao/TimetableDAO.java:136-142 | exactly the entries with that status, newest createdAt first |
| TimetableDAO.FindByLecturer | src/main/java/org/timeflow/dao/TimetableDAO.java:144-156 | exactly the entries of that lecturer in that semester, whatever their status, by weekday then start time |
| TimetableDAO.FindExamsByDateRange | src/main/java/org/timeflow/dao/TimetableDAO.java:158-175 | exactly the APPROVED EXAM or TEST entries of that department with a date in [start, end] inclusive, by date then start time |
| ConflictDAO.FindAll | src/main/java/org/timeflow/dao/ConflictDAO.java:16-22 | every stored conflict, each once (the query with a valid ORDER BY) |
| ConflictDAO.FindAllOrderedBy | src/main/java/org/timeflow/dao/ConflictDAO.java:17-22 | ordering conflicts by an attribute fails iff Conflict has no such attribute; otherwise every conflict is returned |
| ConflictDAO.FindAllAsWrittenFails | src/main/java/org/timeflow/dao/ConflictDAO.java:19 | ordering by `name`, as the query does, always fails |
| ConflictDAO.FindByStatus | src/main/java/org/timeflow/dao/ConflictDAO.java:24-37 | exactly the conflicts with that status, newest detectedAt first |
| ConflictDAO.FindByTimetable | src/main/java/org/timeflow/dao/ConflictDAO.java:40-55 | exactly the conflicts whose timetable1 or timetable2 is that entry |
| ConflictDAO.FindByType | src/main/java/org/timeflow/dao/ConflictDAO.java:58-71 | exactly the conflicts of that type, newest detectedAt first |
| ConflictDAO.FindUnresolvedConflicts | src/main/java/org/timeflow/dao/ConflictDAO.java:74-89 | exactly the DETECTED or APPEALED conflicts, newest first |
| ConflictDAO.UnresolvedOrResolved | src/main/java/org/timeflow/dao/ConflictDAO.java:24-89 | a conflict with a status is unresolved iff it is not among the RESOLVED ones |
| ConflictDAO.FindByDepartment | src/main/java/org/timeflow/dao/ConflictDAO.java:92-113 | exactly the conflicts (both courses joined) where either side's course is in that department |
| ConflictDAO.FindByLecturer | src/main/java/org/timeflow/dao/ConflictDAO.java:116-137 | exactly the conflicts (both courses joined) where either side's course has that lecturer |
| ConflictDAO.FindExistingConflict | src/main/java/org/timeflow/dao/ConflictDAO.java:140-164 | a stored conflict about the pair in either order, null iff there is none; of several, the lowest id |
| ConflictDAO.FindExistingConflictSymmetric | src/main/java/org/timeflow/dao/ConflictDAO.java:146-154 | find(a, b) and find(b, a) agree |
| ConflictDAO.SamePairSwap | src/main/java/org/timeflow/dao/ConflictDAO.java:146-154 | being about the same unordered pair is symmetric |
| ConflictDAO.Representatives | src/main/java/org/timeflow/dao/ConflictDAO.java:167-187 | one row per (type, status) group: exactly the lowest-id member of each |
| ConflictDAO.RepresentativesDiffer | src/main/java/org/timeflow/dao/ConflictDAO.java:173-178 | two representatives stand for two different groups |
| ConflictDAO.GroupsOf | src/main/java/org/timeflow/dao/ConflictDAO.java:173-178 | the groups of the representative rows, in order |
| ConflictDAO.Groups | src/main/java/org/timeflow/dao/ConflictDAO.java:173-178 | each group appears once |
| ConflictDAO.GroupsCoverRows | src/main/java/org/timeflow/dao/ConflictDAO.java:167-187 | every stored conflict's group is reported |
| ConflictDAO.StatsOf | src/main/java/org/timeflow/dao/ConflictDAO.java:173-178 | one statistic per group, carrying that group's size |
| ConflictDAO.GetConflictStats | src/main/java/org/timeflow/dao/ConflictDAO.java:167-187 | each row's count is the number of conflicts of its (type, status); no group is reported twice; rows are ordered by type name, then status name (NULL first) |
| ConflictDAO.ConflictStatsCountsPositive | src/main/java/org/timeflow/dao/ConflictDAO.java:167-187 | only groups that occur are reported |
| ConflictDAO.CoveredSnoc | src/main/java/org/timeflow/dao/ConflictDAO.java:167-187 | the conflicts counted by a list of groups grow by the members of the added group |
| ConflictDAO.CoveredDisjoint | src/main/java/org/timeflow/dao/ConflictDAO.java:167-187 | a group not yet listed shares no conflict with the groups listed |
| ConflictDAO.DisjointUnionSize | src/main/java/org/timeflow/dao/ConflictDAO.java:167-187 | disjoint sets of conflicts add up in size |
| ConflictDAO.TotalIsCovered | src/main/java/org/timeflow/dao/ConflictDAO.java:167-187 | the counts of distinct groups sum to the number of conflicts those groups hold |
| ConflictDAO.GroupsCoverAll | src/main/java/org/timeflow/dao/ConflictDAO.java:167-187 | the reported groups hold every stored conflict |
| ConflictDAO.ConflictStatsTotal | src/main/java/org/timeflow/dao/ConflictDAO.java:167-187 | the counts sum to the total number of conflicts |
| ConflictDAO.ConflictStatsCoverEveryConflict | src/main/java/org/timeflow/dao/ConflictDAO.java:167-187 | every conflict's (type, status) has a row |
| CourseDAO.FindByCode | src/main/java/org/timeflow/dao/CourseDAO.java:23-37 | a course with that code, or null iff no course has it |
| CourseDAO.FindByOwnCode | src/main/java/org/timeflow/dao/CourseDAO.java:23-37 | with unique codes, looking a course up by its own code finds it |
| CourseDAO.FindByDepartment | src/main/java/org/timeflow/dao/CourseDAO.java:40-52 | exactly that department's courses, by level then name |
| CourseDAO.FindByLecturer | src/main/java/org/timeflow/dao/CourseDAO.java:55-67 | exactly that lecturer's courses, by name |
| CourseDAO.FindByDepartmentAndLevel | src/main/java/org/timeflow/dao/CourseDAO.java:70-85 | exactly the courses of that department and level, by name |
| CourseDAO.DepartmentAndLevelRefines | src/main/java/org/timeflow/dao/CourseDAO.java:40-85 | the department-and-level query is the department query restricted to the level |
| CourseDAO.FindBorrowedCourses | src/main/java/org/timeflow/dao/CourseDAO.java:88-95 | empty for every department |
| CourseDAO.StatCourses | src/main/java/org/timeflow/dao/CourseDAO.java:98-132 | exactly the courses whose department row exists (the inner join), ordered by department name, level, then course name |
| CourseDAO.LecturerUsername | src/main/java/org/timeflow/dao/CourseDAO.java:105-113 | the lecturer's username, NULL exactly when the course has no lecturer or the left join finds no user |
| CourseDAO.GetCourseStats | src/main/java/org/timeflow/dao/CourseDAO.java:98-132 | one statistic per such course, with its name, code, credits, department name, its lecturer's username (NULL when the lecturer join finds none) and the number of its timetables (0 when it has none) |
| CourseDAO.CourseStatsOncePerCourse | src/main/java/org/timeflow/dao/CourseDAO.java:98-132 | a course appears iff its department exists, and at most once |
| ScheduleDAO.FindConflicts | src/main/java/org/timeflow/dao/ScheduleDAO.java:43-74 | exactly the entries with equal semester, room and start time, and equal date when the candidate has one (equal weekday otherwise), other than the candidate's id (-1 when unsaved) |
| ScheduleDAO.FindConflictsExcludesCandidate | src/main/java/org/timeflow/dao/ScheduleDAO.java:56-70 | a saved candidate never matches itself |
| ScheduleDAO.CreateConflict | src/main/java/org/timeflow/dao/ScheduleDAO.java:76-86 | stores a new DETECTED conflict under the next id without looking for an existing pair |
| ScheduleDAO.CreateConflictCanDuplicatePairs | src/main/java/org/timeflow/dao/ScheduleDAO.java:76-86 | adding the reversed pair of a stored conflict leaves two conflicts about the same pair |
| UserDAO.FindLecturersByDepartment | src/main/java/org/timeflow/dao/UserDAO.java:92-101 | exactly the active lecturers of that department, each once |
| ConflictDetection.TimesOverlap | src/main/java/org/timeflow/service/ConflictDetectionService.java:89-93 | only entries on the same weekday overlap; for proper slots, they overlap iff the later start time lies inside both slots |
| ConflictDetection.TimesOverlapAsRead | src/main/java/org/timeflow/service/ConflictDetectionService.java:89-93 | with nullable times: different weekdays give false without reading a time; a throw (None) happens only on the same weekday with a time unset; with all times set it is TimesOverlap |
| ConflictDetection.OverlapIsSharedMinute | src/main/java/org/timeflow/service/ConflictDetectionService.java:89-93 | for proper slots, overlapping means the same weekday and a shared minute |
| ConflictDetection.TimesOverlapSymmetric | src/main/java/org/timeflow/service/ConflictDetectionService.java:89-93 | overlap does not depend on argument order |
| ConflictDetection.BackToBackSlotsDoNotOverlap | src/main/java/org/timeflow/service/ConflictDetectionService.java:89-93 | slots that only touch at an endpoint do not overlap |
| ConflictDetection.DetermineConflictType | src/main/java/org/timeflow/service/ConflictDetectionService.java:67-86 | ROOM iff same room and overlap; otherwise LECTURER when both lecturers are known and equal; otherwise TIME for the same (non-null) department and level; null iff no overlap or none of the three |
| ConflictDetection.QueryMatchOverlaps | src/main/java/org/timeflow/dao/TimetableDAO.java:70-116 | a row the overlap queries return overlaps the candidate in the in-memory sense, on a non-null weekday, and is not the candidate |
| ConflictDetection.RoomPassRecordsEveryMatch | src/main/java/org/timeflow/service/ConflictDetectionService.java:25-31 | the room loop adds one ROOM conflict per room-query result, in order |
| ConflictDetection.RoomConflictsSpelledOut | src/main/java/org/timeflow/service/ConflictDetectionService.java:16-31 | the room block yields exactly one ROOM conflict per room-query row |
| ConflictDetection.ConflictExists | src/main/java/org/timeflow/service/ConflictDetectionService.java:133-138 | the list holds a conflict about the pair in either order (compared by id) |
| ConflictDetection.LecturerPassAppends | src/main/java/org/timeflow/service/ConflictDetectionService.java:45-51 | the lecturer loop keeps the list built so far and only appends LECTURER conflicts for query results |
| ConflictDetection.LecturerPassCovers | src/main/java/org/timeflow/service/ConflictDetectionService.java:45-51 | after the lecturer loop every lecturer-query result is paired with the candidate in the list |
| ConflictDetection.LecturerPassKeepsPartnersDistinct | src/main/java/org/timeflow/service/ConflictDetectionService.java:45-51 | the de-duplication never lists a partner twice |
| ConflictDetection.DetectedSound | src/main/java/org/timeflow/service/ConflictDetectionService.java:11-64 | every detected conflict has the candidate as timetable1, status DETECTED, type ROOM or LECTURER, and a stored partner matched by that query that overlaps the candidate |
| ConflictDetection.DetectedComplete | src/main/java/org/timeflow/service/ConflictDetectionService.java:11-64 | every room match is listed as a ROOM conflict, and every lecturer match (course with a lecturer) is paired with the candidate |
| ConflictDetection.DetectedEmptyIff | src/main/java/org/timeflow/service/ConflictDetectionService.java:11-64 | nothing is detected iff no stored entry matches the room query or, with a lecturer, the lecturer query |
| ConflictDetection.DetectedPairsUnique | src/main/java/org/timeflow/service/ConflictDetectionService.java:45-51 | with pairs compared by id, the detected list has at most one conflict per pair |
| ConflictDetection.SingleDateEntriesNeverConflict | src/main/java/org/timeflow/service/ConflictDetectionService.java:16-52 | a candidate without a weekday has no conflicts |
| ConflictDetection.CheckBorrowedCourseConflicts | src/main/java/org/timeflow/service/ConflictDetectionService.java:96-130 | each borrowed conflict pairs the candidate with an overlapping entry of a course of its own department that another department borrows; with no borrowed courses the pass is empty; an entry with unset times ends the pass only when it is on the candidate's weekday |
| ConflictDetection.DetectConflicts | src/main/java/org/timeflow/service/ConflictDetectionService.java:11-64 | returns Detected: the room conflicts, then the lecturer conflicts for pairs not yet listed (compared by id, the corrected comparison of Findings row 1), then the (empty) borrowed pass; a candidate without a course stops after the room conflicts |
| ConflictDetection.DetectRoomConflicts | src/main/java/org/timeflow/service/ConflictDetectionService.java:16-31 | the loop builds the room conflicts |
| ConflictDetection.DetectLecturerConflicts | src/main/java/org/timeflow/service/ConflictDetectionService.java:33-52 | the loop appends a LECTURER conflict for each lecturer-query result whose pair is not listed |
| ConflictDetection.ConflictExistsAsWritten | src/main/java/org/timeflow/service/ConflictDetectionService.java:133-138 | the list holds a conflict about the same two objects in either order |
| ConflictDetection.LecturerStepAsWritten | src/main/java/org/timeflow/service/ConflictDetectionService.java:45-51 | one lecturer step as written leaves the list or appends a LECTURER conflict |
| ConflictDetection.AsWrittenListsPairTwice | src/main/java/org/timeflow/service/ConflictDetectionService.java:133-138 | an entry found by both queries is listed twice, as ROOM and as LECTURER |
| ConflictDetection.ByIdRecognisesListedPair | src/main/java/org/timeflow/service/ConflictDetectionService.java:133-138 | compared by id, the pair already listed as ROOM is not listed again |
| ConflictDetection.SaveAllOnlyAdds | src/main/java/org/timeflow/service/ConflictDetectionService.java:141-151 | saving keeps every stored conflict and only adds rows under fresh ids |
| ConflictDetection.SaveAllPreservesPairsUnique | src/main/java/org/timeflow/service/ConflictDetectionService.java:141-151 | if the store has one conflict per unordered pair, it still has after saving |
| ConflictDetection.SaveAllRecordsEveryPair | src/main/java/org/timeflow/service/ConflictDetectionService.java:141-151 | after saving, every listed pair has a stored conflict |
| ConflictDetection.SaveAllOfStoredPairsIsNoOp | src/main/java/org/timeflow/service/ConflictDetectionService.java:141-151 | saving only pairs already stored changes nothing |
| ConflictDetection.AsWrittenNeverSkips | src/main/java/org/timeflow/service/ConflictDetectionService.java:45-51 | as written, the identity check never fires in the lecturer loop: every lecturer-query result is appended as a LECTURER conflict |
| ConflictDetection.LecturerPassAsWritten | src/main/java/org/timeflow/service/ConflictDetectionService.java:45-51 | the as-written lecturer rows: the list before it, then exactly one LECTURER conflict per lecturer-query result, in query order |
| ConflictDetection.SaveAllSnoc | src/main/java/org/timeflow/service/ConflictDetectionService.java:141-151 | saving one more conflict runs the loop body once on the store the earlier conflicts leave |
| ConflictDetection.SaveAllSkipsListedPair | src/main/java/org/timeflow/service/ConflictDetectionService.java:141-151 | a conflict whose pair an earlier conflict of the list has is found by findExistingConflict and not saved |
| ConflictDetection.LecturerPassAsWrittenStoresTheSame | src/main/java/org/timeflow/service/ConflictDetectionService.java:45-51 | saving the as-written lecturer rows stores exactly what saving the by-id rows stores |
| ConflictDetection.DetectedAsWrittenStoresTheSame | src/main/java/org/timeflow/service/ConflictDetectionService.java:11-64 | the as-written list of detectConflicts and Detected are empty together and saveConflicts stores the same rows for both, so create and update store what the code as written stores |
| ConflictDetection.SaveAllIdempotent | src/main/java/org/timeflow/service/ConflictDetectionService.java:141-151 | saving the same list twice adds nothing the second time |
| ConflictDetection.SaveConflicts | src/main/java/org/timeflow/service/ConflictDetectionService.java:141-151 | the loop saves each conflict whose unordered pair is not yet stored, in any status |
| ConflictDetection.SaveAllKeepsReferences | src/main/java/org/timeflow/service/ConflictDetectionService.java:141-151 | saving conflicts between stored entries keeps every conflict's timetables in the store |
| ConflictDetection.Resolved | src/main/java/org/timeflow/service/ConflictDetectionService.java:158-161 | status RESOLVED (no longer unresolved), the pair, type and detection time unchanged |
| ConflictDetection.ResolveConflict | src/main/java/org/timeflow/service/ConflictDetectionService.java:154-170 | the conflict with that id is replaced by its resolved record; an unknown id changes nothing |
| ConflictDetection.ResolvePreservesPairsUnique | src/main/java/org/timeflow/service/ConflictDetectionService.java:154-170 | resolving keeps one conflict per pair |
| TimetableService.GetCurrentLevel | src/main/java/org/timeflow/service/TimetableService.java:197-203 | a student's level, 0 for anyone else or no one |
| TimetableService.CurrentSemester | src/main/java/org/timeflow/service/TimetableService.java:151-152 | SECOND_SEMESTER iff the month is 2..7 |
| TimetableService.GetDepartmentalTimetables | src/main/java/org/timeflow/service/TimetableService.java:19-30 | empty for a null department, otherwise exactly the department's entries, each once, by weekday then start time |
| TimetableService.GetStudentTimetables | src/main/java/org/timeflow/service/TimetableService.java:148-162 | exactly the APPROVED entries of the student's department, level and current semester, each once, by weekday then start time |
| TimetableService.NonStudentsSeeLevelZero | src/main/java/org/timeflow/service/TimetableService.java:197-203 | for a non-student only level-0 entries are shown |
| TimetableService.GetLecturerTimetables | src/main/java/org/timeflow/service/TimetableService.java:167-181 | exactly the lecturer's entries in the current semester, each once, by weekday then start time |
| TimetableService.GetAllTimetables | src/main/java/org/timeflow/service/TimetableService.java:183-190 | every stored entry, each once |
| TimetableService.CreateTimetable | src/main/java/org/timeflow/service/TimetableService.java:33-69 | the entry is set DRAFT and saved under a fresh id; detection runs against the store without the new id; the status becomes CONFLICTED iff conflicts were found, else PENDING_APPROVAL; found conflicts are saved; an entry that already has an id fails after the DRAFT step and stores nothing |
| TimetableService.MarkDraft | src/main/java/org/timeflow/service/TimetableService.java:36-37 | status DRAFT and createdAt set, nothing else |
| TimetableService.AssignId | src/main/java/org/timeflow/service/TimetableService.java:40 | the saved entity carries its new id, record unchanged |
| TimetableService.DetectAndRecord | src/main/java/org/timeflow/service/TimetableService.java:43-61 | detects against the stored rows, sets CONFLICTED or PENDING_APPROVAL accordingly, updates the row and saves the conflicts |
| TimetableService.CreateKeepsReferences | src/main/java/org/timeflow/service/TimetableService.java:33-69 | creation keeps every stored conflict's timetables in the store |
| TimetableService.UpdateTimetable | src/main/java/org/timeflow/service/TimetableService.java:205-222 | detects before persisting; conflicts found: CONFLICTED and saved; none and previously CONFLICTED: PENDING_APPROVAL; otherwise status unchanged; the row is replaced iff it exists |
| TimetableService.CanApproveTimetables | src/main/java/org/timeflow/service/TimetableService.java:193-195 | lecturers and students may not approve; administrators and exams officers may |
| TimetableService.HasUnresolvedConflicts | src/main/java/org/timeflow/service/TimetableService.java:84-88 | true iff some stored conflict naming the entry on either side is DETECTED or APPEALED |
| TimetableService.ApprovalCheck | src/main/java/org/timeflow/service/TimetableService.java:74-92 | passes iff the entry exists, the actor may approve and no linked conflict is DETECTED or APPEALED; not found is reported first, then permission |
| TimetableService.Approved | src/main/java/org/timeflow/service/TimetableService.java:94-96 | APPROVED, approvedBy the actor, approvedAt now, every other field unchanged |
| TimetableService.ApproveTimetable | src/main/java/org/timeflow/service/TimetableService.java:72-119 | fails as ApprovalCheck says without touching the store, otherwise stores the approved record |
| TimetableService.OpenConflictBlocksApproval | src/main/java/org/timeflow/service/TimetableService.java:85-92 | one DETECTED or APPEALED linked conflict blocks approval |
| TimetableService.ResolvingLastConflictAllowsApproval | src/main/java/org/timeflow/service/TimetableService.java:85-92 | resolving the only open conflict lets an approver approve |
| TimetableService.ApprovalIgnoresStatus | src/main/java/org/timeflow/service/TimetableService.java:94-98 | the entry's prior status does not affect approval |
| TimetableService.Rejected | src/main/java/org/timeflow/service/TimetableService.java:129-130 | REJECTED with the reason as description, every other field unchanged |
| TimetableService.RejectTimetable | src/main/java/org/timeflow/service/TimetableService.java:122-143 | an unknown id fails with not found and changes nothing; otherwise the rejected record is stored, for any actor |
| TimetableService.RejectedEntryFreesSlot | src/main/java/org/timeflow/dao/TimetableDAO.java:70-116 | a rejected entry no longer appears in the room or lecturer overlap queries |
| TimetableService.DeleteTimetable | src/main/java/org/timeflow/service/TimetableService.java:224-240 | removes exactly the conflicts involving the entry, then the entry; an unknown id changes nothing |
| TimetableService.DeleteConflicts | src/main/java/org/timeflow/service/TimetableService.java:229-232 | removes exactly the listed conflicts, others unchanged |
| TimetableService.DeleteKeepsReferences | src/main/java/org/timeflow/service/TimetableService.java:224-240 | after the cascade no conflict refers to the deleted entry |
| ReportService.DepartmentParam | src/main/java/org/timeflow/service/ReportService.java:34 | the department parameter is its id, or NULL |
| ReportService.InSemester | src/main/java/org/timeflow/service/ReportService.java:37-39 | exactly the entries of the list with that semester (Java `==`), at most as many |
| ReportService.StatusCount | src/main/java/org/timeflow/service/ReportService.java:43-51 | a count by status is at most the list's length |
| ReportService.StatusCountsWithinTotal | src/main/java/org/timeflow/service/ReportService.java:43-51 | approved + pending + conflicted counts are at most the list's length |
| ReportService.SemesterSlots | src/main/java/org/timeflow/service/ReportService.java:34-42 | exactly the department's entries in the semester, each once |
| ReportService.UtilizationReport | src/main/java/org/timeflow/service/ReportService.java:29-66 | null department: empty report; null semester: only the name; otherwise the six keys, semesterName the semester's display name ("First Semester"), with totalSlots the department's entries in the semester and the three counts by status |
| ReportService.UtilizationCountsWithinTotal | src/main/java/org/timeflow/service/ReportService.java:42-58 | approvedSlots + pendingSlots + conflictedSlots <= totalSlots |
| ReportService.SemesterConflicts | src/main/java/org/timeflow/service/ReportService.java:74-76 | without a throw, exactly the conflicts either of whose timetables is in the semester |
| ReportService.ConflictReport | src/main/java/org/timeflow/service/ReportService.java:69-87 | empty for a null semester; a non-empty report has exactly semesterName, the semester's display name, and totalConflicts, the number of conflicts with a side in the semester |
| ReportService.StoredSidesNeverThrow | src/main/java/org/timeflow/service/ReportService.java:74-76 | when every conflict's timetables are stored, the filter never throws |
| ReportService.ConflictReportCountsSemesterConflicts | src/main/java/org/timeflow/service/ReportService.java:69-87 | with the conflicts' timetables stored, totalConflicts is the number of conflicts either of whose timetables is in the semester |
| ReportService.ConflictReportAsWritten | src/main/java/org/timeflow/service/ReportService.java:69-87 | the report over findAll as written: a failing query (caught) leaves the report empty; otherwise it is the intended report |
| ReportService.ConflictReportAsWrittenIsAlwaysEmpty | src/main/java/org/timeflow/service/ReportService.java:72 | as written the report is always empty, while the intended one is not |
| ReportService.WorkloadKeys | src/main/java/org/timeflow/service/ReportService.java:96-100 | the workload map's keys are exactly the lecturers' usernames |
| ReportService.WorkloadOfLecturer | src/main/java/org/timeflow/service/ReportService.java:96-100 | a lecturer whose username is not reused later maps to their own load (a later put overwrites) |
| ReportService.LecturerWorkloadReport | src/main/java/org/timeflow/service/ReportService.java:90-111 | null department: empty; null semester: only the name; otherwise the name, the semester's display name and each active lecturer's count of entries in the semester |
| ReportService.CollectWorkloads | src/main/java/org/timeflow/service/ReportService.java:96-100 | the loop builds the workload map |
| ReportService.ExamScheduleReport | src/main/java/org/timeflow/service/ReportService.java:172-185 | null department: empty; otherwise exactly the department's approved exams in the range, each once, by date then start time, with totalExams their number |

## Left out

- Notifications (e-mail) are not modelled. They change no store state and swallow their own errors, so approval's re-throw path cannot fire.
- The UI, authentication, configuration, seeding and DAO wiring are not modelled.
- Hibernate sessions, transactions and query building are not modelled. Only the filter and sort meaning of each query is kept.
- Clock reads are not modelled. `LocalDateTime.now()` and the current month are parameters.
- Concurrency between detection and saving is not modelled.
- Database failures other than the two rollbacks of the store (an entity that already has an id, a missing row) are not modelled.
- The PDF report (`generateTimetablePdf`) is file and PDF I/O.
- `ScheduleDAO.findByDepartment` and `findByLecturer` bind a `Semester` entity to an enum column and fail whenever run. They are not modelled, and neither is the unused `Semester` entity.
- `DepartmentDAO` and `RoomDAO` are not modelled. Departments are a sequence parameter of detection, and rooms are ids.
- ConflictDAO.FindAllOrderedBy: the order of a successful query is not stated, only its contents.
- ConflictDetection.DetermineConflictType: requires both rooms and all four times to be set, and, when the room check fails, both courses and the first course's department. On other inputs the Java may throw, or may return null without throwing (different weekdays with null times); that is not modelled. Detection only calls it on room-query rows, which meet the requirement.
- ConflictDetection.CheckBorrowedCourseConflicts: the borrowed courses are a function parameter, so the pass is proved sound for any lookup. DetectConflicts uses the repository's lookup, which always returns nothing.
- ConflictDAO.FindExistingConflict: the query has no ORDER BY, so which of several matches `get(0)` returns is unspecified. The model picks the lowest id. Every caller uses only whether there is a match.
- ConflictDetection.DetectConflicts: returns the by-id list (Detected), not the as-written one, which lists a pair found by both queries twice (Findings row 1). DetectedAsWrittenStoresTheSame proves that the two lists are empty together and store the same conflicts.
- TimetableService.UpdateTimetable: the actor is a `User`, never null. In the Java a null updatedBy lets the update commit and then throws from the log line (TimetableService.java:216), so the caller sees a failure after the change; the model reports success.
- TimetableService.RejectTimetable: a null rejectedBy lets the rejection commit and then throws from the log line (TimetableService.java:137); the model's actor is never null and it reports success.
- ConflictDetection.ResolveConflict: a null resolvedBy lets the update commit and then throws from the log line (ConflictDetectionService.java:164); the model's actor is never null.
- TimetableService.ApproveTimetable: a null approvedBy throws in canApproveTimetables before any change (TimetableService.java:80, 194); the model's actor is never null, so this failure is not modelled.
- Ids passed to the services are `nat`: a null id, which makes findById throw, is not modelled.
- TimetableService.CreateTimetable: it does not itself state that stored conflicts keep referring to stored entries. CreateKeepsReferences proves that for the same states.
- TimetableService.UpdateTimetable: requires the entry to have an id, since entries reach it from the store. Merging an entry without an id is not modelled.
- Store.BaseDAO.Update: merging a record whose row is gone is modelled as a failure that changes nothing. Hibernate may instead insert it, depending on its version.
- ReportService.WorkloadOfLecturer: when two lecturers share a username, only the later one's count is stated (the map keeps the last `put`).
- Duplicate-pair checks on the conflict store are up to the callers. `ScheduleDAO.CreateConflict` can break one-conflict-per-pair, as CreateConflictCanDuplicatePairs shows.

## Findings

| source | as written | input that shows it | evidently intended | confidence | as-written member | corrected member |
|---|---|---|---|---|---|---|
| src/main/java/org/timeflow/service/ConflictDetectionService.java:133-138 | `conflictExists` compares Timetable objects with `equals`, which Timetable does not override, so two loads of the same row differ | a stored entry in the candidate's room, taught by the candidate's lecturer, at an overlapping time: the room query and the lecturer query return it as two objects, and the pair is listed as ROOM and again as LECTURER | one conflict per pair of entries, comparing them by id | not executed | ConflictDetection.AsWrittenListsPairTwice | ConflictDetection.DetectedPairsUnique |
| src/main/java/org/timeflow/dao/ConflictDAO.java:19 | `findAll` orders by `d.name`, which Conflict does not have, so the query fails and `generateConflictReport` catches the error and returns an empty map | any conflict store and any semester, e.g. one stored conflict whose first timetable is in that semester: the report is `{}` instead of a total of 1 | all conflicts, and a report with semesterName and totalConflicts | not executed | ReportService.ConflictReportAsWrittenIsAlwaysEmpty | ReportService.ConflictReportCountsSemesterConflicts |
