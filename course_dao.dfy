/** CourseDAO: the course queries and the per-course statistics. */
module CourseDAO {
  import opened Wrappers
  import opened Ordering
  import opened Query
  import opened Types
  import opened TimetableEntity
  import TimetableDAO

  /** ORDER BY c.level, c.name */
  function LevelNameKey(c: Course): seq<int>
  {
    [c.level] + TextKey(c.name)
  }

  /** ORDER BY c.name */
  function NameKey(c: Course): seq<int>
  {
    TextKey(c.name)
  }

  /** The code column is unique. */
  ghost predicate CodesUnique(rows: map<nat, Course>)
  {
    forall i, j :: i in rows && j in rows && rows[i].code == rows[j].code ==> i == j
  }

  /** findByCode: the first course with that code, or null. */
  function FindByCode(rows: map<nat, Course>, code: Option<string>): (r: Option<nat>)
    ensures r.None? <==> forall id :: id in rows ==> !SqlEq(Some(rows[id].code), code)
    ensures r.Some? ==> r.value in rows && code == Some(rows[r.value].code)
  {
    var matches := Select(rows, (id: nat, c: Course) => SqlEq(Some(c.code), code), Unordered);
    if matches == [] then None else Some(matches[0])
  }

  /** Under the unique constraint, looking a course up by its own code finds that course. */
  lemma FindByOwnCode(rows: map<nat, Course>, id: nat)
    requires CodesUnique(rows) && id in rows
    ensures FindByCode(rows, Some(rows[id].code)) == Some(id)
  {
  }

  /** findByDepartment: the department's courses by level, then name. */
  function FindByDepartment(rows: map<nat, Course>, department: Option<nat>): (r: seq<nat>)
    ensures forall id :: id in r <==> id in rows && SqlEq(rows[id].department, department)
    ensures SortedBy(rows, r, LevelNameKey) && Distinct(r)
  {
    Select(rows, (id: nat, c: Course) => SqlEq(c.department, department), LevelNameKey)
  }

  /** findByLecturer: the lecturer's courses by name. */
  function FindByLecturer(rows: map<nat, Course>, lecturer: Option<nat>): (r: seq<nat>)
    ensures forall id :: id in r <==> id in rows && SqlEq(rows[id].lecturer, lecturer)
    ensures SortedBy(rows, r, NameKey) && Distinct(r)
  {
    Select(rows, (id: nat, c: Course) => SqlEq(c.lecturer, lecturer), NameKey)
  }

  /** findByDepartmentAndLevel: the department's courses at one level, by name. */
  function FindByDepartmentAndLevel(rows: map<nat, Course>, department: Option<nat>, level: int): (r: seq<nat>)
    ensures forall id :: id in r <==> (id in rows && SqlEq(rows[id].department, department)
              && rows[id].level == level)
    ensures SortedBy(rows, r, NameKey) && Distinct(r)
  {
    Select(rows, (id: nat, c: Course) => SqlEq(c.department, department) && c.level == level, NameKey)
  }

  /** The department-and-level query is the department query cut down to one level. */
  lemma DepartmentAndLevelRefines(rows: map<nat, Course>, department: Option<nat>, level: int)
    ensures forall id :: id in FindByDepartmentAndLevel(rows, department, level)
              <==> id in FindByDepartment(rows, department) && rows[id].level == level
  {
  }

  /** findBorrowedCourses: not implemented in the repository; it finds nothing for any department. */
  function FindBorrowedCourses(rows: map<nat, Course>, department: Option<Department>): (r: seq<nat>)
    ensures |r| == 0
  {
    []
  }

  /** A row of getCourseStats. */
  datatype CourseStatistic = CourseStatistic(courseName: string, courseCode: string, credits: int,
                                             departmentName: string, lecturerUsername: Option<string>,
                                             timetableCount: nat)

  /** The timetables of course `id` (the rows the LEFT JOIN on timetables pairs with it). */
  function TimetablesOf(timetables: map<nat, TimetableRecord>, id: nat): set<nat>
  {
    set t | t in timetables && TimetableDAO.CourseId(timetables[t]) == Some(id)
  }

  /** ORDER BY department name, level, course name; only courses whose department joins are keyed. */
  function StatKey(departments: map<nat, Department>, c: Course): seq<int>
  {
    if c.department.Some? && c.department.value in departments then
      TextKey(departments[c.department.value].name) + [c.level] + TextKey(c.name)
    else []
  }

  /** The courses the inner join on department keeps, in the statistics' order. */
  function StatCourses(rows: map<nat, Course>, departments: map<nat, Department>): (r: seq<nat>)
    ensures forall id :: id in r <==> id in rows && rows[id].department.Some? && rows[id].department.value in departments
    ensures SortedBy(rows, r, c => StatKey(departments, c)) && Distinct(r)
  {
    Select(rows, (id: nat, c: Course) => c.department.Some? && c.department.value in departments, c => StatKey(departments, c))
  }

  /** The LEFT JOIN on the lecturer: their username, or NULL when there is none. */
  function LecturerUsername(users: map<nat, User>, lecturer: Option<nat>): (r: Option<string>)
    ensures r.None? <==> lecturer.None? || lecturer.value !in users
    ensures r.Some? ==> r.value == users[lecturer.value].username
  {
    if lecturer.Some? && lecturer.value in users then Some(users[lecturer.value].username) else None
  }

  /** getCourseStats: one row per course with a department, counting the course's timetables. */
  function GetCourseStats(rows: map<nat, Course>, departments: map<nat, Department>, users: map<nat, User>,
                          timetables: map<nat, TimetableRecord>): (r: seq<CourseStatistic>)
    ensures |r| == |StatCourses(rows, departments)|
    ensures forall k :: 0 <= k < |r| ==>
              var id := StatCourses(rows, departments)[k];
              && r[k].courseName == rows[id].name && r[k].courseCode == rows[id].code
              && r[k].credits == rows[id].credits
              && r[k].departmentName == departments[rows[id].department.value].name
              && r[k].lecturerUsername == LecturerUsername(users, rows[id].lecturer)
              && r[k].timetableCount == |TimetablesOf(timetables, id)|
  {
    var ids := StatCourses(rows, departments);
    seq(|ids|, k requires 0 <= k < |ids| =>
      var c := rows[ids[k]];
      CourseStatistic(c.name, c.code, c.credits, departments[c.department.value].name,
                      LecturerUsername(users, c.lecturer), |TimetablesOf(timetables, ids[k])|))
  }

  /** A course appears in the statistics exactly when its department exists, and then once. */
  lemma CourseStatsOncePerCourse(rows: map<nat, Course>, departments: map<nat, Department>, id: nat)
    requires id in rows
    ensures rows[id].department.Some? && rows[id].department.value in departments <==>
              exists k :: 0 <= k < |StatCourses(rows, departments)| && StatCourses(rows, departments)[k] == id
    ensures forall k, l :: 0 <= k < l < |StatCourses(rows, departments)| ==>
              StatCourses(rows, departments)[k] != StatCourses(rows, departments)[l]
  {
    var ids := StatCourses(rows, departments);
    if rows[id].department.Some? && rows[id].department.value in departments {
      assert id in ids;
    }
  }
}
