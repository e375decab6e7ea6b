/**
 * ReportService: the reports built from the timetable and conflict stores.
 * Each report is a map from a key to a value; a report that throws part-way
 * (a null department or semester, a conflict without its timetable) keeps the
 * entries put before the exception, since the exception is caught and the
 * partly filled map is returned.
 */
module ReportService {
  import opened Wrappers
  import opened Ordering
  import opened Query
  import opened Types
  import opened TimetableEntity
  import opened ConflictEntity
  import TimetableDAO
  import ConflictDAO
  import UserDAO
  import ConflictDetection

  /** The values the reports put into their maps. */
  datatype ReportValue =
    | Text(text: string)
    | Count(count: nat)
    | Workloads(workloads: map<string, nat>)
    | Entries(ids: seq<nat>)

  type Report = map<string, ReportValue>

  /** A department passed as a query parameter: the row it names, or NULL. */
  function DepartmentParam(department: Option<Department>): (r: Option<nat>)
    ensures r.Some? <==> department.Some?
    ensures r.Some? ==> r.value == department.value.id
  {
    if department.Some? then Some(department.value.id) else None
  }

  /**
   * The in-memory filter `t.getSemester() == semester`. Enum constants compare
   * by identity, so a null semester keeps exactly the entries without one.
   */
  function InSemester(rows: map<nat, TimetableRecord>, ids: seq<nat>, semester: Option<SemesterType>): (r: seq<nat>)
    requires forall id :: id in ids ==> id in rows
    ensures forall id :: id in r <==> id in ids && rows[id].semester == semester
    ensures |r| <= |ids|
    ensures Distinct(ids) ==> Distinct(r)
  {
    if ids == [] then []
    else
      var front := InSemester(rows, ids[..|ids| - 1], semester);
      var last := ids[|ids| - 1];
      assert forall id :: id in ids <==> id in ids[..|ids| - 1] || id == last by {
        assert ids == ids[..|ids| - 1] + [last];
      }
      if rows[last].semester == semester then
        assert Distinct(ids) ==> last !in ids[..|ids| - 1] by {
          if Distinct(ids) {
            forall k | 0 <= k < |ids| - 1 ensures ids[k] != last {
            }
          }
        }
        front + [last]
      else front
  }

  /** How many of the listed entries have the given status. */
  function StatusCount(rows: map<nat, TimetableRecord>, ids: seq<nat>, status: TimetableStatus): (n: nat)
    requires forall id :: id in ids ==> id in rows
    ensures n <= |ids|
  {
    if ids == [] then 0
    else StatusCount(rows, ids[..|ids| - 1], status) + (if rows[ids[|ids| - 1]].status == Some(status) then 1 else 0)
  }

  /** An entry has at most one status, so the three counted statuses never add up to more than the entries. */
  lemma {:induction false} StatusCountsWithinTotal(rows: map<nat, TimetableRecord>, ids: seq<nat>)
    requires forall id :: id in ids ==> id in rows
    ensures StatusCount(rows, ids, APPROVED) + StatusCount(rows, ids, PENDING_APPROVAL)
            + StatusCount(rows, ids, CONFLICTED) <= |ids|
  {
    if ids != [] {
      var front := ids[..|ids| - 1];
      assert forall id :: id in front ==> id in ids;
      StatusCountsWithinTotal(rows, front);
    }
  }

  /** The department's entries of the semester, as the utilization report counts them. */
  function SemesterSlots(rows: map<nat, TimetableRecord>, department: Department, semester: Option<SemesterType>)
    : (r: seq<nat>)
    ensures forall id :: id in r ==> id in rows
    ensures forall id :: id in r <==> (id in rows && TimetableDAO.CourseDepartment(rows[id]) == Some(department.id)
              && rows[id].semester == semester)
    ensures Distinct(r)
  {
    InSemester(rows, TimetableDAO.FindAllByDepartment(rows, Some(department.id)), semester)
  }

  /**
   * generateDepartmentUtilizationReport: the number of the department's entries in
   * the semester and how many of them are approved, pending or conflicted. A null
   * department throws before anything is put; a null semester throws after the
   * department's name.
   */
  function UtilizationReport(rows: map<nat, TimetableRecord>, department: Option<Department>,
                             semester: Option<SemesterType>): (report: Report)
    ensures department.None? ==> report == map[]
    ensures department.Some? && semester.None? ==> report == map["departmentName" := Text(department.value.name)]
    ensures department.Some? && semester.Some? ==>
              var slots := SemesterSlots(rows, department.value, semester);
              && report.Keys == {"departmentName", "semesterName", "totalSlots", "approvedSlots", "pendingSlots",
                                 "conflictedSlots"}
              && report["departmentName"] == Text(department.value.name)
              && report["semesterName"] == Text(semester.value.DisplayName())
              && report["totalSlots"] == Count(|slots|)
              && report["approvedSlots"] == Count(StatusCount(rows, slots, APPROVED))
              && report["pendingSlots"] == Count(StatusCount(rows, slots, PENDING_APPROVAL))
              && report["conflictedSlots"] == Count(StatusCount(rows, slots, CONFLICTED))
  {
    if department.None? then map[]
    else if semester.None? then map["departmentName" := Text(department.value.name)]
    else
      var slots := SemesterSlots(rows, department.value, semester);
      map["departmentName" := Text(department.value.name),
          "semesterName" := Text(semester.value.DisplayName()),
          "totalSlots" := Count(|slots|),
          "approvedSlots" := Count(StatusCount(rows, slots, APPROVED)),
          "pendingSlots" := Count(StatusCount(rows, slots, PENDING_APPROVAL)),
          "conflictedSlots" := Count(StatusCount(rows, slots, CONFLICTED))]
  }

  /** In a complete utilization report, approved, pending and conflicted slots never exceed the total. */
  lemma UtilizationCountsWithinTotal(rows: map<nat, TimetableRecord>, department: Department, semester: SemesterType)
    ensures var report := UtilizationReport(rows, Some(department), Some(semester));
            report["approvedSlots"].count + report["pendingSlots"].count + report["conflictedSlots"].count
              <= report["totalSlots"].count
  {
    StatusCountsWithinTotal(rows, SemesterSlots(rows, department, Some(semester)));
  }

  /** The semester of a conflict's side, or None when the side is null (reading it throws). */
  function SideSemester(timetables: map<nat, TimetableRecord>, side: Option<nat>): Option<Option<SemesterType>>
  {
    if side.Some? && side.value in timetables then Some(timetables[side.value].semester) else None
  }

  /**
   * The filter of generateConflictReport over the conflicts `ids`:
   * `timetable1.semester == semester || timetable2.semester == semester`. The
   * second side is read only when the first does not match; reading a null side
   * throws, and the whole filter gives None.
   */
  function SemesterConflicts(timetables: map<nat, TimetableRecord>, conflicts: map<nat, ConflictRecord>,
                             ids: seq<nat>, semester: Option<SemesterType>): (r: Option<seq<nat>>)
    requires forall id :: id in ids ==> id in conflicts
    ensures r.Some? ==> forall id :: id in r.value <==> (id in ids
              && (SideSemester(timetables, conflicts[id].timetable1) == Some(semester)
                  || SideSemester(timetables, conflicts[id].timetable2) == Some(semester)))
    ensures r.Some? ==> |r.value| <= |ids|
  {
    if ids == [] then Some([])
    else
      var last := ids[|ids| - 1];
      assert forall id :: id in ids <==> id in ids[..|ids| - 1] || id == last by {
        assert ids == ids[..|ids| - 1] + [last];
      }
      var front := SemesterConflicts(timetables, conflicts, ids[..|ids| - 1], semester);
      var first := SideSemester(timetables, conflicts[last].timetable1);
      var second := SideSemester(timetables, conflicts[last].timetable2);
      if front.None? || first.None? then None
      else if first.value == semester then Some(front.value + [last])
      else if second.None? then None
      else if second.value == semester then Some(front.value + [last])
      else front
  }

  /**
   * generateConflictReport, with findAll returning every conflict: the number of
   * conflicts one of whose timetables is in the semester. A conflict with a null
   * side or a null semester throws, and the report is left empty.
   */
  function ConflictReport(timetables: map<nat, TimetableRecord>, conflicts: map<nat, ConflictRecord>,
                          semester: Option<SemesterType>): (report: Report)
    ensures semester.None? ==> report == map[]
    ensures report != map[] ==>
              && semester.Some?
              && report.Keys == {"semesterName", "totalConflicts"}
              && report["semesterName"] == Text(semester.value.DisplayName())
              && var counted := SemesterConflicts(timetables, conflicts, ConflictDAO.FindAll(conflicts), semester);
                 counted.Some? && report["totalConflicts"] == Count(|counted.value|)
  {
    var all := ConflictDAO.FindAll(conflicts);
    var counted := SemesterConflicts(timetables, conflicts, all, semester);
    if counted.None? || semester.None? then map[]
    else map["semesterName" := Text(semester.value.DisplayName()), "totalConflicts" := Count(|counted.value|)]
  }

  /** When every side of every conflict is stored, the semester filter never throws. */
  lemma {:induction false} StoredSidesNeverThrow(timetables: map<nat, TimetableRecord>,
                                                 conflicts: map<nat, ConflictRecord>, ids: seq<nat>,
                                                 semester: Option<SemesterType>)
    requires ConflictDetection.ConflictsReferToStored(timetables, conflicts)
    requires forall id :: id in ids ==> id in conflicts
    ensures SemesterConflicts(timetables, conflicts, ids, semester).Some?
  {
    if ids != [] {
      var front := ids[..|ids| - 1];
      assert forall id :: id in front ==> id in ids;
      StoredSidesNeverThrow(timetables, conflicts, front, semester);
      assert ids[|ids| - 1] in ids;
    }
  }

  /**
   * With every conflict naming stored timetables, the conflict report for a
   * semester is complete and counts each conflict touching that semester once.
   */
  lemma ConflictReportCountsSemesterConflicts(timetables: map<nat, TimetableRecord>,
                                              conflicts: map<nat, ConflictRecord>, semester: SemesterType)
    requires ConflictDetection.ConflictsReferToStored(timetables, conflicts)
    ensures var report := ConflictReport(timetables, conflicts, Some(semester));
            var counted := SemesterConflicts(timetables, conflicts, ConflictDAO.FindAll(conflicts), Some(semester));
            && counted.Some?
            && report.Keys == {"semesterName", "totalConflicts"}
            && report["totalConflicts"] == Count(|counted.value|)
            && forall id :: id in counted.value <==> (id in conflicts
                 && (timetables[conflicts[id].timetable1.value].semester == Some(semester)
                     || timetables[conflicts[id].timetable2.value].semester == Some(semester)))
  {
    var all := ConflictDAO.FindAll(conflicts);
    StoredSidesNeverThrow(timetables, conflicts, all, Some(semester));
    var counted := SemesterConflicts(timetables, conflicts, all, Some(semester)).value;
    forall id | id in conflicts
      ensures SideSemester(timetables, conflicts[id].timetable1) == Some(timetables[conflicts[id].timetable1.value].semester)
      ensures SideSemester(timetables, conflicts[id].timetable2) == Some(timetables[conflicts[id].timetable2.value].semester)
    {
    }
  }

  /**
   * generateConflictReport as written: findAll's query orders by an attribute
   * Conflict does not have, the exception is caught, and the report is empty.
   */
  function ConflictReportAsWritten(timetables: map<nat, TimetableRecord>, conflicts: map<nat, ConflictRecord>,
                                   semester: Option<SemesterType>): (report: Report)
    ensures ConflictDAO.FindAllOrderedBy(conflicts, "name").Err? ==> report == map[]
    ensures report == map[] || report == ConflictReport(timetables, conflicts, semester)
  {
    match ConflictDAO.FindAllOrderedBy(conflicts, "name")
    case Err(_) => map[]
    case Ok(all) => ConflictReport(timetables, conflicts, semester)
  }

  /** As written, the conflict report is empty for every store, even where the intended report counts conflicts. */
  lemma ConflictReportAsWrittenIsAlwaysEmpty(timetables: map<nat, TimetableRecord>,
                                             conflicts: map<nat, ConflictRecord>, semester: SemesterType)
    requires ConflictDetection.ConflictsReferToStored(timetables, conflicts)
    ensures ConflictReportAsWritten(timetables, conflicts, Some(semester)) == map[]
    ensures ConflictReport(timetables, conflicts, Some(semester)) != map[]
  {
    ConflictDAO.FindAllAsWrittenFails(conflicts);
    ConflictReportCountsSemesterConflicts(timetables, conflicts, semester);
    assert "semesterName" in ConflictReport(timetables, conflicts, Some(semester));
  }

  /** The number of entries findByLecturer returns for each lecturer in the semester. */
  function LecturerLoads(timetables: map<nat, TimetableRecord>, semester: Option<SemesterType>): nat -> nat
  {
    (lecturer: nat) => |TimetableDAO.FindByLecturer(timetables, Some(lecturer), semester)|
  }

  /**
   * The workload map after the first n lecturers: each lecturer's username mapped
   * to their load; a later lecturer with the same username overwrites an earlier
   * one, as HashMap.put does.
   */
  function WorkloadsOf(users: map<nat, User>, lecturers: seq<nat>, n: nat, load: nat -> nat): map<string, nat>
    requires n <= |lecturers| && forall id :: id in lecturers ==> id in users
  {
    if n == 0 then map[]
    else WorkloadsOf(users, lecturers, n - 1, load)[users[lecturers[n - 1]].username := load(lecturers[n - 1])]
  }

  /** The workload map has exactly the lecturers' usernames as keys. */
  lemma {:induction false} WorkloadKeys(users: map<nat, User>, lecturers: seq<nat>, n: nat, load: nat -> nat,
                                        name: string)
    requires n <= |lecturers| && forall id :: id in lecturers ==> id in users
    ensures name in WorkloadsOf(users, lecturers, n, load) <==>
              exists k :: 0 <= k < n && users[lecturers[k]].username == name
  {
    if n != 0 {
      WorkloadKeys(users, lecturers, n - 1, load, name);
    }
  }

  /** A lecturer whose username no later lecturer shares is reported with their own load. */
  lemma {:induction false} WorkloadOfLecturer(users: map<nat, User>, lecturers: seq<nat>, n: nat, load: nat -> nat,
                                              k: nat)
    requires n <= |lecturers| && forall id :: id in lecturers ==> id in users
    requires k < n
    requires forall j :: k < j < n ==> users[lecturers[j]].username != users[lecturers[k]].username
    ensures users[lecturers[k]].username in WorkloadsOf(users, lecturers, n, load)
    ensures WorkloadsOf(users, lecturers, n, load)[users[lecturers[k]].username] == load(lecturers[k])
  {
    if k < n - 1 {
      WorkloadOfLecturer(users, lecturers, n - 1, load, k);
    }
  }

  /**
   * generateLecturerWorkloadReport: every active lecturer of the department with
   * the number of their entries in the semester. A null department throws before
   * anything is put; a null semester throws after the department's name.
   */
  method LecturerWorkloadReport(timetables: map<nat, TimetableRecord>, users: map<nat, User>,
                                department: Option<Department>, semester: Option<SemesterType>)
    returns (report: Report)
    ensures department.None? ==> report == map[]
    ensures department.Some? && semester.None? ==> report == map["departmentName" := Text(department.value.name)]
    ensures department.Some? && semester.Some? ==>
              var lecturers := UserDAO.FindLecturersByDepartment(users, Some(department.value.id));
              && report.Keys == {"departmentName", "semesterName", "lecturerWorkloads"}
              && report["departmentName"] == Text(department.value.name)
              && report["semesterName"] == Text(semester.value.DisplayName())
              && report["lecturerWorkloads"]
                   == Workloads(WorkloadsOf(users, lecturers, |lecturers|, LecturerLoads(timetables, semester)))
  {
    var lecturers := UserDAO.FindLecturersByDepartment(users, DepartmentParam(department));
    var workloads := CollectWorkloads(timetables, users, lecturers, semester);
    if department.None? {
      return map[];
    }
    if semester.None? {
      return map["departmentName" := Text(department.value.name)];
    }
    report := map["departmentName" := Text(department.value.name),
                  "semesterName" := Text(semester.value.DisplayName()),
                  "lecturerWorkloads" := Workloads(workloads)];
  }

  /** The loop of generateLecturerWorkloadReport: puts each lecturer's number of entries under their username. */
  method CollectWorkloads(timetables: map<nat, TimetableRecord>, users: map<nat, User>, lecturers: seq<nat>,
                          semester: Option<SemesterType>)
    returns (workloads: map<string, nat>)
    requires forall id :: id in lecturers ==> id in users
    ensures workloads == WorkloadsOf(users, lecturers, |lecturers|, LecturerLoads(timetables, semester))
  {
    workloads := map[];
    for i := 0 to |lecturers|
      invariant workloads == WorkloadsOf(users, lecturers, i, LecturerLoads(timetables, semester))
    {
      var lecturer := lecturers[i];
      var entries := TimetableDAO.FindByLecturer(timetables, Some(lecturer), semester);
      workloads := workloads[users[lecturer].username := |entries|];
    }
  }

  /**
   * generateExamScheduleReport: the department's approved exams and tests dated
   * in the range, and how many there are. A null department throws before
   * anything is put.
   */
  function ExamScheduleReport(timetables: map<nat, TimetableRecord>, department: Option<Department>,
                              startDate: Option<Date>, endDate: Option<Date>): (report: Report)
    ensures department.None? ==> report == map[]
    ensures department.Some? ==>
              && report.Keys == {"departmentName", "totalExams", "exams"}
              && report["departmentName"] == Text(department.value.name)
              && report["exams"].Entries? && report["totalExams"] == Count(|report["exams"].ids|)
              && Distinct(report["exams"].ids) && SortedBy(timetables, report["exams"].ids, TimetableDAO.DateSlotKey)
              && forall id :: id in report["exams"].ids <==> (id in timetables
                   && timetables[id].status == Some(APPROVED)
                   && TimetableDAO.IsExamType(timetables[id].activityType)
                   && TimetableDAO.CourseDepartment(timetables[id]) == Some(department.value.id)
                   && SqlLe(startDate, timetables[id].specificDate) && SqlLe(timetables[id].specificDate, endDate))
  {
    var exams := TimetableDAO.FindExamsByDateRange(timetables, startDate, endDate, DepartmentParam(department));
    if department.None? then map[]
    else map["departmentName" := Text(department.value.name), "totalExams" := Count(|exams|), "exams" := Entries(exams)]
  }
}
