/**
 * ConflictDAO: the conflict queries. Queries that join through a conflict's
 * timetables read the timetable rows as well.
 */
module ConflictDAO {
  import opened Wrappers
  import opened Ordering
  import opened Query
  import opened Types
  import opened TimetableEntity
  import opened ConflictEntity
  import TimetableDAO

  /** ORDER BY c.detectedAt DESC */
  function NewestFirstKey(c: ConflictRecord): seq<int>
  {
    NullableKeyDesc(c.detectedAt)
  }

  /** findAll, as it should read: every stored conflict, in id order. */
  function FindAll(rows: map<nat, ConflictRecord>): (r: seq<nat>)
    ensures forall id :: id in r <==> id in rows
    ensures Distinct(r)
  {
    AscendingIds(rows.Keys)
  }

  /** Why a query cannot be run: it names an attribute the entity does not have. */
  datatype QueryError = UnknownAttribute(name: string)

  /** The persistent attributes of the Conflict entity. */
  const ConflictAttributes: set<string> :=
    {"id", "timetable1", "timetable2", "status", "resolutionNotes", "detectedAt", "resolvedAt", "resolvedBy", "type"}

  /**
   * `FROM Conflict d ORDER BY d.<attribute>`: the query is rejected when the
   * attribute is not one of the entity's; otherwise it returns every conflict.
   */
  function FindAllOrderedBy(rows: map<nat, ConflictRecord>, attribute: string): (r: Result<seq<nat>, QueryError>)
    ensures r.Err? <==> attribute !in ConflictAttributes
    ensures r.Err? ==> r.error == UnknownAttribute(attribute)
    ensures r.Ok? ==> forall id :: id in r.value <==> id in rows
  {
    if attribute in ConflictAttributes then Ok(FindAll(rows)) else Err(UnknownAttribute(attribute))
  }

  /** findAll as written orders by `d.name`, which Conflict does not have, so it fails on every store. */
  lemma FindAllAsWrittenFails(rows: map<nat, ConflictRecord>)
    ensures FindAllOrderedBy(rows, "name") == Err(UnknownAttribute("name"))
  {
  }

  /** findByStatus: conflicts with that status, most recently detected first. */
  function FindByStatus(rows: map<nat, ConflictRecord>, status: Option<ConflictStatus>): (r: seq<nat>)
    ensures forall id :: id in r <==> id in rows && SqlEq(rows[id].status, status)
    ensures SortedBy(rows, r, NewestFirstKey) && Distinct(r)
  {
    Select(rows, (id: nat, c: ConflictRecord) => SqlEq(c.status, status), NewestFirstKey)
  }

  /** The conflict names the timetable on either side. */
  predicate Involves(c: ConflictRecord, timetable: Option<nat>)
  {
    SqlEq(c.timetable1, timetable) || SqlEq(c.timetable2, timetable)
  }

  /** findByTimetable: the conflicts naming the timetable as either side. */
  function FindByTimetable(rows: map<nat, ConflictRecord>, timetable: Option<nat>): (r: seq<nat>)
    ensures forall id :: id in r <==> id in rows && Involves(rows[id], timetable)
    ensures Distinct(r)
  {
    Select(rows, (id: nat, c: ConflictRecord) => Involves(c, timetable), Unordered)
  }

  /** findByType: conflicts of that type, most recently detected first. */
  function FindByType(rows: map<nat, ConflictRecord>, conflictType: Option<ConflictType>): (r: seq<nat>)
    ensures forall id :: id in r <==> id in rows && SqlEq(rows[id].conflictType, conflictType)
    ensures SortedBy(rows, r, NewestFirstKey) && Distinct(r)
  {
    Select(rows, (id: nat, c: ConflictRecord) => SqlEq(c.conflictType, conflictType), NewestFirstKey)
  }

  /** A conflict is unresolved while it is DETECTED or APPEALED. */
  predicate IsUnresolved(status: Option<ConflictStatus>)
  {
    status == Some(DETECTED) || status == Some(APPEALED)
  }

  /** findUnresolvedConflicts: DETECTED or APPEALED conflicts, most recently detected first. */
  function FindUnresolvedConflicts(rows: map<nat, ConflictRecord>): (r: seq<nat>)
    ensures forall id :: id in r <==> id in rows && IsUnresolved(rows[id].status)
    ensures SortedBy(rows, r, NewestFirstKey) && Distinct(r)
  {
    Select(rows, (id: nat, c: ConflictRecord) => IsUnresolved(c.status), NewestFirstKey)
  }

  /** An inner join from a conflict side to its timetable row. */
  function Side(timetables: map<nat, TimetableRecord>, ref: Option<nat>): Option<TimetableRecord>
  {
    if ref.Some? && ref.value in timetables then Some(timetables[ref.value]) else None
  }

  /**
   * The inner joins timetable1 -> course and timetable2 -> course both succeed:
   * a conflict with a missing side or a side without a course is never selected.
   */
  predicate BothCoursesJoin(timetables: map<nat, TimetableRecord>, c: ConflictRecord)
  {
    && Side(timetables, c.timetable1).Some? && Side(timetables, c.timetable1).value.course.Some?
    && Side(timetables, c.timetable2).Some? && Side(timetables, c.timetable2).value.course.Some?
  }

  /** findByDepartment: conflicts where either side's course belongs to the department. */
  function FindByDepartment(rows: map<nat, ConflictRecord>, timetables: map<nat, TimetableRecord>,
                            department: Option<nat>): (r: seq<nat>)
    ensures forall id :: id in r <==> (id in rows && BothCoursesJoin(timetables, rows[id])
              && (SqlEq(TimetableDAO.CourseDepartment(timetables[rows[id].timetable1.value]), department)
                  || SqlEq(TimetableDAO.CourseDepartment(timetables[rows[id].timetable2.value]), department)))
    ensures SortedBy(rows, r, NewestFirstKey) && Distinct(r)
  {
    Select(rows, (id: nat, c: ConflictRecord) => BothCoursesJoin(timetables, c)
             && (SqlEq(TimetableDAO.CourseDepartment(timetables[c.timetable1.value]), department)
                 || SqlEq(TimetableDAO.CourseDepartment(timetables[c.timetable2.value]), department)),
           NewestFirstKey)
  }

  /** findByLecturer: conflicts where either side's course is taught by the lecturer. */
  function FindByLecturer(rows: map<nat, ConflictRecord>, timetables: map<nat, TimetableRecord>,
                          lecturer: Option<nat>): (r: seq<nat>)
    ensures forall id :: id in r <==> (id in rows && BothCoursesJoin(timetables, rows[id])
              && (SqlEq(TimetableDAO.CourseLecturer(timetables[rows[id].timetable1.value]), lecturer)
                  || SqlEq(TimetableDAO.CourseLecturer(timetables[rows[id].timetable2.value]), lecturer)))
    ensures SortedBy(rows, r, NewestFirstKey) && Distinct(r)
  {
    Select(rows, (id: nat, c: ConflictRecord) => BothCoursesJoin(timetables, c)
             && (SqlEq(TimetableDAO.CourseLecturer(timetables[c.timetable1.value]), lecturer)
                 || SqlEq(TimetableDAO.CourseLecturer(timetables[c.timetable2.value]), lecturer)),
           NewestFirstKey)
  }

  /** The conflict is about the pair {t1, t2}, in either order (NULL matches nothing). */
  predicate SamePair(c: ConflictRecord, t1: Option<nat>, t2: Option<nat>)
  {
    (SqlEq(c.timetable1, t1) && SqlEq(c.timetable2, t2)) || (SqlEq(c.timetable1, t2) && SqlEq(c.timetable2, t1))
  }

  /** The ids of the conflicts about the pair. */
  function PairMatches(rows: map<nat, ConflictRecord>, t1: Option<nat>, t2: Option<nat>): set<nat>
  {
    set id | id in rows && SamePair(rows[id], t1, t2)
  }

  /** findExistingConflict: the first (lowest-id) conflict about the pair in either order, or null. */
  function FindExistingConflict(rows: map<nat, ConflictRecord>, t1: Option<nat>, t2: Option<nat>): (r: Option<nat>)
    ensures r.None? <==> forall id :: id in rows ==> !SamePair(rows[id], t1, t2)
    ensures r.Some? ==> r.value in rows && SamePair(rows[r.value], t1, t2)
    ensures r.Some? ==> forall id :: id in rows && SamePair(rows[id], t1, t2) ==> r.value <= id
  {
    var matches := PairMatches(rows, t1, t2);
    if matches == {} then
      assert forall id :: id in rows ==> !SamePair(rows[id], t1, t2) by {
        forall id | id in rows ensures !SamePair(rows[id], t1, t2) {
          assert SamePair(rows[id], t1, t2) ==> id in matches;
        }
      }
      None
    else
      assert forall id :: id in rows && SamePair(rows[id], t1, t2) ==> id in matches;
      Some(Least(matches))
  }

  /** Asking about (t2, t1) finds the same conflict as asking about (t1, t2). */
  lemma FindExistingConflictSymmetric(rows: map<nat, ConflictRecord>, t1: Option<nat>, t2: Option<nat>)
    ensures FindExistingConflict(rows, t1, t2) == FindExistingConflict(rows, t2, t1)
  {
    assert PairMatches(rows, t1, t2) == PairMatches(rows, t2, t1);
  }

  /** Swapping which conflict is asked about: two conflicts over the same pair match each other. */
  lemma SamePairSwap(c: ConflictRecord, d: ConflictRecord)
    requires SamePair(c, d.timetable1, d.timetable2)
    ensures SamePair(d, c.timetable1, c.timetable2)
  {
  }

  /** No two stored conflicts are about the same pair of timetables. */
  ghost predicate PairsUnique(rows: map<nat, ConflictRecord>)
  {
    forall i, j :: i in rows && j in rows && i != j ==> !SamePair(rows[j], rows[i].timetable1, rows[i].timetable2)
  }

  /** Every status is DETECTED, APPEALED or RESOLVED, so the unresolved and resolved queries split the table. */
  lemma UnresolvedOrResolved(rows: map<nat, ConflictRecord>, id: nat)
    requires id in rows && rows[id].status.Some?
    ensures id in FindUnresolvedConflicts(rows) <==> id !in FindByStatus(rows, Some(RESOLVED))
  {
    match rows[id].status.value
    case DETECTED =>
    case APPEALED =>
    case RESOLVED =>
  }

  /** A row of getConflictStats: one (type, status) group and its size. */
  datatype ConflictStatistic = ConflictStatistic(conflictType: Option<ConflictType>, status: Option<ConflictStatus>, count: nat)

  /** The GROUP BY key of a conflict. */
  type Group = (Option<ConflictType>, Option<ConflictStatus>)

  function GroupOf(c: ConflictRecord): Group
  {
    (c.conflictType, c.status)
  }

  /** The ids of the conflicts in group g. */
  function GroupMembers(rows: map<nat, ConflictRecord>, g: Group): set<nat>
  {
    set id | id in rows && GroupOf(rows[id]) == g
  }

  /** The row `id` is the lowest-id member of its group: one representative per group. */
  predicate FirstOfGroup(rows: map<nat, ConflictRecord>, id: nat, c: ConflictRecord)
  {
    forall j :: j in rows && j < id ==> GroupOf(rows[j]) != GroupOf(c)
  }

  /** ORDER BY type ASC, status ASC (by name; NULL first). */
  function GroupKey(g: Group): seq<int>
  {
    (if g.0.Some? then [1] + EnumKey(g.0.value.Name()) else [0])
    + (if g.1.Some? then [1] + EnumKey(g.1.value.Name()) else [0])
  }

  /** The sort key of a conflict's group. */
  function StatKey(c: ConflictRecord): seq<int>
  {
    GroupKey(GroupOf(c))
  }

  /** The lowest-id member of each group, in the statistics' order. */
  function Representatives(rows: map<nat, ConflictRecord>): (reps: seq<nat>)
    ensures forall id :: id in reps <==> id in rows && FirstOfGroup(rows, id, rows[id])
    ensures Distinct(reps)
  {
    Select(rows, (id: nat, c: ConflictRecord) => FirstOfGroup(rows, id, c), StatKey)
  }

  /** Two different representatives stand for two different groups. */
  lemma RepresentativesDiffer(rows: map<nat, ConflictRecord>, a: nat, b: nat)
    requires a in rows && FirstOfGroup(rows, a, rows[a])
    requires b in rows && FirstOfGroup(rows, b, rows[b])
    requires a != b
    ensures GroupOf(rows[a]) != GroupOf(rows[b])
  {
    if a < b {
      assert GroupOf(rows[a]) != GroupOf(rows[b]);
    } else {
      assert GroupOf(rows[b]) != GroupOf(rows[a]);
    }
  }

  /** The groups of the rows `reps`, in that order. */
  function GroupsOf(rows: map<nat, ConflictRecord>, reps: seq<nat>): (gs: seq<Group>)
    requires forall id :: id in reps ==> id in rows
    ensures |gs| == |reps|
    ensures forall k :: 0 <= k < |gs| ==> gs[k] == GroupOf(rows[reps[k]])
  {
    if reps == [] then []
    else GroupsOf(rows, reps[..|reps| - 1]) + [GroupOf(rows[reps[|reps| - 1]])]
  }

  /** The groups present, one per group, in the statistics' order. */
  function Groups(rows: map<nat, ConflictRecord>): (gs: seq<Group>)
    ensures Distinct(gs)
  {
    var reps := Representatives(rows);
    var gs := GroupsOf(rows, reps);
    forall k, l | 0 <= k < l < |gs| ensures gs[k] != gs[l] {
      assert reps[k] in reps && reps[l] in reps;
      RepresentativesDiffer(rows, reps[k], reps[l]);
    }
    gs
  }

  /** Every conflict's group is among the groups reported. */
  lemma GroupsCoverRows(rows: map<nat, ConflictRecord>, id: nat)
    requires id in rows
    ensures GroupOf(rows[id]) in Groups(rows)
  {
    var reps := Representatives(rows);
    var members := GroupMembers(rows, GroupOf(rows[id]));
    assert id in members;
    var first := Least(members);
    forall j | j in rows && j < first ensures GroupOf(rows[j]) != GroupOf(rows[first]) {
      assert j in members ==> first <= j;
    }
    assert first in reps;
    var k :| 0 <= k < |reps| && reps[k] == first;
    assert Groups(rows)[k] == GroupOf(rows[id]);
  }

  /** The statistics rows for the groups gs, in that order. */
  function StatsOf(rows: map<nat, ConflictRecord>, gs: seq<Group>): (r: seq<ConflictStatistic>)
    ensures |r| == |gs|
    ensures forall k :: 0 <= k < |r| ==>
              (r[k].conflictType, r[k].status) == gs[k] && r[k].count == |GroupMembers(rows, gs[k])|
  {
    if gs == [] then []
    else
      var g := gs[|gs| - 1];
      StatsOf(rows, gs[..|gs| - 1]) + [ConflictStatistic(g.0, g.1, |GroupMembers(rows, g)|)]
  }

  /** getConflictStats: one row per (type, status) group present, with the group's size. */
  function GetConflictStats(rows: map<nat, ConflictRecord>): (r: seq<ConflictStatistic>)
    ensures forall k :: 0 <= k < |r| ==> r[k].count == |GroupMembers(rows, (r[k].conflictType, r[k].status))|
    ensures forall k, l :: 0 <= k < l < |r| ==> (r[k].conflictType, r[k].status) != (r[l].conflictType, r[l].status)
    ensures forall k, l :: 0 <= k < l < |r| ==>
              LexLeq(GroupKey((r[k].conflictType, r[k].status)), GroupKey((r[l].conflictType, r[l].status)))
  {
    var reps := Representatives(rows);
    var gs := Groups(rows);
    assert forall k, l :: 0 <= k < l < |gs| ==> LexLeq(GroupKey(gs[k]), GroupKey(gs[l])) by {
      forall k, l | 0 <= k < l < |gs| ensures LexLeq(GroupKey(gs[k]), GroupKey(gs[l])) {
        assert LexLeq(StatKey(rows[reps[k]]), StatKey(rows[reps[l]]));
      }
    }
    StatsOf(rows, gs)
  }

  /** Only groups that occur are reported: every count is positive. */
  lemma ConflictStatsCountsPositive(rows: map<nat, ConflictRecord>, k: nat)
    requires k < |GetConflictStats(rows)|
    ensures GetConflictStats(rows)[k].count > 0
  {
    var reps := Representatives(rows);
    assert Groups(rows)[k] == GroupOf(rows[reps[k]]);
    assert reps[k] in GroupMembers(rows, Groups(rows)[k]);
  }

  /** Sum of the counts of statistics rows. */
  function TotalCount(stats: seq<ConflictStatistic>): nat
  {
    if stats == [] then 0 else TotalCount(stats[..|stats| - 1]) + stats[|stats| - 1].count
  }

  /** The conflicts whose group is one of gs. */
  function Covered(rows: map<nat, ConflictRecord>, gs: seq<Group>): set<nat>
  {
    set id | id in rows && GroupOf(rows[id]) in gs
  }

  lemma CoveredSnoc(rows: map<nat, ConflictRecord>, front: seq<Group>, g: Group)
    ensures Covered(rows, front + [g]) == Covered(rows, front) + GroupMembers(rows, g)
  {
    forall id | id in rows
      ensures GroupOf(rows[id]) in front + [g] <==> GroupOf(rows[id]) in front || GroupOf(rows[id]) == g
    {
    }
  }

  lemma CoveredDisjoint(rows: map<nat, ConflictRecord>, front: seq<Group>, g: Group)
    requires g !in front
    ensures Covered(rows, front) * GroupMembers(rows, g) == {}
  {
  }

  lemma DisjointUnionSize(a: set<nat>, b: set<nat>)
    requires a * b == {}
    ensures |a + b| == |a| + |b|
  {
  }

  lemma {:induction false} TotalIsCovered(rows: map<nat, ConflictRecord>, gs: seq<Group>)
    requires Distinct(gs)
    ensures TotalCount(StatsOf(rows, gs)) == |Covered(rows, gs)|
  {
    if gs != [] {
      var front := gs[..|gs| - 1];
      var g := gs[|gs| - 1];
      assert gs == front + [g];
      assert Distinct(front);
      assert g !in front by {
        forall k | 0 <= k < |front| ensures front[k] != g {
          assert front[k] == gs[k];
        }
      }
      TotalIsCovered(rows, front);
      var stats := StatsOf(rows, gs);
      assert stats == StatsOf(rows, front) + [ConflictStatistic(g.0, g.1, |GroupMembers(rows, g)|)];
      assert stats[..|stats| - 1] == StatsOf(rows, front);
      CoveredSnoc(rows, front, g);
      CoveredDisjoint(rows, front, g);
      calc {
        TotalCount(stats);
        TotalCount(StatsOf(rows, front)) + |GroupMembers(rows, g)|;
        |Covered(rows, front)| + |GroupMembers(rows, g)|;
        { DisjointUnionSize(Covered(rows, front), GroupMembers(rows, g)); }
        |Covered(rows, front) + GroupMembers(rows, g)|;
        |Covered(rows, gs)|;
      }
    }
  }

  /** Every stored conflict falls in one of the reported groups. */
  lemma GroupsCoverAll(rows: map<nat, ConflictRecord>)
    ensures Covered(rows, Groups(rows)) == rows.Keys
  {
    forall id | id in rows ensures id in Covered(rows, Groups(rows)) {
      GroupsCoverRows(rows, id);
    }
  }

  /** The counts of getConflictStats add up to the number of stored conflicts. */
  lemma ConflictStatsTotal(rows: map<nat, ConflictRecord>)
    ensures TotalCount(GetConflictStats(rows)) == |rows|
  {
    TotalIsCovered(rows, Groups(rows));
    GroupsCoverAll(rows);
  }

  /** Every stored conflict's (type, status) group has a row in getConflictStats. */
  lemma ConflictStatsCoverEveryConflict(rows: map<nat, ConflictRecord>, id: nat)
    requires id in rows
    ensures exists k :: 0 <= k < |GetConflictStats(rows)|
              && (GetConflictStats(rows)[k].conflictType, GetConflictStats(rows)[k].status) == GroupOf(rows[id])
  {
    GroupsCoverRows(rows, id);
    var gs := Groups(rows);
    var k :| 0 <= k < |gs| && gs[k] == GroupOf(rows[id]);
    assert (GetConflictStats(rows)[k].conflictType, GetConflictStats(rows)[k].status) == gs[k];
  }
}
