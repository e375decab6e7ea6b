/** UserDAO: the one user query the reports use. */
module UserDAO {
  import opened Wrappers
  import opened Ordering
  import opened Query
  import opened Types

  /** findLecturersByDepartment: active lecturers of the department (none for a null department). */
  function FindLecturersByDepartment(users: map<nat, User>, department: Option<nat>): (r: seq<nat>)
    ensures forall id :: id in r <==> (id in users && users[id].role == LECTURER
              && SqlEq(users[id].department, department) && users[id].active)
    ensures Distinct(r)
  {
    Select(users, (id: nat, u: User) => u.role == LECTURER && SqlEq(u.department, department) && u.active, Unordered)
  }
}
