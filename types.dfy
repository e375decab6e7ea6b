/**
 * Value types shared by the timetable core: times of day, the enums, and the
 * directory records (departments, users, courses) the core only reads.
 * Every entity is identified by its id, as the entities' equals methods do.
 */
module Types {
  import opened Ordering

  /** java.time.LocalTime at minute precision: minutes after midnight. */
  type Minute = m: int | 0 <= m < 1440

  /** java.time.LocalDate as a day number. */
  type Date = int

  /** A clock reading (LocalDateTime.now()); the model only passes it around. */
  type Instant = int

  datatype DayOfWeek = MONDAY | TUESDAY | WEDNESDAY | THURSDAY | FRIDAY | SATURDAY | SUNDAY
  {
    function Name(): string
    {
      match this
      case MONDAY => "MONDAY"
      case TUESDAY => "TUESDAY"
      case WEDNESDAY => "WEDNESDAY"
      case THURSDAY => "THURSDAY"
      case FRIDAY => "FRIDAY"
      case SATURDAY => "SATURDAY"
      case SUNDAY => "SUNDAY"
    }
  }

  /** The kinds of activity; only EXAM and TEST are singled out by the core. */
  datatype ActivityType = LECTURE | LAB | EXAM | TEST

  datatype TimetableStatus = DRAFT | PENDING_APPROVAL | APPROVED | REJECTED | CONFLICTED

  datatype ConflictStatus = DETECTED | APPEALED | RESOLVED
  {
    function Name(): string
    {
      match this
      case DETECTED => "DETECTED"
      case APPEALED => "APPEALED"
      case RESOLVED => "RESOLVED"
    }
  }

  datatype ConflictType = ROOM_CONFLICT | LECTURER_CONFLICT | TIME_CONFLICT | BORROWED_COURSE_CONFLICT
  {
    function Name(): string
    {
      match this
      case ROOM_CONFLICT => "ROOM_CONFLICT"
      case LECTURER_CONFLICT => "LECTURER_CONFLICT"
      case TIME_CONFLICT => "TIME_CONFLICT"
      case BORROWED_COURSE_CONFLICT => "BORROWED_COURSE_CONFLICT"
    }
  }

  datatype UserRole = ADMIN | EXAMS_OFFICER | LECTURER | STUDENT

  datatype SemesterType = FIRST_SEMESTER | SECOND_SEMESTER
  {
    function Name(): string
    {
      match this
      case FIRST_SEMESTER => "FIRST_SEMESTER"
      case SECOND_SEMESTER => "SECOND_SEMESTER"
    }

    /** The text `toString()` gives: the display name, not the constant's name. */
    function DisplayName(): string
    {
      match this
      case FIRST_SEMESTER => "First Semester"
      case SECOND_SEMESTER => "Second Semester"
    }
  }

  datatype Department = Department(id: nat, name: string, code: string)

  /** A user; `level` is the academic level, meaningful for students. */
  datatype User = User(id: nat, username: string, role: UserRole, department: Option<nat>, level: int, active: bool)

  /** A course with its (nullable) owning department and its (possibly unassigned) lecturer, by id. */
  datatype Course = Course(id: nat, name: string, code: string, credits: int,
                           department: Option<nat>, lecturer: Option<nat>, level: int)

  /**
   * The enums are stored by name (EnumType.STRING), so an ORDER BY on an enum
   * column sorts by the name's text, not by declaration order.
   */
  function EnumKey(name: string): seq<int>
  {
    TextKey(name)
  }

  import opened Wrappers
}
