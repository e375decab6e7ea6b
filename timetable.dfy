/** The Timetable entity: one scheduled occurrence of a course activity. */
module TimetableEntity {
  import opened Wrappers
  import opened Types

  /**
   * The persisted state of a timetable (its row without the id column).
   * Every column is nullable; exactly one of dayOfWeek and specificDate is
   * expected to be set, but nothing enforces it.
   */
  datatype TimetableRecord = TimetableRecord(
    course: Option<Course>,
    dayOfWeek: Option<DayOfWeek>,
    startTime: Option<Minute>,
    endTime: Option<Minute>,
    room: Option<nat>,
    activityType: Option<ActivityType>,
    status: Option<TimetableStatus>,
    semester: Option<SemesterType>,
    createdAt: Option<Instant>,
    approvedAt: Option<Instant>,
    approvedBy: Option<nat>,
    specificDate: Option<Date>,
    description: Option<string>)

  /** A Timetable object: a mutable record whose fields change through its setters. */
  class Timetable {
    var id: Option<nat>
    var course: Option<Course>
    var dayOfWeek: Option<DayOfWeek>
    var startTime: Option<Minute>
    var endTime: Option<Minute>
    var room: Option<nat>
    var activityType: Option<ActivityType>
    var status: Option<TimetableStatus>
    var semester: Option<SemesterType>
    var createdAt: Option<Instant>
    var approvedAt: Option<Instant>
    var approvedBy: Option<nat>
    var specificDate: Option<Date>
    var description: Option<string>

    /** The state the store keeps for this object. */
    function Snapshot(): TimetableRecord
      reads this
    {
      TimetableRecord(course, dayOfWeek, startTime, endTime, room, activityType, status,
                      semester, createdAt, approvedAt, approvedBy, specificDate, description)
    }

    /** Timetable(): every field null, status included. */
    constructor Empty()
      ensures id.None? && status.None? && course.None? && dayOfWeek.None? && specificDate.None?
      ensures Snapshot() == TimetableRecord(None, None, None, None, None, None, None, None, None, None, None, None, None)
    {
      id, course, dayOfWeek, startTime, endTime, room := None, None, None, None, None, None;
      activityType, status, semester, createdAt, approvedAt := None, None, None, None, None;
      approvedBy, specificDate, description := None, None, None;
    }

    /**
     * Timetable(course, dayOfWeek, startTime, endTime, room, type, semester): stores the
     * arguments as given, sets status DRAFT and the creation time, and leaves the id,
     * the date, the approval and the description unset. Nothing checks start < end.
     */
    constructor (course: Option<Course>, dayOfWeek: Option<DayOfWeek>, startTime: Option<Minute>,
                 endTime: Option<Minute>, room: Option<nat>, activityType: Option<ActivityType>,
                 semester: Option<SemesterType>, now: Instant)
      ensures id.None? && status == Some(DRAFT)
      ensures Snapshot() == TimetableRecord(course, dayOfWeek, startTime, endTime, room, activityType,
                                            Some(DRAFT), semester, Some(now), None, None, None, None)
    {
      this.id := None;
      this.course := course;
      this.dayOfWeek := dayOfWeek;
      this.startTime := startTime;
      this.endTime := endTime;
      this.room := room;
      this.activityType := activityType;
      this.semester := semester;
      this.status := Some(DRAFT);
      this.createdAt := Some(now);
      this.approvedAt, this.approvedBy, this.specificDate, this.description := None, None, None, None;
    }

    /** The detached object a lookup materialises from the stored row `id`. */
    constructor Loaded(id: nat, r: TimetableRecord)
      ensures this.id == Some(id) && Snapshot() == r
    {
      this.id := Some(id);
      course, dayOfWeek, startTime, endTime, room := r.course, r.dayOfWeek, r.startTime, r.endTime, r.room;
      activityType, status, semester, createdAt := r.activityType, r.status, r.semester, r.createdAt;
      approvedAt, approvedBy, specificDate, description := r.approvedAt, r.approvedBy, r.specificDate, r.description;
    }

    // Each setter changes its own field and, by its frame, nothing else.

    method SetId(v: Option<nat>)
      modifies this`id
      ensures id == v
    {
      id := v;
    }

    method SetCourse(v: Option<Course>)
      modifies this`course
      ensures course == v
    {
      course := v;
    }

    method SetDayOfWeek(v: Option<DayOfWeek>)
      modifies this`dayOfWeek
      ensures dayOfWeek == v
    {
      dayOfWeek := v;
    }

    method SetStartTime(v: Option<Minute>)
      modifies this`startTime
      ensures startTime == v
    {
      startTime := v;
    }

    method SetEndTime(v: Option<Minute>)
      modifies this`endTime
      ensures endTime == v
    {
      endTime := v;
    }

    method SetRoom(v: Option<nat>)
      modifies this`room
      ensures room == v
    {
      room := v;
    }

    method SetType(v: Option<ActivityType>)
      modifies this`activityType
      ensures activityType == v
    {
      activityType := v;
    }

    method SetStatus(v: Option<TimetableStatus>)
      modifies this`status
      ensures status == v
    {
      status := v;
    }

    method SetSemester(v: Option<SemesterType>)
      modifies this`semester
      ensures semester == v
    {
      semester := v;
    }

    method SetCreatedAt(v: Option<Instant>)
      modifies this`createdAt
      ensures createdAt == v
    {
      createdAt := v;
    }

    method SetApprovedAt(v: Option<Instant>)
      modifies this`approvedAt
      ensures approvedAt == v
    {
      approvedAt := v;
    }

    method SetApprovedBy(v: Option<nat>)
      modifies this`approvedBy
      ensures approvedBy == v
    {
      approvedBy := v;
    }

    method SetSpecificDate(v: Option<Date>)
      modifies this`specificDate
      ensures specificDate == v
    {
      specificDate := v;
    }

    method SetDescription(v: Option<string>)
      modifies this`description
      ensures description == v
    {
      description := v;
    }
  }
}
