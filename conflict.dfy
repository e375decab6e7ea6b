/** The Conflict entity: two timetables that overlap under some rule. */
module ConflictEntity {
  import opened Wrappers
  import opened Types

  /** The persisted state of a conflict; the two timetables are referenced by id. */
  datatype ConflictRecord = ConflictRecord(
    timetable1: Option<nat>,
    timetable2: Option<nat>,
    status: Option<ConflictStatus>,
    resolutionNotes: Option<string>,
    detectedAt: Option<Instant>,
    resolvedAt: Option<Instant>,
    resolvedBy: Option<nat>,
    conflictType: Option<ConflictType>)

  /** A conflict as Conflict(timetable1, timetable2, type) builds it. */
  function NewConflict(timetable1: Option<nat>, timetable2: Option<nat>, conflictType: ConflictType, now: Instant): (c: ConflictRecord)
    ensures c.timetable1 == timetable1 && c.timetable2 == timetable2
    ensures c.conflictType == Some(conflictType) && c.status == Some(DETECTED)
    ensures c.resolutionNotes.None? && c.resolvedAt.None? && c.resolvedBy.None?
  {
    ConflictRecord(timetable1, timetable2, Some(DETECTED), None, Some(now), None, None, Some(conflictType))
  }

  /** A Conflict object: a mutable record whose status and resolution change through setters. */
  class Conflict {
    var id: Option<nat>
    var timetable1: Option<nat>
    var timetable2: Option<nat>
    var status: Option<ConflictStatus>
    var resolutionNotes: Option<string>
    var detectedAt: Option<Instant>
    var resolvedAt: Option<Instant>
    var resolvedBy: Option<nat>
    var conflictType: Option<ConflictType>

    /** The state the store keeps for this object. */
    function Snapshot(): ConflictRecord
      reads this
    {
      ConflictRecord(timetable1, timetable2, status, resolutionNotes, detectedAt, resolvedAt, resolvedBy, conflictType)
    }

    /** Conflict(): every field null, status and type included. */
    constructor Empty()
      ensures id.None? && status.None? && conflictType.None?
      ensures Snapshot() == ConflictRecord(None, None, None, None, None, None, None, None)
    {
      id, timetable1, timetable2, status, resolutionNotes := None, None, None, None, None;
      detectedAt, resolvedAt, resolvedBy, conflictType := None, None, None, None;
    }

    /** Conflict(timetable1, timetable2, type): the pair in the given order, status DETECTED. */
    constructor (timetable1: Option<nat>, timetable2: Option<nat>, conflictType: ConflictType, now: Instant)
      ensures id.None? && Snapshot() == NewConflict(timetable1, timetable2, conflictType, now)
    {
      this.id := None;
      this.timetable1, this.timetable2 := timetable1, timetable2;
      this.conflictType := Some(conflictType);
      this.status := Some(DETECTED);
      this.detectedAt := Some(now);
      this.resolutionNotes, this.resolvedAt, this.resolvedBy := None, None, None;
    }

    /** The detached object a lookup materialises from the stored row `id`. */
    constructor Loaded(id: nat, r: ConflictRecord)
      ensures this.id == Some(id) && Snapshot() == r
    {
      this.id := Some(id);
      timetable1, timetable2, status, resolutionNotes := r.timetable1, r.timetable2, r.status, r.resolutionNotes;
      detectedAt, resolvedAt, resolvedBy, conflictType := r.detectedAt, r.resolvedAt, r.resolvedBy, r.conflictType;
    }

    // Each setter changes its own field and, by its frame, nothing else.

    method SetId(v: Option<nat>)
      modifies this`id
      ensures id == v
    {
      id := v;
    }

    method SetTimetable1(v: Option<nat>)
      modifies this`timetable1
      ensures timetable1 == v
    {
      timetable1 := v;
    }

    method SetTimetable2(v: Option<nat>)
      modifies this`timetable2
      ensures timetable2 == v
    {
      timetable2 := v;
    }

    method SetStatus(v: Option<ConflictStatus>)
      modifies this`status
      ensures status == v
    {
      status := v;
    }

    method SetResolutionNotes(v: Option<string>)
      modifies this`resolutionNotes
      ensures resolutionNotes == v
    {
      resolutionNotes := v;
    }

    method SetDetectedAt(v: Option<Instant>)
      modifies this`detectedAt
      ensures detectedAt == v
    {
      detectedAt := v;
    }

    method SetResolvedAt(v: Option<Instant>)
      modifies this`resolvedAt
      ensures resolvedAt == v
    {
      resolvedAt := v;
    }

    method SetResolvedBy(v: Option<nat>)
      modifies this`resolvedBy
      ensures resolvedBy == v
    {
      resolvedBy := v;
    }

    method SetType(v: Option<ConflictType>)
      modifies this`conflictType
      ensures conflictType == v
    {
      conflictType := v;
    }
  }
}
