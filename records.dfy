/** The server-side rows the reconciliation reads: students, their level
    timetable (`Schedules_st`), teachers and parents, plus the teacher
    attendance table (`Attendance_t`), which the scan handler updates in place.
    Foreign keys are plain identifiers; `admin` is the owning tenant. */
module Records {
  import opened Wrappers
  import opened Dates

  datatype Student = Student(
    id: nat, admin: nat, nom: string, prenom: string, numero: string,
    mail: string, level: nat, admission: string)

  /** A level timetable slot; `start` and `end` are seconds since midnight. */
  datatype StudentSchedule = StudentSchedule(
    id: nat, admin: nat, day: string, level: nat, subject: nat, start: int, end: int)

  datatype Teacher = Teacher(
    id: nat, admin: nat, nom: string, prenom: string, mail: string,
    numero: string, subject: Option<nat>)

  datatype Parent = Parent(id: nat, admin: nat, mail: string, students: set<nat>)

  /** A teacher attendance row; the `schedule` column is nullable. */
  datatype TeacherAttendance = TeacherAttendance(
    id: nat, admin: nat, teacher: nat, subject: nat, schedule: Option<nat>,
    status: string, date: Date)

  /** The lookup key of the scan handler's `get_or_create` on teacher rows. */
  datatype TeacherKey = TeacherKey(teacher: nat, date: Date, schedule: nat, admin: nat)

  /** The lookup key a row answers to; a row without a schedule answers to none. */
  function KeyOfTeacherRow(r: TeacherAttendance): Option<TeacherKey>
  {
    if r.schedule.Some? then Some(TeacherKey(r.teacher, r.date, r.schedule.value, r.admin)) else None
  }

  predicate HasTeacherKey(r: TeacherAttendance, k: TeacherKey)
  {
    KeyOfTeacherRow(r) == Some(k)
  }

  /** The number of teacher rows the lookup matches. */
  function CountTeacherKey(rows: seq<TeacherAttendance>, k: TeacherKey): (n: nat)
    ensures n <= |rows|
    ensures n == 0 <==> forall i :: 0 <= i < |rows| ==> !HasTeacherKey(rows[i], k)
  {
    if rows == [] then 0
    else CountTeacherKey(rows[..|rows| - 1], k) + (if HasTeacherKey(rows[|rows| - 1], k) then 1 else 0)
  }

  /** The only matching row, when the lookup matches exactly one. */
  function TeacherKeyIndex(rows: seq<TeacherAttendance>, k: TeacherKey): (i: nat)
    requires CountTeacherKey(rows, k) == 1
    ensures i < |rows| && HasTeacherKey(rows[i], k)
    ensures forall j :: 0 <= j < |rows| && j != i ==> !HasTeacherKey(rows[j], k)
  {
    var last := |rows| - 1;
    if HasTeacherKey(rows[last], k) then last else TeacherKeyIndex(rows[..last], k)
  }

  /** Appending a row adds one match exactly when the row answers to the key. */
  lemma CountAfterAppend(rows: seq<TeacherAttendance>, x: TeacherAttendance, k: TeacherKey)
    ensures CountTeacherKey(rows + [x], k) == CountTeacherKey(rows, k) + (if HasTeacherKey(x, k) then 1 else 0)
  {
    assert (rows + [x])[..|rows|] == rows;
  }

  /** The count sees only the lookup key of each row. */
  lemma {:induction false} CountIgnoresOtherColumns(a: seq<TeacherAttendance>, b: seq<TeacherAttendance>, k: TeacherKey)
    requires |a| == |b|
    requires forall j :: 0 <= j < |a| ==> KeyOfTeacherRow(a[j]) == KeyOfTeacherRow(b[j])
    ensures CountTeacherKey(a, k) == CountTeacherKey(b, k)
    decreases |a|
  {
    if a != [] {
      CountIgnoresOtherColumns(a[..|a| - 1], b[..|b| - 1], k);
    }
  }

  /** Why a teacher row could not be written: the lookup matched several
      rows, or the teacher has no subject for the non-null `subject` column. */
  datatype TeacherWriteError = MultipleRows | NullSubject

  /** The teacher table keeps no two rows under one teacher lookup key. The
      table declares no such constraint; only the scan handler's
      `get_or_create` keeps it. */
  ghost predicate TeacherKeysUnique(rows: seq<TeacherAttendance>)
  {
    forall i, j :: 0 <= i < |rows| && 0 <= j < |rows| && i != j && KeyOfTeacherRow(rows[i]).Some?
      ==> KeyOfTeacherRow(rows[i]) != KeyOfTeacherRow(rows[j])
  }

  /** The `Attendance_t` table: its rows in insertion order and the next
      automatic primary key. */
  class TeacherAttendanceTable {
    var rows: seq<TeacherAttendance>
    var nextId: nat

    ghost predicate Valid()
      reads this
    {
      forall i :: 0 <= i < |rows| ==> rows[i].id < nextId
    }

    constructor ()
      ensures Valid() && rows == [] && nextId == 1
    {
      rows := [];
      nextId := 1;
    }

    /** `objects.create(...)`: appends a row under a fresh primary key. */
    method Create(admin: nat, teacher: nat, subject: nat, schedule: Option<nat>, status: string, date: Date)
      returns (id: nat)
      requires Valid()
      modifies this
      ensures Valid()
      ensures id == old(nextId) && nextId == old(nextId) + 1
      ensures rows == old(rows) + [TeacherAttendance(id, admin, teacher, subject, schedule, status, date)]
    {
      id := nextId;
      rows := rows + [TeacherAttendance(id, admin, teacher, subject, schedule, status, date)];
      nextId := nextId + 1;
    }

    /** `get_or_create(teacher=..., date=..., schedule=..., admin=..., defaults={status, subject})`.
        A lookup matching several rows raises; creating a row without a
        subject violates the column's NOT NULL constraint. */
    method GetOrCreate(teacher: nat, date: Date, schedule: nat, admin: nat, status: string, subject: Option<nat>)
      returns (r: Result<(nat, bool), TeacherWriteError>)
      requires Valid()
      modifies this
      ensures Valid()
      ensures CountTeacherKey(old(rows), TeacherKey(teacher, date, schedule, admin)) > 1 ==>
        r == Err(MultipleRows) && rows == old(rows) && nextId == old(nextId)
      ensures CountTeacherKey(old(rows), TeacherKey(teacher, date, schedule, admin)) == 1 ==>
        r == Ok((TeacherKeyIndex(old(rows), TeacherKey(teacher, date, schedule, admin)), false))
        && rows == old(rows) && nextId == old(nextId)
      ensures CountTeacherKey(old(rows), TeacherKey(teacher, date, schedule, admin)) == 0 && subject.None? ==>
        r == Err(NullSubject) && rows == old(rows) && nextId == old(nextId)
      ensures CountTeacherKey(old(rows), TeacherKey(teacher, date, schedule, admin)) == 0 && subject.Some? ==>
        r == Ok((|old(rows)|, true)) && nextId == old(nextId) + 1
        && rows == old(rows) + [TeacherAttendance(old(nextId), admin, teacher, subject.value, Some(schedule), status, date)]
    {
      var k := TeacherKey(teacher, date, schedule, admin);
      var n := CountTeacherKey(rows, k);
      if n > 1 {
        return Err(MultipleRows);
      } else if n == 1 {
        return Ok((TeacherKeyIndex(rows, k), false));
      } else if subject.None? {
        return Err(NullSubject);
      }
      var at := |rows|;
      var id := Create(admin, teacher, subject.value, Some(schedule), status, date);
      r := Ok((at, true));
    }

    /** `row.status = ...; row.subject = ...; row.save()`: overwrites exactly
        those two columns of one row. */
    method SaveStatusAndSubject(i: nat, status: string, subject: nat)
      requires Valid() && i < |rows|
      modifies this
      ensures Valid() && nextId == old(nextId)
      ensures rows == old(rows)[i := old(rows)[i].(status := status, subject := subject)]
    {
      rows := rows[i := rows[i].(status := status, subject := subject)];
    }

    /** `save()` of an edited row: every column but the primary key replaced. */
    method SaveRow(i: nat, admin: nat, teacher: nat, subject: nat, schedule: Option<nat>, status: string, date: Date)
      requires Valid() && i < |rows|
      modifies this
      ensures Valid() && nextId == old(nextId)
      ensures rows == old(rows)[i := TeacherAttendance(old(rows)[i].id, admin, teacher, subject, schedule, status, date)]
    {
      rows := rows[i := TeacherAttendance(rows[i].id, admin, teacher, subject, schedule, status, date)];
    }
  }
}
