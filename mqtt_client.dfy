/** The scan handler: a QR scan published on the student or teacher topic is
    matched against that day's timetable, classified by its lateness, written
    to the attendance tables with a get-or-create-then-overwrite, and
    announced to the live clients.

    The handler is modelled as a step over one parsed message. Clock times are
    whole seconds since midnight on the scan's date; the grace periods are in
    minutes and are compared as `minutes * 60` seconds. */
module ScanReconciliation {
  import opened Wrappers
  import opened Text
  import opened Dates
  import opened Seqs
  import opened Records
  import opened AttendanceModel
  import opened TeacherScheduleModel

  const StudentTopic: string := "student/attendance"
  const TeacherTopic: string := "teacher/attendance"

  /** Grace periods, in minutes. */
  const StudentGracePresent: nat := 15
  const StudentGraceLate: nat := 20
  const TeacherGrace: nat := 15

  // ---------------------------------------------------------------------
  // Slot matching

  /** A slot's start and end on the scan's date. */
  datatype Window = Window(start: int, end: int)

  /** The scan lies in `[start, end + TeacherGrace]`. The teacher grace period
      is the one used for both kinds of scan. */
  predicate Eligible(w: Window, scan: int)
  {
    0 <= scan - w.start <= (w.end - w.start) + TeacherGrace * 60
  }

  /** The first eligible window in the given order, with the scan's offset
      from that window's start. */
  function FirstEligible(ws: seq<Window>, scan: int): (r: Option<(nat, int)>)
    ensures r.Some? ==> r.value.0 < |ws| && Eligible(ws[r.value.0], scan)
    ensures r.Some? ==> r.value.1 == scan - ws[r.value.0].start
    ensures r.Some? ==> forall j :: 0 <= j < r.value.0 ==> !Eligible(ws[j], scan)
    ensures r.None? <==> forall j :: 0 <= j < |ws| ==> !Eligible(ws[j], scan)
    decreases |ws|
  {
    if ws == [] then None
    else if Eligible(ws[0], scan) then Some((0, scan - ws[0].start))
    else
      var r := FirstEligible(ws[1..], scan);
      if r.None? then None else Some((r.value.0 + 1, r.value.1))
  }

  /** `find_best_schedule`: scans the slots in order and stops at the first
      one whose window holds the scan. */
  method FindBestSchedule(ws: seq<Window>, scan: int) returns (r: Option<(nat, int)>)
    ensures r == FirstEligible(ws, scan)
  {
    var i := 0;
    while i < |ws|
      invariant 0 <= i <= |ws|
      invariant forall j :: 0 <= j < i ==> !Eligible(ws[j], scan)
    {
      var diff := scan - ws[i].start;
      if 0 <= diff <= (ws[i].end - ws[i].start) + TeacherGrace * 60 {
        return Some((i, diff));
      }
      i := i + 1;
    }
    return None;
  }

  // ---------------------------------------------------------------------
  // Classification

  /** The student status for a scan `offset` seconds after the slot start,
      in the upper-case spelling the handler stores. */
  function ClassifyStudent(offset: int): (status: string)
    ensures status == "PRESENT" <==> 0 <= offset <= StudentGracePresent * 60
    ensures status == "RETARD" <==> StudentGracePresent * 60 < offset <= StudentGraceLate * 60
    ensures status == "ABSENT" <==> !(0 <= offset <= StudentGraceLate * 60)
  {
    if 0 <= offset <= StudentGracePresent * 60 then "PRESENT"
    else if StudentGracePresent * 60 < offset <= StudentGraceLate * 60 then "RETARD"
    else "ABSENT"
  }

  /** The severity of a student scan status: on time, late, absent. */
  function Severity(status: string): nat
  {
    if status == "PRESENT" then 0 else if status == "RETARD" then 1 else 2
  }

  /** A later scan never earns a better status. */
  lemma ClassifyStudentMonotone(a: int, b: int)
    requires 0 <= a <= b
    ensures Severity(ClassifyStudent(a)) <= Severity(ClassifyStudent(b))
  {
  }

  /** The broadcast's `status.lower()` of a student status is one of the
      lowercase codes, and lowercasing it again changes nothing. */
  lemma BroadcastStudentStatus(offset: int)
    ensures Lower(ClassifyStudent(offset)) in ["present", "retard", "absent"]
    ensures Lower(Lower(ClassifyStudent(offset))) == Lower(ClassifyStudent(offset))
  {
    var st := ClassifyStudent(offset);
    assert Lower("PRESENT") == "present" && Lower("RETARD") == "retard" && Lower("ABSENT") == "absent";
    LowerOfLowercase(Lower(st));
  }

  /** The teacher status for a scan `offset` seconds after the slot start. */
  function ClassifyTeacher(offset: int): (status: string)
    ensures status == "present" <==> 0 <= offset <= TeacherGrace * 60
    ensures status == "absent" <==> !(0 <= offset <= TeacherGrace * 60)
  {
    if 0 <= offset <= TeacherGrace * 60 then "present" else "absent"
  }

  /** Teacher statuses are stored lowercase already, so the broadcast's
      `status.lower()` leaves them alone. */
  lemma ClassifyTeacherIsLowercase(offset: int)
    ensures Lower(ClassifyTeacher(offset)) == ClassifyTeacher(offset)
  {
    LowerOfLowercase(ClassifyTeacher(offset));
  }

  // ---------------------------------------------------------------------
  // Messages, lookups and outcomes

  /** A parsed `timestamp`: its calendar date, its weekday code, its clock
      time, and whether the text carried a UTC offset (which the handler's
      `make_aware` refuses). */
  datatype Stamp = Stamp(date: Date, weekday: string, seconds: int, hasOffset: bool)

  /** The fields the handler reads from the JSON object; `None` is a missing
      key. A `timestamp` that is missing or does not parse is `None`. */
  datatype Payload = Payload(
    kind: Option<string>, numero: Option<string>, nom: Option<string>, prenom: Option<string>,
    email: Option<string>, timestamp: Option<Stamp>)

  /** The tables the handler only reads. */
  datatype Directory = Directory(
    students: seq<Student>, studentSlots: seq<StudentSchedule>,
    teachers: seq<Teacher>, teacherSlots: seq<ScheduleT>)

  /** The tables the handler writes. */
  datatype Tables = Tables(rows: seq<Attendance>, nextId: nat, trows: seq<TeacherAttendance>, tnextId: nat)

  /** Why a message produced no write. `TypeOrTopicMismatch`, `NoSlotToday`
      and `NoMatchingSlot` are logged warnings; the others are exceptions
      caught by the handler's catch-all. */
  datatype Drop =
    | NotAnObject | TypeOrTopicMismatch | BadTimestamp | UnknownSender
    | NoSlotToday | NoMatchingSlot | WriteRefused

  /** The payload sent to the `attendance_group` channel group. */
  datatype Broadcast =
    | StudentUpdate(studentId: nat, scheduleId: nat, date: string, status: string)
    | TeacherUpdate(teacherId: nat, subjectId: Option<nat>, scheduleId: nat, date: string, status: string)

  datatype Outcome = Dropped(reason: Drop) | Sent(update: Broadcast)

  /** The student row carries the message's `numero`, `nom` and `prenom`; a
      missing field matches none. */
  predicate StudentMatches(s: Student, numero: Option<string>, nom: Option<string>, prenom: Option<string>)
  {
    numero == Some(s.numero) && nom == Some(s.nom) && prenom == Some(s.prenom)
  }

  /** `students[i]` is the only row that matches. */
  predicate OnlyStudentAt(students: seq<Student>, i: int, numero: Option<string>, nom: Option<string>, prenom: Option<string>)
  {
    0 <= i < |students| && StudentMatches(students[i], numero, nom, prenom)
    && forall j :: 0 <= j < |students| && j != i ==> !StudentMatches(students[j], numero, nom, prenom)
  }

  /** `get_object_or_404(Student, numero=..., nom=..., prenom=...)`: found
      exactly when one row matches, and then it is that row; no match and
      several matches both raise. */
  function FindStudent(students: seq<Student>, numero: Option<string>, nom: Option<string>, prenom: Option<string>)
    : (r: Option<Student>)
    ensures r.Some? <==> exists i :: OnlyStudentAt(students, i, numero, nom, prenom)
    ensures r.Some? ==> exists i :: OnlyStudentAt(students, i, numero, nom, prenom) && students[i] == r.value
    ensures r.Some? ==> r.value in students && StudentMatches(r.value, numero, nom, prenom)
  {
    var pick := (s: Student) => StudentMatches(s, numero, nom, prenom);
    var r := TheOnly(students, pick);
    assert forall i :: OnlyAt(students, pick, i) <==> OnlyStudentAt(students, i, numero, nom, prenom);
    r
  }

  /** `teachers[i]` is the only teacher with the mail. */
  predicate OnlyTeacherAt(teachers: seq<Teacher>, i: int, email: Option<string>)
  {
    0 <= i < |teachers| && email == Some(teachers[i].mail)
    && forall j :: 0 <= j < |teachers| && j != i ==> email != Some(teachers[j].mail)
  }

  /** `get_object_or_404(Teacher, mail=...)`: found exactly when one teacher
      has the mail, and then it is that teacher. */
  function FindTeacher(teachers: seq<Teacher>, email: Option<string>): (r: Option<Teacher>)
    ensures r.Some? <==> exists i :: OnlyTeacherAt(teachers, i, email)
    ensures r.Some? ==> exists i :: OnlyTeacherAt(teachers, i, email) && teachers[i] == r.value
    ensures r.Some? ==> r.value in teachers && email == Some(r.value.mail)
  {
    var pick := (t: Teacher) => email == Some(t.mail);
    var r := TheOnly(teachers, pick);
    assert forall i :: OnlyAt(teachers, pick, i) <==> OnlyTeacherAt(teachers, i, email);
    r
  }

  /** `Schedules_st.objects.filter(level=..., day=...)`, in table order. */
  function StudentCandidates(dir: Directory, s: Student, day: string): (cs: seq<StudentSchedule>)
    ensures forall i :: 0 <= i < |cs| ==> cs[i] in dir.studentSlots && cs[i].level == s.level && cs[i].day == day
    ensures forall c :: c in cs <==> c in dir.studentSlots && c.level == s.level && c.day == day
  {
    var pick := (c: StudentSchedule) => c.level == s.level && c.day == day;
    forall c
      ensures c in Filter(dir.studentSlots, pick) <==> c in dir.studentSlots && pick(c)
    {
      FilterMembers(dir.studentSlots, pick, c);
    }
    Filter(dir.studentSlots, pick)
  }

  /** `Schedule_t.objects.filter(teacher=..., day=...)`, in the model's
      default order. */
  function TeacherCandidates(dir: Directory, t: Teacher, day: string): (cs: seq<ScheduleT>)
    ensures forall i :: 0 <= i < |cs| ==> cs[i] in dir.teacherSlots && cs[i].teacher == t.id && cs[i].day == day
    ensures forall i, j :: 0 <= i < j < |cs| ==> cs[i].start <= cs[j].start
    ensures forall c :: c in dir.teacherSlots && c.teacher == t.id && c.day == day ==> c in cs
  {
    var pick := (c: ScheduleT) => c.teacher == t.id && c.day == day;
    var f := Filter(dir.teacherSlots, pick);
    var cs := SortedSlots(f);
    forall i | 0 <= i < |cs| ensures cs[i] in dir.teacherSlots && cs[i].teacher == t.id && cs[i].day == day {
      assert cs[i] in multiset(cs);
      FilterMembers(dir.teacherSlots, pick, cs[i]);
    }
    SortedSlotsOrdered(f);
    OrderedSameDayByStart(cs, day);
    forall c | c in dir.teacherSlots && c.teacher == t.id && c.day == day ensures c in cs {
      FilterMembers(dir.teacherSlots, pick, c);
      assert c in multiset(f);
    }
    cs
  }

  function StudentWindows(cs: seq<StudentSchedule>): (ws: seq<Window>)
    ensures |ws| == |cs| && forall i :: 0 <= i < |cs| ==> ws[i] == Window(cs[i].start, cs[i].end)
  {
    seq(|cs|, i requires 0 <= i < |cs| => Window(cs[i].start, cs[i].end))
  }

  function TeacherWindows(cs: seq<ScheduleT>): (ws: seq<Window>)
    ensures |ws| == |cs| && forall i :: 0 <= i < |cs| ==> ws[i] == Window(cs[i].start, cs[i].end)
  {
    seq(|cs|, i requires 0 <= i < |cs| => Window(cs[i].start, cs[i].end))
  }

  // ---------------------------------------------------------------------
  // The writes

  /** The student write: `get_or_create` keyed by (student, schedule, date,
      admin) with the status as default, then, for a found row, the status
      overwritten. */
  function StudentUpsert(rows: seq<Attendance>, nextId: nat, admin: nat, student: nat, schedule: nat, date: Date, status: string)
    : (r: Result<(seq<Attendance>, nat), IntegrityError>)
    ensures r.Err? <==> IndexOfOwnedKey(rows, Key(student, schedule, date), admin).None?
                        && IndexOfKey(rows, Key(student, schedule, date)).Some?
    ensures r.Ok? ==> |rows| <= |r.value.0| <= |rows| + 1
    ensures r.Ok? ==> forall j :: 0 <= j < |rows| && KeyOf(rows[j]) != Key(student, schedule, date) ==> r.value.0[j] == rows[j]
    ensures r.Ok? && UniqueTogether(rows) ==> UniqueTogether(r.value.0)
  {
    var k := Key(student, schedule, date);
    var found := IndexOfOwnedKey(rows, k, admin);
    if found.Some? then
      var i := found.value;
      var rows' := rows[i := rows[i].(status := status)];
      assert forall j :: 0 <= j < |rows| ==> KeyOf(rows'[j]) == KeyOf(rows[j]);
      Ok((rows', nextId))
    else if IndexOfKey(rows, k).Some? then Err(IntegrityError)
    else
      var a := Attendance(nextId, admin, student, schedule, date, status);
      AppendFreshKeepsUnique(rows, a);
      assert forall j :: 0 <= j < |rows| ==> (rows + [a])[j] == rows[j];
      Ok((rows + [a], nextId + 1))
  }

  /** The teacher write: `get_or_create` keyed by (teacher, date, schedule,
      admin) with status and subject as defaults, then, for a found row, both
      overwritten. */
  function TeacherUpsert(trows: seq<TeacherAttendance>, tnextId: nat, admin: nat, teacher: nat, schedule: nat,
                         date: Date, status: string, subject: Option<nat>)
    : (r: Result<(seq<TeacherAttendance>, nat), TeacherWriteError>)
    ensures r.Err? <==> CountTeacherKey(trows, TeacherKey(teacher, date, schedule, admin)) > 1 || subject.None?
    ensures r.Ok? ==> |trows| <= |r.value.0| <= |trows| + 1
    ensures r.Ok? ==> forall j :: 0 <= j < |trows| && !HasTeacherKey(trows[j], TeacherKey(teacher, date, schedule, admin))
                                  ==> r.value.0[j] == trows[j]
  {
    var k := TeacherKey(teacher, date, schedule, admin);
    var n := CountTeacherKey(trows, k);
    if n > 1 then Err(MultipleRows)
    else if subject.None? then Err(NullSubject)
    else if n == 1 then
      var i := TeacherKeyIndex(trows, k);
      Ok((trows[i := trows[i].(status := status, subject := subject.value)], tnextId))
    else
      var x := TeacherAttendance(tnextId, admin, teacher, subject.value, Some(schedule), status, date);
      assert forall j :: 0 <= j < |trows| ==> (trows + [x])[j] == trows[j];
      Ok((trows + [x], tnextId + 1))
  }

  // ---------------------------------------------------------------------
  // The step

  /** `on_message` on one message; `payload` is `None` when the message
      body is not a JSON object. */
  function Step(topic: string, payload: Option<Payload>, dir: Directory, t: Tables): (r: (Outcome, Tables))
    ensures r.0.Dropped? ==> r.1 == t
  {
    if payload.None? then (Dropped(NotAnObject), t)
    else if payload.value.kind == Some("student") && topic == StudentTopic then StudentStep(payload.value, dir, t)
    else if payload.value.kind == Some("teacher") && topic == TeacherTopic then TeacherStep(payload.value, dir, t)
    else (Dropped(TypeOrTopicMismatch), t)
  }

  function StudentStep(p: Payload, dir: Directory, t: Tables): (r: (Outcome, Tables))
    ensures r.0.Dropped? ==> r.1 == t
    ensures r.0.Sent? ==> r.0.update.StudentUpdate? && r.1.trows == t.trows && r.1.tnextId == t.tnextId
  {
    if p.timestamp.None? || p.timestamp.value.hasOffset then (Dropped(BadTimestamp), t)
    else
      var scan := p.timestamp.value;
      var found := FindStudent(dir.students, p.numero, p.nom, p.prenom);
      if found.None? then (Dropped(UnknownSender), t)
      else
        var s := found.value;
        var cs := StudentCandidates(dir, s, scan.weekday);
        if cs == [] then (Dropped(NoSlotToday), t)
        else
          var best := FirstEligible(StudentWindows(cs), scan.seconds);
          if best.None? then (Dropped(NoMatchingSlot), t)
          else
            var slot := cs[best.value.0];
            var status := ClassifyStudent(best.value.1);
            var w := StudentUpsert(t.rows, t.nextId, s.admin, s.id, slot.id, scan.date, status);
            if w.Err? then (Dropped(WriteRefused), t)
            else (Sent(StudentUpdate(s.id, slot.id, IsoDate(scan.date), Lower(status))),
                  t.(rows := w.value.0, nextId := w.value.1))
  }

  function TeacherStep(p: Payload, dir: Directory, t: Tables): (r: (Outcome, Tables))
    ensures r.0.Dropped? ==> r.1 == t
    ensures r.0.Sent? ==> r.0.update.TeacherUpdate? && r.1.rows == t.rows && r.1.nextId == t.nextId
  {
    if p.timestamp.None? || p.timestamp.value.hasOffset then (Dropped(BadTimestamp), t)
    else
      var scan := p.timestamp.value;
      var found := FindTeacher(dir.teachers, p.email);
      if found.None? then (Dropped(UnknownSender), t)
      else
        var tc := found.value;
        var cs := TeacherCandidates(dir, tc, scan.weekday);
        if cs == [] then (Dropped(NoSlotToday), t)
        else
          var best := FirstEligible(TeacherWindows(cs), scan.seconds);
          if best.None? then (Dropped(NoMatchingSlot), t)
          else
            var slot := cs[best.value.0];
            var status := ClassifyTeacher(best.value.1);
            var w := TeacherUpsert(t.trows, t.tnextId, tc.admin, tc.id, slot.id, scan.date, status, tc.subject);
            if w.Err? then (Dropped(WriteRefused), t)
            else (Sent(TeacherUpdate(tc.id, tc.subject, slot.id, IsoDate(scan.date), Lower(status))),
                  t.(trows := w.value.0, tnextId := w.value.1))
  }

  // ---------------------------------------------------------------------
  // Properties of the writes

  /** After a student write, the owned lookup of the key finds a row that
      holds the new status. */
  lemma StudentUpsertStores(rows: seq<Attendance>, nextId: nat, admin: nat, student: nat, schedule: nat, date: Date, status: string)
    requires StudentUpsert(rows, nextId, admin, student, schedule, date, status).Ok?
    ensures var rows' := StudentUpsert(rows, nextId, admin, student, schedule, date, status).value.0;
            var found := IndexOfOwnedKey(rows', Key(student, schedule, date), admin);
            found.Some? && rows'[found.value].status == status
  {
    var k := Key(student, schedule, date);
    var found := IndexOfOwnedKey(rows, k, admin);
    if found.Some? {
      LookupsAfterStatus(rows, found.value, status, k, admin);
    } else {
      LookupsAfterAppend(rows, Attendance(nextId, admin, student, schedule, date, status));
    }
  }

  /** Repeating a student write changes nothing more. */
  lemma StudentUpsertReplay(rows: seq<Attendance>, nextId: nat, admin: nat, student: nat, schedule: nat, date: Date, status: string)
    requires StudentUpsert(rows, nextId, admin, student, schedule, date, status).Ok?
    ensures var w := StudentUpsert(rows, nextId, admin, student, schedule, date, status).value;
            StudentUpsert(w.0, w.1, admin, student, schedule, date, status) == Ok(w)
  {
    var w := StudentUpsert(rows, nextId, admin, student, schedule, date, status).value;
    StudentUpsertStores(rows, nextId, admin, student, schedule, date, status);
    var i := IndexOfOwnedKey(w.0, Key(student, schedule, date), admin).value;
    assert w.0[i := w.0[i].(status := status)] == w.0;
  }

  /** After a teacher write, exactly one row answers to the key, and it holds
      the new status and the teacher's subject. */
  lemma TeacherUpsertStores(trows: seq<TeacherAttendance>, tnextId: nat, admin: nat, teacher: nat, schedule: nat,
                            date: Date, status: string, subject: Option<nat>)
    requires TeacherUpsert(trows, tnextId, admin, teacher, schedule, date, status, subject).Ok?
    ensures var trows' := TeacherUpsert(trows, tnextId, admin, teacher, schedule, date, status, subject).value.0;
            var k := TeacherKey(teacher, date, schedule, admin);
            CountTeacherKey(trows', k) == 1
            && trows'[TeacherKeyIndex(trows', k)].status == status
            && Some(trows'[TeacherKeyIndex(trows', k)].subject) == subject
  {
    var k := TeacherKey(teacher, date, schedule, admin);
    var trows' := TeacherUpsert(trows, tnextId, admin, teacher, schedule, date, status, subject).value.0;
    if CountTeacherKey(trows, k) == 1 {
      var i := TeacherKeyIndex(trows, k);
      assert forall j :: 0 <= j < |trows| ==> KeyOfTeacherRow(trows'[j]) == KeyOfTeacherRow(trows[j]);
      CountIgnoresOtherColumns(trows', trows, k);
      assert HasTeacherKey(trows'[i], k);
    } else {
      var x := TeacherAttendance(tnextId, admin, teacher, subject.value, Some(schedule), status, date);
      CountAfterAppend(trows, x, k);
      assert trows'[|trows|] == x && HasTeacherKey(x, k);
    }
  }

  /** Repeating a teacher write changes nothing more. */
  lemma TeacherUpsertReplay(trows: seq<TeacherAttendance>, tnextId: nat, admin: nat, teacher: nat, schedule: nat,
                            date: Date, status: string, subject: Option<nat>)
    requires TeacherUpsert(trows, tnextId, admin, teacher, schedule, date, status, subject).Ok?
    ensures var w := TeacherUpsert(trows, tnextId, admin, teacher, schedule, date, status, subject).value;
            TeacherUpsert(w.0, w.1, admin, teacher, schedule, date, status, subject) == Ok(w)
  {
    var w := TeacherUpsert(trows, tnextId, admin, teacher, schedule, date, status, subject).value;
    TeacherUpsertStores(trows, tnextId, admin, teacher, schedule, date, status, subject);
    var i := TeacherKeyIndex(w.0, TeacherKey(teacher, date, schedule, admin));
    assert w.0[i := w.0[i].(status := status, subject := subject.value)] == w.0;
  }

  /** A teacher write never puts a second row under one lookup key. */
  lemma TeacherUpsertKeepsKeysUnique(trows: seq<TeacherAttendance>, tnextId: nat, admin: nat, teacher: nat, schedule: nat,
                                     date: Date, status: string, subject: Option<nat>)
    requires TeacherKeysUnique(trows)
    requires TeacherUpsert(trows, tnextId, admin, teacher, schedule, date, status, subject).Ok?
    ensures TeacherKeysUnique(TeacherUpsert(trows, tnextId, admin, teacher, schedule, date, status, subject).value.0)
  {
    var k := TeacherKey(teacher, date, schedule, admin);
    var trows' := TeacherUpsert(trows, tnextId, admin, teacher, schedule, date, status, subject).value.0;
    if CountTeacherKey(trows, k) == 1 {
      assert forall j :: 0 <= j < |trows| ==> KeyOfTeacherRow(trows'[j]) == KeyOfTeacherRow(trows[j]);
    } else {
      assert forall j :: 0 <= j < |trows| ==> trows'[j] == trows[j];
      assert KeyOfTeacherRow(trows'[|trows|]) == Some(k);
    }
  }

  // ---------------------------------------------------------------------
  // Properties of the step

  /** A student scan with no slot of the student's level that weekday whose
      window holds the scan is dropped: nothing is written and nothing sent. */
  lemma StudentWithoutSlotIsDropped(topic: string, p: Payload, dir: Directory, t: Tables, s: Student, scan: Stamp)
    requires p.kind == Some("student") && topic == StudentTopic
    requires p.timestamp == Some(scan) && !scan.hasOffset
    requires FindStudent(dir.students, p.numero, p.nom, p.prenom) == Some(s)
    requires forall c :: c in dir.studentSlots && c.level == s.level && c.day == scan.weekday
                         ==> !Eligible(Window(c.start, c.end), scan.seconds)
    ensures Step(topic, Some(p), dir, t).0 in {Dropped(NoSlotToday), Dropped(NoMatchingSlot)}
    ensures Step(topic, Some(p), dir, t).1 == t
  {
    var cs := StudentCandidates(dir, s, scan.weekday);
    var ws := StudentWindows(cs);
    forall j | 0 <= j < |ws| ensures !Eligible(ws[j], scan.seconds) {
      assert cs[j] in dir.studentSlots;
    }
  }

  /** The parts of a student step that sent an update. */
  lemma StudentStepSent(p: Payload, dir: Directory, t: Tables)
    requires StudentStep(p, dir, t).0.Sent?
    ensures p.timestamp.Some? && !p.timestamp.value.hasOffset
    ensures FindStudent(dir.students, p.numero, p.nom, p.prenom).Some?
    ensures var scan := p.timestamp.value;
            var s := FindStudent(dir.students, p.numero, p.nom, p.prenom).value;
            var cs := StudentCandidates(dir, s, scan.weekday);
            var best := FirstEligible(StudentWindows(cs), scan.seconds);
            best.Some? && best.value.0 < |cs|
            && var status := ClassifyStudent(best.value.1);
               var w := StudentUpsert(t.rows, t.nextId, s.admin, s.id, cs[best.value.0].id, scan.date, status);
               w.Ok?
               && StudentStep(p, dir, t).0 == Sent(StudentUpdate(s.id, cs[best.value.0].id, IsoDate(scan.date), Lower(status)))
               && StudentStep(p, dir, t).1 == t.(rows := w.value.0, nextId := w.value.1)
  {
  }

  /** The parts of a teacher step that sent an update. */
  lemma TeacherStepSent(p: Payload, dir: Directory, t: Tables)
    requires TeacherStep(p, dir, t).0.Sent?
    ensures p.timestamp.Some? && !p.timestamp.value.hasOffset
    ensures FindTeacher(dir.teachers, p.email).Some?
    ensures var scan := p.timestamp.value;
            var tc := FindTeacher(dir.teachers, p.email).value;
            var cs := TeacherCandidates(dir, tc, scan.weekday);
            var best := FirstEligible(TeacherWindows(cs), scan.seconds);
            best.Some? && best.value.0 < |cs|
            && var status := ClassifyTeacher(best.value.1);
               var w := TeacherUpsert(t.trows, t.tnextId, tc.admin, tc.id, cs[best.value.0].id, scan.date, status, tc.subject);
               w.Ok?
               && TeacherStep(p, dir, t).0 == Sent(TeacherUpdate(tc.id, tc.subject, cs[best.value.0].id, IsoDate(scan.date), Lower(status)))
               && TeacherStep(p, dir, t).1 == t.(trows := w.value.0, tnextId := w.value.1)
  {
  }

  /** Which handler a sent update came from. */
  lemma StepSentBranch(topic: string, payload: Option<Payload>, dir: Directory, t: Tables)
    requires Step(topic, payload, dir, t).0.Sent?
    ensures payload.Some?
    ensures Step(topic, payload, dir, t).0.update.StudentUpdate? ==>
              payload.value.kind == Some("student") && topic == StudentTopic
              && Step(topic, payload, dir, t) == StudentStep(payload.value, dir, t)
    ensures Step(topic, payload, dir, t).0.update.TeacherUpdate? ==>
              payload.value.kind == Some("teacher") && topic == TeacherTopic
              && Step(topic, payload, dir, t) == TeacherStep(payload.value, dir, t)
  {
  }

  /** The student slot written is one of the student's level on the scan's
      weekday whose window holds the scan, no slot listed before it in the
      table qualifies, and the status is the one its offset earns. */
  lemma StudentSlotIsFirstEligible(p: Payload, dir: Directory, t: Tables, s: Student, scan: Stamp)
    requires p.timestamp == Some(scan)
    requires FindStudent(dir.students, p.numero, p.nom, p.prenom) == Some(s)
    requires StudentStep(p, dir, t).0.Sent?
    ensures var u := StudentStep(p, dir, t).0.update;
            var cs := StudentCandidates(dir, s, scan.weekday);
            u.studentId == s.id && u.date == IsoDate(scan.date) &&
            exists k :: 0 <= k < |cs| && cs[k].id == u.scheduleId
              && cs[k] in dir.studentSlots && cs[k].level == s.level && cs[k].day == scan.weekday
              && Eligible(Window(cs[k].start, cs[k].end), scan.seconds)
              && (forall j :: 0 <= j < k ==> !Eligible(Window(cs[j].start, cs[j].end), scan.seconds))
              && u.status == Lower(ClassifyStudent(scan.seconds - cs[k].start))
  {
    StudentStepUpdate(p, dir, t);
    var cs := StudentCandidates(dir, s, scan.weekday);
    var u := StudentStep(p, dir, t).0.update;
    StudentSlotOfUpdate(cs, scan.seconds, u, s.id, IsoDate(scan.date));
    var k := FirstEligible(StudentWindows(cs), scan.seconds).value.0;
    assert cs[k] in dir.studentSlots && cs[k].level == s.level && cs[k].day == scan.weekday;
  }

  /** An update built from the first eligible slot of `cs` names that
      slot, and its status is the one the slot's offset earns. */
  lemma StudentSlotOfUpdate(cs: seq<StudentSchedule>, scan: int, u: Broadcast, sid: nat, date: string)
    requires var best := FirstEligible(StudentWindows(cs), scan);
             best.Some? && best.value.0 < |cs|
             && u == StudentUpdate(sid, cs[best.value.0].id, date, Lower(ClassifyStudent(best.value.1)))
    ensures var k := FirstEligible(StudentWindows(cs), scan).value.0;
            u.StudentUpdate? && u.studentId == sid && u.date == date
            && 0 <= k < |cs| && cs[k].id == u.scheduleId
            && Eligible(Window(cs[k].start, cs[k].end), scan)
            && (forall j :: 0 <= j < k ==> !Eligible(Window(cs[j].start, cs[j].end), scan))
            && u.status == Lower(ClassifyStudent(scan - cs[k].start))
  {
    FirstEligibleStudentSlot(cs, scan);
  }

  /** The update a sent student step announces. */
  lemma StudentStepUpdate(p: Payload, dir: Directory, t: Tables)
    requires StudentStep(p, dir, t).0.Sent?
    ensures p.timestamp.Some? && FindStudent(dir.students, p.numero, p.nom, p.prenom).Some?
    ensures var scan := p.timestamp.value;
            var s := FindStudent(dir.students, p.numero, p.nom, p.prenom).value;
            var cs := StudentCandidates(dir, s, scan.weekday);
            var best := FirstEligible(StudentWindows(cs), scan.seconds);
            best.Some? && best.value.0 < |cs|
            && StudentStep(p, dir, t).0.update
               == StudentUpdate(s.id, cs[best.value.0].id, IsoDate(scan.date), Lower(ClassifyStudent(best.value.1)))
  {
    StudentStepSent(p, dir, t);
  }

  /** The first eligible window of a student's slots, read back on the
      slots. */
  lemma FirstEligibleStudentSlot(cs: seq<StudentSchedule>, scan: int)
    requires FirstEligible(StudentWindows(cs), scan).Some?
    ensures var b := FirstEligible(StudentWindows(cs), scan).value;
            b.0 < |cs| && Eligible(Window(cs[b.0].start, cs[b.0].end), scan) && b.1 == scan - cs[b.0].start
            && forall j :: 0 <= j < b.0 ==> !Eligible(Window(cs[j].start, cs[j].end), scan)
  {
    var ws := StudentWindows(cs);
    var b := FirstEligible(ws, scan).value;
    assert ws[b.0] == Window(cs[b.0].start, cs[b.0].end);
    assert forall j :: 0 <= j < b.0 ==> ws[j] == Window(cs[j].start, cs[j].end);
  }

  /** `c` is a slot of `teacher` on `day` whose window holds the scan, and
      no slot of that teacher and day that starts earlier does. */
  predicate EarliestEligible(slots: seq<ScheduleT>, teacher: nat, day: string, scan: int, c: ScheduleT)
  {
    && c in slots && c.teacher == teacher && c.day == day
    && Eligible(Window(c.start, c.end), scan)
    && forall c' :: c' in slots && c'.teacher == teacher && c'.day == day && c'.start < c.start
                    ==> !Eligible(Window(c'.start, c'.end), scan)
  }

  /** The teacher slot written is one of the teacher's on the scan's weekday
      whose window holds the scan, and no slot of that teacher and weekday
      that starts earlier qualifies. */
  lemma TeacherSlotIsEarliest(p: Payload, dir: Directory, t: Tables, tc: Teacher, scan: Stamp)
    requires p.timestamp == Some(scan)
    requires FindTeacher(dir.teachers, p.email) == Some(tc)
    requires TeacherStep(p, dir, t).0.Sent?
    ensures var u := TeacherStep(p, dir, t).0.update;
            u.teacherId == tc.id && u.date == IsoDate(scan.date) &&
            exists c: ScheduleT :: c.id == u.scheduleId && u.status == ClassifyTeacher(scan.seconds - c.start)
              && EarliestEligible(dir.teacherSlots, tc.id, scan.weekday, scan.seconds, c)
  {
    TeacherStepUpdate(p, dir, t);
    var cs := TeacherCandidates(dir, tc, scan.weekday);
    var b := FirstEligible(TeacherWindows(cs), scan.seconds).value;
    TeacherUpdateIsEarliest(cs, dir.teacherSlots, tc.id, scan.weekday, scan.seconds,
                            TeacherStep(p, dir, t).0.update, tc.subject, IsoDate(scan.date), b.0, b.1);
  }

  /** An update built from the first eligible slot of `cs`, where `cs`
      holds every slot of one teacher and weekday sorted by start, names the
      earliest eligible slot of that teacher and weekday. */
  lemma TeacherUpdateIsEarliest(cs: seq<ScheduleT>, slots: seq<ScheduleT>, teacher: nat, day: string, scan: int,
                                u: Broadcast, subject: Option<nat>, date: string, k: nat, off: int)
    requires forall i :: 0 <= i < |cs| ==> cs[i] in slots && cs[i].teacher == teacher && cs[i].day == day
    requires forall i, j :: 0 <= i < j < |cs| ==> cs[i].start <= cs[j].start
    requires forall c :: c in slots && c.teacher == teacher && c.day == day ==> c in cs
    requires FirstEligible(TeacherWindows(cs), scan) == Some((k, off)) && k < |cs|
    requires u == TeacherUpdate(teacher, subject, cs[k].id, date, Lower(ClassifyTeacher(off)))
    ensures u.TeacherUpdate? && u.teacherId == teacher && u.date == date
    ensures exists c: ScheduleT :: c.id == u.scheduleId && u.status == ClassifyTeacher(scan - c.start)
              && EarliestEligible(slots, teacher, day, scan, c)
  {
    TeacherSlotOfUpdate(cs, scan, u, teacher, subject, date, k, off);
    EarliestAmongCandidates(cs, slots, teacher, day, scan, k);
    var c := cs[k];
    assert c.id == u.scheduleId && u.status == ClassifyTeacher(scan - c.start);
    assert EarliestEligible(slots, teacher, day, scan, c);
  }

  /** An update built from the first eligible slot of `cs`, found at `k`
      with offset `off`, names that slot, and its status is the one the
      slot's offset earns. */
  lemma TeacherSlotOfUpdate(cs: seq<ScheduleT>, scan: int, u: Broadcast, tid: nat, subject: Option<nat>, date: string,
                            k: nat, off: int)
    requires FirstEligible(TeacherWindows(cs), scan) == Some((k, off)) && k < |cs|
    requires u == TeacherUpdate(tid, subject, cs[k].id, date, Lower(ClassifyTeacher(off)))
    ensures u.TeacherUpdate? && u.teacherId == tid && u.date == date && cs[k].id == u.scheduleId
    ensures Eligible(Window(cs[k].start, cs[k].end), scan)
    ensures forall j :: 0 <= j < k ==> !Eligible(Window(cs[j].start, cs[j].end), scan)
    ensures u.status == ClassifyTeacher(scan - cs[k].start)
  {
    FirstEligibleTeacherSlot(cs, scan);
    ClassifyTeacherIsLowercase(off);
  }

  /** The update a sent teacher step announces. */
  lemma TeacherStepUpdate(p: Payload, dir: Directory, t: Tables)
    requires TeacherStep(p, dir, t).0.Sent?
    ensures p.timestamp.Some? && FindTeacher(dir.teachers, p.email).Some?
    ensures var scan := p.timestamp.value;
            var tc := FindTeacher(dir.teachers, p.email).value;
            var cs := TeacherCandidates(dir, tc, scan.weekday);
            var best := FirstEligible(TeacherWindows(cs), scan.seconds);
            best.Some? && best.value.0 < |cs|
            && TeacherStep(p, dir, t).0.update
               == TeacherUpdate(tc.id, tc.subject, cs[best.value.0].id, IsoDate(scan.date), Lower(ClassifyTeacher(best.value.1)))
  {
    TeacherStepSent(p, dir, t);
  }

  /** The first eligible window of a teacher's slots, read back on the
      slots. */
  lemma FirstEligibleTeacherSlot(cs: seq<ScheduleT>, scan: int)
    requires FirstEligible(TeacherWindows(cs), scan).Some?
    ensures var b := FirstEligible(TeacherWindows(cs), scan).value;
            b.0 < |cs| && Eligible(Window(cs[b.0].start, cs[b.0].end), scan) && b.1 == scan - cs[b.0].start
            && forall j :: 0 <= j < b.0 ==> !Eligible(Window(cs[j].start, cs[j].end), scan)
  {
    var ws := TeacherWindows(cs);
    var b := FirstEligible(ws, scan).value;
    assert ws[b.0] == Window(cs[b.0].start, cs[b.0].end);
    assert forall j :: 0 <= j < b.0 ==> ws[j] == Window(cs[j].start, cs[j].end);
  }

  /** Among slots sorted by start that include every slot of one teacher
      and weekday, the first eligible one starts no later than any other
      eligible slot of that teacher and weekday. */
  lemma EarliestAmongCandidates(cs: seq<ScheduleT>, slots: seq<ScheduleT>, teacher: nat, day: string, scan: int, k: nat)
    requires forall i, j :: 0 <= i < j < |cs| ==> cs[i].start <= cs[j].start
    requires forall c :: c in slots && c.teacher == teacher && c.day == day ==> c in cs
    requires k < |cs| && forall j :: 0 <= j < k ==> !Eligible(Window(cs[j].start, cs[j].end), scan)
    ensures forall c' :: c' in slots && c'.teacher == teacher && c'.day == day && c'.start < cs[k].start
                         ==> !Eligible(Window(c'.start, c'.end), scan)
  {
    forall c' | c' in slots && c'.teacher == teacher && c'.day == day && c'.start < cs[k].start
      ensures !Eligible(Window(c'.start, c'.end), scan)
    {
      var j :| 0 <= j < |cs| && cs[j] == c';
      assert j < k;
    }
  }

  /** A sent student update describes a stored row: same student, slot and
      date, and the row's status lowercased. The teacher table is untouched,
      and the student table keeps one row per key. */
  lemma StudentUpdateMatchesRow(topic: string, payload: Option<Payload>, dir: Directory, t: Tables)
    requires Step(topic, payload, dir, t).0.Sent? && Step(topic, payload, dir, t).0.update.StudentUpdate?
    ensures var r := Step(topic, payload, dir, t);
            var u := r.0.update;
            r.1.trows == t.trows && r.1.tnextId == t.tnextId
            && (UniqueTogether(t.rows) ==> UniqueTogether(r.1.rows))
            && exists i :: 0 <= i < |r.1.rows| && r.1.rows[i].student == u.studentId
                 && r.1.rows[i].schedule == u.scheduleId && IsoDate(r.1.rows[i].date) == u.date
                 && r.1.rows[i].status in ["PRESENT", "RETARD", "ABSENT"]
                 && Lower(r.1.rows[i].status) == u.status
  {
    StepSentBranch(topic, payload, dir, t);
    var p := payload.value;
    StudentStepSent(p, dir, t);
    var scan := p.timestamp.value;
    var s := FindStudent(dir.students, p.numero, p.nom, p.prenom).value;
    var cs := StudentCandidates(dir, s, scan.weekday);
    var best := FirstEligible(StudentWindows(cs), scan.seconds).value;
    var status := ClassifyStudent(best.1);
    StudentUpsertStores(t.rows, t.nextId, s.admin, s.id, cs[best.0].id, scan.date, status);
  }

  /** A sent teacher update describes the one stored row under its key: same
      teacher, slot, date, status and subject; the subject is always known. */
  lemma TeacherUpdateMatchesRow(topic: string, payload: Option<Payload>, dir: Directory, t: Tables)
    requires Step(topic, payload, dir, t).0.Sent? && Step(topic, payload, dir, t).0.update.TeacherUpdate?
    ensures var r := Step(topic, payload, dir, t);
            var u := r.0.update;
            r.1.rows == t.rows && r.1.nextId == t.nextId && u.subjectId.Some?
            && exists i :: 0 <= i < |r.1.trows| && r.1.trows[i].teacher == u.teacherId
                 && r.1.trows[i].schedule == Some(u.scheduleId) && IsoDate(r.1.trows[i].date) == u.date
                 && r.1.trows[i].status == u.status && r.1.trows[i].subject == u.subjectId.value
  {
    StepSentBranch(topic, payload, dir, t);
    var p := payload.value;
    TeacherStepSent(p, dir, t);
    var scan := p.timestamp.value;
    var tc := FindTeacher(dir.teachers, p.email).value;
    var cs := TeacherCandidates(dir, tc, scan.weekday);
    var best := FirstEligible(TeacherWindows(cs), scan.seconds).value;
    var status := ClassifyTeacher(best.1);
    var k := TeacherKey(tc.id, scan.date, cs[best.0].id, tc.admin);
    TeacherUpsertStores(t.trows, t.tnextId, tc.admin, tc.id, cs[best.0].id, scan.date, status, tc.subject);
    ClassifyTeacherIsLowercase(best.1);
    var trows' := TeacherUpsert(t.trows, t.tnextId, tc.admin, tc.id, cs[best.0].id, scan.date, status, tc.subject).value.0;
    var i := TeacherKeyIndex(trows', k);
    assert HasTeacherKey(trows'[i], k);
    assert trows'[i].teacher == tc.id && trows'[i].schedule == Some(cs[best.0].id) && trows'[i].date == scan.date;
  }

  /** Handling the same message twice has the effect of handling it once:
      the second pass sends the same update and changes no table. */
  lemma ReplayIsNoOp(topic: string, payload: Option<Payload>, dir: Directory, t: Tables)
    ensures var r := Step(topic, payload, dir, t);
            Step(topic, payload, dir, r.1) == r
  {
    if payload.Some? {
      if payload.value.kind == Some("student") && topic == StudentTopic {
        StudentReplay(payload.value, dir, t);
      } else if payload.value.kind == Some("teacher") && topic == TeacherTopic {
        TeacherReplay(payload.value, dir, t);
      }
    }
  }

  /** A student message handled twice: the second pass repeats the first. */
  lemma StudentReplay(p: Payload, dir: Directory, t: Tables)
    ensures StudentStep(p, dir, StudentStep(p, dir, t).1) == StudentStep(p, dir, t)
  {
    if p.timestamp.Some? && !p.timestamp.value.hasOffset {
      var scan := p.timestamp.value;
      var found := FindStudent(dir.students, p.numero, p.nom, p.prenom);
      if found.Some? {
        var s := found.value;
        var cs := StudentCandidates(dir, s, scan.weekday);
        var best := FirstEligible(StudentWindows(cs), scan.seconds);
        if cs != [] && best.Some? {
          var status := ClassifyStudent(best.value.1);
          if StudentUpsert(t.rows, t.nextId, s.admin, s.id, cs[best.value.0].id, scan.date, status).Ok? {
            StudentUpsertReplay(t.rows, t.nextId, s.admin, s.id, cs[best.value.0].id, scan.date, status);
          }
        }
      }
    }
  }

  /** A teacher message handled twice: the second pass repeats the first. */
  lemma TeacherReplay(p: Payload, dir: Directory, t: Tables)
    ensures TeacherStep(p, dir, TeacherStep(p, dir, t).1) == TeacherStep(p, dir, t)
  {
    if p.timestamp.Some? && !p.timestamp.value.hasOffset {
      var scan := p.timestamp.value;
      var found := FindTeacher(dir.teachers, p.email);
      if found.Some? {
        var tc := found.value;
        var cs := TeacherCandidates(dir, tc, scan.weekday);
        var best := FirstEligible(TeacherWindows(cs), scan.seconds);
        if cs != [] && best.Some? {
          var status := ClassifyTeacher(best.value.1);
          if TeacherUpsert(t.trows, t.tnextId, tc.admin, tc.id, cs[best.value.0].id, scan.date, status, tc.subject).Ok? {
            TeacherUpsertReplay(t.trows, t.tnextId, tc.admin, tc.id, cs[best.value.0].id, scan.date, status, tc.subject);
          }
        }
      }
    }
  }

  /** The step keeps one student row per (student, slot, date) and one
      teacher row per (teacher, date, slot, admin). */
  lemma StepKeepsKeysUnique(topic: string, payload: Option<Payload>, dir: Directory, t: Tables)
    requires UniqueTogether(t.rows) && TeacherKeysUnique(t.trows)
    ensures UniqueTogether(Step(topic, payload, dir, t).1.rows)
    ensures TeacherKeysUnique(Step(topic, payload, dir, t).1.trows)
  {
    if payload.Some? && payload.value.kind == Some("teacher") && topic == TeacherTopic {
      TeacherStepKeepsKeysUnique(payload.value, dir, t);
    }
  }

  /** A teacher step never puts a second row under one lookup key. */
  lemma TeacherStepKeepsKeysUnique(p: Payload, dir: Directory, t: Tables)
    requires TeacherKeysUnique(t.trows)
    ensures TeacherKeysUnique(TeacherStep(p, dir, t).1.trows)
  {
    if p.timestamp.Some? && !p.timestamp.value.hasOffset {
      var scan := p.timestamp.value;
      var found := FindTeacher(dir.teachers, p.email);
      if found.Some? {
        var tc := found.value;
        var cs := TeacherCandidates(dir, tc, scan.weekday);
        var best := FirstEligible(TeacherWindows(cs), scan.seconds);
        if cs != [] && best.Some? {
          var status := ClassifyTeacher(best.value.1);
          if TeacherUpsert(t.trows, t.tnextId, tc.admin, tc.id, cs[best.value.0].id, scan.date, status, tc.subject).Ok? {
            TeacherUpsertKeepsKeysUnique(t.trows, t.tnextId, tc.admin, tc.id, cs[best.value.0].id, scan.date, status, tc.subject);
          }
        }
      }
    }
  }

  // ---------------------------------------------------------------------
  // The handler over the live tables

  function TablesOf(att: AttendanceTable, tatt: TeacherAttendanceTable): Tables
    reads att, tatt
  {
    Tables(att.rows, att.nextId, tatt.rows, tatt.nextId)
  }

  /** `on_message`, writing through the two table objects. */
  method OnMessage(topic: string, payload: Option<Payload>, dir: Directory, att: AttendanceTable, tatt: TeacherAttendanceTable)
    returns (out: Outcome)
    requires att.Valid() && tatt.Valid()
    modifies att, tatt
    ensures att.Valid() && tatt.Valid()
    ensures (out, TablesOf(att, tatt)) == Step(topic, payload, dir, old(TablesOf(att, tatt)))
  {
    if payload.None? {
      return Dropped(NotAnObject);
    }
    var p := payload.value;
    if p.kind == Some("student") && topic == StudentTopic {
      out := OnStudentScan(p, dir, att, tatt);
    } else if p.kind == Some("teacher") && topic == TeacherTopic {
      out := OnTeacherScan(p, dir, att, tatt);
    } else {
      out := Dropped(TypeOrTopicMismatch);
    }
  }

  method OnStudentScan(p: Payload, dir: Directory, att: AttendanceTable, tatt: TeacherAttendanceTable)
    returns (out: Outcome)
    requires att.Valid()
    modifies att
    ensures att.Valid()
    ensures (out, TablesOf(att, tatt)) == StudentStep(p, dir, old(TablesOf(att, tatt)))
  {
    if p.timestamp.None? || p.timestamp.value.hasOffset {
      return Dropped(BadTimestamp);
    }
    var scan := p.timestamp.value;
    var found := FindStudent(dir.students, p.numero, p.nom, p.prenom);
    if found.None? {
      return Dropped(UnknownSender);
    }
    var s := found.value;
    var cs := StudentCandidates(dir, s, scan.weekday);
    if |cs| == 0 {
      return Dropped(NoSlotToday);
    }
    var best := FindBestSchedule(StudentWindows(cs), scan.seconds);
    if best.None? {
      return Dropped(NoMatchingSlot);
    }
    var slot := cs[best.value.0];
    var status := ClassifyStudent(best.value.1);
    var written := WriteStudentScan(att, s, slot.id, scan.date, status);
    if !written {
      return Dropped(WriteRefused);
    }
    out := Sent(StudentUpdate(s.id, slot.id, IsoDate(scan.date), Lower(status)));
  }

  /** The student write through the table object: `get_or_create`, then,
      for a found row, the status overwritten and saved. */
  method WriteStudentScan(att: AttendanceTable, s: Student, slotId: nat, date: Date, status: string)
    returns (written: bool)
    requires att.Valid()
    modifies att
    ensures att.Valid()
    ensures written <==> old(StudentUpsert(att.rows, att.nextId, s.admin, s.id, slotId, date, status)).Ok?
    ensures written ==> (att.rows, att.nextId)
                        == old(StudentUpsert(att.rows, att.nextId, s.admin, s.id, slotId, date, status)).value
    ensures !written ==> att.rows == old(att.rows) && att.nextId == old(att.nextId)
  {
    var r := att.GetOrCreateOwned(s.admin, s.id, slotId, date, status);
    if r.Err? {
      return false;
    }
    if !r.value.1 {
      att.SaveStatus(r.value.0, status);
    }
    written := true;
  }

  method OnTeacherScan(p: Payload, dir: Directory, att: AttendanceTable, tatt: TeacherAttendanceTable)
    returns (out: Outcome)
    requires tatt.Valid()
    modifies tatt
    ensures tatt.Valid()
    ensures (out, TablesOf(att, tatt)) == TeacherStep(p, dir, old(TablesOf(att, tatt)))
  {
    if p.timestamp.None? || p.timestamp.value.hasOffset {
      return Dropped(BadTimestamp);
    }
    var scan := p.timestamp.value;
    var found := FindTeacher(dir.teachers, p.email);
    if found.None? {
      return Dropped(UnknownSender);
    }
    var tc := found.value;
    var cs := TeacherCandidates(dir, tc, scan.weekday);
    if |cs| == 0 {
      return Dropped(NoSlotToday);
    }
    var best := FindBestSchedule(TeacherWindows(cs), scan.seconds);
    if best.None? {
      return Dropped(NoMatchingSlot);
    }
    var slot := cs[best.value.0];
    var status := ClassifyTeacher(best.value.1);
    var written := WriteTeacherScan(tatt, tc, slot.id, scan.date, status);
    if !written {
      return Dropped(WriteRefused);
    }
    out := Sent(TeacherUpdate(tc.id, tc.subject, slot.id, IsoDate(scan.date), Lower(status)));
  }

  /** The teacher write through the table object: `get_or_create`, then, for
      a found row, status and subject overwritten and saved. */
  method WriteTeacherScan(tatt: TeacherAttendanceTable, tc: Teacher, slotId: nat, date: Date, status: string)
    returns (written: bool)
    requires tatt.Valid()
    modifies tatt
    ensures tatt.Valid()
    ensures written <==> old(TeacherUpsert(tatt.rows, tatt.nextId, tc.admin, tc.id, slotId, date, status, tc.subject)).Ok?
    ensures written ==> (tatt.rows, tatt.nextId)
                        == old(TeacherUpsert(tatt.rows, tatt.nextId, tc.admin, tc.id, slotId, date, status, tc.subject)).value
    ensures !written ==> tatt.rows == old(tatt.rows) && tatt.nextId == old(tatt.nextId)
  {
    var r := tatt.GetOrCreate(tc.id, date, slotId, tc.admin, status, tc.subject);
    if r.Err? {
      return false;
    }
    if !r.value.1 {
      if tc.subject.None? {
        return false;
      }
      tatt.SaveStatusAndSubject(r.value.0, status, tc.subject.value);
    }
    written := true;
  }
}
