/** The stand-alone absence sweep: the same pass over today's closed slots as
    the `mark_absent` command, written with `get_or_create` and without the
    command's early return and warnings. It writes exactly the rows the
    command writes. */
module AbsenceSweep {
  import opened Wrappers
  import opened Dates
  import opened Records
  import opened AttendanceModel
  import AbsenceSweepCommand

  /** The sweep's output lines. */
  datatype Line =
    | MarkedAbsent(prenom: string, nom: string, slotId: nat)
    | MarkingComplete

  /** The running state: the attendance table and the output so far. */
  datatype Pass = Pass(rows: seq<Attendance>, nextId: nat, log: seq<Line>)

  /** `get_or_create(student=..., schedule=..., date=..., defaults=...)` for one
      student, and the line printed when a row was created. */
  function GetOrCreateAbsent(p: Pass, s: Student, slot: StudentSchedule, date: Date): Pass
  {
    match IndexOfKey(p.rows, Key(s.id, slot.id, date))
    case Some(_) => p
    case None =>
      Pass(p.rows + [Attendance(p.nextId, s.admin, s.id, slot.id, date, "absent")], p.nextId + 1,
           p.log + [MarkedAbsent(s.prenom, s.nom, slot.id)])
  }

  /** The inner loop, after the students `ss`. */
  function PassLevel(p: Pass, ss: seq<Student>, slot: StudentSchedule, date: Date): Pass
    decreases |ss|
  {
    if ss == [] then p else GetOrCreateAbsent(PassLevel(p, ss[..|ss| - 1], slot, date), ss[|ss| - 1], slot, date)
  }

  function PassSlot(p: Pass, students: seq<Student>, slot: StudentSchedule, date: Date, now: int): Pass
  {
    if AbsenceSweepCommand.WindowClosed(slot, now)
    then PassLevel(p, AbsenceSweepCommand.LevelStudents(students, slot.level), slot, date)
    else p
  }

  /** The outer loop, after `slots`. */
  function PassSlots(p: Pass, students: seq<Student>, slots: seq<StudentSchedule>, date: Date, now: int): Pass
    decreases |slots|
  {
    if slots == [] then p
    else PassSlot(PassSlots(p, students, slots[..|slots| - 1], date, now), students, slots[|slots| - 1], date, now)
  }

  /** The whole script as a function of the tables, the date, the weekday and
      the clock. */
  function Run(students: seq<Student>, slots: seq<StudentSchedule>, rows: seq<Attendance>, nextId: nat,
               date: Date, weekday: string, now: int): Pass
  {
    var p := PassSlots(Pass(rows, nextId, []), students, AbsenceSweepCommand.TodaySlots(slots, weekday), date, now);
    p.(log := p.log + [MarkingComplete])
  }

  /** The students of one level, over the live table. */
  method PassLevelStudents(att: AttendanceTable, ss: seq<Student>, slot: StudentSchedule, date: Date,
                           log0: seq<Line>)
    returns (log: seq<Line>)
    requires att.Valid()
    modifies att
    ensures att.Valid()
    ensures Pass(att.rows, att.nextId, log) == PassLevel(Pass(old(att.rows), old(att.nextId), log0), ss, slot, date)
  {
    ghost var before := Pass(att.rows, att.nextId, log0);
    log := log0;
    var i := 0;
    while i < |ss|
      invariant 0 <= i <= |ss|
      invariant att.Valid()
      invariant Pass(att.rows, att.nextId, log) == PassLevel(before, ss[..i], slot, date)
    {
      var s := ss[i];
      assert ss[..i + 1][..i] == ss[..i];
      var _, created := att.GetOrCreate(s.id, slot.id, date, s.admin, "absent");
      if created {
        log := log + [MarkedAbsent(s.prenom, s.nom, slot.id)];
      }
      i := i + 1;
    }
    assert ss[..i] == ss;
  }

  /** The script over the live table. */
  method RunSweep(att: AttendanceTable, students: seq<Student>, slots: seq<StudentSchedule>,
                  date: Date, weekday: string, now: int)
    returns (log: seq<Line>)
    requires att.Valid()
    modifies att
    ensures att.Valid()
    ensures var r := Run(students, slots, old(att.rows), old(att.nextId), date, weekday, now);
            att.rows == r.rows && att.nextId == r.nextId && log == r.log
  {
    var today := AbsenceSweepCommand.TodaySlots(slots, weekday);
    ghost var p0 := Pass(att.rows, att.nextId, []);
    log := [];
    var k := 0;
    while k < |today|
      invariant 0 <= k <= |today|
      invariant att.Valid()
      invariant Pass(att.rows, att.nextId, log) == PassSlots(p0, students, today[..k], date, now)
    {
      var slot := today[k];
      assert today[..k + 1][..k] == today[..k];
      if now > slot.start + AbsenceSweepCommand.LateWindow * 60 {
        var ss := AbsenceSweepCommand.LevelStudents(students, slot.level);
        log := PassLevelStudents(att, ss, slot, date, log);
      }
      k := k + 1;
    }
    assert today[..k] == today;
    log := log + [MarkingComplete];
  }

  /** The `get_or_create` pass writes what the command's exists-then-create
      pass writes, and prints one line per row it creates. */
  lemma {:induction false} PassLevelAgrees(p: Pass, st: AbsenceSweepCommand.Sweep, ss: seq<Student>,
                                           slot: StudentSchedule, date: Date)
    requires p.rows == st.rows && p.nextId == st.nextId
    ensures var q := PassLevel(p, ss, slot, date);
            var t := AbsenceSweepCommand.MarkLevel(st, ss, slot, date);
            && q.rows == t.rows && q.nextId == t.nextId
            && |q.log| - |p.log| == |q.rows| - |p.rows|
            && p.log <= q.log
            && forall j :: |p.log| <= j < |q.log| ==> q.log[j].MarkedAbsent?
    decreases |ss|
  {
    if ss != [] {
      var q0 := PassLevel(p, ss[..|ss| - 1], slot, date);
      PassLevelAgrees(p, st, ss[..|ss| - 1], slot, date);
      AbsenceSweepCommand.MarkLevelExtends(st, ss[..|ss| - 1], slot, date);
      var q := GetOrCreateAbsent(q0, ss[|ss| - 1], slot, date);
      if |q.log| > |q0.log| {
        assert q.log == q0.log + [q.log[|q.log| - 1]];
      }
    }
  }

  lemma {:induction false} PassSlotsAgrees(p: Pass, st: AbsenceSweepCommand.Sweep, students: seq<Student>,
                                           slots: seq<StudentSchedule>, date: Date, now: int)
    requires p.rows == st.rows && p.nextId == st.nextId
    ensures var q := PassSlots(p, students, slots, date, now);
            var t := AbsenceSweepCommand.SweepSlots(st, students, slots, date, now);
            && q.rows == t.rows && q.nextId == t.nextId
            && |q.log| - |p.log| == |q.rows| - |p.rows|
            && p.log <= q.log
            && forall j :: |p.log| <= j < |q.log| ==> q.log[j].MarkedAbsent?
    decreases |slots|
  {
    if slots != [] {
      var init := slots[..|slots| - 1];
      var last := slots[|slots| - 1];
      var q0 := PassSlots(p, students, init, date, now);
      var t0 := AbsenceSweepCommand.SweepSlots(st, students, init, date, now);
      PassSlotsAgrees(p, st, students, init, date, now);
      AbsenceSweepCommand.SweepSlotsEffect(st, students, init, date, now);
      if AbsenceSweepCommand.WindowClosed(last, now) {
        var ss := AbsenceSweepCommand.LevelStudents(students, last.level);
        PassLevelAgrees(q0, t0, ss, last, date);
      }
    }
  }

  /** Both sweeps leave the table in the same state; this one prints one line
      per created row and then its closing line. */
  lemma RunAgreesWithCommand(students: seq<Student>, slots: seq<StudentSchedule>, rows: seq<Attendance>,
                             nextId: nat, date: Date, weekday: string, now: int)
    ensures var r := Run(students, slots, rows, nextId, date, weekday, now);
            var h := AbsenceSweepCommand.Handle(students, slots, rows, nextId, date, weekday, now);
            && r.rows == h.rows && r.nextId == h.nextId
            && |r.log| == |r.rows| - |rows| + 1
            && r.log[|r.log| - 1] == MarkingComplete
            && forall j :: 0 <= j < |r.log| - 1 ==> r.log[j].MarkedAbsent?
  {
    var today := AbsenceSweepCommand.TodaySlots(slots, weekday);
    PassSlotsAgrees(Pass(rows, nextId, []), AbsenceSweepCommand.Sweep(rows, nextId, [], 0), students, today, date, now);
  }

  /** A second run, at the same time or earlier, creates nothing and prints
      only its closing line. */
  lemma RunIdempotent(students: seq<Student>, slots: seq<StudentSchedule>, rows: seq<Attendance>,
                      nextId: nat, date: Date, weekday: string, now: int, again: int)
    requires again <= now
    ensures var r := Run(students, slots, rows, nextId, date, weekday, now);
            var r2 := Run(students, slots, r.rows, r.nextId, date, weekday, again);
            r2.rows == r.rows && r2.nextId == r.nextId && r2.log == [MarkingComplete]
  {
    var r := Run(students, slots, rows, nextId, date, weekday, now);
    RunAgreesWithCommand(students, slots, rows, nextId, date, weekday, now);
    RunAgreesWithCommand(students, slots, r.rows, r.nextId, date, weekday, again);
    AbsenceSweepCommand.HandleIdempotent(students, slots, rows, nextId, date, weekday, now, again);
  }
}
