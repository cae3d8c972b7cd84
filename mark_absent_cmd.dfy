/** The `mark_absent` management command: for each of today's slots whose
    lateness window (start + 20 minutes) has closed, every student of the
    slot's level without an attendance row for (student, slot, today) gets an
    `absent` row. Rows that exist, whatever their status, are left alone.

    Clock times are seconds since midnight of the current date; today's date
    and weekday code are inputs. */
module AbsenceSweepCommand {
  import opened Wrappers
  import opened Dates
  import opened Seqs
  import opened Records
  import opened AttendanceModel

  /** Minutes after a slot's start before absences are marked. */
  const LateWindow: nat := 20

  /** The command's output lines. */
  datatype Line =
    | NoSchedulesToday
    | SkipOpenWindow(slotId: nat)
    | NoStudentsInLevel(level: nat)
    | MarkedAbsent(prenom: string, nom: string, slotId: nat)
    | NothingToMark
    | MarkedTotal(count: nat)

  /** The sweep's running state: the attendance table, the output so far and
      the `updated` counter. */
  datatype Sweep = Sweep(rows: seq<Attendance>, nextId: nat, log: seq<Line>, updated: nat)

  predicate WindowClosed(slot: StudentSchedule, now: int)
  {
    now > slot.start + LateWindow * 60
  }

  /** `Schedules_st.objects.filter(day=...)`. */
  function TodaySlots(slots: seq<StudentSchedule>, weekday: string): seq<StudentSchedule>
  {
    Filter(slots, (c: StudentSchedule) => c.day == weekday)
  }

  /** `Student.objects.filter(level=...)`. */
  function LevelStudents(students: seq<Student>, level: nat): seq<Student>
  {
    Filter(students, (s: Student) => s.level == level)
  }

  /** The `absent` row the command creates. */
  function AbsentRow(id: nat, s: Student, slot: StudentSchedule, date: Date): Attendance
  {
    Attendance(id, s.admin, s.id, slot.id, date, "absent")
  }

  /** One student of one slot: the exists check, then the create. */
  function MarkStudent(st: Sweep, s: Student, slot: StudentSchedule, date: Date): Sweep
  {
    if IndexOfKey(st.rows, Key(s.id, slot.id, date)).Some? then st
    else Sweep(st.rows + [AbsentRow(st.nextId, s, slot, date)], st.nextId + 1,
               st.log + [MarkedAbsent(s.prenom, s.nom, slot.id)], st.updated + 1)
  }

  /** The inner loop over the students of a level, after `ss`. */
  function MarkLevel(st: Sweep, ss: seq<Student>, slot: StudentSchedule, date: Date): Sweep
    decreases |ss|
  {
    if ss == [] then st else MarkStudent(MarkLevel(st, ss[..|ss| - 1], slot, date), ss[|ss| - 1], slot, date)
  }

  /** One slot of the outer loop. */
  function SweepSlot(st: Sweep, students: seq<Student>, slot: StudentSchedule, date: Date, now: int): Sweep
  {
    if !WindowClosed(slot, now) then st.(log := st.log + [SkipOpenWindow(slot.id)])
    else
      var ss := LevelStudents(students, slot.level);
      if ss == [] then st.(log := st.log + [NoStudentsInLevel(slot.level)])
      else MarkLevel(st, ss, slot, date)
  }

  /** The outer loop, after `slots`. */
  function SweepSlots(st: Sweep, students: seq<Student>, slots: seq<StudentSchedule>, date: Date, now: int): Sweep
    decreases |slots|
  {
    if slots == [] then st
    else SweepSlot(SweepSlots(st, students, slots[..|slots| - 1], date, now), students, slots[|slots| - 1], date, now)
  }

  /** `Command.handle` as a function of the tables, the date, the weekday and
      the clock. */
  function Handle(students: seq<Student>, slots: seq<StudentSchedule>, rows: seq<Attendance>, nextId: nat,
                  date: Date, weekday: string, now: int): Sweep
  {
    var today := TodaySlots(slots, weekday);
    if today == [] then Sweep(rows, nextId, [NoSchedulesToday], 0)
    else
      var st := SweepSlots(Sweep(rows, nextId, [], 0), students, today, date, now);
      st.(log := st.log + [if st.updated == 0 then NothingToMark else MarkedTotal(st.updated)])
  }

  /** The number of `MarkedAbsent` lines in an output. */
  function CountMarked(log: seq<Line>): nat
    decreases |log|
  {
    if log == [] then 0
    else CountMarked(log[..|log| - 1]) + (if log[|log| - 1].MarkedAbsent? then 1 else 0)
  }

  /** What a stretch of the sweep does to its state: rows are only appended,
      each one an `absent` row for the swept date; ids, the counter and the
      marked lines advance together with the appended rows, and the output
      only grows. */
  ghost predicate Extends(a: Sweep, b: Sweep, date: Date)
  {
    && a.rows <= b.rows
    && a.log <= b.log
    && b.nextId == a.nextId + (|b.rows| - |a.rows|)
    && b.updated == a.updated + (|b.rows| - |a.rows|)
    && CountMarked(b.log) == CountMarked(a.log) + (|b.rows| - |a.rows|)
    && (UniqueTogether(a.rows) ==> UniqueTogether(b.rows))
    && forall j :: |a.rows| <= j < |b.rows| ==> b.rows[j].status == "absent" && b.rows[j].date == date
  }

  /** A row the sweep may create: one for a slot of `slots` whose window has
      closed and a student of that slot's level, owned by the student's admin. */
  ghost predicate Justified(row: Attendance, students: seq<Student>, slots: seq<StudentSchedule>, now: int)
  {
    exists c, s :: c in slots && s in students && WindowClosed(c, now) && s.level == c.level
                && row.schedule == c.id && row.student == s.id && row.admin == s.admin
  }

  /** Condition under which a sweep of `slots` at `now` has nothing left to
      do: every student of every closed slot already has a row. */
  ghost predicate Covered(rows: seq<Attendance>, students: seq<Student>, slots: seq<StudentSchedule>,
                          date: Date, now: int)
  {
    forall c, s :: c in slots && s in students && WindowClosed(c, now) && s.level == c.level
                ==> IndexOfKey(rows, Key(s.id, c.id, date)).Some?
  }

  /** A row created for one of the students `ss` of `slot`. */
  ghost predicate ForStudentOf(row: Attendance, ss: seq<Student>, slot: StudentSchedule)
  {
    row.schedule == slot.id && exists s :: s in ss && row.student == s.id && row.admin == s.admin
  }

  lemma KeyStaysPresent(a: seq<Attendance>, b: seq<Attendance>, k: Key)
    requires a <= b && IndexOfKey(a, k).Some?
    ensures IndexOfKey(b, k).Some?
  {
    var j := IndexOfKey(a, k).value;
    assert b[j] == a[j];
  }

  lemma ExtendsTransitive(a: Sweep, b: Sweep, c: Sweep, date: Date)
    requires Extends(a, b, date) && Extends(b, c, date)
    ensures Extends(a, c, date)
  {
    forall j | |a.rows| <= j < |c.rows| ensures c.rows[j].status == "absent" && c.rows[j].date == date {
      if j < |b.rows| {
        assert c.rows[j] == b.rows[j];
      }
    }
  }

  lemma MarkStudentEffect(st: Sweep, s: Student, slot: StudentSchedule, date: Date)
    ensures var r := MarkStudent(st, s, slot, date);
            && Extends(st, r, date)
            && IndexOfKey(r.rows, Key(s.id, slot.id, date)).Some?
            && forall j :: |st.rows| <= j < |r.rows| ==>
                 r.rows[j].schedule == slot.id && r.rows[j].student == s.id && r.rows[j].admin == s.admin
  {
    var r := MarkStudent(st, s, slot, date);
    if IndexOfKey(st.rows, Key(s.id, slot.id, date)).None? {
      var a := AbsentRow(st.nextId, s, slot, date);
      AppendFreshKeepsUnique(st.rows, a);
      LookupsAfterAppend(st.rows, a);
      assert r.log == st.log + [MarkedAbsent(s.prenom, s.nom, slot.id)];
      assert r.log[..|r.log| - 1] == st.log;
    }
  }

  lemma {:induction false} MarkLevelExtends(st: Sweep, ss: seq<Student>, slot: StudentSchedule, date: Date)
    ensures Extends(st, MarkLevel(st, ss, slot, date), date)
    decreases |ss|
  {
    if ss != [] {
      var mid := MarkLevel(st, ss[..|ss| - 1], slot, date);
      MarkLevelExtends(st, ss[..|ss| - 1], slot, date);
      MarkStudentEffect(mid, ss[|ss| - 1], slot, date);
      ExtendsTransitive(st, mid, MarkStudent(mid, ss[|ss| - 1], slot, date), date);
    }
  }

  /** The students of one slot: every one of them has a row afterwards, and
      every row created is for one of them. */
  lemma MarkLevelEffect(st: Sweep, ss: seq<Student>, slot: StudentSchedule, date: Date)
    ensures var r := MarkLevel(st, ss, slot, date);
            && Extends(st, r, date)
            && (forall s :: s in ss ==> IndexOfKey(r.rows, Key(s.id, slot.id, date)).Some?)
            && forall j :: |st.rows| <= j < |r.rows| ==> ForStudentOf(r.rows[j], ss, slot)
  {
    MarkLevelExtends(st, ss, slot, date);
    MarkLevelCovers(st, ss, slot, date);
    MarkLevelCreatesFor(st, ss, slot, date);
  }

  /** After the students of one slot, each of them has a row. */
  lemma {:induction false} MarkLevelCovers(st: Sweep, ss: seq<Student>, slot: StudentSchedule, date: Date)
    ensures forall s :: s in ss ==> IndexOfKey(MarkLevel(st, ss, slot, date).rows, Key(s.id, slot.id, date)).Some?
    decreases |ss|
  {
    if ss != [] {
      var init := ss[..|ss| - 1];
      var last := ss[|ss| - 1];
      assert ss == init + [last];
      var mid := MarkLevel(st, init, slot, date);
      var r := MarkStudent(mid, last, slot, date);
      MarkLevelCovers(st, init, slot, date);
      MarkStudentEffect(mid, last, slot, date);
      forall s | s in ss ensures IndexOfKey(r.rows, Key(s.id, slot.id, date)).Some? {
        if s != last {
          assert s in init;
          KeyStaysPresent(mid.rows, r.rows, Key(s.id, slot.id, date));
        }
      }
    }
  }

  /** Every row created for the students of one slot is for one of them. */
  lemma {:induction false} MarkLevelCreatesFor(st: Sweep, ss: seq<Student>, slot: StudentSchedule, date: Date)
    ensures var r := MarkLevel(st, ss, slot, date);
            |st.rows| <= |r.rows| && forall j :: |st.rows| <= j < |r.rows| ==> ForStudentOf(r.rows[j], ss, slot)
    decreases |ss|
  {
    if ss != [] {
      var init := ss[..|ss| - 1];
      var last := ss[|ss| - 1];
      var mid := MarkLevel(st, init, slot, date);
      var r := MarkStudent(mid, last, slot, date);
      MarkLevelCreatesFor(st, init, slot, date);
      MarkStudentEffect(mid, last, slot, date);
      forall j | |st.rows| <= j < |r.rows| ensures ForStudentOf(r.rows[j], ss, slot) {
        if j < |mid.rows| {
          assert r.rows[j] == mid.rows[j];
          var s :| s in init && mid.rows[j].student == s.id && mid.rows[j].admin == s.admin;
          assert s in ss;
        } else {
          assert last in ss;
        }
      }
    }
  }

  lemma SweepSlotEffect(st: Sweep, students: seq<Student>, slot: StudentSchedule, date: Date, now: int)
    ensures var r := SweepSlot(st, students, slot, date, now);
            && Extends(st, r, date)
            && (WindowClosed(slot, now) ==> Covered(r.rows, students, [slot], date, now))
            && forall j :: |st.rows| <= j < |r.rows| ==> Justified(r.rows[j], students, [slot], now)
  {
    var r := SweepSlot(st, students, slot, date, now);
    if WindowClosed(slot, now) {
      var ss := LevelStudents(students, slot.level);
      forall s | s in students && s.level == slot.level ensures s in ss {
        FilterMembers(students, (x: Student) => x.level == slot.level, s);
      }
      if ss != [] {
        MarkLevelEffect(st, ss, slot, date);
        forall c, s | c in [slot] && s in students && WindowClosed(c, now) && s.level == c.level
          ensures IndexOfKey(r.rows, Key(s.id, c.id, date)).Some?
        {
          assert s in ss;
        }
        forall j | |st.rows| <= j < |r.rows| ensures Justified(r.rows[j], students, [slot], now) {
          var s :| s in ss && r.rows[j].student == s.id && r.rows[j].admin == s.admin;
          FilterMembers(students, (x: Student) => x.level == slot.level, s);
          assert slot in [slot];
        }
      }
    }
  }

  /** The outer loop: closed slots are covered, every row created is
      justified by one of them, and the state only grows. */
  lemma {:induction false} SweepSlotsEffect(st: Sweep, students: seq<Student>, slots: seq<StudentSchedule>,
                                            date: Date, now: int)
    ensures var r := SweepSlots(st, students, slots, date, now);
            && Extends(st, r, date)
            && Covered(r.rows, students, slots, date, now)
            && forall j :: |st.rows| <= j < |r.rows| ==> Justified(r.rows[j], students, slots, now)
    decreases |slots|
  {
    if slots != [] {
      var init := slots[..|slots| - 1];
      var last := slots[|slots| - 1];
      var mid := SweepSlots(st, students, init, date, now);
      var r := SweepSlot(mid, students, last, date, now);
      assert slots == init + [last];
      SweepSlotsEffect(st, students, init, date, now);
      SweepSlotEffect(mid, students, last, date, now);
      ExtendsTransitive(st, mid, r, date);
      forall c, s | c in slots && s in students && WindowClosed(c, now) && s.level == c.level
        ensures IndexOfKey(r.rows, Key(s.id, c.id, date)).Some?
      {
        if c != last {
          assert c in init;
          KeyStaysPresent(mid.rows, r.rows, Key(s.id, c.id, date));
        }
      }
      forall j | |st.rows| <= j < |r.rows| ensures Justified(r.rows[j], students, slots, now) {
        if j < |mid.rows| {
          assert r.rows[j] == mid.rows[j];
          var c, s :| c in init && s in students && WindowClosed(c, now) && s.level == c.level
                   && mid.rows[j].schedule == c.id && mid.rows[j].student == s.id && mid.rows[j].admin == s.admin;
          assert c in slots;
        } else {
          var c, s :| c in [last] && s in students && WindowClosed(c, now) && s.level == c.level
                   && r.rows[j].schedule == c.id && r.rows[j].student == s.id && r.rows[j].admin == s.admin;
          assert c in slots;
        }
      }
    }
  }

  /** Students who all have a row already are passed over without a write. */
  lemma {:induction false} MarkLevelNoop(st: Sweep, ss: seq<Student>, slot: StudentSchedule, date: Date)
    requires forall s :: s in ss ==> IndexOfKey(st.rows, Key(s.id, slot.id, date)).Some?
    ensures var r := MarkLevel(st, ss, slot, date);
            r.rows == st.rows && r.nextId == st.nextId && r.updated == st.updated
    decreases |ss|
  {
    if ss != [] {
      assert ss == ss[..|ss| - 1] + [ss[|ss| - 1]];
      MarkLevelNoop(st, ss[..|ss| - 1], slot, date);
    }
  }

  lemma {:induction false} SweepSlotsNoop(st: Sweep, students: seq<Student>, slots: seq<StudentSchedule>,
                                          date: Date, now: int)
    requires Covered(st.rows, students, slots, date, now)
    ensures var r := SweepSlots(st, students, slots, date, now);
            r.rows == st.rows && r.nextId == st.nextId && r.updated == st.updated
    decreases |slots|
  {
    if slots != [] {
      var init := slots[..|slots| - 1];
      var last := slots[|slots| - 1];
      assert slots == init + [last];
      assert Covered(st.rows, students, init, date, now);
      SweepSlotsNoop(st, students, init, date, now);
      var mid := SweepSlots(st, students, init, date, now);
      if WindowClosed(last, now) {
        var ss := LevelStudents(students, last.level);
        forall s | s in ss ensures IndexOfKey(mid.rows, Key(s.id, last.id, date)).Some? {
          FilterMembers(students, (x: Student) => x.level == last.level, s);
        }
        MarkLevelNoop(mid, ss, last, date);
      }
    }
  }

  /** The command only appends: existing rows, whatever their status, stay as
      they were; each new row is an `absent` row for today, for a student of
      the level of one of today's closed slots, owned by that student's admin;
      the uniqueness of (student, slot, date) is kept; ids advance by one per
      new row. */
  lemma HandleOnlyAppendsAbsences(students: seq<Student>, slots: seq<StudentSchedule>, rows: seq<Attendance>,
                                  nextId: nat, date: Date, weekday: string, now: int)
    ensures var h := Handle(students, slots, rows, nextId, date, weekday, now);
            && rows <= h.rows
            && h.nextId == nextId + (|h.rows| - |rows|)
            && (UniqueTogether(rows) ==> UniqueTogether(h.rows))
            && forall j :: |rows| <= j < |h.rows| ==>
                 (h.rows[j].status == "absent" && h.rows[j].date == date
                  && Justified(h.rows[j], students, TodaySlots(slots, weekday), now))
  {
    if TodaySlots(slots, weekday) != [] {
      SweepSlotsEffect(Sweep(rows, nextId, [], 0), students, TodaySlots(slots, weekday), date, now);
    }
  }

  /** After the command every student of the level of every one of today's
      closed slots has a row for that slot and date. */
  lemma HandleCoversClosedSlots(students: seq<Student>, slots: seq<StudentSchedule>, rows: seq<Attendance>,
                                nextId: nat, date: Date, weekday: string, now: int)
    ensures var h := Handle(students, slots, rows, nextId, date, weekday, now);
            forall c, s ::
              (c in slots && s in students && c.day == weekday && WindowClosed(c, now) && s.level == c.level)
              ==> IndexOfKey(h.rows, Key(s.id, c.id, date)).Some?
  {
    var today := TodaySlots(slots, weekday);
    var h := Handle(students, slots, rows, nextId, date, weekday, now);
    forall c | c in slots && c.day == weekday ensures c in today {
      FilterMembers(slots, (x: StudentSchedule) => x.day == weekday, c);
    }
    if today != [] {
      SweepSlotsEffect(Sweep(rows, nextId, [], 0), students, today, date, now);
    }
  }

  /** The summary line: with no slot today the only line says so and nothing
      is written; otherwise one `MarkedAbsent` line per created row, and the
      last line reports the number of rows created, or that there were none. */
  lemma HandleReportsCount(students: seq<Student>, slots: seq<StudentSchedule>, rows: seq<Attendance>,
                           nextId: nat, date: Date, weekday: string, now: int)
    ensures var h := Handle(students, slots, rows, nextId, date, weekday, now);
            && (TodaySlots(slots, weekday) == [] ==> h.log == [NoSchedulesToday] && h.rows == rows)
            && (TodaySlots(slots, weekday) != [] ==>
                  && CountMarked(h.log) == |h.rows| - |rows|
                  && |h.log| > 0
                  && h.log[|h.log| - 1] == (if |h.rows| == |rows| then NothingToMark else MarkedTotal(|h.rows| - |rows|)))
  {
    var today := TodaySlots(slots, weekday);
    if today != [] {
      var st := SweepSlots(Sweep(rows, nextId, [], 0), students, today, date, now);
      SweepSlotsEffect(Sweep(rows, nextId, [], 0), students, today, date, now);
      var h := Handle(students, slots, rows, nextId, date, weekday, now);
      assert h.log[..|h.log| - 1] == st.log;
    }
  }

  /** Running the command again, at the same time or earlier in the day,
      writes nothing and reports that there was nothing to mark. */
  lemma HandleIdempotent(students: seq<Student>, slots: seq<StudentSchedule>, rows: seq<Attendance>,
                         nextId: nat, date: Date, weekday: string, now: int, again: int)
    requires again <= now
    ensures var h := Handle(students, slots, rows, nextId, date, weekday, now);
            var h2 := Handle(students, slots, h.rows, h.nextId, date, weekday, again);
            && h2.rows == h.rows && h2.nextId == h.nextId
            && (TodaySlots(slots, weekday) != [] ==> h2.log[|h2.log| - 1] == NothingToMark)
  {
    var today := TodaySlots(slots, weekday);
    if today != [] {
      var h := Handle(students, slots, rows, nextId, date, weekday, now);
      SweepSlotsEffect(Sweep(rows, nextId, [], 0), students, today, date, now);
      assert Covered(h.rows, students, today, date, again);
      SweepSlotsNoop(Sweep(h.rows, h.nextId, [], 0), students, today, date, again);
    }
  }

  /** The inner loop of `Command.handle` over the students of one level. */
  method MarkLevelStudents(att: AttendanceTable, ss: seq<Student>, slot: StudentSchedule, date: Date,
                           log0: seq<Line>, updated0: nat)
    returns (log: seq<Line>, updated: nat)
    requires att.Valid()
    modifies att
    ensures att.Valid()
    ensures Sweep(att.rows, att.nextId, log, updated)
            == MarkLevel(Sweep(old(att.rows), old(att.nextId), log0, updated0), ss, slot, date)
  {
    ghost var before := Sweep(att.rows, att.nextId, log0, updated0);
    log, updated := log0, updated0;
    var i := 0;
    while i < |ss|
      invariant 0 <= i <= |ss|
      invariant att.Valid()
      invariant Sweep(att.rows, att.nextId, log, updated) == MarkLevel(before, ss[..i], slot, date)
    {
      var s := ss[i];
      assert ss[..i + 1][..i] == ss[..i];
      if IndexOfKey(att.rows, Key(s.id, slot.id, date)).None? {
        var created := att.Create(s.admin, s.id, slot.id, date, "absent");
        log := log + [MarkedAbsent(s.prenom, s.nom, slot.id)];
        updated := updated + 1;
      }
      i := i + 1;
    }
    assert ss[..i] == ss;
  }

  /** One pass of the outer loop of `Command.handle`: a slot whose window
      is open or whose level has no students only logs; otherwise its
      students are marked. */
  method SweepOneSlot(att: AttendanceTable, students: seq<Student>, slot: StudentSchedule, date: Date, now: int,
                      log0: seq<Line>, updated0: nat)
    returns (log: seq<Line>, updated: nat)
    requires att.Valid()
    modifies att
    ensures att.Valid()
    ensures Sweep(att.rows, att.nextId, log, updated)
            == SweepSlot(Sweep(old(att.rows), old(att.nextId), log0, updated0), students, slot, date, now)
  {
    log, updated := log0, updated0;
    if now <= slot.start + LateWindow * 60 {
      log := log + [SkipOpenWindow(slot.id)];
    } else {
      var ss := LevelStudents(students, slot.level);
      if |ss| == 0 {
        log := log + [NoStudentsInLevel(slot.level)];
      } else {
        log, updated := MarkLevelStudents(att, ss, slot, date, log, updated);
      }
    }
  }

  /** `Command.handle` over the live table. */
  method HandleCommand(att: AttendanceTable, students: seq<Student>, slots: seq<StudentSchedule>,
                       date: Date, weekday: string, now: int)
    returns (log: seq<Line>)
    requires att.Valid()
    modifies att
    ensures att.Valid()
    ensures var h := Handle(students, slots, old(att.rows), old(att.nextId), date, weekday, now);
            att.rows == h.rows && att.nextId == h.nextId && log == h.log
  {
    var today := TodaySlots(slots, weekday);
    if |today| == 0 {
      return [NoSchedulesToday];
    }
    ghost var st0 := Sweep(att.rows, att.nextId, [], 0);
    log := [];
    var updated := 0;
    var k := 0;
    while k < |today|
      invariant 0 <= k <= |today|
      invariant att.Valid()
      invariant Sweep(att.rows, att.nextId, log, updated) == SweepSlots(st0, students, today[..k], date, now)
    {
      assert today[..k + 1][..k] == today[..k];
      ghost var cur := Sweep(att.rows, att.nextId, log, updated);
      assert SweepSlots(st0, students, today[..k + 1], date, now) == SweepSlot(cur, students, today[k], date, now);
      log, updated := SweepOneSlot(att, students, today[k], date, now, log, updated);
      k := k + 1;
    }
    assert today[..k] == today;
    assert Sweep(att.rows, att.nextId, log, updated) == SweepSlots(st0, students, today, date, now);
    if updated == 0 {
      log := log + [NothingToMark];
    } else {
      log := log + [MarkedTotal(updated)];
    }
  }
}
