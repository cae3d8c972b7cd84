/** The teacher timetable slot (`Schedule_t`): its weekday choices and
    default, the `clean` check on its times, its unique key, and the default
    ordering by (day, start time) in which the database returns slots. */
module TeacherScheduleModel {
  import opened Wrappers
  import opened Dates

  /** The day a slot gets when none is given. */
  const DefaultDay: string := "MON"

  /** The display name Django attaches to each declared day choice. */
  function DayName(code: string): (name: Option<string>)
    ensures name.Some? <==> code in DayCodes
  {
    match code
    case "MON" => Some("Monday")
    case "TUE" => Some("Tuesday")
    case "WED" => Some("Wednesday")
    case "THU" => Some("Thursday")
    case "FRI" => Some("Friday")
    case "SAT" => Some("Saturday")
    case "SUN" => Some("Sunday")
    case _ => None
  }

  lemma DefaultDayIsChoice()
    ensures DefaultDay in DayCodes && DayName(DefaultDay) == Some("Monday")
  {
  }

  /** A teacher slot; `start` and `end` are seconds since midnight. */
  datatype ScheduleT = ScheduleT(
    id: nat, admin: nat, day: string, teacher: nat, classe: nat, subject: nat, start: int, end: int)

  /** The single message `clean` raises. */
  const EndBeforeStart: string := "End time must be later than start time."

  /** `Schedule_t.clean`: accepts exactly the slots that end after they start. */
  function Clean(s: ScheduleT): (r: Result<(), string>)
    ensures r.Ok? <==> s.start < s.end
    ensures r.Err? ==> r.error == EndBeforeStart
  {
    if s.start >= s.end then Err(EndBeforeStart) else Ok(())
  }

  /** The fields of the `unique_teacher_schedule` constraint. */
  datatype SlotKey = SlotKey(teacher: nat, classe: nat, subject: nat, day: string, start: int)

  function KeyOfSlot(s: ScheduleT): SlotKey { SlotKey(s.teacher, s.classe, s.subject, s.day, s.start) }

  ghost predicate SlotKeysUnique(rows: seq<ScheduleT>)
  {
    forall i, j :: 0 <= i < |rows| && 0 <= j < |rows| && i != j ==> KeyOfSlot(rows[i]) != KeyOfSlot(rows[j])
  }

  predicate KeyTaken(rows: seq<ScheduleT>, k: SlotKey)
  {
    exists i :: 0 <= i < |rows| && KeyOfSlot(rows[i]) == k
  }

  /** An insert as the database performs it: refused when the unique key is
      already taken, appended otherwise. (`clean` is not part of a save.) */
  function InsertSlot(rows: seq<ScheduleT>, s: ScheduleT): (r: Result<seq<ScheduleT>, SlotKey>)
    ensures r.Err? <==> KeyTaken(rows, KeyOfSlot(s))
    ensures r.Ok? ==> r.value == rows + [s]
    ensures r.Ok? && SlotKeysUnique(rows) ==> SlotKeysUnique(r.value)
  {
    if KeyTaken(rows, KeyOfSlot(s)) then Err(KeyOfSlot(s))
    else
      assert forall i :: 0 <= i < |rows| ==> (rows + [s])[i] == rows[i];
      Ok(rows + [s])
  }

  /** Character-by-character comparison of two strings, as the database
      collates the three-letter day codes. */
  predicate StringLess(a: string, b: string)
    decreases |a|
  {
    if a == [] then b != []
    else if b == [] then false
    else a[0] < b[0] || (a[0] == b[0] && StringLess(a[1..], b[1..]))
  }

  lemma {:induction false} StringLessIrreflexive(a: string)
    ensures !StringLess(a, a)
    decreases |a|
  {
    if a != [] {
      StringLessIrreflexive(a[1..]);
    }
  }

  lemma {:induction false} StringLessTransitive(a: string, b: string, c: string)
    requires StringLess(a, b) && StringLess(b, c)
    ensures StringLess(a, c)
    decreases |a|
  {
    if a != [] && b != [] && c != [] && a[0] == b[0] && b[0] == c[0] {
      StringLessTransitive(a[1..], b[1..], c[1..]);
    }
  }

  lemma {:induction false} StringLessTotal(a: string, b: string)
    requires a != b
    ensures StringLess(a, b) || StringLess(b, a)
    decreases |a|
  {
    if a != [] && b != [] && a[0] == b[0] {
      assert a == [a[0]] + a[1..] && b == [b[0]] + b[1..];
      StringLessTotal(a[1..], b[1..]);
    }
  }

  /** `ordering = ['day', 'start_time']`: `a` may come before `b`. */
  predicate OrderedBefore(a: ScheduleT, b: ScheduleT)
  {
    StringLess(a.day, b.day) || (a.day == b.day && a.start <= b.start)
  }

  lemma OrderedBeforeTotal(a: ScheduleT, b: ScheduleT)
    ensures OrderedBefore(a, b) || OrderedBefore(b, a)
  {
    if a.day != b.day {
      StringLessTotal(a.day, b.day);
    }
  }

  lemma OrderedBeforeTransitive(a: ScheduleT, b: ScheduleT, c: ScheduleT)
    requires OrderedBefore(a, b) && OrderedBefore(b, c)
    ensures OrderedBefore(a, c)
  {
    if StringLess(a.day, b.day) && StringLess(b.day, c.day) {
      StringLessTransitive(a.day, b.day, c.day);
    }
  }

  ghost predicate Ordered(rows: seq<ScheduleT>)
  {
    forall i, j :: 0 <= i < j < |rows| ==> OrderedBefore(rows[i], rows[j])
  }

  /** Places `s` in an ordered sequence before the first slot it may precede. */
  function InsertOrdered(s: ScheduleT, rows: seq<ScheduleT>): (r: seq<ScheduleT>)
    ensures multiset(r) == multiset(rows) + multiset{s}
    ensures |r| == |rows| + 1
    decreases |rows|
  {
    if rows == [] || OrderedBefore(s, rows[0]) then [s] + rows
    else
      assert rows == [rows[0]] + rows[1..];
      [rows[0]] + InsertOrdered(s, rows[1..])
  }

  lemma {:induction false} InsertOrderedKeepsOrder(s: ScheduleT, rows: seq<ScheduleT>)
    requires Ordered(rows)
    ensures Ordered(InsertOrdered(s, rows))
    decreases |rows|
  {
    var r := InsertOrdered(s, rows);
    if rows == [] || OrderedBefore(s, rows[0]) {
      forall i, j | 0 <= i < j < |r| ensures OrderedBefore(r[i], r[j]) {
        if i == 0 && j > 1 {
          OrderedBeforeTransitive(s, rows[0], rows[j - 1]);
        }
      }
    } else {
      OrderedBeforeTotal(s, rows[0]);
      InsertOrderedKeepsOrder(s, rows[1..]);
      var tail := InsertOrdered(s, rows[1..]);
      forall j | 0 <= j < |tail| ensures OrderedBefore(rows[0], tail[j]) {
        assert tail[j] in multiset(tail);
        assert tail[j] in multiset(rows[1..]) + multiset{s};
        if tail[j] != s {
          assert tail[j] in multiset(rows[1..]);
          var k :| 0 <= k < |rows[1..]| && rows[1..][k] == tail[j];
          assert rows[k + 1] == tail[j];
        }
      }
    }
  }

  /** The slots in the database's default order. Slots that compare equal keep
      their table order (the database leaves their order open). */
  function SortedSlots(rows: seq<ScheduleT>): (r: seq<ScheduleT>)
    ensures multiset(r) == multiset(rows) && |r| == |rows|
    decreases |rows|
  {
    if rows == [] then []
    else
      assert rows == [rows[0]] + rows[1..];
      InsertOrdered(rows[0], SortedSlots(rows[1..]))
  }

  lemma {:induction false} SortedSlotsOrdered(rows: seq<ScheduleT>)
    ensures Ordered(SortedSlots(rows))
    decreases |rows|
  {
    if rows != [] {
      SortedSlotsOrdered(rows[1..]);
      InsertOrderedKeepsOrder(rows[0], SortedSlots(rows[1..]));
    }
  }

  /** Slots of one weekday in the default order are in order of start time. */
  lemma OrderedSameDayByStart(rows: seq<ScheduleT>, day: string)
    requires Ordered(rows)
    requires forall i :: 0 <= i < |rows| ==> rows[i].day == day
    ensures forall i, j :: 0 <= i < j < |rows| ==> rows[i].start <= rows[j].start
  {
    StringLessIrreflexive(day);
  }
}
