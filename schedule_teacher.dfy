/** The teacher timetable editor of the web client: time-string
    normalization, the overlap test between slots, the slot lookup for a grid
    cell, the default end time, the form checks, and the edits of the loaded
    slot list after the server answered. */
module TimetableEditor {
  import opened Wrappers
  import opened Text
  import opened Seqs

  /** A slot as the client holds it; times are the strings the server sent. */
  datatype Slot = Slot(id: nat, day: string, subject: nat, classe: nat, teacher: nat,
                       startTime: string, endTime: string)

  /** `normalizeTime`: an `H[:M[:S]]` string as `HH:MM:SS`, each field
      zero-padded to two characters; further fields are dropped. */
  function NormalizeTime(time: string): (r: string)
    ensures time == [] ==> r == "00:00:00"
  {
    if time == [] then "00:00:00" else JoinFields(Split(time, ':'))
  }

  /** The text of a missing field. */
  const NoField: string := "00"

  /** The first three fields, padded, or `"00"` where missing, joined by colons. */
  function JoinFields(parts: seq<string>): string
    requires |parts| >= 1
  {
    var hours := PadStart(parts[0], 2, '0');
    var minutes := if |parts| > 1 then PadStart(parts[1], 2, '0') else NoField;
    var seconds := if |parts| > 2 then PadStart(parts[2], 2, '0') else NoField;
    hours + ":" + minutes + ":" + seconds
  }

  /** Padding with zeros introduces no separator. */
  lemma PadKeepsFree(s: string)
    requires ':' !in s
    ensures ':' !in PadStart(s, 2, '0')
  {
    var r := PadStart(s, 2, '0');
    forall i | 0 <= i < |r|
      ensures r[i] != ':'
    {
      if i >= |r| - |s| {
        assert r[i] == r[|r| - |s|..][i - (|r| - |s|)];
      }
    }
  }

  /** The three fields of a normalized time are the padded fields of the
      input, or `"00"` where the input had none. */
  lemma {:induction false} NormalizeTimeFields(time: string)
    requires time != []
    ensures var parts := Split(time, ':');
            Split(NormalizeTime(time), ':')
            == [PadStart(parts[0], 2, '0'),
                if |parts| > 1 then PadStart(parts[1], 2, '0') else NoField,
                if |parts| > 2 then PadStart(parts[2], 2, '0') else NoField]
  {
    var parts := Split(time, ':');
    SplitPiecesFree(time, ':');
    PadKeepsFree(parts[0]);
    if |parts| > 1 { PadKeepsFree(parts[1]); }
    if |parts| > 2 { PadKeepsFree(parts[2]); }
    var hours := PadStart(parts[0], 2, '0');
    var minutes := if |parts| > 1 then PadStart(parts[1], 2, '0') else NoField;
    var seconds := if |parts| > 2 then PadStart(parts[2], 2, '0') else NoField;
    NoFieldValue();
    assert ':' !in NoField by {
      assert forall i :: 0 <= i < |NoField| ==> IsDigit(NoField[i]);
    }
    SplitThree(hours, minutes, seconds, ':');
  }

  /** Normalizing twice is normalizing once. */
  lemma NormalizeTimeIdempotent(time: string)
    ensures NormalizeTime(NormalizeTime(time)) == NormalizeTime(time)
  {
    NoFieldValue();
    assert ':' !in NoField by {
      assert forall i :: 0 <= i < |NoField| ==> IsDigit(NoField[i]);
    }
    if time == [] {
      assert NormalizeTime(time) == NoField + ":" + NoField + ":" + NoField;
      NormalizedStays(NoField, NoField, NoField);
    } else {
      var parts := Split(time, ':');
      SplitPiecesFree(time, ':');
      PadKeepsFree(parts[0]);
      if |parts| > 1 { PadKeepsFree(parts[1]); }
      if |parts| > 2 { PadKeepsFree(parts[2]); }
      var hh := PadStart(parts[0], 2, '0');
      var mm := if |parts| > 1 then PadStart(parts[1], 2, '0') else NoField;
      var ss := if |parts| > 2 then PadStart(parts[2], 2, '0') else NoField;
      assert NormalizeTime(time) == hh + ":" + mm + ":" + ss;
      NormalizedStays(hh, mm, ss);
    }
  }

  /** Three fields of at least two characters, joined, are already normal. */
  lemma NormalizedStays(hh: string, mm: string, ss: string)
    requires |hh| >= 2 && |mm| >= 2 && |ss| >= 2
    requires ':' !in hh && ':' !in mm && ':' !in ss
    ensures NormalizeTime(hh + ":" + mm + ":" + ss) == hh + ":" + mm + ":" + ss
  {
    var r := hh + ":" + mm + ":" + ss;
    assert r == hh + [':'] + mm + [':'] + ss;
    SplitThree(hh, mm, ss, ':');
    assert r != [];
  }

  /** The time of day, in seconds, that `new Date("1970-01-01T" + t)` denotes;
      `None` for an Invalid Date. Only `HH:MM` and `HH:MM:SS` with two digits
      per field and fields in range are read. */
  function ClockSeconds(t: string): (r: Option<int>)
    ensures r.Some? ==> 0 <= r.value < 24 * 3600
  {
    ClockOfFields(Split(t, ':'))
  }

  /** The fields of a time string as a time of day. */
  function ClockOfFields(p: seq<string>): (r: Option<int>)
    ensures r.Some? ==> 0 <= r.value < 24 * 3600
  {
    if (|p| == 2 || |p| == 3) && (forall k :: 0 <= k < |p| ==> |p[k]| == 2 && AllDigits(p[k])) then
      var h := DigitsValue(p[0]);
      var m := DigitsValue(p[1]);
      var s := if |p| == 3 then DigitsValue(p[2]) else 0;
      if h < 24 && m < 60 && s < 60 then Some(h * 3600 + m * 60 + s) else None
    else None
  }

  /** Three two-digit fields in range read as that time of day. */
  lemma ClockOfThree(a: string, b: string, c: string, h: nat, m: nat, sec: nat)
    requires |a| == 2 && |b| == 2 && |c| == 2 && AllDigits(a) && AllDigits(b) && AllDigits(c)
    requires DigitsValue(a) == h < 24 && DigitsValue(b) == m < 60 && DigitsValue(c) == sec < 60
    ensures ClockSeconds(a + ":" + b + ":" + c) == Some(h * 3600 + m * 60 + sec)
  {
    assert ':' !in a && ':' !in b && ':' !in c by {
      assert forall i :: 0 <= i < 2 ==> IsDigit(a[i]) && IsDigit(b[i]) && IsDigit(c[i]);
    }
    assert a + ":" + b + ":" + c == a + [':'] + b + [':'] + c;
    SplitThree(a, b, c, ':');
    ClockOfFieldList(a, b, c, h, m, sec);
  }

  lemma ClockOfFieldList(a: string, b: string, c: string, h: nat, m: nat, sec: nat)
    requires |a| == 2 && |b| == 2 && |c| == 2 && AllDigits(a) && AllDigits(b) && AllDigits(c)
    requires DigitsValue(a) == h < 24 && DigitsValue(b) == m < 60 && DigitsValue(c) == sec < 60
    ensures ClockOfFields([a, b, c]) == Some(h * 3600 + m * 60 + sec)
  {
    var p := [a, b, c];
    assert forall k :: 0 <= k < |p| ==> |p[k]| == 2 && AllDigits(p[k]);
  }

  lemma NoFieldValue()
    ensures |NoField| == 2 && AllDigits(NoField) && DigitsValue(NoField) == 0
  {
    assert AllZeros(NoField);
    ZerosValue(NoField);
  }

  /** JavaScript `<` and `<=` on dates: false when either side is invalid. */
  predicate Before(a: Option<int>, b: Option<int>) { a.Some? && b.Some? && a.value < b.value }

  predicate NotAfter(a: Option<int>, b: Option<int>) { a.Some? && b.Some? && a.value <= b.value }

  /** The three-way test of `isTimeOverlap` and `getClassForSlot` on
      `[start, end)` against `[sStart, sEnd)`. */
  predicate Overlap(start: Option<int>, end: Option<int>, sStart: Option<int>, sEnd: Option<int>)
  {
    (NotAfter(sStart, start) && Before(start, sEnd))
    || (Before(sStart, end) && NotAfter(end, sEnd))
    || (NotAfter(start, sStart) && NotAfter(sEnd, end))
  }

  /** On proper intervals the three-way test is the half-open intersection
      test; an invalid stored bound, or two invalid form bounds, never
      overlap. */
  lemma OverlapIsIntersection(start: Option<int>, end: Option<int>, sStart: Option<int>, sEnd: Option<int>)
    ensures (sStart.None? || sEnd.None? || (start.None? && end.None?)) ==> !Overlap(start, end, sStart, sEnd)
    ensures (start.Some? && end.Some? && sStart.Some? && sEnd.Some?
             && start.value < end.value && sStart.value < sEnd.value)
            ==> (Overlap(start, end, sStart, sEnd) <==> start.value < sEnd.value && end.value > sStart.value)
  {
  }

  /** Back-to-back slots do not overlap. */
  lemma BackToBack(a: int, b: int, c: int)
    requires a < b < c
    ensures !Overlap(Some(a), Some(b), Some(b), Some(c)) && !Overlap(Some(b), Some(c), Some(a), Some(b))
  {
  }

  /** One slot against the form's times, in either test. */
  predicate Clashes(s: Slot, start: string, end: string, day: string, excludeId: Option<nat>)
  {
    Some(s.id) != excludeId && s.day == day
    && Overlap(ClockSeconds(start), ClockSeconds(end),
               ClockSeconds(NormalizeTime(s.startTime)), ClockSeconds(NormalizeTime(s.endTime)))
  }

  /** `isTimeOverlap`: some slot of that day, other than the one being edited,
      overlaps the given times. */
  function IsTimeOverlap(schedules: seq<Slot>, start: string, end: string, day: string,
                         excludeId: Option<nat>): (r: bool)
    ensures r <==> exists i :: 0 <= i < |schedules| && Clashes(schedules[i], start, end, day, excludeId)
    decreases |schedules|
  {
    if schedules == [] then false
    else Clashes(schedules[0], start, end, day, excludeId)
         || (assert forall i :: 1 <= i < |schedules| ==> schedules[i] == schedules[1..][i - 1];
             IsTimeOverlap(schedules[1..], start, end, day, excludeId))
  }

  /** A slot on another day, or the slot being edited, never conflicts. */
  lemma OverlapIgnoresOtherSlots(schedules: seq<Slot>, s: Slot, start: string, end: string, day: string,
                                 excludeId: Option<nat>)
    requires s.day != day || Some(s.id) == excludeId
    ensures IsTimeOverlap(schedules + [s], start, end, day, excludeId)
            == IsTimeOverlap(schedules, start, end, day, excludeId)
  {
    var t := schedules + [s];
    if IsTimeOverlap(t, start, end, day, excludeId) {
      var i :| 0 <= i < |t| && Clashes(t[i], start, end, day, excludeId);
      assert i < |schedules| && t[i] == schedules[i];
    }
    if IsTimeOverlap(schedules, start, end, day, excludeId) {
      var i :| 0 <= i < |schedules| && Clashes(schedules[i], start, end, day, excludeId);
      assert t[i] == schedules[i];
    }
  }

  /** The grid cell starting at `time` and lasting two hours, as a pair of
      dates (`setHours(+2)` keeps an Invalid Date invalid). */
  function Cell(time: string): (Option<int>, Option<int>)
  {
    var slotStart := ClockSeconds(time);
    (slotStart, if slotStart.Some? then Some(slotStart.value + 2 * 3600) else None)
  }

  /** A slot of that day meets the cell. */
  predicate InCell(c: Slot, day: string, cell: (Option<int>, Option<int>))
  {
    c.day == day
    && Overlap(ClockSeconds(NormalizeTime(c.startTime)), ClockSeconds(NormalizeTime(c.endTime)), cell.0, cell.1)
  }

  /** `getClassForSlot`: the first slot of that day meeting the two-hour cell
      at `time`. */
  function GetClassForSlot(schedules: seq<Slot>, day: string, time: string): (r: Option<nat>)
    ensures r.Some? ==> r.value < |schedules| && InCell(schedules[r.value], day, Cell(time))
                        && forall j :: 0 <= j < r.value ==> !InCell(schedules[j], day, Cell(time))
    ensures r.None? ==> forall j :: 0 <= j < |schedules| ==> !InCell(schedules[j], day, Cell(time))
  {
    FirstInCell(schedules, day, Cell(time), 0)
  }

  function FirstInCell(schedules: seq<Slot>, day: string, cell: (Option<int>, Option<int>), from: nat): (r: Option<nat>)
    requires from <= |schedules|
    ensures r.Some? ==> from <= r.value < |schedules| && InCell(schedules[r.value], day, cell)
                        && forall j :: from <= j < r.value ==> !InCell(schedules[j], day, cell)
    ensures r.None? ==> forall j :: from <= j < |schedules| ==> !InCell(schedules[j], day, cell)
    decreases |schedules| - from
  {
    FirstFrom(schedules, (c: Slot) => InCell(c, day, cell), from)
  }

  /** JavaScript `Number(s)` on a field of a time string: the empty string is
      0, a run of digits its value, anything else `NaN` (`None`). */
  function JsNumber(s: string): (r: Option<nat>)
    ensures AllDigits(s) <==> r.Some?
  {
    if AllDigits(s) then Some(DigitsValue(s)) else None
  }

  /** A number as a two-character field; `NaN` prints as itself. */
  function Field(n: Option<nat>): string
  {
    if n.Some? then PadStart(NatToString(n.value), 2, '0') else "NaN"
  }

  /** `getEndTime`: two hours after the start, same minutes, zero seconds,
      with no wrap past midnight. A start without `:` leaves `minutes`
      undefined, and its `.toString()` throws: `None`. */
  function GetEndTime(startTime: string): (r: Option<string>)
    ensures r.None? <==> ':' !in startTime
  {
    var parts := Split(startTime, ':');
    if |parts| < 2 then
      assert ':' !in startTime by { if ':' in startTime { SplitAtSep(startTime, ':'); } }
      None
    else
      assert ':' in startTime by { if ':' !in startTime { SplitNoSep(startTime, ':'); } }
      var hours := JsNumber(parts[0]);
      var minutes := JsNumber(parts[1]);
      var endHours := if hours.Some? then Some(hours.value + 2) else None;
      Some(Field(endHours) + ":" + Field(minutes) + ":" + NoField)
  }

  /** The start times the editor's grid offers, `timeSlots`. */
  const TimeSlots: seq<string> :=
    ["08:00:00", "09:00:00", "10:00:00", "11:00:00", "12:00:00", "13:00:00", "14:00:00", "15:00:00", "16:00:00"]

  /** For an `HH:MM` start the end reads as hour + 2 (possibly 24 or more),
      the same minute, and second `"00"`. */
  lemma GetEndTimeFields(h: string, m: string)
    requires AllDigits(h) && AllDigits(m)
    ensures GetEndTime(h + ":" + m).Some?
    ensures var f := Split(GetEndTime(h + ":" + m).value, ':');
            && |f| == 3 && AllDigits(f[0]) && AllDigits(f[1]) && f[2] == NoField
            && DigitsValue(f[0]) == DigitsValue(h) + 2 && DigitsValue(f[1]) == DigitsValue(m)
  {
    DigitsHaveNoColon(h);
    DigitsHaveNoColon(m);
    SplitTwo(h, m, ':');
    EndTimeOfParts(h + ":" + m, h, m);
  }

  /** For an `HH:MM:SS` start, the form the grid passes, the end reads as
      hour + 2, the same minute, and second `"00"`: the seconds are dropped. */
  lemma GetEndTimeOfClock(h: string, m: string, sec: string)
    requires AllDigits(h) && AllDigits(m) && AllDigits(sec)
    ensures GetEndTime(h + ":" + m + ":" + sec).Some?
    ensures var f := Split(GetEndTime(h + ":" + m + ":" + sec).value, ':');
            && |f| == 3 && AllDigits(f[0]) && AllDigits(f[1]) && f[2] == NoField
            && DigitsValue(f[0]) == DigitsValue(h) + 2 && DigitsValue(f[1]) == DigitsValue(m)
  {
    DigitsHaveNoColon(h);
    DigitsHaveNoColon(m);
    DigitsHaveNoColon(sec);
    assert h + ":" + m + ":" + sec == h + [':'] + m + [':'] + sec;
    SplitThree(h, m, sec, ':');
    EndTimeOfParts(h + ":" + m + ":" + sec, h, m);
  }

  /** Every slot of the grid, `hh:00:00`, gets an end two hours later on the
      hour: its hour field reads two more than the slot's, its minute 0 and
      its second `"00"`. */
  lemma TimeSlotEndsTwoHoursLater(i: nat)
    requires i < |TimeSlots|
    ensures var hh := TimeSlots[i][..2];
            AllDigits(hh) && DigitsValue(hh) == i + 8 && TimeSlots[i] == hh + ":" + NoField + ":" + NoField
    ensures GetEndTime(TimeSlots[i]).Some?
    ensures var f := Split(GetEndTime(TimeSlots[i]).value, ':');
            && |f| == 3 && AllDigits(f[0]) && AllDigits(f[1]) && f[2] == NoField
            && DigitsValue(f[0]) == i + 10 && DigitsValue(f[1]) == 0
  {
    var hh := TimeSlots[i][..2];
    assert TimeSlots[i] == hh + ":" + NoField + ":" + NoField;
    assert hh[0] == (if i < 2 then '0' else '1') && hh[1] as int == (if i < 2 then i + 8 else i - 2) + '0' as int by {
      assert i in {0, 1, 2, 3, 4, 5, 6, 7, 8};
    }
    assert AllDigits(hh) by {
      assert forall k :: 0 <= k < 2 ==> IsDigit(hh[k]);
    }
    TwoDigitsValue(hh);
    NoFieldValue();
    GetEndTimeOfClock(hh, NoField, NoField);
  }

  /** The end for a start whose first two fields are the digit strings `h`
      and `m`. */
  lemma EndTimeOfParts(start: string, h: string, m: string)
    requires AllDigits(h) && AllDigits(m)
    requires var p := Split(start, ':'); |p| >= 2 && p[0] == h && p[1] == m
    ensures GetEndTime(start).Some?
    ensures var f := Split(GetEndTime(start).value, ':');
            && |f| == 3 && AllDigits(f[0]) && AllDigits(f[1]) && f[2] == NoField
            && DigitsValue(f[0]) == DigitsValue(h) + 2 && DigitsValue(f[1]) == DigitsValue(m)
  {
    EndTimeSplit(start, h, m);
    PadZerosValue(NatToString(DigitsValue(h) + 2), 2);
    PadZerosValue(NatToString(DigitsValue(m)), 2);
    NatToStringValue(DigitsValue(h) + 2);
    NatToStringValue(DigitsValue(m));
  }

  /** The fields of that end. */
  lemma EndTimeSplit(start: string, h: string, m: string)
    requires AllDigits(h) && AllDigits(m)
    requires var p := Split(start, ':'); |p| >= 2 && p[0] == h && p[1] == m
    ensures GetEndTime(start).Some?
    ensures Split(GetEndTime(start).value, ':') == [Field(Some(DigitsValue(h) + 2)), Field(Some(DigitsValue(m))), NoField]
  {
    var a := Field(Some(DigitsValue(h) + 2));
    var b := Field(Some(DigitsValue(m)));
    PadZerosValue(NatToString(DigitsValue(h) + 2), 2);
    PadZerosValue(NatToString(DigitsValue(m)), 2);
    DigitsHaveNoColon(a);
    DigitsHaveNoColon(b);
    NoFieldValue();
    DigitsHaveNoColon(NoField);
    assert GetEndTime(start) == Some(a + [':'] + b + [':'] + NoField);
    SplitThree(a, b, NoField, ':');
  }

  lemma TwoDigitsValue(s: string)
    requires |s| == 2 && AllDigits(s)
    ensures DigitsValue(s) == (s[0] as int - '0' as int) * 10 + (s[1] as int - '0' as int)
  {
    assert s[..1][..0] == [] && s[..1][0] == s[0];
    assert DigitsValue(s[..1]) == s[0] as int - '0' as int;
  }

  lemma DigitsHaveNoColon(s: string)
    requires AllDigits(s)
    ensures ':' !in s
  {
    assert forall i :: 0 <= i < |s| ==> IsDigit(s[i]);
  }

  /** The slot form. A zero id stands for an empty select. */
  datatype Form = Form(id: Option<nat>, subject: nat, classe: nat, teacher: nat, day: string,
                       startTime: string, endTime: string)

  datatype FormError =
    | SubjectRequired
    | ClassroomRequired
    | TeacherRequired
    | DayRequired
    | TimesRequired
    | EndNotAfterStart
    | TimeConflict

  /** `validateForm`: the first failing check, in the order subject,
      classroom, teacher, day, both times, end after start, no conflict. */
  function ValidateForm(f: Form, schedules: seq<Slot>): (r: Option<FormError>)
    ensures r == Some(SubjectRequired) <==> f.subject == 0
    ensures r == Some(ClassroomRequired) <==> f.subject != 0 && f.classe == 0
    ensures r == Some(TeacherRequired) <==> f.subject != 0 && f.classe != 0 && f.teacher == 0
    ensures r == Some(DayRequired) <==> f.subject != 0 && f.classe != 0 && f.teacher != 0 && f.day == []
    ensures (r.None? || r.value in {TimesRequired, EndNotAfterStart, TimeConflict})
            <==> f.subject != 0 && f.classe != 0 && f.teacher != 0 && f.day != []
    ensures r == Some(TimesRequired)
            <==> (f.subject != 0 && f.classe != 0 && f.teacher != 0 && f.day != []
                  && (f.startTime == [] || f.endTime == []))
    ensures r == Some(EndNotAfterStart)
            <==> (f.subject != 0 && f.classe != 0 && f.teacher != 0 && f.day != []
                  && f.startTime != [] && f.endTime != []
                  && NotAfter(ClockSeconds(f.endTime), ClockSeconds(f.startTime)))
    ensures r == Some(TimeConflict)
            <==> (f.subject != 0 && f.classe != 0 && f.teacher != 0 && f.day != []
                  && f.startTime != [] && f.endTime != []
                  && !NotAfter(ClockSeconds(f.endTime), ClockSeconds(f.startTime))
                  && IsTimeOverlap(schedules, f.startTime, f.endTime, f.day, f.id))
    ensures r.None?
            <==> (f.subject != 0 && f.classe != 0 && f.teacher != 0 && f.day != []
                  && f.startTime != [] && f.endTime != []
                  && !NotAfter(ClockSeconds(f.endTime), ClockSeconds(f.startTime))
                  && !IsTimeOverlap(schedules, f.startTime, f.endTime, f.day, f.id))
  {
    if f.subject == 0 then Some(SubjectRequired)
    else if f.classe == 0 then Some(ClassroomRequired)
    else if f.teacher == 0 then Some(TeacherRequired)
    else if f.day == [] then Some(DayRequired)
    else if f.startTime == [] || f.endTime == [] then Some(TimesRequired)
    else if NotAfter(ClockSeconds(f.endTime), ClockSeconds(f.startTime)) then Some(EndNotAfterStart)
    else if IsTimeOverlap(schedules, f.startTime, f.endTime, f.day, f.id) then Some(TimeConflict)
    else None
  }

  /** A form that passes, with readable times, is an interval disjoint from
      every other well-formed slot of that day. */
  lemma AcceptedFormIsDisjoint(f: Form, schedules: seq<Slot>, i: nat)
    requires ValidateForm(f, schedules).None?
    requires ClockSeconds(f.startTime).Some? && ClockSeconds(f.endTime).Some?
    requires i < |schedules| && schedules[i].day == f.day && Some(schedules[i].id) != f.id
    requires var c := schedules[i];
             var cs := ClockSeconds(NormalizeTime(c.startTime));
             var ce := ClockSeconds(NormalizeTime(c.endTime));
             cs.Some? && ce.Some? && cs.value < ce.value
    ensures var cs := ClockSeconds(NormalizeTime(schedules[i].startTime)).value;
            var ce := ClockSeconds(NormalizeTime(schedules[i].endTime)).value;
            ClockSeconds(f.endTime).value <= cs || ce <= ClockSeconds(f.startTime).value
  {
    assert !Clashes(schedules[i], f.startTime, f.endTime, f.day, f.id);
    var c := schedules[i];
    OverlapIsIntersection(ClockSeconds(f.startTime), ClockSeconds(f.endTime),
                          ClockSeconds(NormalizeTime(c.startTime)), ClockSeconds(NormalizeTime(c.endTime)));
  }

  datatype EditError = Invalid(reason: FormError) | RequestFailed(message: string) | NoSelection

  /** The slot list of the editor page. */
  class Timetable {
    var schedules: seq<Slot>

    constructor (loaded: seq<Slot>)
      ensures schedules == loaded
    {
      schedules := loaded;
    }

    /** `handleSaveNewClass`: a form that fails validation, or a refused
        request, changes nothing; otherwise the server's slot is appended. */
    method SaveNewClass(f: Form, response: Result<Slot, string>) returns (err: Option<EditError>)
      modifies this
      ensures var v := ValidateForm(f, old(schedules));
              && (v.Some? ==> err == Some(Invalid(v.value)) && schedules == old(schedules))
              && (v.None? && response.Err? ==> err == Some(RequestFailed(response.error)) && schedules == old(schedules))
              && (v.None? && response.Ok? ==> err.None? && schedules == old(schedules) + [response.value])
    {
      var v := ValidateForm(f, schedules);
      if v.Some? {
        return Some(Invalid(v.value));
      }
      if response.Err? {
        return Some(RequestFailed(response.error));
      }
      schedules := schedules + [response.value];
      err := None;
    }

    /** `handleUpdateClass`: after validation and a successful request, every
        slot with the form's id is replaced by the server's slot, in place. */
    method UpdateClass(f: Form, response: Result<Slot, string>) returns (err: Option<EditError>)
      modifies this
      ensures var v := ValidateForm(f, old(schedules));
              && (v.Some? ==> err == Some(Invalid(v.value)) && schedules == old(schedules))
              && (v.None? && response.Err? ==> err == Some(RequestFailed(response.error)) && schedules == old(schedules))
              && (v.None? && response.Ok?
                  ==> err.None? && schedules == ReplaceWhere(old(schedules), (c: Slot) => Some(c.id) == f.id, response.value))
    {
      var v := ValidateForm(f, schedules);
      if v.Some? {
        return Some(Invalid(v.value));
      }
      if response.Err? {
        return Some(RequestFailed(response.error));
      }
      schedules := ReplaceWhere(schedules, (c: Slot) => Some(c.id) == f.id, response.value);
      err := None;
    }

    /** `handleDeleteClass`: without a selected slot (or with id 0) nothing
        changes; after a successful request every slot with that id goes. */
    method DeleteClass(selected: Option<Slot>, response: Result<(), string>) returns (err: Option<EditError>)
      modifies this
      ensures (selected.None? || selected.value.id == 0) ==> err == Some(NoSelection) && schedules == old(schedules)
      ensures (selected.Some? && selected.value.id != 0 && response.Err?)
              ==> err == Some(RequestFailed(response.error)) && schedules == old(schedules)
      ensures (selected.Some? && selected.value.id != 0 && response.Ok?)
              ==> err.None? && schedules == Filter(old(schedules), (c: Slot) => c.id != selected.value.id)
    {
      if selected.None? || selected.value.id == 0 {
        return Some(NoSelection);
      }
      if response.Err? {
        return Some(RequestFailed(response.error));
      }
      var id := selected.value.id;
      schedules := Filter(schedules, (c: Slot) => c.id != id);
      err := None;
    }
  }

  /** After a delete exactly the slots with another id remain. */
  lemma DeleteRemovesExactlyThatId(schedules: seq<Slot>, id: nat, c: Slot)
    ensures c in Filter(schedules, (s: Slot) => s.id != id) <==> c in schedules && c.id != id
  {
    FilterMembers(schedules, (s: Slot) => s.id != id, c);
  }
}
