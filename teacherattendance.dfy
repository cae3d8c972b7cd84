/** The administrator's teacher attendance board: the per-teacher map from
    `date-subject-schedule` keys to statuses that the board fills from the
    server's list, the statistics shown for a teacher, the lookup of one
    cell, the weekday helpers of the week grid, and the optimistic update
    with its rollback. */
module TeacherAttendanceBoard {
  import opened Wrappers
  import opened Text
  import opened Dates
  import opened Seqs
  import opened JsValues
  import TeacherSerializers

  /** A reference field of a record in the server's JSON: `null`, missing,
      a nested object with an id, or a bare primary key. */
  datatype Ref = Null | Absent | AsObject(id: nat) | AsNumber(id: nat)

  /** One row of the teacher attendance list. */
  datatype Record = Record(id: nat, date: string, subject: Ref, schedule: Ref, status: string)

  /** `!record.subject` fails for `null`, a missing field and the key 0. */
  predicate SubjectGiven(r: Ref)
  {
    r.AsObject? || (r.AsNumber? && r.id != 0)
  }

  /** `typeof record.schedule === "object" ? record.schedule?.id
      : record.schedule || "no-schedule"`, as written. Since `typeof null`
      is `"object"`, a `null` schedule gives `undefined`. */
  function ScheduleValue(r: Ref): (v: JsVal)
    ensures r.Null? ==> v == Undefined
    ensures r.Absent? || r == AsNumber(0) ==> v == Str("no-schedule")
    ensures r.AsObject? || (r.AsNumber? && r.id != 0) ==> v == Num(r.id)
  {
    match r
    case Null => Undefined
    case Absent => Str("no-schedule")
    case AsObject(id) => Num(id)
    case AsNumber(id) => if id == 0 then Str("no-schedule") else Num(id)
  }

  /** The schedule part the `|| "no-schedule"` fallback evidently intends:
      `null` and a missing schedule both read as `no-schedule`. The board's
      keys and matches below use it. */
  function IntendedScheduleValue(r: Ref): (v: JsVal)
    ensures r.Null? || r.Absent? || r == AsNumber(0) ==> v == Str("no-schedule")
    ensures r.AsObject? || (r.AsNumber? && r.id != 0) ==> v == ScheduleValue(r)
  {
    if r.Null? then Str("no-schedule") else ScheduleValue(r)
  }

  /** The status the board keeps for a server status, as written:
      `en_attente` becomes `att`, `retard`, `present` and `absent` pass,
      anything else (the stored `att` included) is dropped. */
  function FetchStatus(s: string): (r: Option<string>)
    ensures r.Some? <==> s in ["retard", "en_attente", "present", "absent"]
    ensures r.Some? ==> r.value in ["present", "absent", "retard"] + ["att"]
    ensures r == Some("att") <==> s == "en_attente"
  {
    if s == "retard" then Some("retard")
    else if s == "en_attente" then Some("att")
    else if s == "present" || s == "absent" then Some(s)
    else None
  }

  /** The four statuses the board shows. */
  predicate BoardStatus(s: string)
  {
    s == "present" || s == "absent" || s == "retard" || s == "att"
  }

  /** The reading of a server status that accepts the stored `att` as well
      as the `en_attente` spelling; the fetch below uses it. */
  function ReadStatus(s: string): (r: Option<string>)
    ensures r.Some? <==> BoardStatus(s) || s == "en_attente"
    ensures r.Some? ==> BoardStatus(r.value)
    ensures r == Some("att") <==> s == "att" || s == "en_attente"
    ensures BoardStatus(s) ==> r == Some(s)
  {
    if BoardStatus(s) then Some(s)
    else if s == "en_attente" then Some("att")
    else None
  }

  /** Wherever the written reading keeps a status, the corrected one keeps
      the same; it also keeps the stored `att`. */
  lemma ReadStatusExtendsFetchStatus(s: string)
    ensures FetchStatus(s).Some? ==> ReadStatus(s) == FetchStatus(s)
    ensures FetchStatus("att").None? && ReadStatus("att") == Some("att")
  {
  }

  /** A record the fetch keeps. */
  predicate Kept(r: Record)
  {
    r.date != "" && SubjectGiven(r.subject) && ReadStatus(r.status).Some?
  }

  function SubjectKey(r: Ref): nat
  {
    match r
    case AsObject(id) => id
    case AsNumber(id) => id
    case _ => 0
  }

  /** `${record.date}-${subjectId}-${scheduleId}`, with the intended
      schedule part. */
  function RecordKey(r: Record): string
  {
    r.date + "-" + NatToString(SubjectKey(r.subject)) + "-" + KeyText(IntendedScheduleValue(r.schedule))
  }

  /** The key as written, with `ScheduleValue`. */
  function WrittenRecordKey(r: Record): string
  {
    r.date + "-" + NatToString(SubjectKey(r.subject)) + "-" + KeyText(ScheduleValue(r.schedule))
  }

  /** The map the fetch builds from the list, in list order: a later record
      with the same key overwrites an earlier one. */
  function Normalized(records: seq<Record>): map<string, string>
    decreases |records|
  {
    if records == [] then map[]
    else
      var m := Normalized(records[..|records| - 1]);
      var r := records[|records| - 1];
      if Kept(r) then m[RecordKey(r) := ReadStatus(r.status).value] else m
  }

  /** Every status in a fetched map is one of the four the board shows. */
  lemma {:induction false} NormalizedValues(records: seq<Record>)
    ensures forall k :: k in Normalized(records) ==> BoardStatus(Normalized(records)[k])
    decreases |records|
  {
    if records != [] {
      NormalizedValues(records[..|records| - 1]);
    }
  }

  /** Every key of a fetched map comes from a record the fetch keeps. */
  lemma {:induction false} NormalizedKeys(records: seq<Record>)
    ensures forall k :: k in Normalized(records) ==>
              exists j :: 0 <= j < |records| && Kept(records[j]) && RecordKey(records[j]) == k
    decreases |records|
  {
    if records != [] {
      var init := records[..|records| - 1];
      NormalizedKeys(init);
      assert forall j :: 0 <= j < |init| ==> init[j] == records[j];
    }
  }

  /** The last kept record with a given key decides that key's status. */
  lemma {:induction false} NormalizedLastWins(records: seq<Record>, i: nat)
    requires i < |records| && Kept(records[i])
    requires forall j :: i < j < |records| && Kept(records[j]) ==> RecordKey(records[j]) != RecordKey(records[i])
    ensures RecordKey(records[i]) in Normalized(records)
    ensures Normalized(records)[RecordKey(records[i])] == ReadStatus(records[i].status).value
    decreases |records|
  {
    if i < |records| - 1 {
      var init := records[..|records| - 1];
      assert init[i] == records[i];
      assert forall j :: i < j < |init| ==> init[j] == records[j];
      NormalizedLastWins(init, i);
    }
  }

  /** The `forEach` of `fetchAttendance` over the list. */
  method NormalizeRecords(records: seq<Record>) returns (m: map<string, string>)
    ensures m == Normalized(records)
  {
    m := map[];
    var i := 0;
    while i < |records|
      invariant 0 <= i <= |records|
      invariant m == Normalized(records[..i])
    {
      var r := records[i];
      assert records[..i + 1][..i] == records[..i];
      if r.date != "" && SubjectGiven(r.subject) {
        var key := r.date + "-" + NatToString(SubjectKey(r.subject)) + "-" + KeyText(IntendedScheduleValue(r.schedule));
        var status := ReadStatus(r.status);
        if status.Some? {
          m := m[key := status.value];
        }
      }
      i := i + 1;
    }
    assert records[..i] == records;
  }

  /** `statusMap` as written: the board's statuses with `att` spelled
      `en_attente`; any other key is `undefined`. */
  function StatusMap(s: string): (r: Option<string>)
    ensures r.Some? <==> BoardStatus(s)
  {
    if s == "present" || s == "absent" || s == "retard" then Some(s)
    else if s == "att" then Some("en_attente")
    else None
  }

  /** Within the board, sending a status through `statusMap` and reading it
      back through the written fetch gives the same status. */
  lemma StatusMapRoundTrip(s: string)
    requires BoardStatus(s)
    ensures FetchStatus(StatusMap(s).value) == Some(s)
  {
  }

  /** As written, the pending status goes to the server as `en_attente`,
      which the serializer's status check refuses, and a stored `att` row is
      dropped by the fetch. */
  lemma PendingStatusRefused()
    ensures StatusMap("att") == Some("en_attente")
    ensures TeacherSerializers.ValidateStatus(StatusMap("att").value).Err?
    ensures FetchStatus("att") == None
  {
    TeacherSerializers.EnAttenteIsRejected();
  }

  /** The mapping the serializer accepts: each choice under its own name;
      the payload below uses it. */
  function ServerStatus(s: string): (r: Option<string>)
    ensures r.Some? <==> BoardStatus(s)
  {
    if BoardStatus(s) then Some(s) else None
  }

  /** With the corrected mapping every board status passes the serializer
      and reads back as itself. */
  lemma ServerStatusAccepted(s: string)
    requires BoardStatus(s)
    ensures TeacherSerializers.ValidateStatus(ServerStatus(s).value) == Ok(s)
    ensures ReadStatus(ServerStatus(s).value) == Some(s)
    ensures s != "att" ==> ServerStatus(s) == StatusMap(s)
  {
  }

  /** A JavaScript `Date` as the board receives it: missing, invalid, or a
      calendar date. */
  datatype DateArg = NoDate | InvalidDate | ValidDate(d: Date)

  /** `formatDateKey`: the unpadded full year, then the month and day padded
      to two digits; `null` for a missing or invalid date. */
  function FormatDateKey(date: DateArg): (r: Option<string>)
    ensures r.Some? <==> date.ValidDate?
  {
    match date
    case ValidDate(d) => Some(NatToString(d.year) + "-" + Padded(d.month, 2) + "-" + Padded(d.day, 2))
    case _ => None
  }

  lemma FourDigitYear(y: nat)
    requires y >= 1000
    ensures |NatToString(y)| >= 4
  {
    assert NatToString(y) == NatToString(y / 10) + [DigitChar(y % 10)];
    assert NatToString(y / 10) == NatToString(y / 100) + [DigitChar(y / 10 % 10)];
    assert NatToString(y / 100) == NatToString(y / 1000) + [DigitChar(y / 100 % 10)];
  }

  /** The key splits into the year, month and day, the month and day carry
      at least two digits and every field keeps its value. */
  lemma FormatDateKeyFields(d: Date)
    ensures var k := FormatDateKey(ValidDate(d)).value;
            && Split(k, '-') == [NatToString(d.year), Padded(d.month, 2), Padded(d.day, 2)]
            && |Padded(d.month, 2)| >= 2 && |Padded(d.day, 2)| >= 2
            && DigitsValue(NatToString(d.year)) == d.year
            && DigitsValue(Padded(d.month, 2)) == d.month && DigitsValue(Padded(d.day, 2)) == d.day
  {
    var y := NatToString(d.year);
    NatToStringValue(d.year);
    forall i | 0 <= i < |y|
      ensures y[i] != '-'
    {
      assert IsDigit(y[i]);
    }
    SplitThree(y, Padded(d.month, 2), Padded(d.day, 2), '-');
  }

  /** From year 1000 on the key is the `YYYY-MM-DD` text the server stores. */
  lemma FormatDateKeyIso(d: Date)
    requires d.year >= 1000
    ensures FormatDateKey(ValidDate(d)).value == IsoDate(d)
  {
    var y := NatToString(d.year);
    FourDigitYear(d.year);
    var p := PadStart(y, 4, '0');
    assert p == p[|p| - |y|..];
  }

  /** The key `getAttendanceStatus` and the update build for a cell; an
      invalid date is printed as `null`. */
  function LookupKey(date: DateArg, subjectId: nat, scheduleId: JsVal): string
  {
    var f := FormatDateKey(date);
    (if f.Some? then f.value else "null") + "-" + NatToString(subjectId) + "-" + KeyText(scheduleId)
  }

  /** `getAttendanceStatus`: nothing for a missing argument or an unloaded
      teacher, otherwise the status under the cell's key, if any. */
  function GetAttendanceStatus(data: map<nat, map<string, string>>, teacherId: nat, subjectId: nat,
                               date: DateArg, scheduleId: JsVal): (r: Option<string>)
    ensures (teacherId == 0 || teacherId !in data || subjectId == 0 || date.NoDate? || !Truthy(scheduleId)) ==> r.None?
    ensures r.Some? <==>
              teacherId != 0 && teacherId in data && subjectId != 0 && !date.NoDate? && Truthy(scheduleId)
              && LookupKey(date, subjectId, scheduleId) in data[teacherId]
              && data[teacherId][LookupKey(date, subjectId, scheduleId)] != ""
    ensures r.Some? ==> r.value == data[teacherId][LookupKey(date, subjectId, scheduleId)]
  {
    if teacherId == 0 || teacherId !in data || subjectId == 0 || date.NoDate? || !Truthy(scheduleId) then None
    else
      var key := LookupKey(date, subjectId, scheduleId);
      if key in data[teacherId] && data[teacherId][key] != "" then Some(data[teacherId][key]) else None
  }

  /** A cell built from a record's own date, subject and schedule asks for
      that record's key. */
  lemma LookupKeyOfRecord(r: Record, d: Date)
    requires r.date == IsoDate(d) && d.year >= 1000
    ensures LookupKey(ValidDate(d), SubjectKey(r.subject), IntendedScheduleValue(r.schedule)) == RecordKey(r)
  {
    FormatDateKeyIso(d);
  }

  /** A record stored with a four-digit year and a subject key is found
      again by the cell that shows that date, subject and schedule (the
      `no-schedule` cell for a record without one), with the status the
      fetch read, as long as no later record of the list shares its key. */
  lemma LookupFindsFetchedRecord(records: seq<Record>, i: nat, teacher: nat, d: Date, data: map<nat, map<string, string>>)
    requires i < |records| && Kept(records[i]) && teacher != 0 && SubjectKey(records[i].subject) != 0
    requires forall j :: i < j < |records| && Kept(records[j]) ==> RecordKey(records[j]) != RecordKey(records[i])
    requires records[i].date == IsoDate(d) && d.year >= 1000
    requires Truthy(IntendedScheduleValue(records[i].schedule))
    requires teacher in data && data[teacher] == Normalized(records)
    ensures GetAttendanceStatus(data, teacher, SubjectKey(records[i].subject), ValidDate(d), IntendedScheduleValue(records[i].schedule))
         == ReadStatus(records[i].status)
  {
    var r := records[i];
    LookupKeyOfRecord(r, d);
    NormalizedLastWins(records, i);
    var v := ReadStatus(r.status).value;
    assert v != "" by {
      assert BoardStatus(v);
    }
  }

  /** As written, a record whose schedule is `null` is keyed `...-undefined`
      and matched against `undefined`, so neither the `no-schedule` cell's
      lookup nor its update query finds it. */
  lemma NullScheduleKeyedUndefined(r: Record, d: Date)
    requires Kept(r) && r.schedule.Null? && r.date == IsoDate(d) && d.year >= 1000
    ensures WrittenRecordKey(r) != LookupKey(ValidDate(d), SubjectKey(r.subject), Str("no-schedule"))
    ensures !WrittenMatches(r, SubjectKey(r.subject), Str("no-schedule"), r.date)
  {
    FormatDateKeyIso(d);
    var prefix := r.date + "-" + NatToString(SubjectKey(r.subject)) + "-";
    assert WrittenRecordKey(r) == prefix + "undefined";
    assert LookupKey(ValidDate(d), SubjectKey(r.subject), Str("no-schedule")) == prefix + "no-schedule";
    assert |prefix + "undefined"| != |prefix + "no-schedule"|;
  }

  /** With the intended key a record without a schedule lands on the
      `no-schedule` cell of its date and subject, and the update query of
      that cell matches it. */
  lemma IntendedKeyMatchesLookup(r: Record, d: Date)
    requires Kept(r) && (r.schedule.Null? || r.schedule.Absent?) && r.date == IsoDate(d) && d.year >= 1000
    ensures RecordKey(r) == LookupKey(ValidDate(d), SubjectKey(r.subject), Str("no-schedule"))
    ensures Matches(r, SubjectKey(r.subject), Str("no-schedule"), r.date)
  {
    FormatDateKeyIso(d);
  }

  /** The statistics shown for one teacher. */
  datatype Stats = Stats(present: nat, absent: nat, retard: nat, att: nat, percentage: nat)

  /** The number of keys holding status `s`. */
  function CountOf(m: map<string, string>, s: string): nat
  {
    |set k | k in m && m[k] == s|
  }

  lemma {:induction false} SubsetSize<T>(a: set<T>, b: set<T>)
    requires a <= b
    ensures |a| <= |b|
    decreases |a|
  {
    if a != {} {
      var x :| x in a;
      SubsetSize(a - {x}, b - {x});
    }
  }

  lemma CountBound(m: map<string, string>, s: string)
    ensures CountOf(m, s) <= |m|
  {
    var ks := set k | k in m && m[k] == s;
    SubsetSize(ks, m.Keys);
  }

  /** `Math.round(present / total * 100)` in exact arithmetic: the nearest
      integer, halves rounded up. */
  function RoundPercent(present: nat, total: nat): (p: nat)
    requires 0 < total && present <= total
    ensures p <= 100
    ensures p * 2 * total <= 200 * present + total < (p + 1) * 2 * total
  {
    var q := (200 * present + total) / (2 * total);
    assert 200 * present + total < 202 * total;
    assert q * (2 * total) <= 200 * present + total;
    q
  }

  /** `calculateAttendance`: all zero for a teacher not loaded, otherwise
      the count of each status and the rounded share of `present` keys. */
  function CalculateAttendance(data: map<nat, map<string, string>>, teacherId: nat): (st: Stats)
    ensures teacherId !in data || |data[teacherId]| == 0 ==> st == Stats(0, 0, 0, 0, 0)
    ensures teacherId in data ==>
              && st.present == CountOf(data[teacherId], "present") && st.absent == CountOf(data[teacherId], "absent")
              && st.retard == CountOf(data[teacherId], "retard") && st.att == CountOf(data[teacherId], "att")
    ensures teacherId in data ==>
              st.present <= |data[teacherId]| && st.absent <= |data[teacherId]|
              && st.retard <= |data[teacherId]| && st.att <= |data[teacherId]|
    ensures st.percentage <= 100
    ensures teacherId in data && |data[teacherId]| > 0 ==>
              st.percentage * 2 * |data[teacherId]| <= 200 * st.present + |data[teacherId]|
              < (st.percentage + 1) * 2 * |data[teacherId]|
  {
    if teacherId !in data then Stats(0, 0, 0, 0, 0)
    else
      var m := data[teacherId];
      CountBound(m, "present");
      CountBound(m, "absent");
      CountBound(m, "retard");
      CountBound(m, "att");
      var p := CountOf(m, "present");
      Stats(p, CountOf(m, "absent"), CountOf(m, "retard"), CountOf(m, "att"),
            if |m| > 0 then RoundPercent(p, |m|) else 0)
  }

  /** When every value is one of the four statuses, the four counts add up
      to the number of keys; a fetched map is such a map. */
  lemma CountsPartition(m: map<string, string>)
    requires forall k :: k in m ==> BoardStatus(m[k])
    ensures CountOf(m, "present") + CountOf(m, "absent") + CountOf(m, "retard") + CountOf(m, "att") == |m|
  {
    var p := set k | k in m && m[k] == "present";
    var a := set k | k in m && m[k] == "absent";
    var r := set k | k in m && m[k] == "retard";
    var t := set k | k in m && m[k] == "att";
    assert p * a == {} && (p + a) * r == {} && (p + a + r) * t == {};
    assert p + a + r + t == m.Keys;
    assert |m.Keys| == |m|;
  }

  lemma FetchedCountsPartition(records: seq<Record>)
    ensures var m := Normalized(records);
            CountOf(m, "present") + CountOf(m, "absent") + CountOf(m, "retard") + CountOf(m, "att") == |m|
  {
    NormalizedValues(records);
    CountsPartition(Normalized(records));
  }

  const DayNames: seq<string> := ["Sunday", "Monday", "Tuesday", "Wednesday", "Thursday", "Friday", "Saturday"]

  /** `getDayName`: the English name of a `getDay()` number, `Unknown`
      outside 0 to 6. */
  function GetDayName(n: int): (r: string)
    ensures 0 <= n < 7 ==> r == DayNames[n]
    ensures !(0 <= n < 7) ==> r == "Unknown"
    ensures r == "Unknown" <==> !(0 <= n < 7)
  {
    if 0 <= n < 7 then DayNames[n] else "Unknown"
  }

  /** The spellings a weekday name stands for; any other name stands for
      itself. */
  function Aliases(dayName: string): (r: seq<string>)
    ensures dayName in r
  {
    if dayName == "Monday" then ["Monday", "Mon", "monday", "mon", "MON"]
    else if dayName == "Tuesday" then ["Tuesday", "Tue", "tuesday", "tue", "TUE"]
    else if dayName == "Wednesday" then ["Wednesday", "Wed", "wednesday", "wed", "WED"]
    else if dayName == "Thursday" then ["Thursday", "Thu", "thursday", "thu", "THU"]
    else if dayName == "Friday" then ["Friday", "Fri", "friday", "fri", "FRI"]
    else [dayName]
  }

  /** One slot of the selected teacher's timetable. */
  datatype ClassSlot = ClassSlot(id: nat, day: string, subject: nat)

  /** `getSchedulesForDay`: the slots whose day is one of the name's
      spellings, in timetable order. */
  function GetSchedulesForDay(dayName: string, schedules: seq<ClassSlot>): (r: seq<ClassSlot>)
    ensures forall s :: s in r <==> s in schedules && s.day != "" && s.day in Aliases(dayName)
  {
    var keep := (s: ClassSlot) => s.day != "" && s.day in Aliases(dayName);
    forall s ensures s in Filter(schedules, keep) <==> s in schedules && keep(s) {
      FilterMembers(schedules, keep, s);
    }
    Filter(schedules, keep)
  }

  /** From Monday to Friday, the grid column of `getDay()` number `i + 1`
      shows the slots stored under the weekday code `DayCodes[i]`. */
  lemma WeekdayColumnsShowStoredCodes(i: nat, s: ClassSlot, schedules: seq<ClassSlot>)
    requires i < 5 && s in schedules && s.day == DayCodes[i]
    ensures s in GetSchedulesForDay(GetDayName(i + 1), schedules)
  {
  }

  /** The request the update sends: an update of the first matching row, or
      a create. */
  datatype Payload = Payload(teacher: nat, subject: nat, schedule: JsVal, date: string, status: Option<string>)
  datatype Request = Put(rowId: nat, body: Payload) | Post(body: Payload)

  /** The match of the query result against the cell, with the intended
      schedule part. */
  predicate Matches(r: Record, subjectId: nat, scheduleId: JsVal, date: string)
  {
    SubjectKey(r.subject) == subjectId && IntendedScheduleValue(r.schedule) == scheduleId && r.date == date
  }

  /** The match as written, with `ScheduleValue`. */
  predicate WrittenMatches(r: Record, subjectId: nat, scheduleId: JsVal, date: string)
  {
    SubjectKey(r.subject) == subjectId && ScheduleValue(r.schedule) == scheduleId && r.date == date
  }

  /** `apiData`: the cell's references, the formatted date, and the status
      under the name the serializer accepts. */
  function MakePayload(teacher: nat, subjectId: nat, scheduleId: JsVal, date: string, status: string): (p: Payload)
    ensures p.teacher == teacher && p.subject == subjectId && p.schedule == scheduleId && p.date == date
    ensures p.status.Some? <==> BoardStatus(status)
    ensures p.status.Some? ==> TeacherSerializers.ValidateStatus(p.status.value) == Ok(status)
  {
    Payload(teacher, subjectId, scheduleId, date, ServerStatus(status))
  }

  /** `find` over the rows of the query, then put or post. */
  function ChooseRequest(existing: seq<Record>, body: Payload): (q: Request)
    ensures q.body == body
    ensures q.Post? <==> forall r :: r in existing ==> !Matches(r, body.subject, body.schedule, body.date)
    ensures q.Put? ==> exists j :: 0 <= j < |existing| && existing[j].id == q.rowId
                          && Matches(existing[j], body.subject, body.schedule, body.date)
                          && forall k :: 0 <= k < j ==> !Matches(existing[k], body.subject, body.schedule, body.date)
  {
    FirstMatch(existing, body, 0)
  }

  function FirstMatch(existing: seq<Record>, body: Payload, from: nat): (q: Request)
    requires from <= |existing|
    requires forall k :: 0 <= k < from ==> !Matches(existing[k], body.subject, body.schedule, body.date)
    ensures q.body == body
    ensures q.Post? <==> forall r :: r in existing ==> !Matches(r, body.subject, body.schedule, body.date)
    ensures q.Put? ==> exists j :: 0 <= j < |existing| && existing[j].id == q.rowId
                          && Matches(existing[j], body.subject, body.schedule, body.date)
                          && forall k :: 0 <= k < j ==> !Matches(existing[k], body.subject, body.schedule, body.date)
    decreases |existing| - from
  {
    if from == |existing| then Post(body)
    else if Matches(existing[from], body.subject, body.schedule, body.date) then Put(existing[from].id, body)
    else FirstMatch(existing, body, from + 1)
  }

  /** The outcome of the update's requests: the query fails, or it returns
      rows, after which the write and then the refetch may each fail. */
  datatype UpdateOutcome =
    | QueryFailed(message: string)
    | Queried(existing: seq<Record>, write: Result<(), string>, refetch: Result<seq<Record>, string>)

  datatype UpdateError = MissingData | BadDate | Failed(message: string)

  /** A teacher's map, `{}` when the teacher is not loaded. */
  function TeacherMap(data: map<nat, map<string, string>>, t: nat): map<string, string>
  {
    if t in data then data[t] else map[]
  }

  /** Setting a key and then deleting it leaves the map without that key:
      the other keys are back as they were, the previous value at the key
      is gone. */
  lemma RollbackForgetsKey(m: map<string, string>, key: string, status: string)
    ensures m[key := status] - {key} == m - {key}
    ensures forall k :: k != key ==> (k in m[key := status] - {key} <==> k in m)
  {
  }

  /** What `Submit` reports, sends and leaves behind, as a function of the
      map before it. */
  function Submitted(data: map<nat, map<string, string>>, t: nat, key: string, body: Payload, status: string,
                     outcome: UpdateOutcome): (res: (Option<UpdateError>, Option<Request>, map<nat, map<string, string>>))
    ensures t in res.2 && forall u :: u != t ==> (u in res.2 <==> u in data) && (u in data ==> res.2[u] == data[u])
    ensures res.0.None? ==> outcome.Queried? && outcome.write.Ok?
    ensures res.0.Some? ==> res.2[t] == TeacherMap(data, t) - {key}
    ensures (res.1.Some? <==> outcome.Queried?)
  {
    match outcome
    case QueryFailed(message) => (Some(Failed(message)), None, data[t := TeacherMap(data, t) - {key}])
    case Queried(existing, write, refetch) =>
      var q := Some(ChooseRequest(existing, body));
      if write.Err? then (Some(Failed(write.error)), q, data[t := TeacherMap(data, t) - {key}])
      else if refetch.Ok? then (None, q, data[t := Normalized(refetch.value)])
      else (None, q, data[t := TeacherMap(data, t)[key := status]])
  }

  /** The board's state: the loaded maps per teacher and the in-flight flag. */
  class Board {
    var data: map<nat, map<string, string>>
    var updating: bool

    constructor ()
      ensures data == map[] && !updating
    {
      data := map[];
      updating := false;
    }

    /** `fetchAttendance`: the selected teacher's map is replaced by the
        fetched one; nothing changes without a selection or on a failed
        request. */
    method FetchAttendance(selected: Option<nat>, response: Result<seq<Record>, string>)
      modifies this
      ensures updating == old(updating)
      ensures data == if selected.Some? && response.Ok? then old(data)[selected.value := Normalized(response.value)]
                      else old(data)
    {
      if selected.None? {
        return;
      }
      if response.Ok? {
        var m := NormalizeRecords(response.value);
        data := data[selected.value := m];
      }
    }

    /** The optimistic write of one cell. */
    method SetOptimistic(t: nat, key: string, status: string)
      modifies this
      ensures updating == old(updating)
      ensures data == old(data)[t := TeacherMap(old(data), t)[key := status]]
    {
      data := data[t := TeacherMap(data, t)[key := status]];
    }

    /** The rollback after a failed request: that one key is deleted. */
    method Rollback(t: nat, key: string)
      modifies this
      ensures updating == old(updating)
      ensures data == old(data)[t := TeacherMap(old(data), t) - {key}]
    {
      data := data[t := TeacherMap(data, t) - {key}];
    }

    /** The part of `updateAttendanceStatus` after its checks, for teacher
        `t` and the cell's `key`: the cell is set at once, the request chosen
        from the query's rows is sent, and a failure deletes the key again.
        After a successful write the refetched list replaces the teacher's
        map; a failed refetch leaves the optimistic value. */
    method Submit(t: nat, key: string, body: Payload, status: string, outcome: UpdateOutcome)
      returns (err: Option<UpdateError>, sent: Option<Request>)
      modifies this
      ensures updating == old(updating)
      ensures outcome.QueryFailed? ==> sent.None? && err == Some(Failed(outcome.message))
                                       && data == old(data)[t := TeacherMap(old(data), t) - {key}]
      ensures outcome.Queried? ==> sent == Some(ChooseRequest(outcome.existing, body))
      ensures outcome.Queried? && outcome.write.Err? ==>
                err == Some(Failed(outcome.write.error)) && data == old(data)[t := TeacherMap(old(data), t) - {key}]
      ensures outcome.Queried? && outcome.write.Ok? && outcome.refetch.Ok? ==>
                err.None? && data == old(data)[t := Normalized(outcome.refetch.value)]
      ensures outcome.Queried? && outcome.write.Ok? && outcome.refetch.Err? ==>
                err.None? && data == old(data)[t := TeacherMap(old(data), t)[key := status]]
    {
      ghost var before := TeacherMap(data, t);
      SetOptimistic(t, key, status);
      RollbackForgetsKey(before, key, status);
      match outcome {
        case QueryFailed(message) =>
          err, sent := Some(Failed(message)), None;
          Rollback(t, key);
        case Queried(existing, write, refetch) =>
          sent := Some(ChooseRequest(existing, body));
          if write.Err? {
            err := Some(Failed(write.error));
            Rollback(t, key);
          } else {
            err := None;
            FetchAttendance(Some(t), refetch);
          }
      }
    }

    /** `updateAttendanceStatus`: refused while another update runs or an
        argument is missing, refused for an invalid date, otherwise submitted
        under the cell's key with the payload built from the arguments; the
        in-flight flag is cleared at the end. */
    method UpdateAttendanceStatus(selected: Option<nat>, subjectId: nat, date: DateArg, status: string,
                                  scheduleId: JsVal, outcome: UpdateOutcome)
      returns (err: Option<UpdateError>, sent: Option<Request>)
      modifies this
      ensures (old(updating) || selected.None? || subjectId == 0 || date.NoDate? || !Truthy(scheduleId))
              ==> err == Some(MissingData) && sent.None? && data == old(data) && updating == old(updating)
      ensures !old(updating) && selected.Some? && subjectId != 0 && Truthy(scheduleId) && date.InvalidDate?
              ==> err == Some(BadDate) && sent.None? && data == old(data) && !updating
      ensures !old(updating) && selected.Some? && subjectId != 0 && Truthy(scheduleId) && date.ValidDate? ==>
                !updating &&
                var t := selected.value;
                var res := Submitted(old(data), t, LookupKey(date, subjectId, scheduleId),
                                     MakePayload(t, subjectId, scheduleId, FormatDateKey(date).value, status),
                                     status, outcome);
                err == res.0 && sent == res.1 && data == res.2
    {
      sent := None;
      if updating || selected.None? || subjectId == 0 || date.NoDate? || !Truthy(scheduleId) {
        return Some(MissingData), None;
      }
      var day := FormatDateKey(date);
      if day.None? {
        updating := false;
        return Some(BadDate), None;
      }
      var t := selected.value;
      var key := day.value + "-" + NatToString(subjectId) + "-" + KeyText(scheduleId);
      updating := true;
      err, sent := Submit(t, key, MakePayload(t, subjectId, scheduleId, day.value, status), status, outcome);
      updating := false;
    }

    /** `deleteAttendance`: refused for a missing argument or an invalid
        date; when the query returns a matching row, the delete request for
        it is sent, and only when the server accepts it (`removal`) is the
        cell's key removed and the list refetched. A refused delete lands in
        the `catch` and leaves the maps as they were. */
    method DeleteAttendance(selected: Option<nat>, subjectId: nat, date: DateArg, scheduleId: JsVal,
                            existing: Result<seq<Record>, string>, removal: Result<(), string>,
                            refetch: Result<seq<Record>, string>)
      returns (err: Option<UpdateError>, deleted: Option<nat>)
      modifies this
      ensures updating == old(updating)
      ensures (selected.None? || subjectId == 0 || date.NoDate? || !Truthy(scheduleId) || date.InvalidDate? || existing.Err?)
              ==> err.Some? && deleted.None? && data == old(data)
      ensures deleted.Some? <==>
                selected.Some? && subjectId != 0 && date.ValidDate? && Truthy(scheduleId) && existing.Ok?
                && (exists r :: r in existing.value && Matches(r, subjectId, scheduleId, FormatDateKey(date).value))
                && removal.Ok?
      ensures (selected.Some? && subjectId != 0 && date.ValidDate? && Truthy(scheduleId) && existing.Ok?
               && (exists r :: r in existing.value && Matches(r, subjectId, scheduleId, FormatDateKey(date).value))
               && removal.Err?)
              ==> err == Some(Failed(removal.error))
      ensures deleted.Some? ==>
                && err.None?
                && ChooseRequest(existing.value, MakePayload(selected.value, subjectId, scheduleId, FormatDateKey(date).value, "")).Put?
                && deleted.value == ChooseRequest(existing.value, MakePayload(selected.value, subjectId, scheduleId, FormatDateKey(date).value, "")).rowId
                && data == (var cleared := old(data)[selected.value := TeacherMap(old(data), selected.value) - {LookupKey(date, subjectId, scheduleId)}];
                            if refetch.Ok? then cleared[selected.value := Normalized(refetch.value)] else cleared)
      ensures deleted.None? ==> err.Some? && data == old(data)
    {
      deleted := None;
      if selected.None? || subjectId == 0 || date.NoDate? || !Truthy(scheduleId) {
        return Some(MissingData), None;
      }
      var day := FormatDateKey(date);
      if day.None? {
        return Some(BadDate), None;
      }
      if existing.Err? {
        return Some(Failed(existing.error)), None;
      }
      var t := selected.value;
      var q := ChooseRequest(existing.value, MakePayload(t, subjectId, scheduleId, day.value, ""));
      if q.Post? {
        return Some(Failed("No attendance record found to delete.")), None;
      }
      if removal.Err? {
        return Some(Failed(removal.error)), None;
      }
      deleted := Some(q.rowId);
      err := None;
      Rollback(t, day.value + "-" + NatToString(subjectId) + "-" + KeyText(scheduleId));
      FetchAttendance(selected, refetch);
    }
  }
}
