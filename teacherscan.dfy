/** The teacher's scan screen on the phone: the attendance map from
    `date-subjectId` keys to statuses, loaded from the teacher attendance
    list and kept current by the live `attendance_update` messages. */
module TeacherScanScreen {
  import opened Wrappers
  import opened Text
  import opened Dates
  import opened JsValues
  import opened Records
  import ScanReconciliation
  import TeacherSerializers

  /** The statuses the screen shows. */
  const ShownStatuses: seq<string> := ["present", "absent", "retard", "att", "not_set"]

  /** The status normalization of both the load and the live path, as
      written:
      `late` is read as `retard`, `en_attente` as `att`, `present` and
      `absent` pass, anything else is `not_set`. */
  function NormalizeStatus(s: string): (r: string)
    ensures r in ShownStatuses
    ensures r == "retard" <==> s == "late"
    ensures r == "att" <==> s == "en_attente"
    ensures r == "present" <==> s == "present"
    ensures r == "absent" <==> s == "absent"
    ensures r == "not_set" <==> s !in ["late", "en_attente", "present", "absent"]
  {
    if s == "late" then "retard"
    else if s == "en_attente" then "att"
    else if s == "present" || s == "absent" then s
    else "not_set"
  }

  /** As written, the stored choices `retard` and `att` of the teacher
      attendance table are shown as `not_set`. */
  lemma StoredLateShownUnset()
    ensures "retard" in TeacherSerializers.TeacherStatusChoices && NormalizeStatus("retard") == "not_set"
    ensures "att" in TeacherSerializers.TeacherStatusChoices && NormalizeStatus("att") == "not_set"
  {
  }

  /** The reading that also knows the stored spellings of the late and
      pending statuses; the screen below uses it. */
  function ShownStatus(s: string): (r: string)
    ensures r in ShownStatuses
  {
    if s in TeacherSerializers.TeacherStatusChoices then s else NormalizeStatus(s)
  }

  /** With that reading every stored choice is shown as itself, and whatever
      the screen already understood is shown as before. */
  lemma ShownStatusKeepsChoices(s: string)
    ensures s in TeacherSerializers.TeacherStatusChoices ==> ShownStatus(s) == s
    ensures NormalizeStatus(s) != "not_set" && s !in TeacherSerializers.TeacherStatusChoices
            ==> ShownStatus(s) == NormalizeStatus(s)
  {
  }

  /** The `subject` field of a listed record: `null`, a nested object, or a
      bare primary key. */
  datatype Subject = NullSubject | SubjectObj(id: nat) | SubjectId(id: nat)

  /** One listed record: its date text, subject and status. */
  datatype Record = Record(date: string, subject: Subject, status: string)

  /** `record.date.split('T')[0]`. */
  function DatePart(date: string): string
  {
    Split(date, 'T')[0]
  }

  /** The date part of a date with a time of day is the date. */
  lemma DatePartOfTimestamp(date: string, time: string)
    requires 'T' !in date
    ensures DatePart(date + "T" + time) == date && DatePart(date) == date
  {
    SplitJoin(date, time, 'T');
    SplitNoSep(date, 'T');
  }

  /** The key of a listed record, or nothing for a `null` subject (whose
      `.id` throws). */
  function RecordKey(r: Record): Option<string>
  {
    match r.subject
    case NullSubject => None
    case SubjectObj(id) => Some(DatePart(r.date) + "-" + NatToString(id))
    case SubjectId(id) => Some(DatePart(r.date) + "-" + NatToString(id))
  }

  /** The map the load builds, in list order, with each status read by
      `ShownStatus`; a single record with a `null` subject throws and loses
      the whole load. */
  function Loaded(records: seq<Record>): (r: Option<map<string, string>>)
    ensures r.Some? <==> forall i :: 0 <= i < |records| ==> !records[i].subject.NullSubject?
    decreases |records|
  {
    if records == [] then Some(map[])
    else
      var m := Loaded(records[..|records| - 1]);
      var last := records[|records| - 1];
      var key := RecordKey(last);
      if m.None? || key.None? then None
      else Some(m.value[key.value := ShownStatus(last.status)])
  }

  /** Every key of a load comes from one of the records, and its status is
      one of the shown ones. */
  lemma {:induction false} LoadedKeys(records: seq<Record>)
    requires Loaded(records).Some?
    ensures forall k :: k in Loaded(records).value ==>
              Loaded(records).value[k] in ShownStatuses
              && exists i :: 0 <= i < |records| && RecordKey(records[i]) == Some(k)
    decreases |records|
  {
    if records != [] {
      var init := records[..|records| - 1];
      LoadedKeys(init);
      assert forall i :: 0 <= i < |init| ==> init[i] == records[i];
    }
  }

  /** The last record with a given key decides that key's status. */
  lemma {:induction false} LoadedLastWins(records: seq<Record>, i: nat)
    requires Loaded(records).Some? && i < |records|
    requires forall j :: i < j < |records| ==> RecordKey(records[j]) != RecordKey(records[i])
    ensures RecordKey(records[i]).Some?
    ensures RecordKey(records[i]).value in Loaded(records).value
    ensures Loaded(records).value[RecordKey(records[i]).value] == ShownStatus(records[i].status)
    decreases |records|
  {
    if i < |records| - 1 {
      var init := records[..|records| - 1];
      assert init[i] == records[i];
      assert forall j :: i < j < |init| ==> init[j] == records[j];
      LoadedLastWins(init, i);
    }
  }

  /** The fields of a live message the handler reads. */
  datatype Message = Message(kind: string, teacherId: JsVal, subjectId: JsVal, date: string, status: string)

  /** The handler's test: the update type and the profile's teacher id. */
  predicate ForTeacher(m: Message, teacher: nat)
  {
    m.kind == "attendance_update" && m.teacherId != Undefined && KeyText(m.teacherId) == NatToString(teacher)
  }

  /** A message with the update type but no teacher id makes `.toString()`
      throw. */
  predicate Throws(m: Message)
  {
    m.kind == "attendance_update" && m.teacherId == Undefined
  }

  /** `${data.date}-${data.subjectId}`; a `null` subject prints as `null`. */
  function MessageKey(m: Message): string
  {
    m.date + "-" + (if m.subjectId == Undefined then "null" else KeyText(m.subjectId))
  }

  /** The map after a message: for the profile's teacher exactly the
      message's key is set to the status `ShownStatus` reads; otherwise
      nothing changes. */
  function ApplyMessage(data: map<string, string>, teacher: nat, m: Message): (r: map<string, string>)
    ensures !ForTeacher(m, teacher) ==> r == data
    ensures ForTeacher(m, teacher) ==> MessageKey(m) in r && r[MessageKey(m)] == ShownStatus(m.status)
    ensures forall k :: k != MessageKey(m) ==> (k in r <==> k in data) && (k in r ==> r[k] == data[k])
  {
    if ForTeacher(m, teacher) then data[MessageKey(m) := ShownStatus(m.status)] else data
  }

  /** The live message a teacher write of the scan handler sends, as the
      phone parses it. */
  function FromBroadcast(b: ScanReconciliation.Broadcast): Message
    requires b.TeacherUpdate?
  {
    Message("attendance_update", Num(b.teacherId), if b.subjectId.Some? then Num(b.subjectId.value) else Undefined,
            b.date, b.status)
  }

  /** A teacher scan classified `offset` seconds after the slot start, for a
      teacher with a subject, reaches the teacher's own screen under the same
      key the next load files the stored row under, with the same status. */
  lemma ScanMatchesNextLoad(tid: nat, subject: nat, slot: nat, d: Date, offset: int, data: map<string, string>)
    ensures var st := ScanReconciliation.ClassifyTeacher(offset);
            var m := FromBroadcast(ScanReconciliation.TeacherUpdate(tid, Some(subject), slot, IsoDate(d), Lower(st)));
            var row := Record(IsoDate(d), SubjectId(subject), st);
            && ForTeacher(m, tid)
            && RecordKey(row) == Some(MessageKey(m))
            && ApplyMessage(data, tid, m)[MessageKey(m)] == st
            && ShownStatus(st) == st
  {
    ScanReconciliation.ClassifyTeacherIsLowercase(offset);
    DateHasNoT(d);
    UpdateMatchesLoad(tid, subject, slot, IsoDate(d), ScanReconciliation.ClassifyTeacher(offset), data);
  }

  /** A teacher update for a date without a time part, with a lowercase
      stored choice, files under the load's key and shows that choice. */
  lemma UpdateMatchesLoad(tid: nat, subject: nat, slot: nat, date: string, st: string, data: map<string, string>)
    requires 'T' !in date && st in ["present", "absent"] && Lower(st) == st
    ensures var m := FromBroadcast(ScanReconciliation.TeacherUpdate(tid, Some(subject), slot, date, Lower(st)));
            var row := Record(date, SubjectId(subject), st);
            && ForTeacher(m, tid)
            && RecordKey(row) == Some(MessageKey(m))
            && ApplyMessage(data, tid, m)[MessageKey(m)] == st
            && ShownStatus(st) == st
  {
    SplitNoSep(date, 'T');
  }

  lemma DateHasNoT(d: Date)
    ensures 'T' !in IsoDate(d)
  {
    var y, m, a := Padded(d.year, 4), Padded(d.month, 2), Padded(d.day, 2);
    forall i | 0 <= i < |IsoDate(d)|
      ensures IsoDate(d)[i] != 'T'
    {
      if i < |y| {
        assert IsoDate(d)[i] == y[i] && IsDigit(y[i]);
      } else if i == |y| || i == |y| + 1 + |m| {
        assert IsoDate(d)[i] == '-';
      } else if i < |y| + 1 + |m| {
        assert IsoDate(d)[i] == m[i - |y| - 1] && IsDigit(m[i - |y| - 1]);
      } else {
        assert IsoDate(d)[i] == a[i - |y| - 2 - |m|] && IsDigit(a[i - |y| - 2 - |m|]);
      }
    }
  }

  /** The screen's state: the attendance map and the version counter whose
      change triggers a fresh load. */
  class Screen {
    var data: map<string, string>
    var version: nat

    constructor ()
      ensures data == map[] && version == 0
    {
      data := map[];
      version := 0;
    }

    /** `fetchAttendance`: the `forEach` over the list; a load that throws
        or a failed request leaves the map as it was. */
    method FetchAttendance(teacher: nat, response: Result<seq<Record>, string>) returns (failed: bool)
      modifies this
      ensures version == old(version)
      ensures failed <==> teacher != 0 && (response.Err? || Loaded(response.value).None?)
      ensures data == if teacher != 0 && response.Ok? && Loaded(response.value).Some?
                      then Loaded(response.value).value else old(data)
    {
      if teacher == 0 {
        return false;
      }
      if response.Err? {
        return true;
      }
      var records := response.value;
      var m: map<string, string> := map[];
      var i := 0;
      while i < |records|
        invariant 0 <= i <= |records|
        invariant Loaded(records[..i]) == Some(m)
      {
        assert records[..i + 1][..i] == records[..i];
        var r := records[i];
        if r.subject.NullSubject? {
          assert Loaded(records).None? by {
            assert records[i].subject.NullSubject?;
          }
          return true;
        }
        var key := DatePart(r.date) + "-" + NatToString(r.subject.id);
        m := m[key := ShownStatus(r.status)];
        i := i + 1;
      }
      assert records[..i] == records;
      data := m;
      failed := false;
    }

    /** `ws.onmessage` for the profile's `teacher`: an accepted message
        sets its key and bumps the version; a message without a teacher id
        throws and changes nothing. */
    method OnMessage(teacher: nat, m: Message) returns (failed: bool)
      modifies this
      ensures failed <==> Throws(m)
      ensures data == ApplyMessage(old(data), teacher, m)
      ensures version == if ForTeacher(m, teacher) then old(version) + 1 else old(version)
    {
      if m.kind == "attendance_update" && m.teacherId == Undefined {
        return true;
      }
      failed := false;
      if m.kind == "attendance_update" && KeyText(m.teacherId) == NatToString(teacher) {
        var key := m.date + "-" + (if m.subjectId == Undefined then "null" else KeyText(m.subjectId));
        data := data[key := ShownStatus(m.status)];
        version := version + 1;
      }
    }
  }
}
