/** The teacher attendance serializer: the status check against the declared
    choices, the ownership and consistency checks of a record's references,
    and the stamping of the requester as `admin` on every create and update. */
module TeacherSerializers {
  import opened Wrappers
  import opened Dates
  import opened Records
  import opened TeacherScheduleModel

  /** The status choices declared on the teacher attendance table. */
  const TeacherStatusChoices: seq<string> := ["present", "absent", "retard", "att"]

  /** `validate_status`: only a declared choice passes, unchanged. */
  function ValidateStatus(value: string): (r: Result<string, string>)
    ensures r.Ok? <==> value in TeacherStatusChoices
    ensures r.Ok? ==> r.value == value
  {
    if value in TeacherStatusChoices then Ok(value)
    else Err("Invalid status. Choose from ['present', 'absent', 'retard', 'att']")
  }

  /** The spelled-out form of the pending status is not a choice. */
  lemma EnAttenteIsRejected()
    ensures ValidateStatus("en_attente").Err? && ValidateStatus("att").Ok?
  {
    assert "en_attente" != "present" && "en_attente" != "absent" && "en_attente" != "retard" && "en_attente" != "att";
  }

  /** A subject reference with its owner. */
  datatype SubjectRef = SubjectRef(id: nat, admin: nat)

  /** The references of a submitted record, as the primary-key fields resolve
      them; `None` where the field is absent. */
  datatype References = References(teacher: Option<Teacher>, subject: Option<SubjectRef>, schedule: Option<ScheduleT>)

  datatype RefError =
    | NotAuthenticated
    | TeacherOfOtherAdmin
    | SubjectOfOtherAdmin
    | ScheduleTeacherMismatch
    | ScheduleSubjectMismatch

  function TeacherId(t: Option<Teacher>): Option<nat> { if t.Some? then Some(t.value.id) else None }

  function SubjectId(s: Option<SubjectRef>): Option<nat> { if s.Some? then Some(s.value.id) else None }

  /** `AttendanceTSerializer.validate`: authentication first; then the teacher
      and the subject must be the requester's; then a given schedule must be
      the given teacher's and the given subject's. */
  function Validate(refs: References, user: Option<nat>): (r: Result<References, RefError>)
    ensures user.None? ==> r == Err(NotAuthenticated)
    ensures r.Ok? <==> user.Some?
                       && (refs.teacher.Some? ==> refs.teacher.value.admin == user.value)
                       && (refs.subject.Some? ==> refs.subject.value.admin == user.value)
                       && (refs.schedule.Some? ==> Some(refs.schedule.value.teacher) == TeacherId(refs.teacher)
                                                   && Some(refs.schedule.value.subject) == SubjectId(refs.subject))
    ensures r.Ok? ==> r.value == refs
  {
    if user.None? then Err(NotAuthenticated)
    else if refs.teacher.Some? && refs.teacher.value.admin != user.value then Err(TeacherOfOtherAdmin)
    else if refs.subject.Some? && refs.subject.value.admin != user.value then Err(SubjectOfOtherAdmin)
    else if refs.schedule.Some? && Some(refs.schedule.value.teacher) != TeacherId(refs.teacher) then Err(ScheduleTeacherMismatch)
    else if refs.schedule.Some? && Some(refs.schedule.value.subject) != SubjectId(refs.subject) then Err(ScheduleSubjectMismatch)
    else Ok(refs)
  }

  /** A schedule given without a teacher never matches. */
  lemma ScheduleNeedsTeacher(refs: References, user: nat)
    requires refs.schedule.Some? && refs.teacher.None?
    ensures Validate(refs, Some(user)).Err?
  {
  }

  /** A teacher of another admin is refused before any schedule check. */
  lemma ForeignTeacherRefused(refs: References, user: nat)
    requires refs.teacher.Some? && refs.teacher.value.admin != user
    ensures Validate(refs, Some(user)) == Err(TeacherOfOtherAdmin)
  {
  }

  /** A field the client may leave out: `Omitted` keeps it out of
      `validated_data` altogether. */
  datatype Sent<T> = Omitted | Sent(value: T)

  /** The model's default for a status left out of a create. */
  const DefaultTeacherStatus: string := "att"

  /** The validated fields of a record; `admin` is whatever the client sent.
      `schedule` (`required=False`, `allow_null=True`) and `status` (a model
      field with a default) may be left out; the other fields are required. */
  datatype RecordData = RecordData(
    admin: Option<nat>, teacher: nat, subject: nat, schedule: Sent<Option<nat>>, status: Sent<string>, date: Date)

  /** `validated_data['admin'] = request.user`. */
  function Stamp(d: RecordData, user: nat): (s: RecordData)
    ensures s.admin == Some(user)
    ensures s.(admin := d.admin) == d
  {
    d.(admin := Some(user))
  }

  /** Stamping ignores whatever admin the client supplied. */
  lemma StampIgnoresClientAdmin(d: RecordData, other: Option<nat>, user: nat)
    ensures Stamp(d.(admin := other), user) == Stamp(d, user)
  {
  }

  /** The column a create stores for a field: the sent value, or the
      model's default when it was left out. */
  function OrDefault<T>(f: Sent<T>, default: T): (v: T)
    ensures f.Sent? ==> v == f.value
    ensures f.Omitted? ==> v == default
  {
    if f.Sent? then f.value else default
  }

  /** `AttendanceTSerializer.create`: the new row belongs to the requester;
      a schedule left out is null and a status left out is `att`. */
  method Create(tatt: TeacherAttendanceTable, d: RecordData, user: nat) returns (id: nat)
    requires tatt.Valid()
    modifies tatt
    ensures tatt.Valid()
    ensures id == old(tatt.nextId)
    ensures tatt.rows == old(tatt.rows) + [TeacherAttendance(id, user, d.teacher, d.subject, OrDefault(d.schedule, None),
                                                              OrDefault(d.status, DefaultTeacherStatus), d.date)]
  {
    var s := Stamp(d, user);
    id := tatt.Create(s.admin.value, s.teacher, s.subject, OrDefault(s.schedule, None),
                      OrDefault(s.status, DefaultTeacherStatus), s.date);
  }

  /** `AttendanceTSerializer.update` (`ModelSerializer.update` sets only the
      keys of `validated_data`): the row keeps its id, takes the sent fields,
      keeps its schedule and status where they were left out, and belongs to
      the requester afterwards. */
  method Update(tatt: TeacherAttendanceTable, i: nat, d: RecordData, user: nat)
    requires tatt.Valid() && i < |tatt.rows|
    modifies tatt
    ensures tatt.Valid() && tatt.nextId == old(tatt.nextId)
    ensures tatt.rows == old(tatt.rows)[i := TeacherAttendance(old(tatt.rows)[i].id, user, d.teacher, d.subject,
                                                               OrDefault(d.schedule, old(tatt.rows)[i].schedule),
                                                               OrDefault(d.status, old(tatt.rows)[i].status), d.date)]
  {
    var s := Stamp(d, user);
    var row := tatt.rows[i];
    tatt.SaveRow(i, s.admin.value, s.teacher, s.subject, OrDefault(s.schedule, row.schedule),
                 OrDefault(s.status, row.status), s.date);
  }
}
