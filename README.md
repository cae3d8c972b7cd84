# QR attendance: a verified model of the reconciliation core

This project models the attendance core of a school QR-attendance system. A
student or a teacher scans a QR code, and a reader publishes the scan on an
MQTT topic. The Django side reconciles the scan with the week timetable and
upserts one attendance row per (person, slot, day). It then broadcasts the
result to the connected screens. A management command sweeps closed slots
and marks the missing students absent. REST views let staff list, upsert and
delete records. The web dashboard and the phone app keep maps from
`date-slot` keys to statuses, and edit timetables, grades and student lists.

Each source file has one Dafny module:

- The Django side: `ScanReconciliation` (scan handler), `AbsenceSweepCommand`
  and `AbsenceSweep` (the two sweeps), `AttendanceViews` (REST views),
  `StudentSerializers` and `TeacherSerializers`, `AttendanceModel`,
  `Records` (teacher attendance table) and `TeacherScheduleModel` (the
  model classes).
- The web dashboard: `TeacherAttendanceBoard`, `TimetableEditor`,
  `GradeBook` and `StudentListPage`.
- The phone app: `StudentScanScreen`, `TeacherScanScreen` and
  `WeekTimetable`.

`Wrappers`, `Text`, `Seqs`, `Dates` and `JsValues` are shared helpers:
option and result types, strings and digits, filtering and sorting, dates,
and JavaScript values with their truthiness.

Modelling conventions:

- Database tables the code writes are classes whose `rows` field the methods
  reassign. Each method is proved against a function on sequences, and the
  properties are lemmas about that function.
- The code's loops are methods with loop invariants, proved equal to a
  specification function.
- Clock times are integer seconds since midnight. Dates are
  `Date(year, month, day)` values. The weekday of a date is an input.
- Network answers (HTTP responses, query results) are parameters of the
  operations that wait for them.

Where verification showed that the code does not do what it evidently
means to do, a member models the code as written and proves the
discrepancy. The operations of the model then use a corrected definition,
whose intended property is proved (see "## Findings").

## Model

| member | source | states |
|---|---|---|
| ScanReconciliation.FirstEligible | Desktop/qr-main/student_qr/mqtt_client.py:34-49 | The chosen slot is eligible: the scan lies in [start, end + 15 min], with the teacher grace period used for students too. No earlier slot is eligible. The offset is scan minus start. None exactly when no slot is eligible. |
| ScanReconciliation.FindBestSchedule | Desktop/qr-main/student_qr/mqtt_client.py:34-49 | The loop over the slots returns the first eligible one, i.e. the value FirstEligible specifies. |
| ScanReconciliation.ClassifyStudent | Desktop/qr-main/student_qr/mqtt_client.py:97-102 | (as written) "PRESENT" iff 0 <= offset <= 15 min, "RETARD" iff 15 min < offset <= 20 min, and "ABSENT" otherwise. Exactly one of the three holds. |
| ScanReconciliation.ClassifyStudentMonotone | Desktop/qr-main/student_qr/mqtt_client.py:97-102 | For non-negative offsets, a later scan never earns a better student status. |
| ScanReconciliation.BroadcastStudentStatus | Desktop/qr-main/student_qr/mqtt_client.py:97-126 | The broadcast form of a student status is present, retard or absent, and it is already lowercase. |
| ScanReconciliation.ClassifyTeacher | Desktop/qr-main/student_qr/mqtt_client.py:168-171 | "present" iff 0 <= offset <= 15 min, "absent" otherwise. |
| ScanReconciliation.ClassifyTeacherIsLowercase | Desktop/qr-main/student_qr/mqtt_client.py:168-198 | Teacher statuses are already lowercase, so the broadcast status equals the stored one. |
| ScanReconciliation.FindStudent | Desktop/qr-main/student_qr/mqtt_client.py:77 | A student is found exactly when one row matches the given numero, nom and prenom, and it is that row. No match and several matches both find nothing. |
| ScanReconciliation.FindTeacher | Desktop/qr-main/student_qr/mqtt_client.py:142-147 | A teacher is found exactly when one teacher has the given mail, and it is that teacher. |
| ScanReconciliation.StudentCandidates | Desktop/qr-main/student_qr/mqtt_client.py:81-84 | Exactly the slots of the student's level on that weekday, each from the table. |
| ScanReconciliation.TeacherCandidates | Desktop/qr-main/student_qr/mqtt_client.py:152-155 | Exactly the slots of the teacher on that weekday, each from the table, sorted by start time (the model's default order). |
| ScanReconciliation.StudentWindows | Desktop/qr-main/student_qr/mqtt_client.py:37-44 | One window per candidate slot, in order, with the slot's start and end. |
| ScanReconciliation.TeacherWindows | Desktop/qr-main/student_qr/mqtt_client.py:37-44 | One window per candidate teacher slot, in order, with the slot's start and end. |
| ScanReconciliation.StudentUpsert | Desktop/qr-main/student_qr/mqtt_client.py:104-116 | Fails exactly when the owned lookup misses but another admin holds the key. Otherwise it adds at most one row, leaves rows under other keys unchanged and keeps the uniqueness. |
| ScanReconciliation.TeacherUpsert | Desktop/qr-main/student_qr/mqtt_client.py:173-187 | Fails exactly when the lookup matches several rows (get raises) or the teacher has no subject (a new row cannot be created and an existing one cannot be saved with a null subject). Otherwise it adds at most one row and leaves the rows under other keys unchanged. |
| ScanReconciliation.Step | Desktop/qr-main/student_qr/mqtt_client.py:56-206 | A message that is dropped for any reason leaves both tables unchanged. |
| ScanReconciliation.StudentStep | Desktop/qr-main/student_qr/mqtt_client.py:66-128 | A dropped student scan changes nothing. A sent one is a student update and leaves the teacher table unchanged. |
| ScanReconciliation.TeacherStep | Desktop/qr-main/student_qr/mqtt_client.py:130-200 | A dropped teacher scan changes nothing. A sent one is a teacher update and leaves the student table unchanged. |
| ScanReconciliation.StudentUpsertStores | Desktop/qr-main/student_qr/mqtt_client.py:104-116 | After a student write, the owned lookup of the key finds a row holding the new status. |
| ScanReconciliation.StudentUpsertReplay | Desktop/qr-main/student_qr/mqtt_client.py:104-116 | Repeating a student write returns the same tables. |
| ScanReconciliation.TeacherUpsertStores | Desktop/qr-main/student_qr/mqtt_client.py:174-187 | After a teacher write, exactly one row answers to the key, and it holds the new status and the teacher's subject. |
| ScanReconciliation.TeacherUpsertReplay | Desktop/qr-main/student_qr/mqtt_client.py:174-187 | Repeating a teacher write returns the same tables. |
| ScanReconciliation.TeacherUpsertKeepsKeysUnique | Desktop/qr-main/student_qr/mqtt_client.py:174-187 | A teacher write never puts a second row under one lookup key. |
| ScanReconciliation.StudentWithoutSlotIsDropped | Desktop/qr-main/student_qr/mqtt_client.py:86-93 | With no slot of the student's level that weekday whose window holds the scan, the message is dropped (no slot / no matching slot), and nothing is written. |
| ScanReconciliation.StudentStepSent | Desktop/qr-main/student_qr/mqtt_client.py:74-128 | A sent student update comes from a parsed timestamp, a found student and the first eligible candidate. The status is classified from its offset, the write succeeded, and the broadcast carries the id, slot, ISO date and lowercased status. |
| ScanReconciliation.TeacherStepSent | Desktop/qr-main/student_qr/mqtt_client.py:139-200 | A sent teacher update comes from a parsed timestamp, a found teacher and the first eligible candidate. The status is classified from its offset, and the write succeeded. The broadcast carries teacher, subject, slot, ISO date and status. |
| ScanReconciliation.StepSentBranch | Desktop/qr-main/student_qr/mqtt_client.py:66-130 | A student update comes only from a "student" message on the student topic; a teacher update only from a "teacher" message on the teacher topic. |
| ScanReconciliation.StudentSlotIsFirstEligible | Desktop/qr-main/student_qr/mqtt_client.py:81-102 | The written student slot is of the student's level and the scan's weekday, and its window holds the scan. No slot listed before it qualifies. The status is the one its offset earns. |
| ScanReconciliation.TeacherSlotIsEarliest | Desktop/qr-main/student_qr/mqtt_client.py:152-171 | The written teacher slot is the teacher's, on the scan's weekday, and holds the scan. No slot of that teacher and weekday starting earlier qualifies. |
| ScanReconciliation.EarliestAmongCandidates | Desktop/qr-main/student_qr/mqtt_client.py:152-161 | In a list sorted by start that holds every slot of one teacher and weekday, no slot of that teacher and weekday starting before the first eligible one is eligible. |
| ScanReconciliation.TeacherUpdateIsEarliest | Desktop/qr-main/student_qr/mqtt_client.py:152-198 | An update built from the first eligible slot of such a list names the earliest eligible slot of the teacher and weekday, with the status its offset earns. |
| ScanReconciliation.TeacherSlotOfUpdate | Desktop/qr-main/student_qr/mqtt_client.py:159-198 | An update built from the slot FirstEligible picks names that slot: eligible, no earlier-listed slot eligible, and the status its offset earns. |
| ScanReconciliation.StudentSlotOfUpdate | Desktop/qr-main/student_qr/mqtt_client.py:86-126 | An update built from the slot FirstEligible picks names that slot: eligible, no earlier-listed slot eligible, and the lowercased status its offset earns. |
| ScanReconciliation.StudentUpdateMatchesRow | Desktop/qr-main/student_qr/mqtt_client.py:104-128 | A sent student update matches a stored row: same student, slot and date. The row stores PRESENT, RETARD or ABSENT, and the update announces its lowercase form. The teacher table is untouched, and the student table keeps one row per key. |
| ScanReconciliation.TeacherUpdateMatchesRow | Desktop/qr-main/student_qr/mqtt_client.py:174-200 | A sent teacher update matches the single stored row under its key: same teacher, slot, date, status and subject. The subject is known. |
| ScanReconciliation.ReplayIsNoOp | Desktop/qr-main/student_qr/mqtt_client.py:104-187 | Handling a message a second time yields the same outcome and no change to the tables. |
| ScanReconciliation.StudentReplay | Desktop/qr-main/student_qr/mqtt_client.py:66-128 | A student message handled twice: the second pass gives the first pass's outcome and tables. |
| ScanReconciliation.TeacherReplay | Desktop/qr-main/student_qr/mqtt_client.py:130-200 | A teacher message handled twice: the second pass gives the first pass's outcome and tables. |
| ScanReconciliation.StepKeepsKeysUnique | Desktop/qr-main/student_qr/mqtt_client.py:104-187 | The step keeps one student row per (student, slot, date) and one teacher row per (teacher, date, slot, admin). |
| ScanReconciliation.TeacherStepKeepsKeysUnique | Desktop/qr-main/student_qr/mqtt_client.py:174-187 | A teacher step keeps one teacher row per lookup key. |
| ScanReconciliation.OnMessage | Desktop/qr-main/student_qr/mqtt_client.py:56-206 | The handler writing through the two table objects returns the outcome Step computes, and leaves the tables as Step computes. |
| ScanReconciliation.OnStudentScan | Desktop/qr-main/student_qr/mqtt_client.py:66-128 | The student branch through the table objects agrees with StudentStep. |
| ScanReconciliation.OnTeacherScan | Desktop/qr-main/student_qr/mqtt_client.py:130-200 | The teacher branch through the table objects agrees with TeacherStep. |
| ScanReconciliation.WriteStudentScan | Desktop/qr-main/student_qr/mqtt_client.py:104-116 | The write succeeds iff the student upsert does, and then the table is the upsert's result. A refused write changes nothing. |
| ScanReconciliation.WriteTeacherScan | Desktop/qr-main/student_qr/mqtt_client.py:174-187 | It writes iff TeacherUpsert succeeds, leaves the table as TeacherUpsert computes, and is unchanged otherwise. |
| AttendanceModel.StatusLabel | Desktop/qr-main/student_qr/models/attendance.py:11-18 | A label exists exactly for the four declared codes. |
| AttendanceModel.DefaultStatusIsChoice | Desktop/qr-main/student_qr/models/attendance.py:19 | The default "att" is a declared choice, labelled "En Attente". |
| AttendanceModel.IndexOfKey | Desktop/qr-main/student_qr/models/attendance.py:22-23 | The first row under the (student, schedule, date) key; None iff no row has it. |
| AttendanceModel.IndexOfOwnedKey | Desktop/qr-main/student_qr/mqtt_client.py:104-110 | The first row under the key that also belongs to the admin; None iff none. |
| AttendanceModel.OwnedLookupIsKeyLookup | Desktop/qr-main/student_qr/models/attendance.py:22-23 | Under the uniqueness, the owned lookup finds the keyed row, or misses only when another admin holds the key. |
| AttendanceModel.AppendFreshKeepsUnique | Desktop/qr-main/student_qr/models/attendance.py:22-23 | Appending a row under a free key keeps the uniqueness. |
| AttendanceModel.LookupsIgnoreStatus | Desktop/qr-main/student_qr/models/attendance.py:22-23 | The lookups depend only on each row's key and owner. |
| AttendanceModel.KeyLookupIgnoresStatus | Desktop/qr-main/student_qr/models/attendance.py:22-23 | The key lookup depends only on each row's key. |
| AttendanceModel.OwnedLookupIgnoresStatus | Desktop/qr-main/student_qr/mqtt_client.py:104-110 | The owned lookup depends only on each row's key and owner. |
| AttendanceModel.LookupsAfterStatus | Desktop/qr-main/student_qr/mqtt_client.py:114-115 | Overwriting one row's status changes no lookup. |
| AttendanceModel.LookupsAfterAppend | Desktop/qr-main/student_qr/mqtt_client.py:104-110 | A row appended under a free key is what both lookups find. |
| AttendanceModel.AttendanceTable.constructor | Desktop/qr-main/student_qr/models/attendance.py:6-23 | An empty table whose next id is 1. |
| AttendanceModel.AttendanceTable.Create | Desktop/qr-main/student_qr/models/attendance.py:22-23 | Refused iff the key is taken (then unchanged). Otherwise it appends the row under the next id. |
| AttendanceModel.AttendanceTable.GetOrCreateOwned | Desktop/qr-main/student_qr/mqtt_client.py:104-110 | Finds the owned row, or creates one when the key is free. A key held by another admin raises without change. |
| AttendanceModel.AttendanceTable.GetOrCreate | Desktop/qr-main/student_qr/mark_absent.py:26-31 | Finds the keyed row unchanged, or appends one with the default status. |
| AttendanceModel.AttendanceTable.SaveStatus | Desktop/qr-main/student_qr/mqtt_client.py:114-115 | Overwrites exactly one row's status. |
| AttendanceModel.AttendanceTable.Delete | Desktop/qr-main/student_qr/views.py:286-289 | Removes exactly that row. |
| Records.CountTeacherKey | Desktop/qr-main/student_qr/mqtt_client.py:174-180 | The number of rows the teacher lookup matches; 0 iff none. |
| Records.TeacherKeyIndex | Desktop/qr-main/student_qr/mqtt_client.py:174-180 | When exactly one row matches, its index. No other row matches. |
| Records.CountAfterAppend | Desktop/qr-main/student_qr/mqtt_client.py:174-180 | An appended row adds one match iff it answers to the key. |
| Records.CountIgnoresOtherColumns | Desktop/qr-main/student_qr/mqtt_client.py:184-186 | The count depends only on each row's lookup key. |
| Records.TeacherAttendanceTable.constructor | Desktop/qr-main/teacher_qr/models/attendance_t.py:8-23 | An empty table whose next id is 1. |
| Records.TeacherAttendanceTable.Create | Desktop/qr-main/teacher_qr/models/attendance_t.py:8-23 | Appends the row under the next id. |
| Records.TeacherAttendanceTable.GetOrCreate | Desktop/qr-main/student_qr/mqtt_client.py:174-180 | Several matches raise; one match is returned unchanged. With no match it creates a row with status and subject, or raises when the subject is null. |
| Records.TeacherAttendanceTable.SaveStatusAndSubject | Desktop/qr-main/student_qr/mqtt_client.py:184-186 | Overwrites exactly the status and subject of one row. |
| Records.TeacherAttendanceTable.SaveRow | Desktop/qr-main/teacher_qr/serializers.py:90-92 | Replaces every column of one row except the primary key. |
| TeacherScheduleModel.DayName | Desktop/qr-main/teacher_qr/models/schedule_t.py:11-19 | A display name exists exactly for the seven day codes. |
| TeacherScheduleModel.DefaultDayIsChoice | Desktop/qr-main/teacher_qr/models/schedule_t.py:21 | The default "MON" is a declared day, named "Monday". |
| TeacherScheduleModel.Clean | Desktop/qr-main/teacher_qr/models/schedule_t.py:31-34 | Accepts exactly the slots that end after they start. |
| TeacherScheduleModel.InsertSlot | Desktop/qr-main/teacher_qr/models/schedule_t.py:37-42 | Refused iff the (teacher, classe, subject, day, start_time) key is taken. Otherwise it appends and keeps the keys unique. |
| TeacherScheduleModel.StringLessIrreflexive | Desktop/qr-main/teacher_qr/models/schedule_t.py:43 | The day-code comparison is irreflexive. |
| TeacherScheduleModel.StringLessTransitive | Desktop/qr-main/teacher_qr/models/schedule_t.py:43 | The day-code comparison is transitive. |
| TeacherScheduleModel.StringLessTotal | Desktop/qr-main/teacher_qr/models/schedule_t.py:43 | Any two different codes are comparable. |
| TeacherScheduleModel.OrderedBeforeTotal | Desktop/qr-main/teacher_qr/models/schedule_t.py:43 | The (day, start_time) order is total. |
| TeacherScheduleModel.OrderedBeforeTransitive | Desktop/qr-main/teacher_qr/models/schedule_t.py:43 | The (day, start_time) order is transitive. |
| TeacherScheduleModel.InsertOrdered | Desktop/qr-main/teacher_qr/models/schedule_t.py:43 | Insertion adds exactly the slot (as a multiset). |
| TeacherScheduleModel.InsertOrderedKeepsOrder | Desktop/qr-main/teacher_qr/models/schedule_t.py:43 | Insertion into an ordered list keeps it ordered. |
| TeacherScheduleModel.SortedSlots | Desktop/qr-main/teacher_qr/models/schedule_t.py:43 | The sorted slots are a permutation of the table. |
| TeacherScheduleModel.SortedSlotsOrdered | Desktop/qr-main/teacher_qr/models/schedule_t.py:43 | The sorted slots are in (day, start_time) order. |
| TeacherScheduleModel.OrderedSameDayByStart | Desktop/qr-main/teacher_qr/models/schedule_t.py:43 | Slots of one weekday in the default order are in order of start time. |
| TeacherSerializers.ValidateStatus | Desktop/qr-main/teacher_qr/serializers.py:58-62 | Accepts a status iff it is one of the table's declared choices, and returns it unchanged. |
| TeacherSerializers.EnAttenteIsRejected | Desktop/qr-main/teacher_qr/serializers.py:58-62 | "en_attente" is refused and "att" accepted. |
| TeacherSerializers.Validate | Desktop/qr-main/teacher_qr/serializers.py:64-84 | Without a user: NotAuthenticated. Accepted iff the user is set, teacher and subject (when given) belong to the user, and a given schedule has exactly that teacher and subject. An accepted input is returned unchanged. |
| TeacherSerializers.ScheduleNeedsTeacher | Desktop/qr-main/teacher_qr/serializers.py:77-80 | A schedule with no teacher given is refused. |
| TeacherSerializers.ForeignTeacherRefused | Desktop/qr-main/teacher_qr/serializers.py:69-71 | A teacher of another admin is refused with the teacher error. |
| TeacherSerializers.Stamp | Desktop/qr-main/teacher_qr/serializers.py:86-92 | The admin is the requesting user; every other field is unchanged. |
| TeacherSerializers.StampIgnoresClientAdmin | Desktop/qr-main/teacher_qr/serializers.py:86-92 | A client-supplied admin has no effect on the stamped data. |
| TeacherSerializers.Create | Desktop/qr-main/teacher_qr/serializers.py:86-88 | Appends one row owned by the requesting user, with the validated fields, under the next id. A schedule left out is stored as null, and a status left out as the model default `att`. |
| TeacherSerializers.Update | Desktop/qr-main/teacher_qr/serializers.py:90-92 | Replaces the edited row's columns with the sent fields, owner set to the requesting user. A schedule or status left out of the request keeps its stored value. The id is unchanged. |
| StudentSerializers.ValidateMail | Desktop/qr-main/student_qr/serializers.py:27-31 | Refused iff another student (one whose id differs from the edited instance's) has the mail. An accepted mail is returned unchanged. |
| StudentSerializers.KeepingOwnMailIsAccepted | Desktop/qr-main/student_qr/serializers.py:27-31 | An edited student that keeps its own (unshared) mail is accepted. |
| StudentSerializers.NewStudentMailMustBeFree | Desktop/qr-main/student_qr/serializers.py:27-31 | A new student's mail is refused iff some student already holds it. |
| StudentSerializers.FirstMissing | Desktop/qr-main/student_qr/serializers.py:53-56 | None iff every required field is given (present and non-empty). Otherwise it names a field that is missing. |
| StudentSerializers.ParentIndex | Desktop/qr-main/student_qr/serializers.py:66-71 | The index of the parent with that primary key; None iff there is none. |
| StudentSerializers.Validate | Desktop/qr-main/student_qr/serializers.py:51-72 | A form is accepted, unchanged, exactly when `Acceptable` holds. Without parent_id, all four parent fields are given and the parent mail is free. The student mail is free. A given parent_id names an existing parent of the requesting admin. |
| StudentSerializers.AllRequiredGiven | Desktop/qr-main/student_qr/serializers.py:52-56 | No missing field means nom, prenom, mail and numero of the parent are all given. |
| StudentSerializers.MissingParentFieldReportedFirst | Desktop/qr-main/student_qr/serializers.py:52-56 | The first missing parent field, in the order nom, prenom, mail, numero, is the one reported. |
| StudentSerializers.ForeignParentRefused | Desktop/qr-main/student_qr/serializers.py:66-71 | A parent_id of another admin's parent is refused. |
| StudentSerializers.Registry.constructor | Desktop/qr-main/student_qr/serializers.py:74-104 | Empty student and parent tables whose next ids are 1. |
| StudentSerializers.Registry.ParentByMail | Desktop/qr-main/student_qr/serializers.py:97-101 | The index of a parent with the mail; None iff no parent has it. |
| StudentSerializers.Registry.ChooseParent | Desktop/qr-main/student_qr/serializers.py:94-101 | A given parent_id is used as is. Otherwise the parent with the form's mail is found, or created from the form's fields. It is refused exactly when `ChoiceRefused` holds: the parent_id names no parent, or there is no parent mail, or another admin's parent holds the mail. A refusal changes nothing and reports the unknown parent or the refused parent. Students are untouched. |
| StudentSerializers.Registry.Link | Desktop/qr-main/student_qr/serializers.py:103 | Adds the student to exactly that parent's students. |
| StudentSerializers.Registry.Create | Desktop/qr-main/student_qr/serializers.py:74-104 | Without a user it is refused with no change. A taken student mail is refused with no change. Otherwise it appends the student, owned by the user. The parent step then fails exactly when `ChoiceRefused` holds: the student stays, the parents are unchanged, and the error names the cause. The parent table grows by at most one row. Each old parent is unchanged or gains only the new student. A created student belongs to exactly one parent, the given parent_id when there is one. |
| StudentSerializers.Registry.AttachParent | Desktop/qr-main/student_qr/serializers.py:94-103 | Links the new student to the chosen parent, and is refused exactly when `ChoiceRefused` holds, with the parents unchanged. Each old parent is unchanged or gains only that student. At most one parent is added: the one for (parent mail, admin), listing only the student. Exactly one parent lists the student. |
| StudentSerializers.AppendStudentKeepsMails | Desktop/qr-main/student_qr/serializers.py:61-64 | Appending a student whose mail is free keeps the student mails distinct. |
| StudentSerializers.ParentMailIndex | Desktop/qr-main/student_qr/serializers.py:57-60 | The index of a parent with the mail; None iff the mail is unused. |
| StudentSerializers.StatusDisplay | Desktop/qr-main/student_qr/serializers.py:150-157 | The display is one of Present/Absent/Late/Pending, and it is Pending exactly for codes other than present, absent and retard. |
| StudentSerializers.ScannedStatusReadsPending | Desktop/qr-main/student_qr/serializers.py:150-157 | (as written) A status the scan handler stores is not a declared choice, has no label and reads as Pending. Its lowercase form does not read as Pending. |
| StudentSerializers.RecordStatusDisplay | Desktop/qr-main/student_qr/serializers.py:150-157 | (corrected) The display is Pending exactly when the lowercased code is not present, absent or retard. On a lowercase code it is the display of get_status. |
| StudentSerializers.ScanStoredStatusDisplays | Desktop/qr-main/student_qr/serializers.py:150-157 | (corrected) Read case-insensitively, a status the scan handler stores has a label and never reads as Pending. Every declared code reads as get_status reads it. |
| StudentSerializers.AdmissionDisplay | Desktop/qr-main/student_qr/serializers.py:179-184 | "Unknown" exactly for codes other than att, acc and ref. |
| StudentSerializers.AdmissionDisplayInjective | Desktop/qr-main/student_qr/serializers.py:179-184 | The three known admission codes display differently. |
| AttendanceViews.RecordKeyInjective | Desktop/qr-main/student_qr/views.py:243 | For one student, equal listing keys mean equal (student, schedule, date) keys. |
| AttendanceViews.KeyMapKeys | Desktop/qr-main/student_qr/views.py:242-243 | Every listing key comes from one of the student's records of that admin. |
| AttendanceViews.LastKeyIsFresh | Desktop/qr-main/student_qr/views.py:243 | Without duplicate keys, no earlier record of the student shares the last record's listing key. |
| AttendanceViews.PrefixUnique | Desktop/qr-main/student_qr/models/attendance.py:22-23 | A prefix of a table without duplicate keys has none either. |
| AttendanceViews.KeyMapEntries | Desktop/qr-main/student_qr/views.py:243 | Every record of the student is listed under its key with its stored status. |
| AttendanceViews.KeyMapSize | Desktop/qr-main/student_qr/views.py:243 | The listing has exactly as many keys as the student has records. |
| AttendanceViews.ListAttendance | Desktop/qr-main/student_qr/views.py:240-244 | 404 iff the student is not the requesting admin's. |
| AttendanceViews.ListingHasOneEntryPerRecord | Desktop/qr-main/student_qr/views.py:240-244 | An owned student's listing holds one entry per record, mapping its key to its stored status. |
| AttendanceViews.Post | Desktop/qr-main/student_qr/views.py:248-279 | 404 iff the student or the slot is not the admin's. A bad date iff the date text does not parse. The insert is refused iff another admin holds the key. On error the table is unchanged. The uniqueness is kept. |
| AttendanceViews.PostStoresLowercase | Desktop/qr-main/student_qr/views.py:253-279 | On success the record under the key holds the lowercased status. The reply and the broadcast carry that same status, and the broadcast repeats the request's date text. "created" says whether a row was added. |
| AttendanceViews.PostReplay | Desktop/qr-main/student_qr/views.py:254-263 | Posting the same request again writes nothing new and reports the record as existing. |
| AttendanceViews.PostAttendance | Desktop/qr-main/student_qr/views.py:248-279 | The view over the live table returns and leaves what Post computes. |
| AttendanceViews.Delete | Desktop/qr-main/student_qr/views.py:283-289 | 404 iff the student or slot is foreign, the date is bad, or no owned record has the key. A delete removes exactly one row. |
| AttendanceViews.DeleteRemovesExactlyTheRecord | Desktop/qr-main/student_qr/views.py:286-289 | Afterwards no record has the key, and every record with another key is still there. |
| AttendanceViews.DeleteAttendance | Desktop/qr-main/student_qr/views.py:283-289 | The view over the live table agrees with Delete. |
| AttendanceViews.ChangePasswordCheck | Desktop/qr-main/student_qr/views.py:673-691 | The first failing guard wins: missing fields, then a wrong old password, then a new one shorter than 8. None iff all pass. |
| AttendanceViews.User.constructor | Desktop/qr-main/student_qr/views.py:669 | An account with that email and password. |
| AttendanceViews.ChangePassword | Desktop/qr-main/student_qr/views.py:667-700 | The reply is ChangePasswordCheck's answer. The password becomes the new one iff every guard passes, and is unchanged otherwise. |
| AttendanceViews.FindOwnedStudent | Desktop/qr-main/student_qr/views.py:489 | Found iff a student with that id belongs to the admin. |
| AttendanceViews.AccountOf | Desktop/qr-main/student_qr/views.py:490 | Found iff exactly one account has the mail, and it is that account. |
| AttendanceViews.NoOtherEmail | Desktop/qr-main/student_qr/views.py:490 | A zero count means no account has the mail. |
| AttendanceViews.ResetStudentPassword | Desktop/qr-main/student_qr/views.py:488-498 | 404 unless the student is the admin's and its mail names one account. 400 without a password. Otherwise that account's password is replaced and echoed; no email changes. |
| AbsenceSweepCommand.KeyStaysPresent | Desktop/qr-main/student_qr/management/commands/mark_absent.py:42-61 | A key present in the table stays present once rows are only appended. |
| AbsenceSweepCommand.ExtendsTransitive | Desktop/qr-main/student_qr/management/commands/mark_absent.py:24-61 | Two stretches of the sweep that each only append absent rows (ids, counter and lines advancing together) compose into one. |
| AbsenceSweepCommand.MarkStudentEffect | Desktop/qr-main/student_qr/management/commands/mark_absent.py:42-61 | After one student, the (student, slot, today) key has a row. Only an absent row for that student and slot, owned by the student's admin, may have been appended. |
| AbsenceSweepCommand.MarkLevelExtends | Desktop/qr-main/student_qr/management/commands/mark_absent.py:42-61 | The inner loop only appends absent rows for today and counts each one. |
| AbsenceSweepCommand.MarkLevelEffect | Desktop/qr-main/student_qr/management/commands/mark_absent.py:42-61 | Every student of the slot has a row afterwards, and every row created is for one of them. |
| AbsenceSweepCommand.MarkLevelCovers | Desktop/qr-main/student_qr/management/commands/mark_absent.py:42-61 | After the inner loop, every student of the slot has a row under (student, slot, today). |
| AbsenceSweepCommand.MarkLevelCreatesFor | Desktop/qr-main/student_qr/management/commands/mark_absent.py:42-61 | The inner loop only appends, and every row it creates belongs to one of the slot's students, owned by that student's admin. |
| AbsenceSweepCommand.SweepSlotEffect | Desktop/qr-main/student_qr/management/commands/mark_absent.py:24-61 | A slot whose 20-minute window is closed ends covered. Every row created is justified by it; an open slot writes nothing new. |
| AbsenceSweepCommand.SweepSlotsEffect | Desktop/qr-main/student_qr/management/commands/mark_absent.py:24-61 | After the outer loop, every closed slot is covered, every created row is justified by one of them, and the state only grows. |
| AbsenceSweepCommand.MarkLevelNoop | Desktop/qr-main/student_qr/management/commands/mark_absent.py:43-49 | Students who all have a row already are passed over without a write. |
| AbsenceSweepCommand.SweepSlotsNoop | Desktop/qr-main/student_qr/management/commands/mark_absent.py:24-49 | When every closed slot is already covered, the sweep writes nothing and counts nothing. |
| AbsenceSweepCommand.HandleOnlyAppendsAbsences | Desktop/qr-main/student_qr/management/commands/mark_absent.py:11-61 | Existing rows, whatever their status, stay as they were. Each new row is an absent row for today, for a student of the level of one of today's closed slots, owned by the student's admin. |
| AbsenceSweepCommand.HandleCoversClosedSlots | Desktop/qr-main/student_qr/management/commands/mark_absent.py:24-61 | Afterwards every student of every closed slot today has a row for that slot and date. |
| AbsenceSweepCommand.HandleReportsCount | Desktop/qr-main/student_qr/management/commands/mark_absent.py:18-66 | With no slot today, the only line says so and nothing is written. Otherwise there is one marked line per created row, and the last line reports the count or that there was nothing new. |
| AbsenceSweepCommand.HandleIdempotent | Desktop/qr-main/student_qr/management/commands/mark_absent.py:23-66 | Running again at the same time or earlier writes nothing and reports that there was nothing to mark. |
| AbsenceSweepCommand.MarkLevelStudents | Desktop/qr-main/student_qr/management/commands/mark_absent.py:42-61 | The loop over one level's students leaves table, lines and counter as MarkLevel computes. |
| AbsenceSweepCommand.SweepOneSlot | Desktop/qr-main/student_qr/management/commands/mark_absent.py:24-61 | One pass of the outer loop leaves table, lines and counter as SweepSlot computes: an open window or an empty level only logs. |
| AbsenceSweepCommand.HandleCommand | Desktop/qr-main/student_qr/management/commands/mark_absent.py:11-66 | The command over the live table leaves table and output as Handle computes. |
| AbsenceSweep.PassLevelStudents | Desktop/qr-main/student_qr/mark_absent.py:24-35 | The loop over one level's students leaves table and output as PassLevel computes. |
| AbsenceSweep.RunSweep | Desktop/qr-main/student_qr/mark_absent.py:11-37 | The script over the live table leaves table and output as Run computes. |
| AbsenceSweep.PassLevelAgrees | Desktop/qr-main/student_qr/mark_absent.py:24-35 | The get_or_create pass writes what the exists-then-create pass writes, and prints one line per created row. |
| AbsenceSweep.PassSlotsAgrees | Desktop/qr-main/student_qr/mark_absent.py:18-35 | The same agreement over the whole slot loop. |
| AbsenceSweep.RunAgreesWithCommand | Desktop/qr-main/student_qr/mark_absent.py:11-37 | Both sweeps leave the table in the same state. This one prints one line per created row, then its closing line. |
| AbsenceSweep.RunIdempotent | Desktop/qr-main/student_qr/mark_absent.py:18-37 | A second run at the same time or earlier creates nothing and prints only its closing line. |
| TimetableEditor.NormalizeTime | src/components/teacher/schedule_teacher.jsx:122-129 | An empty (falsy) time gives "00:00:00". |
| TimetableEditor.PadKeepsFree | src/components/teacher/schedule_teacher.jsx:125-127 | Zero-padding a field adds no colon. |
| TimetableEditor.NormalizeTimeFields | src/components/teacher/schedule_teacher.jsx:122-129 | The result has exactly three colon-separated fields: the input's first three fields padded to two characters, or "00" where the input had none. |
| TimetableEditor.NormalizeTimeIdempotent | src/components/teacher/schedule_teacher.jsx:122-129 | Normalizing twice is normalizing once. |
| TimetableEditor.NormalizedStays | src/components/teacher/schedule_teacher.jsx:122-129 | Three colon-free fields of at least two characters, joined, are already normal. |
| TimetableEditor.ClockSeconds | src/components/teacher/schedule_teacher.jsx:132-133 | A readable time denotes a time of day in [0, 24 h). |
| TimetableEditor.ClockOfFields | src/components/teacher/schedule_teacher.jsx:132-133 | The fields of a readable time denote a time of day in [0, 24 h). |
| TimetableEditor.ClockOfThree | src/components/teacher/schedule_teacher.jsx:132-133 | "HH:MM:SS" with fields in range reads as h*3600 + m*60 + s. |
| TimetableEditor.ClockOfFieldList | src/components/teacher/schedule_teacher.jsx:132-133 | The same for the split field list. |
| TimetableEditor.NoFieldValue | src/components/teacher/schedule_teacher.jsx:126-127 | The default field "00" is two digits of value 0. |
| TimetableEditor.OverlapIsIntersection | src/components/teacher/schedule_teacher.jsx:138-142 | On valid intervals the three-way test is the half-open intersection test start < sEnd && sStart < end. An invalid stored bound, or two invalid form bounds, never overlap. |
| TimetableEditor.BackToBack | src/components/teacher/schedule_teacher.jsx:138-142 | Back-to-back slots do not overlap. |
| TimetableEditor.IsTimeOverlap | src/components/teacher/schedule_teacher.jsx:131-144 | True iff some slot of that day, other than the edited one, overlaps the given times. |
| TimetableEditor.OverlapIgnoresOtherSlots | src/components/teacher/schedule_teacher.jsx:135 | Adding a slot of another day, or the edited slot itself, does not change the answer. |
| TimetableEditor.GetClassForSlot | src/components/teacher/schedule_teacher.jsx:146-161 | The first slot of that day meeting the two-hour cell. None iff no slot meets it. |
| TimetableEditor.FirstInCell | src/components/teacher/schedule_teacher.jsx:151-160 | The first index from the start position whose slot meets the cell. None iff none does. |
| TimetableEditor.JsNumber | src/components/teacher/schedule_teacher.jsx:207 | Number(field) is a number exactly for digit strings (empty is 0). |
| TimetableEditor.GetEndTime | src/components/teacher/schedule_teacher.jsx:206-210 | None exactly when the start has no `:`. Without one, `minutes` is undefined and its `toString()` throws. |
| TimetableEditor.GetEndTimeFields | src/components/teacher/schedule_teacher.jsx:206-210 | For an HH:MM start, the end reads as hour + 2 (possibly 24 or more, with no wrap), the same minute, and second "00". |
| TimetableEditor.GetEndTimeOfClock | src/components/teacher/schedule_teacher.jsx:206-210 | For an HH:MM:SS start, the form `handleAddClass` passes, the end reads as hour + 2, the same minute, and second "00": the start's seconds are dropped. |
| TimetableEditor.TimeSlotEndsTwoHoursLater | src/components/teacher/schedule_teacher.jsx:42-52 | Each grid slot is `hh:00:00` with hour 8 + its position, and `getEndTime` of it reads hour 10 + its position, minute 0, second "00". |
| TimetableEditor.ValidateForm | src/components/teacher/schedule_teacher.jsx:212-225 | The first failing check wins, in the order subject, classroom, teacher, day, both times, end after start, conflict. Each of the seven errors, and None, holds exactly when the checks before it pass and its own fails (None: all pass). |
| TimetableEditor.AcceptedFormIsDisjoint | src/components/teacher/schedule_teacher.jsx:212-225 | An accepted form with readable times is disjoint from every other well-formed slot of that day. |
| TimetableEditor.Timetable.constructor | src/components/teacher/schedule_teacher.jsx:38-89 | The editor holds the loaded slots. |
| TimetableEditor.Timetable.SaveNewClass | src/components/teacher/schedule_teacher.jsx:227-249 | A failing validation or a refused request leaves the list unchanged. Otherwise the server's slot is appended. |
| TimetableEditor.Timetable.UpdateClass | src/components/teacher/schedule_teacher.jsx:251-272 | After validation and a successful request, every slot with the form's id is replaced, in place, by the server's slot. Otherwise the list is unchanged. |
| TimetableEditor.Timetable.DeleteClass | src/components/teacher/schedule_teacher.jsx:274-294 | Without a selection (or with id 0), nothing changes. A refused request changes nothing. After a successful one, the slots with that id are removed. |
| TimetableEditor.DeleteRemovesExactlyThatId | src/components/teacher/schedule_teacher.jsx:282 | After a delete exactly the slots with another id remain. |
| WeekTimetable.JsRem | Desktop/frontqr-master/app/teacher_schedule.tsx:276 | JavaScript % for a positive divisor: the Euclidean remainder for a >= 0, the negated remainder of -a for a < 0. |
| WeekTimetable.Hour12Inverse | Desktop/frontqr-master/app/teacher_schedule.tsx:275-276 | On a clock hour, hour % 12 (or 12 when that is 0) lies in 1..12 and gives the hour back with its period. |
| WeekTimetable.TwelveHour | Desktop/frontqr-master/app/teacher_schedule.tsx:271-278 | "Invalid Time" exactly for the empty string. |
| WeekTimetable.TwelveHourFields | Desktop/frontqr-master/app/teacher_schedule.tsx:271-278 | For HH:MM:SS the display is the 12-hour hour, then the minute field verbatim, then PM exactly from noon on. |
| WeekTimetable.NameOr | Desktop/frontqr-master/app/teacher_schedule.tsx:245-248 | A present, non-empty name is used; otherwise "Unknown <kind> (ID: <id>)". |
| WeekTimetable.SessionsOf | Desktop/frontqr-master/app/teacher_schedule.tsx:243-262 | One session per item, in order. |
| WeekTimetable.SessionsOfConcat | Desktop/frontqr-master/app/teacher_schedule.tsx:243-262 | Sessions of a concatenation are the concatenated sessions. |
| WeekTimetable.EmptyWeek | Desktop/frontqr-master/app/teacher_schedule.tsx:238-241 | The empty week has exactly the five weekday keys. |
| WeekTimetable.GroupedByDay | Desktop/frontqr-master/app/teacher_schedule.tsx:243-262 | After the pushes the keys are the weekdays. Each day lists the sessions of exactly the items whose uppercased day it is, in data order. |
| WeekTimetable.CollationKey | Desktop/frontqr-master/app/teacher_schedule.tsx:265 | The collation key maps each character to its rank. |
| WeekTimetable.StartsBeforeIsPreorder | Desktop/frontqr-master/app/teacher_schedule.tsx:265 | The sort comparator is a total preorder. |
| WeekTimetable.TransformByDay | Desktop/frontqr-master/app/teacher_schedule.tsx:233-269 | The result has exactly the weekday keys. Each day's list is a permutation of that day's sessions, sorted by displayed start. |
| WeekTimetable.ItemLandsOnItsDay | Desktop/frontqr-master/app/teacher_schedule.tsx:244-253 | An item lands under its uppercased day and under no other. |
| WeekTimetable.TransformScheduleData | Desktop/frontqr-master/app/teacher_schedule.tsx:233-269 | (corrected) Ordering the items by 24-hour start, then building the empty lists and pushing, yields ChronologicalTransform. The corrected order changes only the arrays, not what the grid shows. |
| WeekTimetable.InitWeek | Desktop/frontqr-master/app/teacher_schedule.tsx:239-241 | The loop builds the empty week. |
| WeekTimetable.PushItems | Desktop/frontqr-master/app/teacher_schedule.tsx:243-262 | The push loop yields Grouped. |
| WeekTimetable.SortDays | Desktop/frontqr-master/app/teacher_schedule.tsx:264-266 | (as written) Every day's list is sorted by the displayed-string comparator, with the keys unchanged. |
| WeekTimetable.DisplayOrderIsNotChronological | Desktop/frontqr-master/app/teacher_schedule.tsx:265-278 | (as written) A 10 or 11 AM slot is listed before a 2 to 9 AM slot of the same day. |
| WeekTimetable.Hour12Morning | Desktop/frontqr-master/app/teacher_schedule.tsx:276 | Morning hours 1..11 keep their number. |
| WeekTimetable.LeadingDigit | Desktop/frontqr-master/app/teacher_schedule.tsx:277 | The first digit of a number below 20. |
| WeekTimetable.FirstCharDecides | Desktop/frontqr-master/app/teacher_schedule.tsx:265 | A string starting with 1 collates strictly before one starting with 2..9. |
| WeekTimetable.SortSwapsPair | Desktop/frontqr-master/app/teacher_schedule.tsx:265 | Two sessions out of comparator order are swapped by the sort. |
| WeekTimetable.ChronologicalTransformByDay | Desktop/frontqr-master/app/teacher_schedule.tsx:233-269 | (corrected) The keys are the weekdays. Each day's list shows a permutation of that day's items, in order of 24-hour start. |
| WeekTimetable.ChronologicalKeepsEarlierFirst | Desktop/frontqr-master/app/teacher_schedule.tsx:265 | (corrected) Of two items, the earlier one is listed first. |
| TeacherAttendanceBoard.ScheduleValue | src/components/teacher/teacherattendance.jsx:187 | (as written) A null schedule gives undefined, because typeof null is "object". A missing schedule or key 0 gives "no-schedule". An object or non-zero key gives its id. |
| TeacherAttendanceBoard.FetchStatus | src/components/teacher/teacherattendance.jsx:189-196 | (as written) A status is kept iff it is retard, en_attente, present or absent. en_attente becomes att, and only it does. |
| TeacherAttendanceBoard.NormalizedValues | src/components/teacher/teacherattendance.jsx:184-200 | Every status in a fetched map is one of present, absent, retard and att. |
| TeacherAttendanceBoard.NormalizedKeys | src/components/teacher/teacherattendance.jsx:184-200 | Every key of a fetched map is the key of a record the fetch keeps (date and subject given, status known). |
| TeacherAttendanceBoard.NormalizedLastWins | src/components/teacher/teacherattendance.jsx:184-200 | The last kept record with a key decides that key's status, as read by ReadStatus. |
| TeacherAttendanceBoard.NormalizeRecords | src/components/teacher/teacherattendance.jsx:182-200 | The forEach loop, with the corrected schedule part and status reading, builds exactly Normalized(records). |
| TeacherAttendanceBoard.StatusMap | src/components/teacher/teacherattendance.jsx:575-580 | (as written) Defined exactly on the four board statuses. |
| TeacherAttendanceBoard.StatusMapRoundTrip | src/components/teacher/teacherattendance.jsx:189-196 | (as written) Within the board, sending a status through statusMap and reading it back through the written fetch gives the same status. |
| TeacherAttendanceBoard.PendingStatusRefused | src/components/teacher/teacherattendance.jsx:378-384 | (as written) att is sent as en_attente, which the serializer's status check refuses, and a stored att row is dropped by the fetch. |
| TeacherAttendanceBoard.ServerStatus | src/components/teacher/teacherattendance.jsx:575-580 | (corrected) Defined exactly on the board statuses. |
| TeacherAttendanceBoard.ReadStatus | src/components/teacher/teacherattendance.jsx:189-196 | (corrected) Keeps exactly the board statuses and en_attente. A board status reads as itself, en_attente reads as att, and only att and en_attente read as att. |
| TeacherAttendanceBoard.ReadStatusExtendsFetchStatus | src/components/teacher/teacherattendance.jsx:189-196 | (corrected) It agrees with the written reading wherever that keeps a status, and it also keeps the stored att. |
| TeacherAttendanceBoard.ServerStatusAccepted | src/components/teacher/teacherattendance.jsx:378-384 | (corrected) Every board status passes the serializer's check and reads back as itself. It differs from statusMap only on att. |
| TeacherAttendanceBoard.FormatDateKey | src/components/teacher/teacherattendance.jsx:281-290 | A key exactly for a valid date (null otherwise). |
| TeacherAttendanceBoard.FourDigitYear | src/components/teacher/teacherattendance.jsx:287 | A year from 1000 on prints with at least four digits. |
| TeacherAttendanceBoard.FormatDateKeyFields | src/components/teacher/teacherattendance.jsx:287-289 | The key splits at '-' into year, month and day. Month and day have at least two digits, and each field keeps its value. |
| TeacherAttendanceBoard.FormatDateKeyIso | src/components/teacher/teacherattendance.jsx:281-290 | From year 1000 on the key is the YYYY-MM-DD text the server stores. |
| TeacherAttendanceBoard.GetAttendanceStatus | src/components/teacher/teacherattendance.jsx:326-341 | Nothing for a missing argument or an unloaded teacher. Otherwise a status iff the cell's key is in the teacher's map, and then the stored one. |
| TeacherAttendanceBoard.LookupKeyOfRecord | src/components/teacher/teacherattendance.jsx:187-188 | A cell built from a record's own date, subject and (intended) schedule asks for that record's key. |
| TeacherAttendanceBoard.LookupFindsFetchedRecord | src/components/teacher/teacherattendance.jsx:326-341 | A fetched record with a subject is found again by its cell (the no-schedule cell when it has no schedule), with the status the fetch read, unless a later record has the same key. |
| TeacherAttendanceBoard.NullScheduleKeyedUndefined | src/components/teacher/teacherattendance.jsx:187-188 | (as written) A record whose schedule is null is keyed "...-undefined" and matched against undefined. So neither the lookup nor the update query of the no-schedule cell finds it. |
| TeacherAttendanceBoard.IntendedScheduleValue | src/components/teacher/teacherattendance.jsx:187 | (corrected) A null or missing schedule reads as "no-schedule"; otherwise as written. |
| TeacherAttendanceBoard.IntendedKeyMatchesLookup | src/components/teacher/teacherattendance.jsx:187-188 | (corrected) A record without a schedule is keyed on, and matched by, the no-schedule cell of its date and subject. |
| TeacherAttendanceBoard.SubsetSize | src/components/teacher/teacherattendance.jsx:315-319 | A subset is no larger than its superset. |
| TeacherAttendanceBoard.CountBound | src/components/teacher/teacherattendance.jsx:315-319 | Each status count is at most the number of keys. |
| TeacherAttendanceBoard.RoundPercent | src/components/teacher/teacherattendance.jsx:320 | The share is the nearest integer to 100·present/total, halves rounded up; at most 100. |
| TeacherAttendanceBoard.CalculateAttendance | src/components/teacher/teacherattendance.jsx:309-323 | All zero for a teacher not loaded or with no keys. Otherwise each field counts the keys holding that status, and the percentage is the rounded share of present keys (at most 100). |
| TeacherAttendanceBoard.CountsPartition | src/components/teacher/teacherattendance.jsx:315-319 | When every value is a board status, the four counts add up to the number of keys. |
| TeacherAttendanceBoard.FetchedCountsPartition | src/components/teacher/teacherattendance.jsx:315-319 | For a fetched map, the four counts add up to its size. |
| TeacherAttendanceBoard.GetDayName | src/components/teacher/teacherattendance.jsx:548-551 | The English name for 0..6 and "Unknown" exactly outside it. |
| TeacherAttendanceBoard.Aliases | src/components/teacher/teacherattendance.jsx:555-562 | A day name always stands for itself, among its listed spellings. |
| TeacherAttendanceBoard.GetSchedulesForDay | src/components/teacher/teacherattendance.jsx:554-564 | Exactly the slots whose non-empty day is one of the name's spellings, in order. |
| TeacherAttendanceBoard.WeekdayColumnsShowStoredCodes | src/components/teacher/teacherattendance.jsx:548-564 | From Monday to Friday, the column of day number i+1 shows the slots stored under the day code MON..FRI. |
| TeacherAttendanceBoard.MakePayload | src/components/teacher/teacherattendance.jsx:378-384 | The payload carries the cell's teacher, subject, schedule and date. Its status is given iff the status is a board status, and then it passes the serializer's check as that status. |
| TeacherAttendanceBoard.ChooseRequest | src/components/teacher/teacherattendance.jsx:393-409 | Post iff no queried row matches subject, schedule and date; otherwise a put to a queried row's id, with the payload as body. |
| TeacherAttendanceBoard.FirstMatch | src/components/teacher/teacherattendance.jsx:393-403 | The search from a position past non-matching rows decides put or post in the same way. |
| TeacherAttendanceBoard.RollbackForgetsKey | src/components/teacher/teacherattendance.jsx:369-434 | Setting a key and then deleting it leaves the other keys as they were and the key absent. |
| TeacherAttendanceBoard.Submitted | src/components/teacher/teacherattendance.jsx:358-438 | Only the teacher's map changes, and it is present afterwards. No error means the query and the write succeeded. A failure leaves the map without the cell's key. A request is sent iff the query succeeded. |
| TeacherAttendanceBoard.Board.constructor | src/components/teacher/teacherattendance.jsx:175-205 | No maps loaded and no update running. |
| TeacherAttendanceBoard.Board.FetchAttendance | src/components/teacher/teacherattendance.jsx:175-221 | The selected teacher's map is replaced by the fetched one. Nothing changes without a selection or on a failed request. |
| TeacherAttendanceBoard.Board.SetOptimistic | src/components/teacher/teacherattendance.jsx:369-376 | Exactly the cell's key of the teacher's map is set to the status. |
| TeacherAttendanceBoard.Board.Rollback | src/components/teacher/teacherattendance.jsx:427-434 | Exactly that key of the teacher's map is deleted. |
| TeacherAttendanceBoard.Board.Submit | src/components/teacher/teacherattendance.jsx:358-438 | A failed query sends nothing and deletes the key. A failed write also deletes it after the optimistic set. A successful write replaces the map by the refetch; after a failed refetch the optimistic status stays under the key. The flag is unchanged. |
| TeacherAttendanceBoard.Board.UpdateAttendanceStatus | src/components/teacher/teacherattendance.jsx:344-439 | While updating, or with an argument missing: refused, unchanged. An invalid date gives a BadDate error. Otherwise the outcome, request and maps are what Submitted computes for the cell's key and payload, and the flag is cleared. |
| TeacherAttendanceBoard.Board.DeleteAttendance | src/components/teacher/teacherattendance.jsx:448-513 | A missing argument, an invalid date or a failed query refuses without change. A row is deleted iff a queried row matches and the server accepts the delete. Then the cell's key is removed and the map refetched. A refused delete reports the server's message. In every case where nothing was deleted, it reports an error and the maps are unchanged. |
| StudentScanScreen.NormalizeStatus | Desktop/frontqr-master/app/scan-qr.tsx:346-357 | Always a known status. pending becomes att, and a known status is kept lowercased. A missing or unknown status becomes not_set. |
| StudentScanScreen.NormalizeStatusIdempotent | Desktop/frontqr-master/app/scan-qr.tsx:346-357 | Normalizing twice is the same as normalizing once. |
| StudentScanScreen.FetchedStatus | Desktop/frontqr-master/app/scan-qr.tsx:208-209 | Lowercased, with pending read as att. |
| StudentScanScreen.NormalizeFetched | Desktop/frontqr-master/app/scan-qr.tsx:206-210 | The stored map has exactly the fetched keys. |
| StudentScanScreen.FetchAgreesWithLive | Desktop/frontqr-master/app/scan-qr.tsx:346-357 | Load and live path agree on known statuses and on pending. An unknown status survives the load lowercased but is cleared by a live message. |
| StudentScanScreen.FetchedIsNormal | Desktop/frontqr-master/app/scan-qr.tsx:206-210 | Every loaded status is lowercase and never pending. |
| StudentScanScreen.ApplyMessage | Desktop/frontqr-master/app/scan-qr.tsx:329-374 | A malformed message, or one for another student, changes nothing. Otherwise not_set removes the date-schedule key, any other status sets it, and all other keys are untouched. |
| StudentScanScreen.ApplyMessageIdempotent | Desktop/frontqr-master/app/scan-qr.tsx:361-374 | Applying a message twice has the effect of applying it once. |
| StudentScanScreen.ScanShowsOnOwnScreen | Desktop/frontqr-master/app/scan-qr.tsx:329-374 | A student's scan broadcast shows on that student's screen under the slot's key, as present, retard or absent. Other students' screens do not change. |
| StudentScanScreen.OwnUpdateApplies | Desktop/frontqr-master/app/scan-qr.tsx:330-374 | A well-formed update with a lowercase known status sets its key on its own student's screen and leaves every other screen unchanged. |
| StudentScanScreen.Screen.constructor | Desktop/frontqr-master/app/scan-qr.tsx:195-220 | An empty map and version 0. |
| StudentScanScreen.Screen.FetchAttendance | Desktop/frontqr-master/app/scan-qr.tsx:196-220 | A loaded map replaces the state, normalized. A failed request leaves it. The version is unchanged. |
| StudentScanScreen.Screen.OnMessage | Desktop/frontqr-master/app/scan-qr.tsx:324-376 | The map becomes ApplyMessage of the old map. The version goes up by one exactly for an accepted message. |
| TeacherScanScreen.NormalizeStatus | Desktop/frontqr-master/app/teacherscan.tsx:219-261 | (as written) late becomes retard and en_attente becomes att, each iff. present and absent are kept, and everything else becomes not_set. |
| TeacherScanScreen.StoredLateShownUnset | Desktop/frontqr-master/app/teacherscan.tsx:219-221 | (as written) The stored choices retard and att are shown as not_set. |
| TeacherScanScreen.ShownStatus | Desktop/frontqr-master/app/teacherscan.tsx:219-221 | (corrected) Always a shown status. |
| TeacherScanScreen.ShownStatusKeepsChoices | Desktop/frontqr-master/app/teacherscan.tsx:219-221 | (corrected) Every stored choice shows as itself. Every status the screen understood before shows as before. |
| TeacherScanScreen.DatePartOfTimestamp | Desktop/frontqr-master/app/teacherscan.tsx:217 | Cutting at 'T' gives back the date, with or without a time part. |
| TeacherScanScreen.Loaded | Desktop/frontqr-master/app/teacherscan.tsx:216-224 | The load yields a map iff no record has a null subject. A null subject's .id throws, and the whole load is lost. |
| TeacherScanScreen.LoadedKeys | Desktop/frontqr-master/app/teacherscan.tsx:216-224 | Every loaded key comes from a record, and every loaded status is a shown one. |
| TeacherScanScreen.LoadedLastWins | Desktop/frontqr-master/app/teacherscan.tsx:216-224 | The last record with a key decides that key's status, as ShownStatus reads it. |
| TeacherScanScreen.ApplyMessage | Desktop/frontqr-master/app/teacherscan.tsx:258-267 | A message not for the profile's teacher changes nothing. Otherwise exactly the message's date-subject key is set to the status as ShownStatus reads it. |
| TeacherScanScreen.ScanMatchesNextLoad | Desktop/frontqr-master/app/teacherscan.tsx:217-266 | A teacher scan broadcast passes the teacher test. Its key is the one the next load files the stored row under, and the screen shows the stored status itself. |
| TeacherScanScreen.UpdateMatchesLoad | Desktop/frontqr-master/app/teacherscan.tsx:217-266 | For a date without a time part and a lowercase present or absent, the update passes the teacher test, files under the load's key and shows the stored status. |
| TeacherScanScreen.DateHasNoT | Desktop/frontqr-master/app/teacherscan.tsx:217 | An ISO date has no 'T' in it. |
| TeacherScanScreen.Screen.constructor | Desktop/frontqr-master/app/teacherscan.tsx:195-242 | An empty map and version 0. |
| TeacherScanScreen.Screen.FetchAttendance | Desktop/frontqr-master/app/teacherscan.tsx:195-240 | Fails iff there is a teacher and the request fails or a record has a null subject. The map becomes the load on success and is otherwise unchanged. |
| TeacherScanScreen.Screen.OnMessage | Desktop/frontqr-master/app/teacherscan.tsx:251-277 | Fails iff the update has no teacher id. The map becomes ApplyMessage of the old map. The version goes up exactly for an accepted message. |
| GradeBook.GradeIndex | src/components/grades.jsx:232-245 | The letter's position is the number of thresholds the score falls short of. |
| GradeBook.CalculateGrade | src/components/grades.jsx:232-245 | Always one of the twelve letters. A iff the score is at least 93, F iff it is below 60. |
| GradeBook.CalculateGradeMonotone | src/components/grades.jsx:232-245 | A higher score never earns a worse letter. |
| GradeBook.Points | src/components/grades.jsx:251-271 | A letter's points (in tenths) are at most 4.0. |
| GradeBook.PointsMonotone | src/components/grades.jsx:232-264 | A higher score never earns fewer points. |
| GradeBook.TotalPoints | src/components/grades.jsx:266-273 | The sum is at most 4.0 per grade. |
| GradeBook.GpaOf | src/components/grades.jsx:248-276 | "0.0" exactly for an empty list. Otherwise the total points over the number of grades, a mean of at most 4.0. |
| GradeBook.CalculateGPA | src/components/grades.jsx:248-276 | The forEach loop computes exactly GpaOf of the list. |
| GradeBook.AllTopGrades | src/components/grades.jsx:248-276 | A list of A grades adds up to 4.0 per grade. |
| GradeBook.ParseScore | src/components/grades.jsx:298 | The parsed integer, or 0 when parseInt gives NaN. |
| GradeBook.ParseScoreOfNumber | src/components/grades.jsx:298 | A score typed as digits reads back as its value. |
| GradeBook.WithInput | src/components/grades.jsx:294-300 | Exactly the named field changes: parsed for score and max_score, taken as typed otherwise. An unknown name changes nothing. |
| GradeBook.ReplaceById | src/components/grades.jsx:358 | Same length and order. Each grade with the form's id is replaced by the form, and the others are kept. |
| GradeBook.RemoveId | src/components/grades.jsx:378 | Exactly the grades without the id remain, in their order (a subsequence of the list). |
| GradeBook.AfterChange | src/components/grades.jsx:279-291 | (as written) The new list is stored beside the average of the list the handler read before the change. |
| GradeBook.StaleAverageAfterDelete | src/components/grades.jsx:374-388 | (as written) Deleting the only grade of a consistent entry leaves a 4.0 average beside the empty list. |
| GradeBook.Recomputed | src/components/grades.jsx:279-291 | (corrected) The entry holds the new list. |
| GradeBook.RecomputedIsConsistent | src/components/grades.jsx:279-291 | (corrected) The recomputed entry's average is its list's average. |
| GradeBook.Book.constructor | src/components/grades.jsx:232-400 | The given entries and form, with nothing selected. |
| GradeBook.Book.InputChange | src/components/grades.jsx:294-300 | The form becomes WithInput of the old form, and nothing else changes. |
| GradeBook.Book.EditGrade | src/components/grades.jsx:322-331 | The grade is copied into the form and selected. |
| GradeBook.Book.AddGrade | src/components/grades.jsx:303-319 | With a student selected, the form becomes a fresh grade numbered by the clock reading: first subject, no assignment, 0 out of 100, today's date. The selected grade is cleared. Otherwise nothing changes. |
| GradeBook.Book.SelectStudent | src/components/grades.jsx:462-467 | Clicking a student row selects that student and clears the selected grade. The entries and the form are unchanged. |
| GradeBook.Book.SaveNewGrade | src/components/grades.jsx:334-351 | Without a selected student (or its entry), nothing changes. Otherwise the old form is appended as the list's last grade, the average is recomputed, and `resetForm` leaves a blank form for today. A consistent book stays consistent. |
| GradeBook.BlankFormMatchesNothing | src/components/grades.jsx:401-410 | The form `resetForm` leaves has the empty id, so replacing or removing by its id leaves a list of numbered grades unchanged. |
| GradeBook.Book.UpdateGrade | src/components/grades.jsx:354-371 | Without a student or a selected grade, nothing changes. Otherwise the list is ReplaceById with the average recomputed, and the form becomes the selection. A consistent book stays consistent. |
| GradeBook.Book.DeleteGrade | src/components/grades.jsx:374-391 | Without a student or a selected grade, nothing changes. Otherwise the selected id is removed, the average is recomputed and the selection is cleared. A consistent book stays consistent. |
| StudentListPage.Filtered | src/components/student/studentliste.jsx:782-793 | Exactly the students matching the search and the level, as a subsequence of the list (order kept). |
| StudentListPage.UnfilteredShowsAll | src/components/student/studentliste.jsx:786-790 | An empty query with level All shows the whole list. |
| StudentListPage.SearchFindsName | src/components/student/studentliste.jsx:787 | A last name containing the query, in any mix of case of the ASCII and Latin-1 letters, matches. |
| StudentListPage.SearchFindsAccentedName | src/components/student/studentliste.jsx:786-789 | A last name with an accented capital (ÉLODIE) is found by the query in small letters (élodie). |
| StudentListPage.SearchFindsId | src/components/student/studentliste.jsx:789 | A student searched by its own id matches. |
| StudentListPage.UnparsedLevelKeepsNobody | src/components/student/studentliste.jsx:790 | A level text that parseInt reads as NaN keeps nobody. |
| StudentListPage.Slice | src/components/student/studentliste.jsx:797-806 | Array slice with clamped bounds: empty when the start is past the end or past the list, otherwise the list's elements between them. |
| StudentListPage.Page | src/components/student/studentliste.jsx:795-806 | At most size students, namely those from position (page-1)·size on, in order. Non-empty while that position is inside the list. |
| StudentListPage.TotalPages | src/components/student/studentliste.jsx:796-802 | Math.ceil: the smallest page count whose pages cover the list. |
| StudentListPage.PagesInRange | src/components/student/studentliste.jsx:795-806 | Page p is non-empty iff p is at most the page count. |
| StudentListPage.NextPage | src/components/student/studentliste.jsx:808-810 | Forward one page iff not on the last. |
| StudentListPage.PrevPage | src/components/student/studentliste.jsx:812-814 | Back one page iff past the first. Never below 1 from a valid page. |
| StudentListPage.ButtonsKeepRange | src/components/student/studentliste.jsx:808-814 | From a page in 1..total, both buttons stay in 1..total. |
| StudentListPage.ShowingFrom | src/components/student/studentliste.jsx:1064 | 0 exactly on an empty page. |
| StudentListPage.ShowingTo | src/components/student/studentliste.jsx:1065 | The page end, cut at the list length. |
| StudentListPage.ShowingMatchesPage | src/components/student/studentliste.jsx:1064-1065 | On a non-empty page the "Showing a to b" range has exactly as many positions as the page has students. |
| StudentListPage.AddStudent | src/components/student/studentliste.jsx:757-760 | The new student is appended after the unchanged list. |
| StudentListPage.EditStudent | src/components/student/studentliste.jsx:762-766 | Same length. Each student with the edited id is replaced, and the others are kept in place. |
| StudentListPage.DeleteStudent | src/components/student/studentliste.jsx:768-775 | A refused delete changes nothing. Otherwise exactly the students without the id remain, in order. |
| StudentListPage.EditKeepsIds | src/components/student/studentliste.jsx:763 | An edit keeps every position's id. |
| StudentListPage.DeleteRemovesId | src/components/student/studentliste.jsx:771 | After a delete no student has the deleted id. |

## Left out

- MQTT transport: the paho client's connect and loop, the listener thread and logging are I/O and concurrency. The handler is modelled from a parsed payload on.
- Channels broadcasts: `group_send` and the WebSocket consumers are not modelled. Only the payload each broadcast carries is.
- Django's ORM: querysets are sequences in `rows` fields. Database errors other than the integrity error of a teacher without a subject are not modelled.
- Time libraries: `strftime('%a')` and `timezone.make_aware` are not computed. The weekday of a scan or of today is an input, and a timestamp with a UTC offset is a flag on the parsed stamp.
- JavaScript `Date` parsing is restricted to `HH:MM` and `HH:MM:SS` clock texts, and any other text reads as an invalid time. Week arithmetic and `toLocaleDateString` are inputs.
- TeacherAttendanceBoard.RoundPercent: `Math.round` of the floating-point percentage is computed exactly on integers. It can differ from the float only on values the float cannot represent.
- GradeBook.CalculateGPA: the average is returned as an exact fraction of grade points, not as the `toFixed(1)` text of a float.
- WeekTimetable.CollationKey: `localeCompare` is approximated by a character rank over the characters a displayed time contains.
- Text.Lower and Text.Upper: only the ASCII letters and the Latin-1 letters U+00C0 to U+00FE change case, one letter for one. The other case mappings of JavaScript's `toLowerCase`/`toUpperCase` and Python's `str.lower` (ß to SS, ÿ to Ÿ, Greek, Cyrillic and the rest of Unicode) are not modelled. StudentListPage.Filtered, StudentListPage.SearchFindsName, AttendanceViews.Post, StudentScanScreen.NormalizeStatus, StudentScanScreen.FetchedStatus and WeekTimetable.GroupedByDay inherit this on such letters.
- StudentListPage.Filtered: ignores case only for the letters Text.Lower maps, as the line above says.
- StudentListPage.SearchFindsName: holds for any mix of case only on the letters Text.Lower maps.
- Text.ParseInt: reads decimal digits only. `parseInt` called without a radix (grades.jsx and studentliste.jsx) also reads a `0x`/`0X` prefix as hexadecimal, so a text such as `0x10` reads as 16 there and as 0 here.
- TimetableEditor.JsNumber: a field is a number only when it is all decimal digits. `Number()` also accepts surrounding white space, a sign, a decimal point, an exponent and `0x`/`0o`/`0b` prefixes, which time fields in `HH:MM` form do not carry.
- TimetableEditor.ClockSeconds: refuses `24:00:00`, which JavaScript's date parser accepts as the end of the day.
- JsValues.JsVal: one `Undefined` value stands for both `null` and `undefined`. Where the two print differently in a template, the member prints the right one for its source: a parsed live message's missing subject prints `null` (TeacherScanScreen.MessageKey), and a record's null schedule gives `undefined` (TeacherAttendanceBoard.ScheduleValue).
- StudentSerializers.Validate: the field-level checks that run before `validate()` are not modelled (types, lengths, the EmailField format, and any validator derived from the Student model, whose file is not part of this model). StudentSerializers.MissingParentFieldReportedFirst holds for forms that pass those checks.
- TeacherSerializers.Validate: the field-level step that runs before `validate()` is not modelled. That step makes `admin`, `teacher`, `subject` and `date` required inputs, checks that each primary key names an existing row, and reads the date in `%Y-%m-%d`. An input without `admin`, for instance, is refused there, before the checks that Validate states.
- TeacherSerializers.Update: models a full update. A partial update, which would also let `teacher`, `subject` and `date` be left out, is not modelled, since the views that choose between the two are not part of this model.
- Passwords are plain strings compared for equality. Hashing by `set_password` and `check_password` is not modelled.
- AttendanceViews.ResetStudentPassword: the copy of the new password into `student.plain_password` is not modelled.
- Random password generation, `send_mail`, QR image generation, CSV export and token refresh are randomness, foreign services and I/O.
- HTTP requests and their answers are parameters of the operations that wait for them. The order in which asynchronous answers arrive is not modelled.
- React rendering, loading flags, notifications, error texts, navigation and the debounce timer of the attendance board are presentation and timers.
- StudentScanScreen.NormalizeFetched: the fetch's `forEach` over the response object is a map comprehension, since each key is written once and its order does not matter.
- StudentListPage.NextPage and StudentListPage.PrevPage model the card and the table page buttons alike, with the page count as a parameter.
- The other pages of both clients (levels, rooms, subjects, parents, accounts, dashboards) and the model files that only declare fields are not part of this model.

## Findings

| source | as written | input that shows it | evidently intended | confidence | as-written member | corrected member |
|---|---|---|---|---|---|---|
| Desktop/qr-main/student_qr/mqtt_client.py:97-116 and Desktop/qr-main/student_qr/serializers.py:150-157 | The scan handler stores PRESENT, RETARD or ABSENT, and `get_status` looks up lowercase keys only. | A student scan at the slot start stores PRESENT, which the serializer shows as Pending. | A scanned record shows its real status, as the live message and the phone's fetch (which lowercase it) do. | not executed | StudentSerializers.ScannedStatusReadsPending | StudentSerializers.ScanStoredStatusDisplays |
| src/components/teacher/teacherattendance.jsx:189-196,378-384,575-580 | `statusMap` sends att as en_attente, which the teacher serializer's status check refuses, and the fetch drops a stored att. | Setting a cell to att on the board. | The choice att is sent as att and read back as att. | not executed | TeacherAttendanceBoard.PendingStatusRefused | TeacherAttendanceBoard.ServerStatusAccepted |
| src/components/teacher/teacherattendance.jsx:187-188,337,393-403 | Since `typeof null` is "object", a record whose schedule is null is keyed with "undefined", and no cell looks it up. | A fetched record with schedule null. | A record without a schedule is filed and found under no-schedule. | not executed | TeacherAttendanceBoard.NullScheduleKeyedUndefined | TeacherAttendanceBoard.IntendedKeyMatchesLookup |
| Desktop/frontqr-master/app/teacherscan.tsx:219-221,259-266 | The status reading knows late and en_attente but not the stored spellings retard and att. | A stored teacher record with status retard is shown as not_set. | Every stored status choice is shown as itself. | not executed | TeacherScanScreen.StoredLateShownUnset | TeacherScanScreen.ShownStatusKeepsChoices |
| Desktop/frontqr-master/app/teacher_schedule.tsx:264-266,271-278 | Each day's array is sorted by its 12-hour display text. | For slots at 09:00:00 and 10:00:00 on one day, the day's array holds the 10:00 AM slot before the 9:00 AM one. The order is internal: the grid reads each day only through a `find` on equal start text over the even-hour time slots and through an emptiness test, so nothing on screen changes. | Each day's array is in chronological order. | not executed | WeekTimetable.DisplayOrderIsNotChronological | WeekTimetable.ChronologicalKeepsEarlierFirst |
| src/components/grades.jsx:279-291,374-391 | `updateStudentGPA` averages the student's list from before the change. | Deleting the only grade of a student whose score is at least 93 leaves a 4.0 average beside an empty list. | The stored average is the average of the new list. | not executed | GradeBook.StaleAverageAfterDelete | GradeBook.RecomputedIsConsistent |
