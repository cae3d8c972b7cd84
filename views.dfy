/** The attendance endpoints of the admin API and the two password views:
    the keyed status listing of one student, the manual create-or-overwrite
    of one record, the delete of one record, the password change of the
    signed-in user and the admin's reset of a student's password.

    The requesting user is the `admin` parameter; `get_object_or_404` lookups
    by primary key are membership tests on the table passed in. */
module AttendanceViews {
  import opened Wrappers
  import opened Text
  import opened Dates
  import opened Records
  import opened AttendanceModel
  import ScanReconciliation

  /** Why a view answers with something other than success: 404, a date that
      does not parse (an uncaught `ValueError`), or an insert the database
      refuses (an uncaught `IntegrityError`). */
  datatype ViewError = NotFound | BadDate | WriteRefused

  predicate OwnsStudent(students: seq<Student>, id: nat, admin: nat)
  {
    exists i :: 0 <= i < |students| && students[i].id == id && students[i].admin == admin
  }

  predicate OwnsSlot(slots: seq<StudentSchedule>, id: nat, admin: nat)
  {
    exists i :: 0 <= i < |slots| && slots[i].id == id && slots[i].admin == admin
  }

  // ---------------------------------------------------------------------
  // AttendanceListView

  /** The key of a record in the listing: `YYYY-MM-DD-<schedule id>`. */
  function RecordKey(a: Attendance): string
  {
    IsoDate(a.date) + "-" + NatToString(a.schedule)
  }

  predicate Listed(a: Attendance, student: nat, admin: nat)
  {
    a.student == student && a.admin == admin
  }

  /** The dict comprehension over the student's records, in table order: a
      later record under the same key would replace an earlier one. */
  function KeyMap(rows: seq<Attendance>, student: nat, admin: nat): map<string, string>
    decreases |rows|
  {
    if rows == [] then map[]
    else
      var m := KeyMap(rows[..|rows| - 1], student, admin);
      var a := rows[|rows| - 1];
      if Listed(a, student, admin) then m[RecordKey(a) := a.status] else m
  }

  function CountListed(rows: seq<Attendance>, student: nat, admin: nat): nat
    decreases |rows|
  {
    if rows == [] then 0
    else CountListed(rows[..|rows| - 1], student, admin) + (if Listed(rows[|rows| - 1], student, admin) then 1 else 0)
  }

  /** Two records of one student with the same listing key have the same
      unique key. */
  lemma RecordKeyInjective(a: Attendance, b: Attendance)
    requires a.student == b.student
    ensures RecordKey(a) == RecordKey(b) ==> KeyOf(a) == KeyOf(b)
  {
    if RecordKey(a) == RecordKey(b) {
      DateKeyInjective(a.date, NatToString(a.schedule), b.date, NatToString(b.schedule));
      NatToStringInjective(a.schedule, b.schedule);
    }
  }

  /** Every key of the listing comes from one of the student's records. */
  lemma {:induction false} KeyMapKeys(rows: seq<Attendance>, student: nat, admin: nat)
    ensures forall k :: k in KeyMap(rows, student, admin) ==>
              exists j :: 0 <= j < |rows| && Listed(rows[j], student, admin) && RecordKey(rows[j]) == k
    decreases |rows|
  {
    if rows != [] {
      var init := rows[..|rows| - 1];
      KeyMapKeys(init, student, admin);
      assert forall j :: 0 <= j < |init| ==> init[j] == rows[j];
    }
  }

  /** In a table without duplicate keys, no earlier record of the student
      shares the listing key of the last one. */
  lemma LastKeyIsFresh(rows: seq<Attendance>, student: nat, admin: nat)
    requires UniqueTogether(rows) && rows != []
    ensures forall j :: 0 <= j < |rows| - 1 && Listed(rows[j], student, admin) && Listed(rows[|rows| - 1], student, admin)
              ==> RecordKey(rows[j]) != RecordKey(rows[|rows| - 1])
    ensures Listed(rows[|rows| - 1], student, admin) ==> RecordKey(rows[|rows| - 1]) !in KeyMap(rows[..|rows| - 1], student, admin)
  {
    var init := rows[..|rows| - 1];
    var a := rows[|rows| - 1];
    KeyMapKeys(init, student, admin);
    forall j | 0 <= j < |rows| - 1 && Listed(rows[j], student, admin) && Listed(a, student, admin)
      ensures RecordKey(rows[j]) != RecordKey(a)
    {
      RecordKeyInjective(rows[j], a);
    }
    assert forall j :: 0 <= j < |init| ==> init[j] == rows[j];
  }

  lemma PrefixUnique(rows: seq<Attendance>)
    requires UniqueTogether(rows) && rows != []
    ensures UniqueTogether(rows[..|rows| - 1])
  {
    var init := rows[..|rows| - 1];
    assert forall j :: 0 <= j < |init| ==> init[j] == rows[j];
  }

  /** Every record of the student is listed under its key with its status. */
  lemma {:induction false} KeyMapEntries(rows: seq<Attendance>, student: nat, admin: nat)
    requires UniqueTogether(rows)
    ensures forall j :: 0 <= j < |rows| && Listed(rows[j], student, admin)
              ==> RecordKey(rows[j]) in KeyMap(rows, student, admin)
                  && KeyMap(rows, student, admin)[RecordKey(rows[j])] == rows[j].status
    decreases |rows|
  {
    if rows != [] {
      var init := rows[..|rows| - 1];
      PrefixUnique(rows);
      KeyMapEntries(init, student, admin);
      LastKeyIsFresh(rows, student, admin);
      assert forall j :: 0 <= j < |init| ==> init[j] == rows[j];
    }
  }

  /** The listing has exactly as many keys as the student has records. */
  lemma {:induction false} KeyMapSize(rows: seq<Attendance>, student: nat, admin: nat)
    requires UniqueTogether(rows)
    ensures |KeyMap(rows, student, admin)| == CountListed(rows, student, admin)
    decreases |rows|
  {
    if rows != [] {
      var init := rows[..|rows| - 1];
      PrefixUnique(rows);
      KeyMapSize(init, student, admin);
      LastKeyIsFresh(rows, student, admin);
    }
  }

  /** `AttendanceListView.get`. */
  function ListAttendance(students: seq<Student>, rows: seq<Attendance>, student: nat, admin: nat)
    : (r: Result<map<string, string>, ViewError>)
    ensures r.Err? <==> !OwnsStudent(students, student, admin)
    ensures r.Err? ==> r.error == NotFound
  {
    if OwnsStudent(students, student, admin) then Ok(KeyMap(rows, student, admin)) else Err(NotFound)
  }

  /** The listing of an owned student holds one entry per record of that
      student and admin, mapping its key to its stored status. */
  lemma ListingHasOneEntryPerRecord(students: seq<Student>, rows: seq<Attendance>, student: nat, admin: nat)
    requires UniqueTogether(rows) && OwnsStudent(students, student, admin)
    ensures var m := ListAttendance(students, rows, student, admin).value;
            && |m| == CountListed(rows, student, admin)
            && forall j :: 0 <= j < |rows| && Listed(rows[j], student, admin)
                 ==> RecordKey(rows[j]) in m && m[RecordKey(rows[j])] == rows[j].status
  {
    KeyMapEntries(rows, student, admin);
    KeyMapSize(rows, student, admin);
  }

  // ---------------------------------------------------------------------
  // AttendanceCreateUpdateView

  /** The request body: the raw date text and what `strptime` turns it into
      (`None` when it does not parse). */
  datatype PostRequest = PostRequest(student: nat, schedule: nat, dateText: string, date: Option<Date>, status: string)

  /** The response body's `status`, `created` and `id`. */
  datatype Posted = Posted(status: string, created: bool, id: nat)

  /** The event sent to the `attendance_group` channel group. */
  datatype AttendanceUpdate = AttendanceUpdate(studentId: nat, scheduleId: nat, date: string, status: string)

  /** The key the view looks up. */
  function PostKey(req: PostRequest): Key
    requires req.date.Some?
  {
    Key(req.student, req.schedule, req.date.value)
  }

  /** `AttendanceCreateUpdateView.post` as a function of the table: the reply
      (with its broadcast) and the table afterwards. The write is the same
      owned-key create-or-overwrite the scan handler performs. It refuses for
      exactly these reasons, in this order: the student or the slot is not
      the admin's, the date does not parse, another admin holds the key. A
      refusal writes nothing; a success keeps the key uniqueness. */
  function Post(req: PostRequest, admin: nat, students: seq<Student>, slots: seq<StudentSchedule>,
                rows: seq<Attendance>, nextId: nat)
    : (r: (Result<(Posted, AttendanceUpdate), ViewError>, seq<Attendance>, nat))
    ensures r.0 == Err(NotFound) <==> !OwnsStudent(students, req.student, admin) || !OwnsSlot(slots, req.schedule, admin)
    ensures r.0 == Err(BadDate) <==>
              (OwnsStudent(students, req.student, admin) && OwnsSlot(slots, req.schedule, admin) && req.date.None?)
    ensures r.0 == Err(WriteRefused) <==>
              (OwnsStudent(students, req.student, admin) && OwnsSlot(slots, req.schedule, admin) && req.date.Some?
               && IndexOfOwnedKey(rows, PostKey(req), admin).None? && IndexOfKey(rows, PostKey(req)).Some?)
    ensures r.0.Err? ==> r.1 == rows && r.2 == nextId
    ensures UniqueTogether(rows) ==> UniqueTogether(r.1)
  {
    if !OwnsStudent(students, req.student, admin) || !OwnsSlot(slots, req.schedule, admin) then (Err(NotFound), rows, nextId)
    else if req.date.None? then (Err(BadDate), rows, nextId)
    else
      var status := Lower(req.status);
      var found := IndexOfOwnedKey(rows, PostKey(req), admin);
      match ScanReconciliation.StudentUpsert(rows, nextId, admin, req.student, req.schedule, req.date.value, status)
      case Err(_) => (Err(WriteRefused), rows, nextId)
      case Ok(w) =>
        var id := if found.Some? then rows[found.value].id else nextId;
        (Ok((Posted(status, found.None?, id), AttendanceUpdate(req.student, req.schedule, req.dateText, status))), w.0, w.1)
  }

  /** On success the record under the key holds the lowercased status, and the
      reply and the broadcast carry that same status; the broadcast repeats
      the request's date text; `created` says whether the admin had no record
      under the key, and `id` is the record's id. */
  lemma PostStoresLowercase(req: PostRequest, admin: nat, students: seq<Student>, slots: seq<StudentSchedule>,
                            rows: seq<Attendance>, nextId: nat)
    requires Post(req, admin, students, slots, rows, nextId).0.Ok?
    ensures var r := Post(req, admin, students, slots, rows, nextId);
            var reply := r.0.value.0;
            var update := r.0.value.1;
            var found := IndexOfOwnedKey(r.1, PostKey(req), admin);
            && found.Some?
            && r.1[found.value].status == Lower(req.status) == reply.status == update.status
            && r.1[found.value].id == reply.id
            && update.date == req.dateText && update.studentId == req.student && update.scheduleId == req.schedule
            && (reply.created <==> IndexOfOwnedKey(rows, PostKey(req), admin).None?)
            && |r.1| == |rows| + (if reply.created then 1 else 0)
  {
    var status := Lower(req.status);
    var k := PostKey(req);
    var found := IndexOfOwnedKey(rows, k, admin);
    if found.Some? {
      LookupsAfterStatus(rows, found.value, status, k, admin);
    } else {
      LookupsAfterAppend(rows, Attendance(nextId, admin, req.student, req.schedule, req.date.value, status));
    }
  }

  /** Posting the same request again writes nothing new and reports the
      record as existing. */
  lemma PostReplay(req: PostRequest, admin: nat, students: seq<Student>, slots: seq<StudentSchedule>,
                   rows: seq<Attendance>, nextId: nat)
    requires Post(req, admin, students, slots, rows, nextId).0.Ok?
    ensures var r := Post(req, admin, students, slots, rows, nextId);
            var r2 := Post(req, admin, students, slots, r.1, r.2);
            && r2.1 == r.1 && r2.2 == r.2
            && r2.0.Ok? && !r2.0.value.0.created && r2.0.value.0.id == r.0.value.0.id
            && r2.0.value.1 == r.0.value.1
  {
    var status := Lower(req.status);
    PostStoresLowercase(req, admin, students, slots, rows, nextId);
    ScanReconciliation.StudentUpsertReplay(rows, nextId, admin, req.student, req.schedule, req.date.value, status);
  }

  /** `AttendanceCreateUpdateView.post` over the live table. */
  method PostAttendance(att: AttendanceTable, req: PostRequest, admin: nat, students: seq<Student>,
                        slots: seq<StudentSchedule>)
    returns (r: Result<(Posted, AttendanceUpdate), ViewError>)
    requires att.Valid()
    modifies att
    ensures att.Valid()
    ensures (r, att.rows, att.nextId) == Post(req, admin, students, slots, old(att.rows), old(att.nextId))
  {
    if !OwnsStudent(students, req.student, admin) || !OwnsSlot(slots, req.schedule, admin) {
      return Err(NotFound);
    }
    if req.date.None? {
      return Err(BadDate);
    }
    var status := Lower(req.status);
    var update := AttendanceUpdate(req.student, req.schedule, req.dateText, status);
    var existing := IndexOfOwnedKey(att.rows, PostKey(req), admin);
    if existing.Some? {
      var id := att.rows[existing.value].id;
      att.SaveStatus(existing.value, status);
      r := Ok((Posted(status, false, id), update));
    } else {
      var c := att.Create(admin, req.student, req.schedule, req.date.value, status);
      if c.Err? {
        return Err(WriteRefused);
      }
      r := Ok((Posted(status, true, c.value), update));
    }
  }

  // ---------------------------------------------------------------------
  // AttendanceDeleteView

  /** `AttendanceDeleteView.delete` as a function of the table. */
  function Delete(admin: nat, students: seq<Student>, slots: seq<StudentSchedule>, student: nat, schedule: nat,
                  date: Option<Date>, rows: seq<Attendance>)
    : (r: Result<seq<Attendance>, ViewError>)
    ensures r.Err? <==> (!OwnsStudent(students, student, admin) || !OwnsSlot(slots, schedule, admin)
                         || date.None? || IndexOfOwnedKey(rows, Key(student, schedule, date.value), admin).None?)
    ensures r.Ok? ==> |r.value| == |rows| - 1
  {
    if !OwnsStudent(students, student, admin) || !OwnsSlot(slots, schedule, admin) then Err(NotFound)
    else if date.None? then Err(BadDate)
    else match IndexOfOwnedKey(rows, Key(student, schedule, date.value), admin)
      case None => Err(NotFound)
      case Some(i) => Ok(rows[..i] + rows[i + 1..])
  }

  /** A delete removes the record under the key and nothing else: afterwards
      no record has the key, and every record with another key is still
      there. */
  lemma DeleteRemovesExactlyTheRecord(admin: nat, students: seq<Student>, slots: seq<StudentSchedule>, student: nat,
                                      schedule: nat, date: Option<Date>, rows: seq<Attendance>)
    requires UniqueTogether(rows)
    requires Delete(admin, students, slots, student, schedule, date, rows).Ok?
    ensures var rest := Delete(admin, students, slots, student, schedule, date, rows).value;
            var k := Key(student, schedule, date.value);
            && IndexOfKey(rest, k).None?
            && (forall a :: a in rows && KeyOf(a) != k ==> a in rest)
            && (forall a :: a in rest ==> a in rows)
  {
    var k := Key(student, schedule, date.value);
    var i := IndexOfOwnedKey(rows, k, admin).value;
    var rest := rows[..i] + rows[i + 1..];
    assert forall j :: 0 <= j < |rest| ==> rest[j] == (if j < i then rows[j] else rows[j + 1]);
    forall a | a in rows && KeyOf(a) != k ensures a in rest {
      var j :| 0 <= j < |rows| && rows[j] == a;
      if j < i {
        assert rest[j] == a;
      } else {
        assert j != i;
        assert rest[j - 1] == a;
      }
    }
  }

  /** `AttendanceDeleteView.delete` over the live table. */
  method DeleteAttendance(att: AttendanceTable, admin: nat, students: seq<Student>, slots: seq<StudentSchedule>,
                          student: nat, schedule: nat, date: Option<Date>)
    returns (r: Result<(), ViewError>)
    requires att.Valid()
    modifies att
    ensures att.Valid() && att.nextId == old(att.nextId)
    ensures var d := Delete(admin, students, slots, student, schedule, date, old(att.rows));
            && (r.Ok? <==> d.Ok?)
            && (d.Ok? ==> att.rows == d.value)
            && (d.Err? ==> att.rows == old(att.rows) && r.error == d.error)
  {
    if !OwnsStudent(students, student, admin) || !OwnsSlot(slots, schedule, admin) {
      return Err(NotFound);
    }
    if date.None? {
      return Err(BadDate);
    }
    var found := IndexOfOwnedKey(att.rows, Key(student, schedule, date.value), admin);
    if found.None? {
      return Err(NotFound);
    }
    att.Delete(found.value);
    r := Ok(());
  }

  // ---------------------------------------------------------------------
  // ChangePasswordView and reset_student_password

  /** Minimum length of a new password. */
  const MinPasswordLength: nat := 8

  datatype PasswordError = MissingPasswords | WrongOldPassword | TooShort

  /** A form value Python treats as true: present and not empty. */
  predicate Given(v: Option<string>) { v.Some? && v.value != "" }

  /** The guards of `ChangePasswordView.post`, first failing one wins. */
  function ChangePasswordCheck(current: string, oldPassword: Option<string>, newPassword: Option<string>)
    : (r: Option<PasswordError>)
    ensures r == Some(MissingPasswords) <==> !Given(oldPassword) || !Given(newPassword)
    ensures r == Some(WrongOldPassword) <==> Given(oldPassword) && Given(newPassword) && oldPassword.value != current
    ensures r == Some(TooShort) <==>
              (Given(oldPassword) && Given(newPassword) && oldPassword.value == current && |newPassword.value| < MinPasswordLength)
    ensures r.None? <==>
              (Given(oldPassword) && oldPassword.value == current && Given(newPassword) && |newPassword.value| >= MinPasswordLength)
  {
    if !Given(oldPassword) || !Given(newPassword) then Some(MissingPasswords)
    else if oldPassword.value != current then Some(WrongOldPassword)
    else if |newPassword.value| < MinPasswordLength then Some(TooShort)
    else None
  }

  /** A user account; its password is compared as `check_password` would
      compare it against the stored hash. */
  class User {
    var email: string
    var password: string

    constructor (email: string, password: string)
      ensures this.email == email && this.password == password
    {
      this.email := email;
      this.password := password;
    }
  }

  /** `ChangePasswordView.post`: the password is replaced only when every
      guard passes. */
  method ChangePassword(user: User, oldPassword: Option<string>, newPassword: Option<string>)
    returns (r: Option<PasswordError>)
    modifies user
    ensures r == ChangePasswordCheck(old(user.password), oldPassword, newPassword)
    ensures r.None? ==> user.password == newPassword.value
    ensures r.Some? ==> user.password == old(user.password)
    ensures user.email == old(user.email)
  {
    r := ChangePasswordCheck(user.password, oldPassword, newPassword);
    if r.None? {
      user.password := newPassword.value;
    }
  }

  /** The first student with this primary key under this admin. */
  function FindOwnedStudent(students: seq<Student>, id: nat, admin: nat): (r: Option<nat>)
    ensures r.Some? <==> OwnsStudent(students, id, admin)
    ensures r.Some? ==> r.value < |students| && students[r.value].id == id && students[r.value].admin == admin
    decreases |students|
  {
    if students == [] then None
    else if students[0].id == id && students[0].admin == admin then Some(0)
    else match FindOwnedStudent(students[1..], id, admin)
      case None => None
      case Some(j) => Some(j + 1)
  }

  /** How many accounts carry this email. */
  function CountEmail(users: seq<User>, mail: string): nat
    reads set u | u in users
    decreases |users|
  {
    if users == [] then 0 else (if users[0].email == mail then 1 else 0) + CountEmail(users[1..], mail)
  }

  /** The one account whose email is `mail`, when exactly one exists
      (`get_object_or_404(CustomUser, email=...)`). */
  function AccountOf(users: seq<User>, mail: string): (r: Option<nat>)
    reads set u | u in users
    ensures r.Some? <==> CountEmail(users, mail) == 1
    ensures r.Some? ==> r.value < |users| && users[r.value].email == mail
    ensures r.Some? ==> forall j :: 0 <= j < |users| && j != r.value ==> users[j].email != mail
    decreases |users|
  {
    if users == [] then None
    else if users[0].email == mail then
      (if CountEmail(users[1..], mail) == 0 then
         NoOtherEmail(users[1..], mail);
         Some(0)
       else None)
    else match AccountOf(users[1..], mail)
      case None => None
      case Some(j) => Some(j + 1)
  }

  lemma {:induction false} NoOtherEmail(users: seq<User>, mail: string)
    requires CountEmail(users, mail) == 0
    ensures forall j :: 0 <= j < |users| ==> users[j].email != mail
    decreases |users|
  {
    if users != [] {
      NoOtherEmail(users[1..], mail);
      assert forall j :: 1 <= j < |users| ==> users[j] == users[1..][j - 1];
    }
  }

  datatype ResetError = NoSuchAccount | PasswordRequired

  /** `reset_student_password`: 404 unless the student is the admin's and its
      mail names exactly one account; 400 without a password; otherwise that
      account's password is replaced and echoed back. */
  method ResetStudentPassword(students: seq<Student>, users: seq<User>, student: nat, admin: nat,
                              password: Option<string>)
    returns (r: Result<string, ResetError>)
    modifies set u | u in users
    ensures forall u :: u in users ==> u.email == old(u.email)
    ensures var s := FindOwnedStudent(students, student, admin);
            var acct := if s.Some? then old(AccountOf(users, students[s.value].mail)) else None;
            && (r == Err(NoSuchAccount) <==> acct.None?)
            && (r == Err(PasswordRequired) <==> acct.Some? && !Given(password))
            && (r.Ok? ==> acct.Some? && r.value == password.value && users[acct.value].password == password.value)
            && (r.Ok? ==> forall j :: 0 <= j < |users| && users[j] != users[acct.value] ==> users[j].password == old(users[j].password))
            && (r.Err? ==> forall u :: u in users ==> u.password == old(u.password))
  {
    var s := FindOwnedStudent(students, student, admin);
    if s.None? {
      return Err(NoSuchAccount);
    }
    var acct := AccountOf(users, students[s.value].mail);
    if acct.None? {
      return Err(NoSuchAccount);
    }
    if !Given(password) {
      return Err(PasswordRequired);
    }
    users[acct.value].password := password.value;
    r := Ok(password.value);
  }
}
