/** The student-side serializers: the mail uniqueness check of a student
    form, the validation and creation of a student together with its parent,
    and the display maps for attendance statuses and admission codes. */
module StudentSerializers {
  import opened Wrappers
  import opened Records
  import opened Text
  import AttendanceModel
  import ScanReconciliation

  // ---------------------------------------------------------------------
  // StudentSerializer.validate_mail

  /** Rejects a mail another student already has; the student being edited
      (`instance`) does not count against itself. */
  function ValidateMail(students: seq<Student>, instance: Option<nat>, mail: string): (r: Result<string, string>)
    ensures r.Err? <==> exists i :: 0 <= i < |students| && students[i].mail == mail
                                    && (instance.None? || students[i].id != instance.value)
    ensures r.Ok? ==> r.value == mail
  {
    if exists i :: 0 <= i < |students| && students[i].mail == mail && (instance.None? || students[i].id != instance.value)
    then Err("A student with this email already exists.")
    else Ok(mail)
  }

  /** Saving a student with the mail it already has is accepted, as long as
      no other student shares that mail. */
  lemma KeepingOwnMailIsAccepted(students: seq<Student>, k: nat)
    requires k < |students|
    requires forall i :: 0 <= i < |students| && students[i].mail == students[k].mail ==> students[i].id == students[k].id
    ensures ValidateMail(students, Some(students[k].id), students[k].mail).Ok?
  {
  }

  /** A new student (no instance) is rejected exactly when its mail is in use. */
  lemma NewStudentMailMustBeFree(students: seq<Student>, mail: string)
    ensures ValidateMail(students, None, mail).Err? <==> exists i :: 0 <= i < |students| && students[i].mail == mail
  {
  }

  // ---------------------------------------------------------------------
  // StudentWithParentSerializer.validate

  /** The fields of the form that matter to validation and creation. The
      parent reference is the primary key the form names, if any. */
  datatype StudentForm = StudentForm(
    nom: string, prenom: string, numero: string, mail: string, level: nat, admission: string,
    parentId: Option<nat>,
    parentNom: Option<string>, parentPrenom: Option<string>, parentMail: Option<string>, parentNumero: Option<string>)

  datatype FormError =
    | UnknownParent
    | FieldRequired(field: string)
    | ParentMailTaken
    | StudentMailTaken
    | NotAuthenticated
    | ParentOfOtherAdmin

  /** A form value Python treats as true: present and not empty. */
  predicate Given(v: Option<string>) { v.Some? && v.value != "" }

  /** The parent fields required when no parent is referenced, in the order
      they are checked. */
  function RequiredParentFields(f: StudentForm): seq<(string, Option<string>)>
  {
    [("parent_nom", f.parentNom), ("parent_prenom", f.parentPrenom),
     ("parent_mail", f.parentMail), ("parent_numero", f.parentNumero)]
  }

  /** The first field of the list that is not given. */
  function FirstMissing(fields: seq<(string, Option<string>)>): (r: Option<string>)
    ensures r.None? <==> forall i :: 0 <= i < |fields| ==> Given(fields[i].1)
    ensures r.Some? ==> exists i :: 0 <= i < |fields| && fields[i].0 == r.value && !Given(fields[i].1)
                                    && forall j :: 0 <= j < i ==> Given(fields[j].1)
    decreases |fields|
  {
    if fields == [] then None
    else if !Given(fields[0].1) then Some(fields[0].0)
    else
      var r := FirstMissing(fields[1..]);
      if r.Some? then
        var i :| 0 <= i < |fields[1..]| && fields[1..][i].0 == r.value && !Given(fields[1..][i].1)
                 && forall j :: 0 <= j < i ==> Given(fields[1..][j].1);
        assert fields[i + 1].0 == r.value && !Given(fields[i + 1].1);
        r
      else r
  }

  function ParentIndex(parents: seq<Parent>, id: nat): (r: Option<nat>)
    ensures r.Some? ==> r.value < |parents| && parents[r.value].id == id
    ensures r.None? <==> forall i :: 0 <= i < |parents| ==> parents[i].id != id
    decreases |parents|
  {
    if parents == [] then None
    else if parents[0].id == id then Some(0)
    else match ParentIndex(parents[1..], id)
      case None => None
      case Some(j) => Some(j + 1)
  }

  predicate ParentMailUsed(parents: seq<Parent>, mail: string)
  {
    exists i :: 0 <= i < |parents| && parents[i].mail == mail
  }

  predicate StudentMailUsed(students: seq<Student>, mail: string)
  {
    exists i :: 0 <= i < |students| && students[i].mail == mail
  }

  /** Every check of `validate` passes: a referenced parent exists and
      belongs to the requester, or, without a reference, the four parent
      fields are given and the parent mail is free; and the student mail is
      free. */
  predicate Acceptable(f: StudentForm, parents: seq<Parent>, students: seq<Student>, user: Option<nat>)
  {
    && !StudentMailUsed(students, f.mail)
    && (f.parentId.Some? ==>
          ParentIndex(parents, f.parentId.value).Some?
          && user == Some(parents[ParentIndex(parents, f.parentId.value).value].admin))
    && (f.parentId.None? ==>
          Given(f.parentNom) && Given(f.parentPrenom) && Given(f.parentMail) && Given(f.parentNumero)
          && !ParentMailUsed(parents, f.parentMail.value))
  }

  /** `StudentWithParentSerializer.validate` (after the primary-key field has
      resolved the parent reference). `user` is the authenticated requester,
      `None` without one. */
  function Validate(f: StudentForm, parents: seq<Parent>, students: seq<Student>, user: Option<nat>)
    : (r: Result<StudentForm, FormError>)
    ensures r.Ok? ==> r.value == f
    ensures r.Ok? && f.parentId.None? ==>
              Given(f.parentNom) && Given(f.parentPrenom) && Given(f.parentMail) && Given(f.parentNumero)
              && !ParentMailUsed(parents, f.parentMail.value)
    ensures r.Ok? ==> !StudentMailUsed(students, f.mail)
    ensures r.Ok? && f.parentId.Some? ==>
              ParentIndex(parents, f.parentId.value).Some?
              && user == Some(parents[ParentIndex(parents, f.parentId.value).value].admin)
    ensures r.Ok? <==> Acceptable(f, parents, students, user)
  {
    if f.parentId.Some? && ParentIndex(parents, f.parentId.value).None? then Err(UnknownParent)
    else if f.parentId.None? then
      if FirstMissing(RequiredParentFields(f)).Some? then Err(FieldRequired(FirstMissing(RequiredParentFields(f)).value))
      else
        AllRequiredGiven(f);
        if ParentMailUsed(parents, f.parentMail.value) then Err(ParentMailTaken)
        else if StudentMailUsed(students, f.mail) then Err(StudentMailTaken)
        else Ok(f)
    else if StudentMailUsed(students, f.mail) then Err(StudentMailTaken)
    else if user.None? then Err(NotAuthenticated)
    else if user.value != parents[ParentIndex(parents, f.parentId.value).value].admin then Err(ParentOfOtherAdmin)
    else Ok(f)
  }

  lemma AllRequiredGiven(f: StudentForm)
    requires FirstMissing(RequiredParentFields(f)).None?
    ensures Given(f.parentNom) && Given(f.parentPrenom) && Given(f.parentMail) && Given(f.parentNumero)
  {
    var fs := RequiredParentFields(f);
    assert Given(fs[0].1) && Given(fs[1].1) && Given(fs[2].1) && Given(fs[3].1);
  }

  /** Without a parent reference, a missing parent field is reported before
      anything else, and it is the first missing one in the order nom,
      prenom, mail, numero. */
  lemma MissingParentFieldReportedFirst(f: StudentForm, parents: seq<Parent>, students: seq<Student>, user: Option<nat>,
                                        k: nat)
    requires f.parentId.None? && k < 4
    requires !Given(RequiredParentFields(f)[k].1)
    requires forall j :: 0 <= j < k ==> Given(RequiredParentFields(f)[j].1)
    ensures Validate(f, parents, students, user) == Err(FieldRequired(RequiredParentFields(f)[k].0))
  {
    var fs := RequiredParentFields(f);
    var i :| 0 <= i < |fs| && fs[i].0 == FirstMissing(fs).value && !Given(fs[i].1)
             && forall j :: 0 <= j < i ==> Given(fs[j].1);
    assert i == k;
  }

  /** A referenced parent must be the requester's own: a parent of another
      admin is refused even when everything else is in order. */
  lemma ForeignParentRefused(f: StudentForm, parents: seq<Parent>, students: seq<Student>, user: nat)
    requires f.parentId.Some? && ParentIndex(parents, f.parentId.value).Some?
    requires parents[ParentIndex(parents, f.parentId.value).value].admin != user
    ensures Validate(f, parents, students, Some(user)).Err?
  {
  }

  // ---------------------------------------------------------------------
  // StudentWithParentSerializer.create

  datatype CreateError = CreateNotAuthenticated | StudentRefused | ParentRefused | CreateUnknownParent

  /** The parent choice of `create` fails: the referenced parent does not
      exist, or, without a reference, the parent mail is missing or another
      admin's parent already holds it. */
  predicate ChoiceRefused(parents: seq<Parent>, f: StudentForm, admin: nat)
  {
    if f.parentId.Some? then ParentIndex(parents, f.parentId.value).None?
    else
      f.parentMail.None?
      || (ParentMailIndex(parents, f.parentMail.value).Some?
          && parents[ParentMailIndex(parents, f.parentMail.value).value].admin != admin)
  }

  /** The student and parent tables and their next primary keys. */
  class Registry {
    var students: seq<Student>
    var parents: seq<Parent>
    var nextStudent: nat
    var nextParent: nat

    /** Ids are below the next key, mails are unique in both tables (the
        columns are declared unique), and parents link only to students that
        were created. */
    ghost predicate Valid()
      reads this
    {
      && (forall i :: 0 <= i < |students| ==> students[i].id < nextStudent)
      && (forall i :: 0 <= i < |parents| ==> parents[i].id < nextParent)
      && (forall i, x :: 0 <= i < |parents| && x in parents[i].students ==> x < nextStudent)
      && (forall i, j :: 0 <= i < j < |students| ==> students[i].mail != students[j].mail)
      && (forall i, j :: 0 <= i < j < |parents| ==> parents[i].mail != parents[j].mail)
    }

    constructor ()
      ensures Valid() && students == [] && parents == [] && nextStudent == 1 && nextParent == 1
    {
      students, parents, nextStudent, nextParent := [], [], 1, 1;
    }

    /** The parent index holding a given mail, if any. */
    function ParentByMail(mail: string): (r: Option<nat>)
      reads this
      ensures r.Some? ==> r.value < |parents| && parents[r.value].mail == mail
      ensures r.None? <==> !ParentMailUsed(parents, mail)
    {
      ParentMailIndex(parents, mail)
    }

    /** The parent the new student is linked to: the referenced one, or the
        one `get_or_create(mail=..., admin=...)` finds or inserts. The insert
        is refused when the mail is missing or another admin's parent holds
        it (the mail column is unique). */
    method ChooseParent(f: StudentForm, admin: nat) returns (r: Result<nat, CreateError>)
      requires Valid()
      modifies this
      ensures Valid()
      ensures students == old(students) && nextStudent == old(nextStudent)
      ensures r.Err? ==> parents == old(parents)
      ensures r.Err? <==> ChoiceRefused(old(parents), f, admin)
      ensures r.Err? ==> r.error == (if f.parentId.Some? then CreateUnknownParent else ParentRefused)
      ensures r.Ok? ==> r.value < |parents|
      ensures r.Ok? && f.parentId.Some? ==> parents == old(parents) && parents[r.value].id == f.parentId.value
      ensures r.Ok? && f.parentId.None? ==> f.parentMail.Some? && parents[r.value].mail == f.parentMail.value
                                            && parents[r.value].admin == admin
      ensures parents == old(parents)
              || (parents == old(parents) + [Parent(old(nextParent), admin, f.parentMail.value, {})] && f.parentMail.Some?)
    {
      if f.parentId.Some? {
        var found := ParentIndex(parents, f.parentId.value);
        if found.None? {
          return Err(CreateUnknownParent);
        }
        return Ok(found.value);
      }
      if f.parentMail.None? {
        return Err(ParentRefused);
      }
      var found := ParentByMail(f.parentMail.value);
      if found.Some? {
        if parents[found.value].admin != admin {
          return Err(ParentRefused);
        }
        return Ok(found.value);
      }
      parents := parents + [Parent(nextParent, admin, f.parentMail.value, {})];
      nextParent := nextParent + 1;
      r := Ok(|parents| - 1);
    }

    /** `parent.students.add(student)`. */
    method Link(p: nat, sid: nat)
      requires Valid() && p < |parents| && sid < nextStudent
      modifies this
      ensures Valid()
      ensures students == old(students) && nextStudent == old(nextStudent) && nextParent == old(nextParent)
      ensures parents == old(parents)[p := old(parents)[p].(students := old(parents)[p].students + {sid})]
    {
      parents := parents[p := parents[p].(students := parents[p].students + {sid})];
    }

    /** The parent half of `create`: the new student `sid`, listed by no
        parent yet, is linked to the parent `ChooseParent` picks or makes. */
    method AttachParent(f: StudentForm, admin: nat, sid: nat) returns (r: Result<nat, CreateError>)
      requires Valid() && sid < nextStudent
      requires forall q :: 0 <= q < |parents| ==> sid !in parents[q].students
      modifies this
      ensures Valid()
      ensures students == old(students) && nextStudent == old(nextStudent)
      ensures |old(parents)| <= |parents| <= |old(parents)| + 1
      ensures r.Err? <==> ChoiceRefused(old(parents), f, admin)
      ensures r.Err? ==> parents == old(parents) && r.error == (if f.parentId.Some? then CreateUnknownParent else ParentRefused)
      ensures r.Ok? ==> r.value == sid
      ensures r.Ok? ==> forall q :: 0 <= q < |old(parents)| ==>
                parents[q] == old(parents)[q]
                || parents[q] == old(parents)[q].(students := old(parents)[q].students + {sid})
      ensures r.Ok? && |parents| == |old(parents)| + 1 ==>
                f.parentMail.Some? && parents[|old(parents)|] == Parent(old(nextParent), admin, f.parentMail.value, {sid})
      ensures r.Ok? ==> exists p :: 0 <= p < |parents| && sid in parents[p].students
                         && (forall q :: 0 <= q < |parents| && q != p ==> sid !in parents[q].students)
                         && (f.parentId.Some? ==> parents[p].id == f.parentId.value)
                         && (f.parentId.None? ==>
                               (f.parentMail.Some? && parents[p].mail == f.parentMail.value && parents[p].admin == admin))
    {
      var chosen := ChooseParent(f, admin);
      if chosen.Err? {
        return Err(chosen.error);
      }
      var p := chosen.value;
      ghost var before := parents;
      assert forall q :: 0 <= q < |old(parents)| ==> before[q] == old(parents)[q];
      assert forall q :: 0 <= q < |before| ==> sid !in before[q].students;
      Link(p, sid);
      assert |parents| == |before|;
      assert forall q :: 0 <= q < |parents| && q != p ==> parents[q] == before[q];
      assert parents[p] == before[p].(students := before[p].students + {sid});
      r := Ok(sid);
    }

    /** `StudentWithParentSerializer.create`: the student is created under the
        requester, then linked to the referenced parent, or to the parent
        `get_or_create` finds or makes for (parent mail, admin). The two
        writes are not atomic: a refused parent leaves the student in place.
        On success exactly one parent lists the new student. */
    method Create(f: StudentForm, user: Option<nat>) returns (r: Result<nat, CreateError>)
      requires Valid()
      modifies this
      ensures Valid()
      ensures user.None? ==> r == Err(CreateNotAuthenticated) && students == old(students) && parents == old(parents)
      ensures user.Some? && StudentMailUsed(old(students), f.mail) ==>
                r == Err(StudentRefused) && students == old(students) && parents == old(parents)
      ensures user.Some? && !StudentMailUsed(old(students), f.mail) ==>
                students == old(students) + [Student(old(nextStudent), user.value, f.nom, f.prenom, f.numero,
                                                     f.mail, f.level, f.admission)]
      ensures |old(parents)| <= |parents| <= |old(parents)| + 1
      ensures user.Some? && !StudentMailUsed(old(students), f.mail) ==>
                (r.Err? <==> ChoiceRefused(old(parents), f, user.value))
      ensures user.Some? && !StudentMailUsed(old(students), f.mail) && r.Err? ==>
                parents == old(parents) && r.error == (if f.parentId.Some? then CreateUnknownParent else ParentRefused)
      ensures r.Ok? ==> r.value == old(nextStudent)
      ensures r.Ok? ==> forall q :: 0 <= q < |old(parents)| ==>
                parents[q] == old(parents)[q]
                || parents[q] == old(parents)[q].(students := old(parents)[q].students + {r.value})
      ensures r.Ok? && |parents| == |old(parents)| + 1 ==>
                f.parentMail.Some? && parents[|old(parents)|] == Parent(old(nextParent), user.value, f.parentMail.value, {r.value})
      ensures r.Ok? ==> exists p :: 0 <= p < |parents| && r.value in parents[p].students
                         && (forall q :: 0 <= q < |parents| && q != p ==> r.value !in parents[q].students)
                         && (f.parentId.Some? ==> parents[p].id == f.parentId.value)
                         && (f.parentId.None? ==>
                               (f.parentMail.Some? && parents[p].mail == f.parentMail.value && parents[p].admin == user.value))
    {
      if user.None? {
        return Err(CreateNotAuthenticated);
      }
      if StudentMailUsed(students, f.mail) {
        return Err(StudentRefused);
      }
      var sid := nextStudent;
      AppendStudentKeepsMails(students, Student(sid, user.value, f.nom, f.prenom, f.numero, f.mail, f.level, f.admission));
      students := students + [Student(sid, user.value, f.nom, f.prenom, f.numero, f.mail, f.level, f.admission)];
      nextStudent := nextStudent + 1;
      r := AttachParent(f, user.value, sid);
    }
  }

  lemma AppendStudentKeepsMails(students: seq<Student>, s: Student)
    requires !StudentMailUsed(students, s.mail)
    ensures (forall i, j :: 0 <= i < j < |students| ==> students[i].mail != students[j].mail)
            ==> forall i, j :: 0 <= i < j < |students + [s]| ==> (students + [s])[i].mail != (students + [s])[j].mail
  {
  }

  function ParentMailIndex(parents: seq<Parent>, mail: string): (r: Option<nat>)
    ensures r.Some? ==> r.value < |parents| && parents[r.value].mail == mail
    ensures r.None? <==> !ParentMailUsed(parents, mail)
    decreases |parents|
  {
    if parents == [] then None
    else if parents[0].mail == mail then Some(0)
    else match ParentMailIndex(parents[1..], mail)
      case None => None
      case Some(j) =>
        assert forall i :: 1 <= i < |parents| ==> parents[i] == parents[1..][i - 1];
        Some(j + 1)
  }

  // ---------------------------------------------------------------------
  // AttendanceSerializer.get_status and StudentExportSerializer.get_admission_s

  /** The status shown for an attendance record; any value outside the map,
      the stored choice `att` included, reads as pending. */
  function StatusDisplay(code: string): (display: string)
    ensures display in ["Present", "Absent", "Late", "Pending"]
    ensures display != "Pending" <==> code in ["present", "absent", "retard"]
  {
    match code
    case "present" => "Present"
    case "absent" => "Absent"
    case "retard" => "Late"
    case "att" => "Pending"
    case _ => "Pending"
  }

  /** As written, the scan handler stores its upper-case status, which is
      not a declared choice: the record API then reads every scanned record
      as pending, while the live message, lowercased, shows the real status. */
  lemma ScannedStatusReadsPending(offset: int)
    ensures var stored := ScanReconciliation.ClassifyStudent(offset);
            && stored !in AttendanceModel.StatusCodes
            && AttendanceModel.StatusLabel(stored).None?
            && StatusDisplay(stored) == "Pending"
            && StatusDisplay(Lower(stored)) != "Pending"
  {
    var stored := ScanReconciliation.ClassifyStudent(offset);
    assert Lower("PRESENT") == "present" && Lower("RETARD") == "retard" && Lower("ABSENT") == "absent";
    assert stored != "present" && stored != "absent" && stored != "retard" && stored != "att" by {
      assert stored[0] == 'P' || stored[0] == 'R' || stored[0] == 'A';
    }
  }

  /** The reading `get_status` evidently intends: the stored code looked
      up without regard to case, as the phone's own fetch lowercases it. On
      every lowercase code it is `get_status` itself. */
  function RecordStatusDisplay(code: string): (display: string)
    ensures display != "Pending" <==> Lower(code) in ["present", "absent", "retard"]
    ensures Lower(code) == code ==> display == StatusDisplay(code)
  {
    StatusDisplay(Lower(code))
  }

  /** Read that way, a scanned record shows the status the live message
      announced, labelled, and never as pending; the records the views and
      the sweeps store read as before. */
  lemma ScanStoredStatusDisplays(offset: int)
    ensures var stored := ScanReconciliation.ClassifyStudent(offset);
            && RecordStatusDisplay(stored) != "Pending"
            && AttendanceModel.StatusLabel(Lower(stored)).Some?
            && RecordStatusDisplay(stored) == StatusDisplay(Lower(stored))
    ensures forall c :: c in AttendanceModel.StatusCodes ==> RecordStatusDisplay(c) == StatusDisplay(c)
  {
    var stored := ScanReconciliation.ClassifyStudent(offset);
    assert Lower("PRESENT") == "present" && Lower("RETARD") == "retard" && Lower("ABSENT") == "absent";
    forall c | c in AttendanceModel.StatusCodes
      ensures RecordStatusDisplay(c) == StatusDisplay(c)
    {
      LowerOfLowercase(c);
    }
  }

  /** The admission shown for a student; an unknown code reads `Unknown`. */
  function AdmissionDisplay(code: string): (display: string)
    ensures display == "Unknown" <==> code !in ["att", "acc", "ref"]
  {
    match code
    case "att" => "En Attente"
    case "acc" => "Accepté"
    case "ref" => "Refusé"
    case _ => "Unknown"
  }

  /** The three admission codes display differently from each other. */
  lemma AdmissionDisplayInjective(a: string, b: string)
    requires a in ["att", "acc", "ref"] && b in ["att", "acc", "ref"] && a != b
    ensures AdmissionDisplay(a) != AdmissionDisplay(b)
  {
  }
}
