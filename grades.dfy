/** The administrator's grade book: letter grades from scores, the grade
    point average of a student's list, the parsing of the score fields of
    the grade form, and the add, update and delete operations on the
    selected student's list. */
module GradeBook {
  import opened Wrappers
  import opened Text
  import opened Seqs

  /** The letters from best to worst. */
  const Letters: seq<string> := ["A", "A-", "B+", "B", "B-", "C+", "C", "C-", "D+", "D", "D-", "F"]

  /** The lowest score of each letter but the last. */
  const Thresholds: seq<int> := [93, 90, 87, 83, 80, 77, 73, 70, 67, 63, 60]

  /** The position in `Letters` of the letter for `score`: the number of
      thresholds the score does not reach. */
  function GradeIndex(score: int): (i: nat)
    ensures i < |Letters|
    ensures forall j :: 0 <= j < |Thresholds| ==> (j < i <==> score < Thresholds[j])
  {
    if score >= 93 then 0 else if score >= 90 then 1 else if score >= 87 then 2
    else if score >= 83 then 3 else if score >= 80 then 4 else if score >= 77 then 5
    else if score >= 73 then 6 else if score >= 70 then 7 else if score >= 67 then 8
    else if score >= 63 then 9 else if score >= 60 then 10 else 11
  }

  /** `calculateGrade`: the first threshold from the top that the score
      reaches picks the letter; below 60 is `F`. */
  function CalculateGrade(score: int): (g: string)
    ensures g in Letters
    ensures g == "A" <==> score >= 93
    ensures g == "F" <==> score < 60
  {
    Letters[GradeIndex(score)]
  }

  /** A higher score never earns a worse letter. */
  lemma {:induction false} CalculateGradeMonotone(a: int, b: int)
    requires a <= b
    ensures GradeIndex(b) <= GradeIndex(a)
    ensures CalculateGrade(a) == Letters[GradeIndex(a)] && CalculateGrade(b) == Letters[GradeIndex(b)]
  {
  }

  /** The grade points of each letter, in tenths. */
  const PointTenths: seq<nat> := [40, 37, 33, 30, 27, 23, 20, 17, 13, 10, 7, 0]

  /** The points of the letter for `score`, in tenths. */
  function Points(score: int): (p: nat)
    ensures p <= 40
  {
    PointTenths[GradeIndex(score)]
  }

  /** A higher score never earns fewer points. */
  lemma PointsMonotone(a: int, b: int)
    requires a <= b
    ensures Points(a) <= Points(b)
  {
    CalculateGradeMonotone(a, b);
    assert forall i, j :: 0 <= i <= j < |PointTenths| ==> PointTenths[j] <= PointTenths[i];
  }

  /** A grade's `id`: the number of a stored or added grade, or the empty
      text of a blank form. `===` tells them apart, so a blank id equals no
      number. */
  datatype GradeId = Numbered(n: nat) | Blank

  /** One row of a student's grade list; `subject` is whatever the form
      holds (an id from the subject list, or the select box's text). */
  datatype Grade = Grade(id: GradeId, subject: string, assignment: string, score: int, maxScore: int, date: string)

  /** `subjects[0].id` of the page's fixed subject list. */
  const FirstSubject: string := "CS101"

  /** The form `handleAddGrade` and `resetForm` set: the given id, the first
      subject, no assignment, a score of 0 out of 100, and today's date (the
      clock is a parameter). */
  function FreshForm(id: GradeId, today: string): Grade
  {
    Grade(id, FirstSubject, "", 0, 100, today)
  }

  /** A student's average as the book stores it: a text (the loaded value,
      or `"0.0"` for an empty list), or the exact mean of the grade points,
      `points` tenths over `count` grades. `toFixed(1)` of that mean is not
      modelled. */
  datatype Gpa = Text(text: string) | Mean(points: nat, count: nat)

  /** The sum of the grade points of a list, in tenths. */
  function TotalPoints(grades: seq<Grade>): (t: nat)
    ensures t <= 40 * |grades|
    decreases |grades|
  {
    if grades == [] then 0 else TotalPoints(grades[..|grades| - 1]) + Points(grades[|grades| - 1].score)
  }

  /** The average `calculateGPA` computes: `"0.0"` for an empty list,
      otherwise the total points over the number of grades. */
  function GpaOf(grades: seq<Grade>): (g: Gpa)
    ensures grades == [] <==> g == Text("0.0")
    ensures g.Mean? ==> g.count == |grades| && g.points <= 40 * g.count && g.count > 0
  {
    if grades == [] then Text("0.0") else Mean(TotalPoints(grades), |grades|)
  }

  /** `calculateGPA`: the `forEach` that adds up the points and counts the
      grades. */
  method CalculateGPA(grades: seq<Grade>) returns (g: Gpa)
    ensures g == GpaOf(grades)
  {
    if |grades| == 0 {
      return Text("0.0");
    }
    var total := 0;
    var count := 0;
    while count < |grades|
      invariant 0 <= count <= |grades|
      invariant total == TotalPoints(grades[..count])
    {
      assert grades[..count + 1][..count] == grades[..count];
      total := total + Points(grades[count].score);
      count := count + 1;
    }
    assert grades[..count] == grades;
    g := Mean(total, count);
  }

  /** A list of top grades averages the full 4.0. */
  lemma {:induction false} AllTopGrades(grades: seq<Grade>)
    requires forall i :: 0 <= i < |grades| ==> grades[i].score >= 93
    ensures TotalPoints(grades) == 40 * |grades|
    decreases |grades|
  {
    if grades != [] {
      AllTopGrades(grades[..|grades| - 1]);
    }
  }

  /** `Number.parseInt(value) || 0`: the parsed integer, with `NaN` and 0
      both giving 0. */
  function ParseScore(value: string): (n: int)
    ensures ParseInt(value).None? ==> n == 0
    ensures ParseInt(value).Some? ==> n == ParseInt(value).value
  {
    var p := ParseInt(value);
    if p.Some? then p.value else 0
  }

  /** A score typed as digits reads back as its value. */
  lemma ParseScoreOfNumber(n: nat)
    ensures ParseScore(NatToString(n)) == n
  {
    ParseIntOfNatToString(n);
  }

  /** `handleInputChange`: the named field takes the value, parsed for the
      two score fields; every other field is kept. */
  function WithInput(form: Grade, name: string, value: string): (f: Grade)
    ensures name == "score" ==> f == form.(score := ParseScore(value))
    ensures name == "max_score" ==> f == form.(maxScore := ParseScore(value))
    ensures name == "assignment" ==> f == form.(assignment := value)
    ensures name == "date" ==> f == form.(date := value)
    ensures name == "subjectId" ==> f == form.(subject := value)
    ensures name !in ["score", "max_score", "assignment", "date", "subjectId"] ==> f == form
  {
    if name == "score" then form.(score := ParseScore(value))
    else if name == "max_score" then form.(maxScore := ParseScore(value))
    else if name == "assignment" then form.(assignment := value)
    else if name == "date" then form.(date := value)
    else if name == "subjectId" then form.(subject := value)
    else form
  }

  /** `grades.map(g => g.id === form.id ? form : g)`. */
  function ReplaceById(grades: seq<Grade>, form: Grade): (r: seq<Grade>)
    ensures |r| == |grades|
    ensures forall i :: 0 <= i < |r| ==> r[i] == (if grades[i].id == form.id then form else grades[i])
  {
    ReplaceWhere(grades, (x: Grade) => x.id == form.id, form)
  }

  /** `grades.filter(g => g.id !== id)`. */
  function RemoveId(grades: seq<Grade>, id: GradeId): (r: seq<Grade>)
    ensures forall x :: x in r <==> x in grades && x.id != id
    ensures Subsequence(r, grades)
  {
    var keep := (x: Grade) => x.id != id;
    FilterSubsequence(grades, keep);
    forall x
      ensures x in Filter(grades, keep) <==> x in grades && x.id != id
    {
      FilterMembers(grades, keep, x);
    }
    Filter(grades, keep)
  }

  /** A form reset after a save carries the blank id, so an update from it
      replaces no numbered grade and a delete of its id removes none. */
  lemma BlankFormMatchesNothing(grades: seq<Grade>, today: string)
    requires forall i :: 0 <= i < |grades| ==> grades[i].id.Numbered?
    ensures ReplaceById(grades, FreshForm(Blank, today)) == grades
    ensures RemoveId(grades, Blank) == grades
  {
    FilterAll(grades, (x: Grade) => x.id != Blank);
  }

  /** A student's entry in the book. */
  datatype Entry = Entry(grades: seq<Grade>, gpa: Gpa)

  /** The entry's average is the one its list gives. */
  predicate Consistent(e: Entry)
  {
    e.gpa == GpaOf(e.grades)
  }

  /** Every entry of the book is consistent. */
  predicate AllConsistent(entries: map<nat, Entry>)
  {
    forall k :: k in entries ==> Consistent(entries[k])
  }

  /** The entry after a list change, as the handlers write it: the new list,
      with the average `updateStudentGPA` computes from the list it read
      before the change. */
  function AfterChange(e: Entry, newGrades: seq<Grade>): (r: Entry)
    ensures r.grades == newGrades && r.gpa == GpaOf(e.grades)
  {
    Entry(newGrades, GpaOf(e.grades))
  }

  /** As written, deleting the only grade of a consistent entry leaves the
      average of the old list beside the now empty list. */
  lemma StaleAverageAfterDelete(g: Grade)
    requires g.score >= 93
    ensures Consistent(Entry([g], GpaOf([g])))
    ensures var r := AfterChange(Entry([g], GpaOf([g])), RemoveId([g], g.id));
            r.grades == [] && r.gpa == Mean(40, 1) && !Consistent(r)
  {
    assert [g][..0] == [];
    var r := RemoveId([g], g.id);
  }

  /** The entry the handlers evidently intend: the average recomputed from
      the new list. */
  function Recomputed(newGrades: seq<Grade>): (r: Entry)
    ensures r.grades == newGrades
  {
    Entry(newGrades, GpaOf(newGrades))
  }

  /** A recomputed entry is always consistent. */
  lemma RecomputedIsConsistent(newGrades: seq<Grade>)
    ensures Consistent(Recomputed(newGrades))
  {
  }

  /** The book: the entries of the loaded students, the selected student,
      the selected grade and the form. Its handlers store the recomputed
      average; `AfterChange` is what they store as written. */
  class Book {
    var entries: map<nat, Entry>
    var student: Option<nat>
    var selected: Option<Grade>
    var form: Grade

    constructor (entries0: map<nat, Entry>, form0: Grade)
      ensures entries == entries0 && student.None? && selected.None? && form == form0
    {
      entries := entries0;
      student := None;
      selected := None;
      form := form0;
    }

    /** `handleInputChange` on the form. */
    method InputChange(name: string, value: string)
      modifies this
      ensures form == WithInput(old(form), name, value)
      ensures entries == old(entries) && student == old(student) && selected == old(selected)
    {
      if name == "score" || name == "max_score" {
        var n := ParseScore(value);
        form := if name == "score" then form.(score := n) else form.(maxScore := n);
      } else {
        form := WithInput(form, name, value);
      }
    }

    /** `handleEditGrade`: the grade is copied into the form and selected. */
    method EditGrade(g: Grade)
      modifies this
      ensures form == g && selected == Some(g)
      ensures entries == old(entries) && student == old(student)
    {
      form := g;
      selected := Some(g);
    }

    /** A student row's `onClick`: the student becomes the selected one
        and the selected grade is cleared. */
    method SelectStudent(id: nat)
      modifies this
      ensures student == Some(id) && selected.None?
      ensures entries == old(entries) && form == old(form)
    {
      student := Some(id);
      selected := None;
    }

    /** `handleAddGrade`: with a student selected, the form is set to a
        fresh grade numbered by the clock reading `now` and the selected
        grade is cleared; without one nothing happens. */
    method AddGrade(now: nat, today: string)
      modifies this
      ensures student.None? ==> form == old(form) && selected == old(selected)
      ensures student.Some? ==> form == FreshForm(Numbered(now), today) && selected.None?
      ensures entries == old(entries) && student == old(student)
    {
      if student.None? {
        return;
      }
      form := FreshForm(Numbered(now), today);
      selected := None;
    }

    /** `handleSaveNewGrade`: the form is appended to the selected
        student's list, the average is recomputed from the new list, and
        `resetForm` blanks the form for `today`. Without a selected student
        nothing happens; a student without an entry makes the handler throw
        before anything changes. */
    method SaveNewGrade(today: string)
      modifies this
      ensures AllConsistent(old(entries)) ==> AllConsistent(entries)
      ensures student == old(student) && selected == old(selected)
      ensures student.None? || student.value !in old(entries) ==> entries == old(entries) && form == old(form)
      ensures student.Some? && student.value in old(entries) ==>
                var e := old(entries)[student.value];
                entries == old(entries)[student.value := Recomputed(e.grades + [old(form)])]
                && |entries[student.value].grades| == |e.grades| + 1
                && entries[student.value].grades[|e.grades|] == old(form)
                && form == FreshForm(Blank, today)
    {
      if student.None? || student.value !in entries {
        return;
      }
      var id := student.value;
      var e := entries[id];
      var newGrades := e.grades + [form];
      var gpa := CalculateGPA(newGrades);
      entries := entries[id := Entry(newGrades, gpa)];
      form := FreshForm(Blank, today);
    }

    /** `handleUpdateGrade`: every grade with the form's id is replaced by
        the form, the average is recomputed, and the form becomes the
        selected grade. */
    method UpdateGrade()
      modifies this
      ensures AllConsistent(old(entries)) ==> AllConsistent(entries)
      ensures form == old(form) && student == old(student)
      ensures student.None? || old(selected).None? || student.value !in old(entries) ==>
                entries == old(entries) && selected == old(selected)
      ensures student.Some? && old(selected).Some? && student.value in old(entries) ==>
                var e := old(entries)[student.value];
                && selected == Some(form)
                && entries == old(entries)[student.value := Recomputed(ReplaceById(e.grades, form))]
    {
      if student.None? || selected.None? || student.value !in entries {
        return;
      }
      var id := student.value;
      var e := entries[id];
      var newGrades := ReplaceById(e.grades, form);
      var gpa := CalculateGPA(newGrades);
      entries := entries[id := Entry(newGrades, gpa)];
      selected := Some(form);
    }

    /** `handleDeleteGrade`: every grade with the selected grade's id is
        removed, the others keep their order, the average is recomputed,
        and the selection is cleared. */
    method DeleteGrade()
      modifies this
      ensures AllConsistent(old(entries)) ==> AllConsistent(entries)
      ensures form == old(form) && student == old(student)
      ensures student.None? || old(selected).None? || student.value !in old(entries) ==>
                entries == old(entries) && selected == old(selected)
      ensures student.Some? && old(selected).Some? && student.value in old(entries) ==>
                var e := old(entries)[student.value];
                && selected.None?
                && entries == old(entries)[student.value := Recomputed(RemoveId(e.grades, old(selected).value.id))]
    {
      if student.None? || selected.None? || student.value !in entries {
        return;
      }
      var id := student.value;
      var e := entries[id];
      var newGrades := RemoveId(e.grades, selected.value.id);
      var gpa := CalculateGPA(newGrades);
      entries := entries[id := Entry(newGrades, gpa)];
      selected := None;
    }
  }
}
