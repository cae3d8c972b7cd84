/** The administrator's student list: the search and level filter, the two
    paginations over the filtered list (one student per card page, ten per
    table page), the page buttons, the "Showing" range, and the list
    updates after an add, an edit or a delete. */
module StudentListPage {
  import opened Wrappers
  import opened Text
  import opened Seqs

  /** The fields of a listed student the page reads. */
  datatype Student = Student(id: nat, nom: string, prenom: string, level: nat)

  /** The search part of the filter: an empty query, or the query inside
      the lowercased last or first name (itself lowercased), or inside the
      id's digits. */
  predicate MatchesSearch(s: Student, query: string)
  {
    query == ""
    || Contains(Lower(s.nom), Lower(query))
    || Contains(Lower(s.prenom), Lower(query))
    || Contains(NatToString(s.id), query)
  }

  /** The level part: `All`, or the level id the select box's text parses
      to. */
  predicate MatchesLevel(s: Student, level: string)
  {
    level == "All" || ParseInt(level) == Some(s.level as int)
  }

  predicate Matches(s: Student, query: string, level: string)
  {
    MatchesSearch(s, query) && MatchesLevel(s, level)
  }

  /** `filteredStudents`: the matching students, in list order. */
  function Filtered(students: seq<Student>, query: string, level: string): (r: seq<Student>)
    ensures forall s :: s in r <==> s in students && Matches(s, query, level)
    ensures Subsequence(r, students)
  {
    var keep := (s: Student) => Matches(s, query, level);
    forall s
      ensures s in Filter(students, keep) <==> s in students && keep(s)
    {
      FilterMembers(students, keep, s);
    }
    FilterSubsequence(students, keep);
    Filter(students, keep)
  }

  /** With an empty query and every level, the whole list is shown. */
  lemma UnfilteredShowsAll(students: seq<Student>)
    ensures Filtered(students, "", "All") == students
  {
    FilterAll(students, (s: Student) => Matches(s, "", "All"));
  }

  /** A student whose last name holds the query at position `i`, in any
      mix of cases, is found; so is any student searched by its own id. */
  lemma SearchFindsName(s: Student, query: string, i: nat)
    requires i + |query| <= |s.nom| && Lower(s.nom)[i..i + |query|] == Lower(query)
    ensures MatchesSearch(s, query)
  {
    ContainsAt(Lower(s.nom), Lower(query), i);
  }

  /** An accented capital in the name is found by its small form. */
  lemma SearchFindsAccentedName(s: Student)
    requires s.nom == "\U{C9}LODIE"
    ensures MatchesSearch(s, "\U{E9}lodie")
  {
    SearchFindsName(s, "\U{E9}lodie", 0);
  }

  lemma SearchFindsId(s: Student)
    ensures MatchesSearch(s, NatToString(s.id))
  {
    ContainsAt(NatToString(s.id), NatToString(s.id), 0);
  }

  /** A level text that is not a number keeps nobody. */
  lemma UnparsedLevelKeepsNobody(students: seq<Student>, query: string, level: string)
    requires level != "All" && ParseInt(level).None?
    ensures Filtered(students, query, level) == []
  {
  }

  const StudentsPerPage: nat := 1
  const TableRowsPerPage: nat := 10

  /** `s.slice(start, end)` for non-negative bounds: clamped to the list. */
  function Slice(s: seq<Student>, start: nat, end: nat): (r: seq<Student>)
    ensures start <= end ==> |r| <= end - start
    ensures start >= |s| || end <= start ==> r == []
    ensures start < end && start < |s| ==> r == s[start..if end < |s| then end else |s|]
  {
    var e := if end < |s| then end else |s|;
    if start < e then s[start..e] else []
  }

  /** The students of page `page` (from 1) at `size` per page. */
  function Page(s: seq<Student>, page: nat, size: nat): (r: seq<Student>)
    requires page >= 1
    ensures |r| <= size
    ensures forall i :: 0 <= i < |r| ==> (page - 1) * size + i < |s| && r[i] == s[(page - 1) * size + i]
    ensures (page - 1) * size < |s| && size > 0 ==> r != []
  {
    var start := (page - 1) * size;
    assert page * size == start + size;
    Slice(s, start, page * size)
  }

  /** `Math.ceil(n / size)`. */
  function TotalPages(n: nat, size: nat): (t: nat)
    requires size > 0
    ensures t * size >= n && (t == 0 || (t - 1) * size < n)
  {
    (n + size - 1) / size
  }

  /** Every page up to the last is non-empty; the pages after it are
      empty. */
  lemma PagesInRange(s: seq<Student>, page: nat, size: nat)
    requires page >= 1 && size > 0
    ensures page <= TotalPages(|s|, size) <==> Page(s, page, size) != []
  {
    var t := TotalPages(|s|, size);
    if page <= t {
      assert (page - 1) * size <= (t - 1) * size;
    } else {
      assert (page - 1) * size >= t * size;
    }
  }

  /** `nextPage`: forward one page unless already on the last. */
  function NextPage(current: nat, total: nat): (r: nat)
    ensures current < total ==> r == current + 1
    ensures current >= total ==> r == current
    ensures r <= current || r <= total
  {
    if current < total then current + 1 else current
  }

  /** `prevPage`: back one page unless already on the first. */
  function PrevPage(current: nat): (r: nat)
    ensures current > 1 ==> r == current - 1
    ensures current <= 1 ==> r == current
    ensures current >= 1 ==> r >= 1
  {
    if current > 1 then current - 1 else current
  }

  /** Pressing either button keeps a page counter within `1..total` once it
      is in that range. */
  lemma ButtonsKeepRange(current: nat, total: nat)
    requires 1 <= current <= total
    ensures 1 <= NextPage(current, total) <= total
    ensures 1 <= PrevPage(current) <= total
  {
  }

  /** The "Showing a to b of n" line: `a` is 0 on an empty page and the
      first position of the page otherwise; `b` is the end of the page, cut
      at `n`. */
  function ShowingFrom(page: nat, size: nat, pageLength: nat): (a: nat)
    requires page >= 1
    ensures pageLength == 0 <==> a == 0
  {
    if pageLength > 0 then (page - 1) * size + 1 else 0
  }

  function ShowingTo(page: nat, size: nat, n: nat): (b: nat)
    ensures b <= n && b <= page * size
  {
    if page * size < n then page * size else n
  }

  /** On a non-empty page the range covers exactly the page's students. */
  lemma ShowingMatchesPage(s: seq<Student>, page: nat, size: nat)
    requires page >= 1
    ensures var p := Page(s, page, size);
            var a := ShowingFrom(page, size, |p|);
            var b := ShowingTo(page, size, |s|);
            && b <= |s|
            && (p == [] <==> a == 0)
            && (p != [] ==> 1 <= a <= b && b - a + 1 == |p|)
  {
    var start := (page - 1) * size;
    assert page * size == start + size;
  }

  /** `handleAddStudent`: the new student is appended. */
  function AddStudent(students: seq<Student>, s: Student): (r: seq<Student>)
    ensures |r| == |students| + 1 && r[..|students|] == students && r[|students|] == s
  {
    students + [s]
  }

  /** `handleEditStudent`: every student with the edited id is replaced, the
      others stay in place. */
  function EditStudent(students: seq<Student>, updated: Student): (r: seq<Student>)
    ensures |r| == |students|
    ensures forall i :: 0 <= i < |r| ==> r[i] == (if students[i].id == updated.id then updated else students[i])
  {
    ReplaceWhere(students, (s: Student) => s.id == updated.id, updated)
  }

  /** `handleDelete`: after the server's answer, the students with that id
      are removed, the others keep their order; a refused delete changes
      nothing. */
  function DeleteStudent(students: seq<Student>, id: nat, response: Result<(), string>): (r: seq<Student>)
    ensures response.Err? ==> r == students
    ensures response.Ok? ==> (forall s :: s in r <==> s in students && s.id != id) && Subsequence(r, students)
  {
    if response.Err? then students
    else
      var keep := (s: Student) => s.id != id;
      forall s
        ensures s in Filter(students, keep) <==> s in students && keep(s)
      {
        FilterMembers(students, keep, s);
      }
      FilterSubsequence(students, keep);
      Filter(students, keep)
  }

  /** An edit keeps the ids of the list, and a delete leaves no student with
      the deleted id. */
  lemma EditKeepsIds(students: seq<Student>, updated: Student)
    ensures forall i :: 0 <= i < |students| ==> EditStudent(students, updated)[i].id == students[i].id
  {
  }

  lemma DeleteRemovesId(students: seq<Student>, id: nat)
    ensures forall s :: s in DeleteStudent(students, id, Ok(())) ==> s.id != id
  {
  }
}
