/** The student attendance table (`Attendance`): its status choices and
    default, its rows, the `(student, schedule, date)` uniqueness it declares,
    and the row-level writes the handlers perform on it. */
module AttendanceModel {
  import opened Wrappers
  import opened Dates

  /** The declared status choices, in declaration order. */
  const StatusCodes: seq<string> := ["present", "absent", "retard", "att"]

  /** The status a row gets when none is given. */
  const DefaultStatus: string := "att"

  /** The display label Django attaches to each declared choice; a stored
      value outside the choices has none. */
  function StatusLabel(code: string): (display: Option<string>)
    ensures display.Some? <==> code in StatusCodes
  {
    match code
    case "present" => Some("Present")
    case "absent" => Some("Absent")
    case "retard" => Some("Retard")
    case "att" => Some("En Attente")
    case _ => None
  }

  lemma DefaultStatusIsChoice()
    ensures DefaultStatus in StatusCodes && StatusLabel(DefaultStatus) == Some("En Attente")
  {
  }

  /** One attendance row. Every row names exactly one admin, one student and
      one schedule slot. The status column is free text: the database does not
      enforce the choices. */
  datatype Attendance = Attendance(
    id: nat, admin: nat, student: nat, schedule: nat, date: Date, status: string)

  /** The `unique_together` key. */
  datatype Key = Key(student: nat, schedule: nat, date: Date)

  function KeyOf(a: Attendance): Key { Key(a.student, a.schedule, a.date) }

  /** At most one row per (student, schedule, date). */
  ghost predicate UniqueTogether(rows: seq<Attendance>)
  {
    forall i, j :: 0 <= i < |rows| && 0 <= j < |rows| && i != j ==> KeyOf(rows[i]) != KeyOf(rows[j])
  }

  /** The first row with key `k`, if any. */
  function IndexOfKey(rows: seq<Attendance>, k: Key): (r: Option<nat>)
    ensures r.Some? ==> r.value < |rows| && KeyOf(rows[r.value]) == k
    ensures r.Some? ==> forall j :: 0 <= j < r.value ==> KeyOf(rows[j]) != k
    ensures r.None? <==> forall j :: 0 <= j < |rows| ==> KeyOf(rows[j]) != k
    decreases |rows|
  {
    if rows == [] then None
    else if KeyOf(rows[0]) == k then Some(0)
    else
      var r := IndexOfKey(rows[1..], k);
      if r.Some? then Some(r.value + 1) else None
  }

  /** The first row with key `k` that also belongs to `admin`: the lookup
      `filter(student=..., schedule=..., date=..., admin=...)`. */
  function IndexOfOwnedKey(rows: seq<Attendance>, k: Key, admin: nat): (r: Option<nat>)
    ensures r.Some? ==> r.value < |rows| && KeyOf(rows[r.value]) == k && rows[r.value].admin == admin
    ensures r.Some? ==> forall j :: 0 <= j < r.value ==> !(KeyOf(rows[j]) == k && rows[j].admin == admin)
    ensures r.None? <==> forall j :: 0 <= j < |rows| ==> !(KeyOf(rows[j]) == k && rows[j].admin == admin)
    decreases |rows|
  {
    if rows == [] then None
    else if KeyOf(rows[0]) == k && rows[0].admin == admin then Some(0)
    else
      var r := IndexOfOwnedKey(rows[1..], k, admin);
      if r.Some? then Some(r.value + 1) else None
  }

  /** Under the uniqueness the owned lookup finds the keyed row, or nothing
      when that row belongs to another admin. */
  lemma OwnedLookupIsKeyLookup(rows: seq<Attendance>, k: Key, admin: nat)
    requires UniqueTogether(rows)
    ensures IndexOfOwnedKey(rows, k, admin).Some? ==> IndexOfOwnedKey(rows, k, admin) == IndexOfKey(rows, k)
    ensures IndexOfOwnedKey(rows, k, admin).None? && IndexOfKey(rows, k).Some?
            ==> rows[IndexOfKey(rows, k).value].admin != admin
  {
  }

  /** Appending a row whose key is absent keeps the uniqueness. */
  lemma AppendFreshKeepsUnique(rows: seq<Attendance>, a: Attendance)
    requires IndexOfKey(rows, KeyOf(a)).None?
    ensures UniqueTogether(rows) ==> UniqueTogether(rows + [a])
  {
    if UniqueTogether(rows) {
      var r := rows + [a];
      forall i, j | 0 <= i < |r| && 0 <= j < |r| && i != j ensures KeyOf(r[i]) != KeyOf(r[j]) {
        if i < |rows| && j < |rows| {
          assert r[i] == rows[i] && r[j] == rows[j];
        } else if i == |rows| {
          assert r[j] == rows[j];
        } else {
          assert r[i] == rows[i];
        }
      }
    }
  }

  /** The lookups see only the key and the owner of each row: rewriting
      statuses changes no lookup. */
  lemma LookupsIgnoreStatus(a: seq<Attendance>, b: seq<Attendance>, k: Key, admin: nat)
    requires |a| == |b|
    requires forall j :: 0 <= j < |a| ==> KeyOf(a[j]) == KeyOf(b[j]) && a[j].admin == b[j].admin
    ensures IndexOfKey(a, k) == IndexOfKey(b, k)
    ensures IndexOfOwnedKey(a, k, admin) == IndexOfOwnedKey(b, k, admin)
  {
    KeyLookupIgnoresStatus(a, b, k);
    OwnedLookupIgnoresStatus(a, b, k, admin);
  }

  lemma {:induction false} KeyLookupIgnoresStatus(a: seq<Attendance>, b: seq<Attendance>, k: Key)
    requires |a| == |b|
    requires forall j :: 0 <= j < |a| ==> KeyOf(a[j]) == KeyOf(b[j])
    ensures IndexOfKey(a, k) == IndexOfKey(b, k)
    decreases |a|
  {
    if a != [] {
      assert forall j :: 0 <= j < |a| - 1 ==> a[1..][j] == a[j + 1] && b[1..][j] == b[j + 1];
      KeyLookupIgnoresStatus(a[1..], b[1..], k);
    }
  }

  lemma {:induction false} OwnedLookupIgnoresStatus(a: seq<Attendance>, b: seq<Attendance>, k: Key, admin: nat)
    requires |a| == |b|
    requires forall j :: 0 <= j < |a| ==> KeyOf(a[j]) == KeyOf(b[j]) && a[j].admin == b[j].admin
    ensures IndexOfOwnedKey(a, k, admin) == IndexOfOwnedKey(b, k, admin)
    decreases |a|
  {
    if a != [] {
      assert forall j :: 0 <= j < |a| - 1 ==> a[1..][j] == a[j + 1] && b[1..][j] == b[j + 1];
      OwnedLookupIgnoresStatus(a[1..], b[1..], k, admin);
    }
  }

  /** Overwriting one row's status changes no lookup. */
  lemma LookupsAfterStatus(rows: seq<Attendance>, i: nat, status: string, k: Key, admin: nat)
    requires i < |rows|
    ensures IndexOfKey(rows[i := rows[i].(status := status)], k) == IndexOfKey(rows, k)
    ensures IndexOfOwnedKey(rows[i := rows[i].(status := status)], k, admin) == IndexOfOwnedKey(rows, k, admin)
  {
    LookupsIgnoreStatus(rows[i := rows[i].(status := status)], rows, k, admin);
  }

  /** A row appended under a key nobody held is what the lookups find next. */
  lemma LookupsAfterAppend(rows: seq<Attendance>, a: Attendance)
    requires IndexOfKey(rows, KeyOf(a)).None?
    ensures IndexOfKey(rows + [a], KeyOf(a)) == Some(|rows|)
    ensures IndexOfOwnedKey(rows + [a], KeyOf(a), a.admin) == Some(|rows|)
  {
    var r := rows + [a];
    assert r[|rows|] == a;
    assert forall j :: 0 <= j < |rows| ==> r[j] == rows[j];
    AppendedKeyFound(rows, r, KeyOf(a));
    AppendedOwnedKeyFound(rows, r, KeyOf(a), a.admin);
  }

  lemma AppendedKeyFound(rows: seq<Attendance>, r: seq<Attendance>, k: Key)
    requires |r| == |rows| + 1 && KeyOf(r[|rows|]) == k
    requires forall j :: 0 <= j < |rows| ==> KeyOf(r[j]) != k
    ensures IndexOfKey(r, k) == Some(|rows|)
  {
  }

  lemma AppendedOwnedKeyFound(rows: seq<Attendance>, r: seq<Attendance>, k: Key, admin: nat)
    requires |r| == |rows| + 1 && KeyOf(r[|rows|]) == k && r[|rows|].admin == admin
    requires forall j :: 0 <= j < |rows| ==> KeyOf(r[j]) != k
    ensures IndexOfOwnedKey(r, k, admin) == Some(|rows|)
  {
  }

  /** A failed insert: the key is already taken (`IntegrityError`). */
  datatype IntegrityError = IntegrityError

  /** The `Attendance` table: rows in insertion order and the next automatic
      primary key. */
  class AttendanceTable {
    var rows: seq<Attendance>
    var nextId: nat

    ghost predicate Valid()
      reads this
    {
      UniqueTogether(rows) && forall i :: 0 <= i < |rows| ==> rows[i].id < nextId
    }

    constructor ()
      ensures Valid() && rows == [] && nextId == 1
    {
      rows := [];
      nextId := 1;
    }

    /** `objects.create(...)` or `save()` of a new row: refused by the
        database when the key is taken, otherwise appended under a fresh id. */
    method Create(admin: nat, student: nat, schedule: nat, date: Date, status: string)
      returns (r: Result<nat, IntegrityError>)
      requires Valid()
      modifies this
      ensures Valid()
      ensures r.Err? <==> old(IndexOfKey(rows, Key(student, schedule, date))).Some?
      ensures r.Err? ==> rows == old(rows) && nextId == old(nextId)
      ensures r.Ok? ==> r.value == old(nextId) && nextId == old(nextId) + 1
      ensures r.Ok? ==> rows == old(rows) + [Attendance(r.value, admin, student, schedule, date, status)]
    {
      if IndexOfKey(rows, Key(student, schedule, date)).Some? {
        return Err(IntegrityError);
      }
      var a := Attendance(nextId, admin, student, schedule, date, status);
      AppendFreshKeepsUnique(rows, a);
      rows := rows + [a];
      nextId := nextId + 1;
      r := Ok(a.id);
    }

    /** `get_or_create(student=..., schedule=..., date=..., admin=..., defaults=...)`:
        the lookup includes the owner, so a row held under the same key by
        another admin is not found, and the insert that follows is refused. */
    method GetOrCreateOwned(admin: nat, student: nat, schedule: nat, date: Date, status: string)
      returns (r: Result<(nat, bool), IntegrityError>)
      requires Valid()
      modifies this
      ensures Valid()
      ensures old(IndexOfOwnedKey(rows, Key(student, schedule, date), admin)).Some? ==>
        r == Ok((old(IndexOfOwnedKey(rows, Key(student, schedule, date), admin)).value, false))
        && rows == old(rows) && nextId == old(nextId)
      ensures (old(IndexOfOwnedKey(rows, Key(student, schedule, date), admin)).None?
               && old(IndexOfKey(rows, Key(student, schedule, date))).Some?) ==>
        r.Err? && rows == old(rows) && nextId == old(nextId)
      ensures old(IndexOfKey(rows, Key(student, schedule, date))).None? ==>
        r == Ok((|old(rows)|, true)) && nextId == old(nextId) + 1
        && rows == old(rows) + [Attendance(old(nextId), admin, student, schedule, date, status)]
    {
      var found := IndexOfOwnedKey(rows, Key(student, schedule, date), admin);
      if found.Some? {
        return Ok((found.value, false));
      }
      var n := |rows|;
      var c := Create(admin, student, schedule, date, status);
      if c.Err? {
        return Err(IntegrityError);
      }
      r := Ok((n, true));
    }

    /** `get_or_create(student=..., schedule=..., date=..., defaults=...)`:
        the lookup is by the unique key alone, so the insert never clashes. */
    method GetOrCreate(student: nat, schedule: nat, date: Date, admin: nat, status: string)
      returns (i: nat, created: bool)
      requires Valid()
      modifies this
      ensures Valid()
      ensures old(IndexOfKey(rows, Key(student, schedule, date))).Some? ==>
        !created && i == old(IndexOfKey(rows, Key(student, schedule, date))).value
        && rows == old(rows) && nextId == old(nextId)
      ensures old(IndexOfKey(rows, Key(student, schedule, date))).None? ==>
        created && i == |old(rows)| && nextId == old(nextId) + 1
        && rows == old(rows) + [Attendance(old(nextId), admin, student, schedule, date, status)]
    {
      var found := IndexOfKey(rows, Key(student, schedule, date));
      if found.Some? {
        return found.value, false;
      }
      i := |rows|;
      var c := Create(admin, student, schedule, date, status);
      created := true;
    }

    /** `row.status = ...; row.save()`: overwrites the status of one row and
        nothing else. */
    method SaveStatus(i: nat, status: string)
      requires Valid() && i < |rows|
      modifies this
      ensures Valid() && nextId == old(nextId)
      ensures rows == old(rows)[i := old(rows)[i].(status := status)]
    {
      rows := rows[i := rows[i].(status := status)];
      assert forall j :: 0 <= j < |rows| ==> KeyOf(rows[j]) == KeyOf(old(rows)[j]);
    }

    /** `row.delete()`. */
    method Delete(i: nat)
      requires Valid() && i < |rows|
      modifies this
      ensures Valid() && nextId == old(nextId)
      ensures rows == old(rows)[..i] + old(rows)[i + 1..]
    {
      ghost var before := rows;
      rows := rows[..i] + rows[i + 1..];
      assert forall j :: 0 <= j < |rows| ==> rows[j] == (if j < i then before[j] else before[j + 1]);
    }
  }
}
