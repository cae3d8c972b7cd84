/** The mobile client's weekly timetable: a teacher's slots grouped by
    weekday, each with its display names and 12-hour times. As written each
    day's list is ordered by the displayed start string (`Transform`); the
    construction below orders it by the 24-hour start instead. */
module WeekTimetable {
  import opened Wrappers
  import opened Text
  import opened Seqs
  import TeacherScheduleModel

  /** The columns of the timetable. */
  const Weekdays: seq<string> := ["MON", "TUE", "WED", "THU", "FRI"]

  /** A slot as the server lists it. */
  datatype Item = Item(id: nat, day: string, subject: nat, classe: nat, startTime: string, endTime: string,
                       notes: string)

  /** A slot as the timetable shows it. */
  datatype Session = Session(id: nat, subject: string, startTime: string, endTime: string, classe: string,
                             notes: string)

  /** JavaScript `a % b` for a positive divisor: the remainder takes the sign
      of `a`. */
  function JsRem(a: int, b: int): (r: int)
    requires b > 0
    ensures a >= 0 ==> r == a % b
    ensures a < 0 ==> r == -((-a) % b)
  {
    if a >= 0 then a % b else -((-a) % b)
  }

  /** `String(n)` of an integer. */
  function IntToString(n: int): string
  {
    if n >= 0 then NatToString(n) else "-" + NatToString(-n)
  }

  /** `hour % 12 || 12`. */
  function Hour12(hour: int): (h: int)
  {
    var x := JsRem(hour, 12);
    if x == 0 then 12 else x
  }

  /** On a clock hour the 12-hour form lies in 1..12 and, with its period,
      gives the hour back. */
  lemma Hour12Inverse(hour: int)
    requires 0 <= hour < 24
    ensures 1 <= Hour12(hour) <= 12
    ensures Hour12(hour) % 12 + (if hour >= 12 then 12 else 0) == hour
  {
  }

  /** `normalizeTime` of this screen: `"Invalid Time"` for an empty string,
      otherwise the 12-hour hour, the minute field copied as it is, and the
      period; a hour that does not parse shows as 12 AM, and a missing minute
      field as `undefined`. */
  function TwelveHour(time: string): (r: string)
    ensures time == [] <==> r == "Invalid Time"
  {
    if time == [] then "Invalid Time"
    else
      var parts := Split(time, ':');
      var hour := ParseInt(parts[0]);
      var minutes := if |parts| > 1 then parts[1] else "undefined";
      var period := if hour.Some? && hour.value >= 12 then "PM" else "AM";
      var shown := if hour.Some? then IntToString(Hour12(hour.value)) else "12";
      var r := shown + ":" + minutes + " " + period;
      assert shown != [] && r[0] == shown[0] != 'I' && "Invalid Time"[0] == 'I';
      r
  }

  /** For an `HH:MM:SS` time the display is the 12-hour hour, the minute
      field verbatim, and `PM` exactly from noon on. */
  lemma TwelveHourFields(hh: string, mm: string, ss: string)
    requires ':' !in hh && ':' !in mm && ':' !in ss
    requires ParseInt(hh).Some? && 0 <= ParseInt(hh).value < 24
    ensures var hour := ParseInt(hh).value;
            TwelveHour(hh + ":" + mm + ":" + ss)
            == NatToString(Hour12(hour)) + ":" + mm + " " + (if hour >= 12 then "PM" else "AM")
  {
    assert hh + ":" + mm + ":" + ss == hh + [':'] + mm + [':'] + ss;
    SplitThree(hh, mm, ss, ':');
    Hour12Inverse(ParseInt(hh).value);
  }

  /** `subjectMap[id] || "Unknown Subject (ID: id)"`: a missing or empty name
      falls back to a label carrying the id. */
  function NameOr(names: map<nat, string>, id: nat, kind: string): (r: string)
    ensures id in names && names[id] != [] ==> r == names[id]
    ensures !(id in names && names[id] != []) ==> r == "Unknown " + kind + " (ID: " + NatToString(id) + ")"
  {
    if id in names && names[id] != [] then names[id] else "Unknown " + kind + " (ID: " + NatToString(id) + ")"
  }

  function SessionOf(item: Item, subjects: map<nat, string>, classes: map<nat, string>): Session
  {
    Session(item.id, NameOr(subjects, item.subject, "Subject"), TwelveHour(item.startTime),
            TwelveHour(item.endTime), NameOr(classes, item.classe, "Class"), item.notes)
  }

  function SessionsOf(items: seq<Item>, subjects: map<nat, string>, classes: map<nat, string>): (r: seq<Session>)
    ensures |r| == |items| && forall i :: 0 <= i < |items| ==> r[i] == SessionOf(items[i], subjects, classes)
  {
    seq(|items|, i requires 0 <= i < |items| => SessionOf(items[i], subjects, classes))
  }

  lemma SessionsOfConcat(a: seq<Item>, b: seq<Item>, subjects: map<nat, string>, classes: map<nat, string>)
    ensures SessionsOf(a + b, subjects, classes) == SessionsOf(a, subjects, classes) + SessionsOf(b, subjects, classes)
  {
  }

  /** The items the source files under weekday `d`. */
  function DayItems(data: seq<Item>, d: string): seq<Item>
  {
    Filter(data, (i: Item) => Upper(i.day) == d)
  }

  /** The week before any item is placed: every weekday with an empty list. */
  function EmptyWeek(): (w: map<string, seq<Session>>)
    ensures forall d :: d in w <==> d in Weekdays
  {
    map d | d in Weekdays :: []
  }

  /** One `forEach` step: the item's session is pushed onto the list of its
      uppercased day, when that day is a column. */
  function Push(byDay: map<string, seq<Session>>, item: Item, subjects: map<nat, string>,
                classes: map<nat, string>): map<string, seq<Session>>
  {
    var day := Upper(item.day);
    if day in byDay then byDay[day := byDay[day] + [SessionOf(item, subjects, classes)]] else byDay
  }

  /** The week after the items `data`, in order. */
  function Grouped(data: seq<Item>, subjects: map<nat, string>, classes: map<nat, string>): map<string, seq<Session>>
    decreases |data|
  {
    if data == [] then EmptyWeek()
    else Push(Grouped(data[..|data| - 1], subjects, classes), data[|data| - 1], subjects, classes)
  }

  /** Grouping files each item under its uppercased day and keeps their
      order; items of other days are left out. */
  lemma {:induction false} GroupedByDay(data: seq<Item>, subjects: map<nat, string>, classes: map<nat, string>)
    ensures forall d :: d in Grouped(data, subjects, classes) <==> d in Weekdays
    ensures forall d :: d in Weekdays ==> Grouped(data, subjects, classes)[d] == SessionsOf(DayItems(data, d), subjects, classes)
    decreases |data|
  {
    if data != [] {
      var init := data[..|data| - 1];
      var last := data[|data| - 1];
      GroupedByDay(init, subjects, classes);
      assert data == init + [last];
      var g0 := Grouped(init, subjects, classes);
      assert Grouped(data, subjects, classes) == Push(g0, last, subjects, classes);
      forall d | d in Weekdays
        ensures Grouped(data, subjects, classes)[d] == SessionsOf(DayItems(data, d), subjects, classes)
      {
        PushStep(g0, init, last, subjects, classes, d);
      }
    }
  }

  /** One push extends the list of the item's day by its session and leaves
      the other days' lists as they were. */
  lemma PushStep(g0: map<string, seq<Session>>, init: seq<Item>, last: Item, subjects: map<nat, string>,
                 classes: map<nat, string>, d: string)
    requires d in g0 && g0[d] == SessionsOf(DayItems(init, d), subjects, classes)
    ensures d in Push(g0, last, subjects, classes)
    ensures Push(g0, last, subjects, classes)[d] == SessionsOf(DayItems(init + [last], d), subjects, classes)
  {
    FilterConcat(init, [last], (i: Item) => Upper(i.day) == d);
    assert DayItems(init + [last], d) == DayItems(init, d) + DayItems([last], d);
    SessionsOfConcat(DayItems(init, d), DayItems([last], d), subjects, classes);
    var x := SessionOf(last, subjects, classes);
    if Upper(last.day) == d {
      assert DayItems([last], d) == [last];
      assert SessionsOf([last], subjects, classes) == [x];
      assert Push(g0, last, subjects, classes)[d] == g0[d] + [x];
    } else {
      assert DayItems([last], d) == [];
      assert Push(g0, last, subjects, classes)[d] == g0[d];
    }
  }

  /** The rank of a character under the root collation order of
      `localeCompare` for the characters a displayed time holds: space, then
      the colon, then the digits, then the letters without regard to case;
      any other character after those, by code point. */
  function Rank(c: char): char
  {
    if c == ' ' then 1 as char
    else if c == ':' then 2 as char
    else if '0' <= c <= '9' then (3 + (c as int - '0' as int)) as char
    else if 'A' <= c <= 'Z' then (13 + (c as int - 'A' as int)) as char
    else if 'a' <= c <= 'z' then (13 + (c as int - 'a' as int)) as char
    else if c as int < 0xD800 - 64 then (64 + c as int) as char
    else c
  }

  function CollationKey(s: string): (k: string)
    ensures |k| == |s| && forall i :: 0 <= i < |s| ==> k[i] == Rank(s[i])
  {
    seq(|s|, i requires 0 <= i < |s| => Rank(s[i]))
  }

  /** `a.localeCompare(b) <= 0`. */
  predicate CollatesBefore(a: string, b: string)
  {
    TeacherScheduleModel.StringLess(CollationKey(a), CollationKey(b)) || CollationKey(a) == CollationKey(b)
  }

  /** The sort comparator of a day's list: by displayed start string. */
  predicate StartsBefore(a: Session, b: Session)
  {
    CollatesBefore(a.startTime, b.startTime)
  }

  lemma StartsBeforeIsPreorder()
    ensures TotalPreorder(StartsBefore)
  {
    forall a: Session, b: Session
      ensures StartsBefore(a, b) || StartsBefore(b, a)
    {
      if CollationKey(a.startTime) != CollationKey(b.startTime) {
        TeacherScheduleModel.StringLessTotal(CollationKey(a.startTime), CollationKey(b.startTime));
      }
    }
    forall a: Session, b: Session, c: Session | StartsBefore(a, b) && StartsBefore(b, c)
      ensures StartsBefore(a, c)
    {
      var ka, kb, kc := CollationKey(a.startTime), CollationKey(b.startTime), CollationKey(c.startTime);
      if TeacherScheduleModel.StringLess(ka, kb) && TeacherScheduleModel.StringLess(kb, kc) {
        TeacherScheduleModel.StringLessTransitive(ka, kb, kc);
      }
    }
  }

  /** `transformScheduleData`: the grouped week with each day's list sorted
      by displayed start time. */
  function Transform(data: seq<Item>, subjects: map<nat, string>, classes: map<nat, string>): map<string, seq<Session>>
  {
    var g := Grouped(data, subjects, classes);
    map d | d in g :: SortBy(g[d], StartsBefore)
  }

  /** The result has exactly the weekday keys; each day's list holds the
      sessions of exactly the items of that day, each as often as the item
      occurs, ordered by displayed start time. */
  lemma TransformByDay(data: seq<Item>, subjects: map<nat, string>, classes: map<nat, string>)
    ensures var t := Transform(data, subjects, classes);
            && (forall d :: d in t <==> d in Weekdays)
            && (forall d :: d in Weekdays ==>
                  && multiset(t[d]) == multiset(SessionsOf(DayItems(data, d), subjects, classes))
                  && SortedBy(t[d], StartsBefore))
  {
    GroupedByDay(data, subjects, classes);
    StartsBeforeIsPreorder();
    var g := Grouped(data, subjects, classes);
    forall d | d in Weekdays
      ensures SortedBy(SortBy(g[d], StartsBefore), StartsBefore)
    {
      SortBySorted(g[d], StartsBefore);
    }
  }

  /** An item lands under its uppercased day if that day is a column, and
      under no other. */
  lemma ItemLandsOnItsDay(data: seq<Item>, subjects: map<nat, string>, classes: map<nat, string>, d: string, x: Item)
    requires x in data && d in Weekdays
    ensures Upper(x.day) == d ==> x in DayItems(data, d)
    ensures Upper(x.day) != d ==> x !in DayItems(data, d)
  {
    FilterMembers(data, (i: Item) => Upper(i.day) == d, x);
  }

  /** `weekdays.forEach(day => scheduleByDay[day] = [])`. */
  method InitWeek() returns (byDay: map<string, seq<Session>>)
    ensures byDay == EmptyWeek()
  {
    byDay := map[];
    var k := 0;
    while k < |Weekdays|
      invariant 0 <= k <= |Weekdays|
      invariant byDay == map d | d in Weekdays[..k] :: []
    {
      assert Weekdays[..k + 1] == Weekdays[..k] + [Weekdays[k]];
      byDay := byDay[Weekdays[k] := []];
      k := k + 1;
    }
    assert Weekdays[..k] == Weekdays;
  }

  /** `data.forEach(item => ... push ...)`. */
  method PushItems(week: map<string, seq<Session>>, data: seq<Item>, subjects: map<nat, string>,
                   classes: map<nat, string>)
    returns (byDay: map<string, seq<Session>>)
    requires week == EmptyWeek()
    ensures byDay == Grouped(data, subjects, classes)
  {
    byDay := week;
    var i := 0;
    while i < |data|
      invariant 0 <= i <= |data|
      invariant byDay == Grouped(data[..i], subjects, classes)
    {
      assert data[..i + 1][..i] == data[..i];
      var item := data[i];
      var day := Upper(item.day);
      if day in byDay {
        byDay := byDay[day := byDay[day] + [SessionOf(item, subjects, classes)]];
      }
      i := i + 1;
    }
    assert data[..i] == data;
  }

  /** `Object.keys(scheduleByDay).forEach(day => scheduleByDay[day].sort(...))`;
      the keys are the weekdays. */
  method SortDays(week: map<string, seq<Session>>) returns (byDay: map<string, seq<Session>>)
    requires forall d :: d in week <==> d in Weekdays
    ensures byDay == map d | d in week :: SortBy(week[d], StartsBefore)
  {
    byDay := week;
    var k := 0;
    assert Weekdays[..0] == [];
    while k < |Weekdays|
      invariant 0 <= k <= |Weekdays|
      invariant byDay == SortedUpTo(week, k)
    {
      var d := Weekdays[k];
      SortedUpToStep(week, k);
      byDay := byDay[d := SortBy(byDay[d], StartsBefore)];
      k := k + 1;
    }
    assert Weekdays[..k] == Weekdays;
  }

  /** The week after the loop has sorted the lists of its first `k`
      weekdays. */
  function SortedUpTo(week: map<string, seq<Session>>, k: nat): map<string, seq<Session>>
    requires k <= |Weekdays|
  {
    map d | d in week :: if d in Weekdays[..k] then SortBy(week[d], StartsBefore) else week[d]
  }

  /** One more turn of the loop sorts the next weekday, still unsorted. */
  lemma SortedUpToStep(week: map<string, seq<Session>>, k: nat)
    requires k < |Weekdays| && forall d :: d in week <==> d in Weekdays
    ensures Weekdays[k] in SortedUpTo(week, k) && SortedUpTo(week, k)[Weekdays[k]] == week[Weekdays[k]]
    ensures SortedUpTo(week, k)[Weekdays[k] := SortBy(week[Weekdays[k]], StartsBefore)] == SortedUpTo(week, k + 1)
  {
    WeekdaysDistinct();
    assert Weekdays[..k + 1] == Weekdays[..k] + [Weekdays[k]];
    assert Weekdays[k] !in Weekdays[..k];
  }

  /** The five weekday codes are distinct. */
  lemma WeekdaysDistinct()
    ensures forall i, j :: 0 <= i < j < |Weekdays| ==> Weekdays[i] != Weekdays[j]
  {
    assert Weekdays[1][1] != Weekdays[3][1];
  }

  /** The sort of a day's list compares the displayed strings, so a slot
      from 10 or 11 in the morning is listed before one from 2 to 9 in the
      morning of the same day, against the clock. */
  lemma DisplayOrderIsNotChronological(h1: string, m1: string, s1: string, h2: string, m2: string, s2: string)
    requires ':' !in h1 && ':' !in m1 && ':' !in s1 && ':' !in h2 && ':' !in m2 && ':' !in s2
    requires ParseInt(h1).Some? && 2 <= ParseInt(h1).value <= 9
    requires ParseInt(h2).Some? && 10 <= ParseInt(h2).value <= 11
    ensures var early := TwelveHour(h1 + ":" + m1 + ":" + s1);
            var late := TwelveHour(h2 + ":" + m2 + ":" + s2);
            ParseInt(h1).value < ParseInt(h2).value
            && CollatesBefore(late, early) && !CollatesBefore(early, late)
  {
    var a, b := ParseInt(h1).value, ParseInt(h2).value;
    TwelveHourFields(h1, m1, s1);
    TwelveHourFields(h2, m2, s2);
    Hour12Morning(a);
    Hour12Morning(b);
    var early := TwelveHour(h1 + ":" + m1 + ":" + s1);
    var late := TwelveHour(h2 + ":" + m2 + ":" + s2);
    LeadingDigit(a);
    LeadingDigit(b);
    FirstCharDecides(late, early);
  }

  lemma Hour12Morning(h: int)
    requires 1 <= h <= 11
    ensures Hour12(h) == h
  {
  }

  /** The first digit of a number below 20. */
  lemma LeadingDigit(n: nat)
    requires n < 20
    ensures NatToString(n)[0] == if n < 10 then DigitChar(n) else '1'
  {
    if n >= 10 {
      assert NatToString(n) == NatToString(n / 10) + [DigitChar(n % 10)];
      assert n / 10 == 1;
    }
  }

  /** A string starting with `1` collates strictly before one starting with a
      digit from 2 to 9. */
  lemma FirstCharDecides(low: string, high: string)
    requires low != [] && high != [] && low[0] == '1' && '2' <= high[0] <= '9'
    ensures CollatesBefore(low, high) && !CollatesBefore(high, low)
  {
    var kl, kh := CollationKey(low), CollationKey(high);
    assert kl[0] == Rank('1') && kh[0] == Rank(high[0]);
    assert kl[0] < kh[0];
    assert kl != kh;
  }

  /** Two sessions the comparator does not put in order are swapped. */
  lemma SortSwapsPair(x: Session, y: Session)
    requires !StartsBefore(x, y)
    ensures SortBy([x, y], StartsBefore) == [y, x]
  {
    assert [x, y][1..] == [y];
    assert SortBy([y], StartsBefore) == [y] by {
      assert [y][1..] == [];
    }
  }

  /** The 24-hour start of an item in minutes, read from its hour and minute
      fields; -1 when either does not parse. */
  function StartMinutes(item: Item): int
  {
    var parts := Split(item.startTime, ':');
    var h := ParseInt(parts[0]);
    var m := if |parts| > 1 then ParseInt(parts[1]) else None;
    if h.Some? && m.Some? then h.value * 60 + m.value else -1
  }

  predicate StartsEarlier(a: Item, b: Item) { StartMinutes(a) <= StartMinutes(b) }

  /** The construction of the week as the screen evidently intends it: the
      items ordered by their 24-hour start, then the empty lists and the
      pushes, which keep that order within each day. The screen as written
      instead sorts each day's list by its displayed string (`SortDays`). */
  method TransformScheduleData(data: seq<Item>, subjects: map<nat, string>, classes: map<nat, string>)
    returns (byDay: map<string, seq<Session>>)
    ensures byDay == ChronologicalTransform(data, subjects, classes)
  {
    var sorted := SortBy(data, StartsEarlier);
    byDay := InitWeek();
    byDay := PushItems(byDay, sorted, subjects, classes);
  }

  /** The week the grouping gives when the items are first ordered by their
      24-hour start, so that each day's list runs with the clock. */
  function ChronologicalTransform(data: seq<Item>, subjects: map<nat, string>, classes: map<nat, string>)
    : map<string, seq<Session>>
  {
    Grouped(SortBy(data, StartsEarlier), subjects, classes)
  }

  /** Each day's list of the corrected week shows that day's items, each as
      often as it occurs, in order of start time. */
  lemma ChronologicalTransformByDay(data: seq<Item>, subjects: map<nat, string>, classes: map<nat, string>, d: string)
    requires d in Weekdays
    ensures var t := ChronologicalTransform(data, subjects, classes);
            var items := DayItems(SortBy(data, StartsEarlier), d);
            && (forall e :: e in t <==> e in Weekdays)
            && t[d] == SessionsOf(items, subjects, classes)
            && multiset(items) == multiset(DayItems(data, d))
            && (forall i, j :: 0 <= i < j < |items| ==> StartMinutes(items[i]) <= StartMinutes(items[j]))
  {
    GroupedByDay(SortBy(data, StartsEarlier), subjects, classes);
    SortedDayItems(data, d);
    SortedDayItemsChronological(data, d);
  }

  /** Ordering the items first keeps each day's items, as often as each
      occurs. */
  lemma SortedDayItems(data: seq<Item>, d: string)
    ensures multiset(DayItems(SortBy(data, StartsEarlier), d)) == multiset(DayItems(data, d))
  {
    var sorted := SortBy(data, StartsEarlier);
    var onDay := (i: Item) => Upper(i.day) == d;
    forall x
      ensures multiset(DayItems(sorted, d))[x] == multiset(DayItems(data, d))[x]
    {
      FilterMultiset(sorted, onDay, x);
      FilterMultiset(data, onDay, x);
    }
  }

  /** Once the items are ordered, each day's items run with the clock. */
  lemma SortedDayItemsChronological(data: seq<Item>, d: string)
    ensures var items := DayItems(SortBy(data, StartsEarlier), d);
            forall i, j :: 0 <= i < j < |items| ==> StartMinutes(items[i]) <= StartMinutes(items[j])
  {
    var sorted := SortBy(data, StartsEarlier);
    assert TotalPreorder(StartsEarlier);
    SortBySorted(data, StartsEarlier);
    FilterSorted(sorted, (i: Item) => Upper(i.day) == d, StartsEarlier);
  }

  /** Under the corrected order, of two items of a day the earlier one is
      listed first. */
  lemma ChronologicalKeepsEarlierFirst(x: Item, y: Item)
    requires StartMinutes(x) < StartMinutes(y)
    ensures SortBy([x, y], StartsEarlier) == [x, y]
  {
    assert [x, y][1..] == [y];
    assert SortBy([y], StartsEarlier) == [y] by {
      assert [y][1..] == [];
    }
  }
}
