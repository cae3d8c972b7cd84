/** Calendar dates as plain values, their `YYYY-MM-DD` text form, and the
    weekday codes the timetables use. The calendar arithmetic of the date
    libraries is not modelled: a date is compared only for equality, and the
    weekday of a scan or of "today" is an input. */
module Dates {
  import opened Text

  datatype Date = Date(year: nat, month: nat, day: nat)

  /** The three-letter weekday codes stored in a slot's `day` column. */
  const DayCodes: seq<string> := ["MON", "TUE", "WED", "THU", "FRI", "SAT", "SUN"]

  /** A number printed in decimal and left-padded with zeros to `width`. */
  function Padded(n: nat, width: nat): (s: string)
    ensures AllDigits(s) && '-' !in s && DigitsValue(s) == n
    ensures |s| >= width
  {
    var d := NatToString(n);
    PadZerosValue(d, width);
    NatToStringValue(n);
    PadStart(d, width, '0')
  }

  /** Python `date.strftime("%Y-%m-%d")`: a four-digit year, two-digit month
      and two-digit day joined by dashes. */
  function IsoDate(d: Date): string
  {
    Padded(d.year, 4) + "-" + Padded(d.month, 2) + "-" + Padded(d.day, 2)
  }

  /** Splitting a dash-joined key that starts with a formatted date recovers
      the three fields of the date and the rest. */
  lemma SplitDateKey(d: Date, rest: string)
    ensures Split(IsoDate(d) + "-" + rest, '-')
         == [Padded(d.year, 4), Padded(d.month, 2), Padded(d.day, 2)] + Split(rest, '-')
  {
    SplitThreeFields(Padded(d.year, 4), Padded(d.month, 2), Padded(d.day, 2), rest);
  }

  /** Three dash-free fields and a rest, joined by dashes, split back into
      the fields followed by the pieces of the rest. */
  lemma SplitThreeFields(y: string, m: string, dd: string, rest: string)
    requires '-' !in y && '-' !in m && '-' !in dd
    ensures Split(y + "-" + m + "-" + dd + "-" + rest, '-') == [y, m, dd] + Split(rest, '-')
  {
    var t3 := dd + ['-'] + rest;
    var t2 := m + ['-'] + t3;
    var t1 := y + ['-'] + t2;
    assert y + "-" + m + "-" + dd + "-" + rest == t1;
    var tail := Split(rest, '-');
    SplitJoin(dd, rest, '-');
    SplitJoin(m, t3, '-');
    SplitJoin(y, t2, '-');
    assert [y] + ([m] + ([dd] + tail)) == [y, m, dd] + tail;
  }

  /** `"<date>-<rest>"` determines both the date and the rest, as long as the
      rest holds no dash: distinct (date, id) pairs give distinct keys. */
  lemma DateKeyInjective(d1: Date, r1: string, d2: Date, r2: string)
    requires '-' !in r1 && '-' !in r2
    requires IsoDate(d1) + "-" + r1 == IsoDate(d2) + "-" + r2
    ensures d1 == d2 && r1 == r2
  {
    var y1, m1, a1 := Padded(d1.year, 4), Padded(d1.month, 2), Padded(d1.day, 2);
    var y2, m2, a2 := Padded(d2.year, 4), Padded(d2.month, 2), Padded(d2.day, 2);
    SplitDateKey(d1, r1);
    SplitDateKey(d2, r2);
    SplitNoSep(r1, '-');
    SplitNoSep(r2, '-');
    var parts := [y1, m1, a1, r1];
    assert parts == [y2, m2, a2, r2] by {
      assert parts == [y1, m1, a1] + [r1];
      assert [y2, m2, a2, r2] == [y2, m2, a2] + [r2];
    }
    assert DigitsValue(y1) == d1.year && DigitsValue(y2) == d2.year;
    assert DigitsValue(m1) == d1.month && DigitsValue(m2) == d2.month;
    assert DigitsValue(a1) == d1.day && DigitsValue(a2) == d2.day;
  }
}
