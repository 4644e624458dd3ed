/** Log file names: the per-attempt log `name-YYYY-MM-DD_HH-MM-SS.log` that
    Command.Start opens, and the date-only `name-YYYY-MM-DD.log` that
    `minipm list` prints. The directory part ($HOME/.minipm/logs) is left to
    the caller. */
module LogName {

  /** A reading of the wall clock at second resolution, as time.Now() gives it
      to Format. */
  datatype DateTime = DateTime(year: int, month: nat, day: nat, hour: nat, minute: nat, second: nat)

  /** The ranges Go's time.Time guarantees for its calendar fields. */
  predicate Valid(t: DateTime) {
    1 <= t.month <= 12 && 1 <= t.day <= 31 && t.hour < 24 && t.minute < 60 && t.second < 60
  }

  /** A year that layout "2006" prints in exactly four digits. */
  predicate FourDigitYear(t: DateTime) {
    0 <= t.year <= 9999
  }

  predicate IsDigit(c: char) {
    '0' <= c <= '9'
  }

  predicate AllDigits(s: string) {
    forall i :: 0 <= i < |s| ==> IsDigit(s[i])
  }

  function DigitChar(d: nat): (c: char)
    requires d < 10
    ensures IsDigit(c)
  {
    (d + '0' as int) as char
  }

  function Pow10(k: nat): (p: nat)
    ensures p >= 1
  {
    if k == 0 then 1 else 10 * Pow10(k - 1)
  }

  /** The decimal digits of `n`, zero-padded on the left to at least `width`
      digits: time's appendInt for a non-negative value. */
  function Decimal(n: nat, width: nat): (s: string)
    ensures |s| >= 1 && |s| >= width
    ensures AllDigits(s)
    decreases n + width
  {
    if n < 10 && width <= 1 then [DigitChar(n)]
    else Decimal(n / 10, if width == 0 then 0 else width - 1) + [DigitChar(n % 10)]
  }

  /** appendInt: a '-' for a negative value, then the padded digits. */
  function AppendInt(x: int, width: nat): string
  {
    if x < 0 then "-" + Decimal(-x, width) else Decimal(x, width)
  }

  /** The number a string of decimal digits denotes. */
  function Value(s: string): nat
    requires AllDigits(s)
  {
    if s == [] then 0
    else
      assert IsDigit(s[|s| - 1]);
      10 * Value(s[..|s| - 1]) + (s[|s| - 1] as int - '0' as int)
  }

  /** Reading the padded digits back gives the number: padding loses nothing. */
  lemma {:induction false} DecimalValue(n: nat, width: nat)
    ensures Value(Decimal(n, width)) == n
    decreases n + width
  {
    var s := Decimal(n, width);
    if n < 10 && width <= 1 {
      assert s[..0] == [];
    } else {
      var w := if width == 0 then 0 else width - 1;
      var front, d := Decimal(n / 10, w), DigitChar(n % 10);
      assert s == front + [d];
      assert s[..|s| - 1] == front && s[|s| - 1] == d;
      assert d as int - '0' as int == n % 10;
      DecimalValue(n / 10, w);
      assert Value(s) == 10 * (n / 10) + n % 10;
    }
  }

  /** A number below 10^width is printed in exactly `width` digits. */
  lemma {:induction false} DecimalWidth(n: nat, width: nat)
    requires width >= 1 && n < Pow10(width)
    ensures |Decimal(n, width)| == width
    decreases width
  {
    if !(n < 10 && width <= 1) {
      assert width >= 2;
      assert n / 10 < Pow10(width - 1);
      DecimalWidth(n / 10, width - 1);
    }
  }

  /** Layout "2006-01-02_15-04-05", the timestamp of an attempt's log name. */
  function Stamp(t: DateTime): string
  {
    AppendInt(t.year, 4) + "-" + AppendInt(t.month, 2) + "-" + AppendInt(t.day, 2) + "_" +
    AppendInt(t.hour, 2) + "-" + AppendInt(t.minute, 2) + "-" + AppendInt(t.second, 2)
  }

  /** Layout "2006-01-02", the date in the name `minipm list` prints. */
  function DateStamp(t: DateTime): string
  {
    AppendInt(t.year, 4) + "-" + AppendInt(t.month, 2) + "-" + AppendInt(t.day, 2)
  }

  /** The log file a start attempt for `name` at time `t` writes to. */
  function AttemptLogName(name: string, t: DateTime): string
  {
    name + "-" + Stamp(t) + ".log"
  }

  /** The log file `minipm list` shows for `name` on the day of `t`. */
  function ListLogName(name: string, t: DateTime): string
  {
    name + "-" + DateStamp(t) + ".log"
  }

  /** A stamp-shaped string: 19 characters, digits outside the separators. */
  predicate StampShaped(st: string) {
    |st| == 19 && AllDigits(st[0..4]) && AllDigits(st[5..7]) && AllDigits(st[8..10]) &&
    AllDigits(st[11..13]) && AllDigits(st[14..16]) && AllDigits(st[17..19])
  }

  /** Reads the fields of a stamp back. */
  function ParseStamp(st: string): DateTime
    requires StampShaped(st)
  {
    DateTime(Value(st[0..4]), Value(st[5..7]), Value(st[8..10]), Value(st[11..13]), Value(st[14..16]), Value(st[17..19]))
  }

  /** Where the six fields sit in a stamp whose fields have the fixed widths. */
  lemma StampLayout(y: string, mo: string, d: string, h: string, mi: string, s: string)
    requires |y| == 4 && |mo| == 2 && |d| == 2 && |h| == 2 && |mi| == 2 && |s| == 2
    ensures var st := y + "-" + mo + "-" + d + "_" + h + "-" + mi + "-" + s;
      |st| == 19 && st[0..4] == y && st[5..7] == mo && st[8..10] == d &&
      st[11..13] == h && st[14..16] == mi && st[17..19] == s
  {
  }

  lemma TwoDigits(n: nat)
    requires n < 100
    ensures |Decimal(n, 2)| == 2 && Value(Decimal(n, 2)) == n
  {
    DecimalWidth(n, 2);
    DecimalValue(n, 2);
  }

  /** A valid time with a four-digit year gives a stamp that reads back as
      the same time. */
  lemma StampRoundTrip(t: DateTime)
    requires Valid(t) && FourDigitYear(t)
    ensures StampShaped(Stamp(t)) && ParseStamp(Stamp(t)) == t
  {
    DecimalWidth(t.year, 4);
    DecimalValue(t.year, 4);
    TwoDigits(t.month);
    TwoDigits(t.day);
    TwoDigits(t.hour);
    TwoDigits(t.minute);
    TwoDigits(t.second);
    StampLayout(Decimal(t.year, 4), Decimal(t.month, 2), Decimal(t.day, 2),
                Decimal(t.hour, 2), Decimal(t.minute, 2), Decimal(t.second, 2));
  }

  /** Splits an attempt log name into the entry name and the time. */
  function ParseAttemptLogName(file: string): (string, DateTime)
    requires |file| >= 24 && StampShaped(file[|file| - 23..|file| - 4])
  {
    (file[..|file| - 24], ParseStamp(file[|file| - 23..|file| - 4]))
  }

  lemma AttemptLogNameLayout(name: string, st: string)
    requires |st| == 19
    ensures var file := name + "-" + st + ".log";
      |file| == |name| + 24 && file[..|file| - 24] == name && file[|file| - 23..|file| - 4] == st
  {
  }

  /** Round trip: the name and the time can be read back from an attempt's
      log name, for every name (dashes included) and every valid time with a
      four-digit year. */
  lemma AttemptLogNameRoundTrip(name: string, t: DateTime)
    requires Valid(t) && FourDigitYear(t)
    ensures var file := AttemptLogName(name, t);
      |file| >= 24 && StampShaped(file[|file| - 23..|file| - 4]) && ParseAttemptLogName(file) == (name, t)
  {
    StampRoundTrip(t);
    AttemptLogNameLayout(name, Stamp(t));
  }

  /** What follows the year in an attempt log name: the month, day and time
      of day with their separators, and the extension. */
  function TimeTail(t: DateTime): string
  {
    "-" + AppendInt(t.month, 2) + "-" + AppendInt(t.day, 2) + "_" +
    AppendInt(t.hour, 2) + "-" + AppendInt(t.minute, 2) + "-" + AppendInt(t.second, 2) + ".log"
  }

  /** An attempt log name is the name, a dash and the year's digits,
      followed by the 19-character TimeTail. */
  lemma AttemptLogNameSplit(name: string, t: DateTime)
    requires Valid(t) && t.year >= 0
    ensures AttemptLogName(name, t) == (name + "-" + Decimal(t.year, 4)) + TimeTail(t)
    ensures |TimeTail(t)| == 19
  {
    TwoDigits(t.month);
    TwoDigits(t.day);
    TwoDigits(t.hour);
    TwoDigits(t.minute);
    TwoDigits(t.second);
    var y, mo, d := Decimal(t.year, 4), Decimal(t.month, 2), Decimal(t.day, 2);
    var h, mi, s := Decimal(t.hour, 2), Decimal(t.minute, 2), Decimal(t.second, 2);
    assert Stamp(t) == y + "-" + mo + "-" + d + "_" + h + "-" + mi + "-" + s;
    assert TimeTail(t) == "-" + mo + "-" + d + "_" + h + "-" + mi + "-" + s + ".log";
    SplitAfterYear(name, y, mo, d, h, mi, s);
  }

  lemma SplitAfterYear(n: string, y: string, mo: string, d: string, h: string, mi: string, s: string)
    ensures n + "-" + (y + "-" + mo + "-" + d + "_" + h + "-" + mi + "-" + s) + ".log" ==
      (n + "-" + y) + ("-" + mo + "-" + d + "_" + h + "-" + mi + "-" + s + ".log")
  {
  }

  lemma TailLayout(mo: string, d: string, h: string, mi: string, s: string)
    requires |mo| == 2 && |d| == 2 && |h| == 2 && |mi| == 2 && |s| == 2
    ensures var r := "-" + mo + "-" + d + "_" + h + "-" + mi + "-" + s + ".log";
      |r| == 19 && r[1..3] == mo && r[4..6] == d && r[7..9] == h && r[10..12] == mi && r[13..15] == s
  {
  }

  /** The TimeTail of a valid time determines its month, day and time of day. */
  lemma TimeTailInjective(t1: DateTime, t2: DateTime)
    requires Valid(t1) && Valid(t2) && TimeTail(t1) == TimeTail(t2)
    ensures t1.month == t2.month && t1.day == t2.day
    ensures t1.hour == t2.hour && t1.minute == t2.minute && t1.second == t2.second
  {
    TwoDigits(t1.month);
    TwoDigits(t1.day);
    TwoDigits(t1.hour);
    TwoDigits(t1.minute);
    TwoDigits(t1.second);
    TwoDigits(t2.month);
    TwoDigits(t2.day);
    TwoDigits(t2.hour);
    TwoDigits(t2.minute);
    TwoDigits(t2.second);
    TailLayout(Decimal(t1.month, 2), Decimal(t1.day, 2), Decimal(t1.hour, 2), Decimal(t1.minute, 2), Decimal(t1.second, 2));
    TailLayout(Decimal(t2.month, 2), Decimal(t2.day, 2), Decimal(t2.hour, 2), Decimal(t2.minute, 2), Decimal(t2.second, 2));
  }

  /** The digits after the dash cannot reach past another split's dash. */
  lemma DigitsAfterDash(n1: string, y1: string, n2: string, y2: string)
    requires AllDigits(y2)
    requires n1 + "-" + y1 == n2 + "-" + y2
    ensures |y2| <= |y1|
  {
    var p := n1 + "-" + y1;
    assert p[|n1|] == '-';
    assert forall i :: |n2| < i < |p| ==> p[i] == y2[i - |n2| - 1];
  }

  /** A dash followed by a run of digits at the end of a string can be found
      only one way: the digits are everything after the last dash. */
  lemma NameAndDigits(n1: string, y1: string, n2: string, y2: string)
    requires AllDigits(y1) && AllDigits(y2)
    requires n1 + "-" + y1 == n2 + "-" + y2
    ensures n1 == n2 && y1 == y2
  {
    DigitsAfterDash(n1, y1, n2, y2);
    DigitsAfterDash(n2, y2, n1, y1);
    var p := n1 + "-" + y1;
    assert y1 == p[|p| - |y1|..] == y2;
    assert n1 == p[..|n1|] == n2;
  }

  /** Distinct (name, second) pairs never share an attempt log name, for
      every year that is not negative: a wider year only moves the last dash
      before the digits, which the digits cannot contain. */
  lemma AttemptLogNameInjective(n1: string, t1: DateTime, n2: string, t2: DateTime)
    requires Valid(t1) && t1.year >= 0 && Valid(t2) && t2.year >= 0
    requires AttemptLogName(n1, t1) == AttemptLogName(n2, t2)
    ensures n1 == n2 && t1 == t2
  {
    var file := AttemptLogName(n1, t1);
    var y1, y2 := Decimal(t1.year, 4), Decimal(t2.year, 4);
    AttemptLogNameSplit(n1, t1);
    AttemptLogNameSplit(n2, t2);
    var p1, p2 := n1 + "-" + y1, n2 + "-" + y2;
    assert p1 == file[..|file| - 19] == p2;
    assert TimeTail(t1) == file[|file| - 19..] == TimeTail(t2);
    NameAndDigits(n1, y1, n2, y2);
    DecimalValue(t1.year, 4);
    DecimalValue(t2.year, 4);
    TimeTailInjective(t1, t2);
  }

  /** Why a negative year is excluded above: layout "2006" prints year -y
      as '-' and the digits of y, so the log name of `name` in year -y is the
      log name of `name-` in year y. */
  lemma NegativeYearCollides(name: string, t: DateTime)
    requires t.year > 0
    ensures AttemptLogName(name, t.(year := -t.year)) == AttemptLogName(name + "-", t)
  {
    var u := t.(year := -t.year);
    assert AppendInt(u.year, 4) == "-" + AppendInt(t.year, 4);
    assert Stamp(u) == "-" + Stamp(t);
  }

  /** The character 13 places from the end of an attempt log name is the '_'
      between date and time. */
  lemma AttemptLogNameUnderscore(name: string, t: DateTime)
    requires Valid(t)
    ensures var file := AttemptLogName(name, t); |file| >= 13 && file[|file| - 13] == '_'
  {
    TwoDigits(t.hour);
    TwoDigits(t.minute);
    TwoDigits(t.second);
    var y, mo, d := AppendInt(t.year, 4), AppendInt(t.month, 2), AppendInt(t.day, 2);
    var h, mi, s := Decimal(t.hour, 2), Decimal(t.minute, 2), Decimal(t.second, 2);
    UnderscoreAt(name + "-" + y + "-" + mo + "-" + d, h, mi, s);
  }

  lemma UnderscoreAt(p: string, h: string, mi: string, s: string)
    requires |h| == 2 && |mi| == 2 && |s| == 2
    ensures var file := p + "_" + h + "-" + mi + "-" + s + ".log"; |file| >= 13 && file[|file| - 13] == '_'
  {
  }

  /** The last four characters of a year printed with layout "2006" are digits. */
  lemma YearEndsInDigits(year: int)
    ensures var y := AppendInt(year, 4); |y| >= 4 && AllDigits(y[|y| - 4..])
  {
    var y := AppendInt(year, 4);
    if year < 0 {
      var dg := Decimal(-year, 4);
      assert forall i :: 1 <= i < |y| ==> y[i] == dg[i - 1];
    }
  }

  /** The character 13 places from the end of a list log name is a digit of
      the year. */
  lemma ListLogNameDigit(name: string, t: DateTime)
    requires Valid(t)
    ensures var file := ListLogName(name, t); |file| >= 13 && IsDigit(file[|file| - 13])
  {
    TwoDigits(t.month);
    TwoDigits(t.day);
    YearEndsInDigits(t.year);
    var y := AppendInt(t.year, 4);
    assert AppendInt(t.month, 2) == Decimal(t.month, 2);
    assert AppendInt(t.day, 2) == Decimal(t.day, 2);
    DigitAt(name + "-", y, Decimal(t.month, 2), Decimal(t.day, 2));
  }

  lemma DigitAt(p: string, y: string, mo: string, d: string)
    requires |y| >= 4 && IsDigit(y[|y| - 3]) && |mo| == 2 && |d| == 2
    ensures var file := p + y + "-" + mo + "-" + d + ".log"; |file| >= 13 && IsDigit(file[|file| - 13])
  {
    var file := p + y + "-" + mo + "-" + d + ".log";
    assert file[|file| - 13] == y[|y| - 3];
  }

  /** The date-only name `minipm list` prints is never the name of a log
      file that a start attempt creates, whatever the names and times. */
  lemma ListLogNameNeverAttempt(n1: string, d: DateTime, n2: string, t: DateTime)
    requires Valid(d) && Valid(t)
    ensures ListLogName(n1, d) != AttemptLogName(n2, t)
  {
    ListLogNameDigit(n1, d);
    AttemptLogNameUnderscore(n2, t);
  }

  /** What `minipm list` evidently means to point at: the common beginning
      `name-YYYY-MM-DD_` of the entry's attempt logs of that day. */
  function DayLogPrefix(name: string, t: DateTime): string
  {
    name + "-" + DateStamp(t) + "_"
  }

  lemma DateLayout(y: string, mo: string, d: string)
    requires |y| == 4 && |mo| == 2 && |d| == 2
    ensures var r := y + "-" + mo + "-" + d; |r| == 10 && r[0..4] == y && r[5..7] == mo && r[8..10] == d
  {
  }

  /** A valid date with a four-digit year prints in ten characters and reads
      back as the same year, month and day. */
  lemma DateStampFields(t: DateTime)
    requires Valid(t) && FourDigitYear(t)
    ensures var ds := DateStamp(t);
      |ds| == 10 && AllDigits(ds[0..4]) && AllDigits(ds[5..7]) && AllDigits(ds[8..10]) &&
      Value(ds[0..4]) == t.year && Value(ds[5..7]) == t.month && Value(ds[8..10]) == t.day
  {
    DecimalWidth(t.year, 4);
    DecimalValue(t.year, 4);
    TwoDigits(t.month);
    TwoDigits(t.day);
    DateLayout(Decimal(t.year, 4), Decimal(t.month, 2), Decimal(t.day, 2));
  }

  lemma SplitAfterDay(p: string, h: string, mi: string, s: string)
    ensures p + h + "-" + mi + "-" + s + ".log" == p + (h + "-" + mi + "-" + s + ".log")
  {
  }

  /** An attempt log name begins with the day prefix of its own time. */
  lemma AttemptLogNameStartsWithDay(name: string, t: DateTime)
    ensures DayLogPrefix(name, t) <= AttemptLogName(name, t)
  {
    var h, mi, s := AppendInt(t.hour, 2), AppendInt(t.minute, 2), AppendInt(t.second, 2);
    assert AttemptLogName(name, t) == DayLogPrefix(name, t) + h + "-" + mi + "-" + s + ".log";
    SplitAfterDay(DayLogPrefix(name, t), h, mi, s);
  }

  /** The day prefix of `d` begins an attempt log name of the same entry if
      and only if the attempt started on the day of `d`. */
  lemma DayLogPrefixMatches(name: string, d: DateTime, t: DateTime)
    requires Valid(d) && FourDigitYear(d) && Valid(t) && FourDigitYear(t)
    ensures DayLogPrefix(name, d) <= AttemptLogName(name, t) <==>
      d.year == t.year && d.month == t.month && d.day == t.day
  {
    var pd, pt, file := DayLogPrefix(name, d), DayLogPrefix(name, t), AttemptLogName(name, t);
    DateStampFields(d);
    DateStampFields(t);
    AttemptLogNameStartsWithDay(name, t);
    assert |pd| == |pt| && file[..|pt|] == pt;
    if pd <= file {
      assert pd == pt;
      var k := |name| + 1;
      assert DateStamp(d) == pd[k..k + 10] == pt[k..k + 10] == DateStamp(t);
    }
  }
}
