/**
 `Date.prototype.toISOString` on integer time values (section 21.4.4.36 of
 ECMA-262): a time value is a count of milliseconds since 1970-01-01T00:00Z;
 the output is the Date Time String Format of section 21.4.1.32 of ECMA-262,
 which for years 0000 to 9999 is the `date-time` form of section 5.6 of
 RFC 3339 with a millisecond fraction and the offset `Z`.
 */
module IsoDate {
  import Calendar
  import opened Options
  import opened Decimal

  const MsPerSecond := 1000
  const MsPerMinute := 60000
  const MsPerHour := 3600000
  const MsPerDay := 86400000

  /** TimeClip of section 21.4.1.31 of ECMA-262 turns a larger magnitude into NaN. */
  const MaxTimeValue := 8640000000000000

  /** The first and last time values whose year has four digits. */
  const FirstFourDigitTime := -62167219200000
  const LastFourDigitTime := 253402300799999

  datatype Instant = Instant(date: Calendar.Date, hour: int, minute: int, second: int, millisecond: int)

  predicate ValidInstant(i: Instant) {
    && Calendar.Valid(i.date)
    && 0 <= i.hour < 24 && 0 <= i.minute < 60 && 0 <= i.second < 60
    && 0 <= i.millisecond < 1000
  }

  /* ---------------- time values (section 21.4.1 of ECMA-262) ---------------- */

  function Day(t: int): int { t / MsPerDay }
  function HourFromTime(t: int): int { (t / MsPerHour) % 24 }
  function MinFromTime(t: int): int { (t / MsPerMinute) % 60 }
  function SecFromTime(t: int): int { (t / MsPerSecond) % 60 }
  function MsFromTime(t: int): int { t % MsPerSecond }

  /** The UTC calendar fields of a time value. */
  function Decompose(t: int): Instant {
    Instant(Calendar.CivilFromDays(Day(t)), HourFromTime(t), MinFromTime(t), SecFromTime(t), MsFromTime(t))
  }

  /** MakeTime of ECMA-262: milliseconds since the start of the day. */
  function MakeTime(h: int, mi: int, s: int, ms: int): int {
    h * MsPerHour + mi * MsPerMinute + s * MsPerSecond + ms
  }

  /** MakeDate of ECMA-262: the time value of a day number and a time of day. */
  function MakeDate(day: int, time: int): int {
    day * MsPerDay + time
  }

  /** The time value of calendar fields. */
  function Compose(i: Instant): int
    requires 1 <= i.date.month <= 12
  {
    MakeDate(Calendar.DaysFromCivil(i.date), MakeTime(i.hour, i.minute, i.second, i.millisecond))
  }

  lemma TimeWithinDay(t: int)
    ensures 0 <= HourFromTime(t) < 24 && 0 <= MinFromTime(t) < 60
    ensures 0 <= SecFromTime(t) < 60 && 0 <= MsFromTime(t) < 1000
    ensures t == Day(t) * MsPerDay + HourFromTime(t) * MsPerHour + MinFromTime(t) * MsPerMinute
                 + SecFromTime(t) * MsPerSecond + MsFromTime(t)
  {
    var s := t / 1000;
    var m := t / 60000;
    var h := t / 3600000;
    assert s / 60 == m;
    assert m / 60 == h;
    assert h / 24 == Day(t);
    assert t == 1000 * s + t % 1000;
    assert s == 60 * m + s % 60;
    assert m == 60 * h + m % 60;
    assert h == 24 * Day(t) + h % 24;
  }

  /** Every time value has valid calendar fields. */
  lemma DecomposeValid(t: int)
    ensures ValidInstant(Decompose(t))
  {
    TimeWithinDay(t);
    Calendar.CivilFromDaysInverse(Day(t));
  }

  /** Every time value has valid calendar fields that compose back to it. */
  lemma DecomposeInverse(t: int)
    ensures ValidInstant(Decompose(t))
    ensures Compose(Decompose(t)) == t
  {
    TimeWithinDay(t);
    Calendar.CivilFromDaysInverse(Day(t));
  }

  lemma DayOfTime(z: int, w: int)
    requires 0 <= w < MsPerDay
    ensures Day(MakeDate(z, w)) == z
  {
  }

  lemma FieldsOfTime(z: int, h: int, mi: int, s: int, ms: int)
    requires 0 <= h < 24 && 0 <= mi < 60 && 0 <= s < 60 && 0 <= ms < 1000
    ensures var t := MakeDate(z, MakeTime(h, mi, s, ms));
      HourFromTime(t) == h && MinFromTime(t) == mi && SecFromTime(t) == s && MsFromTime(t) == ms
  {
    var t := MakeDate(z, MakeTime(h, mi, s, ms));
    assert t / 1000 == z * 86400 + h * 3600 + mi * 60 + s;
    assert t / 60000 == z * 1440 + h * 60 + mi;
    assert t / 3600000 == z * 24 + h;
  }

  /** The time value of day z and a time of day decomposes into that day and time. */
  lemma DecomposeOfFields(z: int, h: int, mi: int, s: int, ms: int)
    requires 0 <= h < 24 && 0 <= mi < 60 && 0 <= s < 60 && 0 <= ms < 1000
    ensures Decompose(MakeDate(z, MakeTime(h, mi, s, ms))) == Instant(Calendar.CivilFromDays(z), h, mi, s, ms)
  {
    DayOfTime(z, MakeTime(h, mi, s, ms));
    FieldsOfTime(z, h, mi, s, ms);
  }

  /** Valid calendar fields are recovered from their time value. */
  lemma ComposeInverse(i: Instant)
    requires ValidInstant(i)
    ensures Decompose(Compose(i)) == i
  {
    DecomposeOfFields(Calendar.DaysFromCivil(i.date), i.hour, i.minute, i.second, i.millisecond);
    Calendar.DaysFromCivilInverse(i.date);
  }

  /* ---------------- the string form ---------------- */

  /** Years 0 to 9999 take four digits; others the six-digit expanded form with a sign. */
  function YearString(y: int): string {
    if 0 <= y <= 9999 then Digits(y, 4)
    else if y < 0 then "-" + Digits(-y, 6)
    else "+" + Digits(y, 6)
  }

  /** The pieces of the string form, in order. */
  function Fields(i: Instant): seq<string>
    requires i.hour >= 0 && i.minute >= 0 && i.second >= 0 && i.millisecond >= 0
    requires i.date.month >= 0 && i.date.day >= 0
  {
    [YearString(i.date.year), "-", Digits(i.date.month, 2), "-", Digits(i.date.day, 2),
     "T", Digits(i.hour, 2), ":", Digits(i.minute, 2), ":", Digits(i.second, 2),
     ".", Digits(i.millisecond, 3), "Z"]
  }

  /** Widths of the pieces when the year has four digits. */
  const Widths: seq<nat> := [4, 1, 2, 1, 2, 1, 2, 1, 2, 1, 2, 1, 3, 1]

  /** Concatenation of pieces, left to right. */
  function Join(parts: seq<string>): string {
    if parts == [] then "" else Join(parts[..|parts| - 1]) + parts[|parts| - 1]
  }

  function Sum(ws: seq<nat>): nat {
    if ws == [] then 0 else Sum(ws[..|ws| - 1]) + ws[|ws| - 1]
  }

  lemma JoinStep(ps: seq<string>, k: nat)
    requires k < |ps|
    ensures Join(ps[..k + 1]) == Join(ps[..k]) + ps[k]
  {
    assert ps[..k + 1][..k] == ps[..k];
  }

  lemma SumStep(ws: seq<nat>, k: nat)
    requires k < |ws|
    ensures Sum(ws[..k + 1]) == Sum(ws[..k]) + ws[k]
  {
    assert ws[..k + 1][..k] == ws[..k];
  }

  /** The string form with a four-digit year is 24 characters long. */
  lemma WidthsSum()
    ensures Sum(Widths) == 24
  {
    var w := Widths;
    assert w[..0] == [];
    SumStep(w, 0); SumStep(w, 1); SumStep(w, 2); SumStep(w, 3); SumStep(w, 4);
    SumStep(w, 5); SumStep(w, 6); SumStep(w, 7); SumStep(w, 8); SumStep(w, 9);
    SumStep(w, 10); SumStep(w, 11); SumStep(w, 12); SumStep(w, 13);
    assert w[..14] == w;
  }

  /** Cuts s into consecutive pieces of the given widths. */
  function Split(s: string, ws: seq<nat>): (parts: seq<string>)
    requires |s| == Sum(ws)
    ensures |parts| == |ws|
    ensures forall k | 0 <= k < |ws| :: |parts[k]| == ws[k]
    decreases |ws|
  {
    if ws == [] then []
    else
      var cut := |s| - ws[|ws| - 1];
      Split(s[..cut], ws[..|ws| - 1]) + [s[cut..]]
  }

  lemma {:induction false} SplitJoin(parts: seq<string>, ws: seq<nat>)
    requires |parts| == |ws|
    requires forall k | 0 <= k < |ws| :: |parts[k]| == ws[k]
    ensures |Join(parts)| == Sum(ws)
    ensures Split(Join(parts), ws) == parts
  {
    if parts != [] {
      var n := |parts| - 1;
      SplitJoin(parts[..n], ws[..n]);
      var s := Join(parts);
      assert s[..|s| - ws[n]] == Join(parts[..n]);
      assert s[|s| - ws[n]..] == parts[n];
      assert parts[..n] + [parts[n]] == parts;
    }
  }

  lemma {:induction false} JoinSplit(s: string, ws: seq<nat>)
    requires |s| == Sum(ws)
    ensures Join(Split(s, ws)) == s
    decreases |ws|
  {
    if ws != [] {
      var cut := |s| - ws[|ws| - 1];
      JoinSplit(s[..cut], ws[..|ws| - 1]);
      var parts := Split(s, ws);
      assert parts[..|parts| - 1] == Split(s[..cut], ws[..|ws| - 1]);
      assert s[..cut] + s[cut..] == s;
    }
  }

  /** The string of valid calendar fields. */
  function Format(i: Instant): string
    requires ValidInstant(i)
  {
    Join(Fields(i))
  }

  /** `new Date(t).toISOString()`: None stands for the RangeError thrown when
      the time value is NaN after TimeClip. */
  function ToIsoString(t: int): (r: Option<string>)
    ensures r.Some? <==> -MaxTimeValue <= t <= MaxTimeValue
  {
    if t < -MaxTimeValue || t > MaxTimeValue then None
    else DecomposeValid(t); Some(Format(Decompose(t)))
  }

  /** The separators of the string form sit in the odd pieces. */
  predicate Separators(p: seq<string>)
    requires |p| == |Widths|
  {
    p[1] == "-" && p[3] == "-" && p[5] == "T" && p[7] == ":" && p[9] == ":" && p[11] == "." && p[13] == "Z"
  }

  /** The even pieces are all decimal digits. */
  predicate DigitPieces(p: seq<string>)
    requires |p| == |Widths|
  {
    AllDigits(p[0]) && AllDigits(p[2]) && AllDigits(p[4]) && AllDigits(p[6])
    && AllDigits(p[8]) && AllDigits(p[10]) && AllDigits(p[12])
  }

  /** Reads the calendar fields out of the pieces of a four-digit-year string. */
  function ParsePieces(p: seq<string>): Option<Instant>
    requires |p| == |Widths|
  {
    if !Separators(p) || !DigitPieces(p) then None
    else
      var i := Instant(Calendar.Date(DigitsValue(p[0]), DigitsValue(p[2]), DigitsValue(p[4])),
                       DigitsValue(p[6]), DigitsValue(p[8]), DigitsValue(p[10]), DigitsValue(p[12]));
      if ValidInstant(i) then Some(i) else None
  }

  /** Reads back a 24-character string of the form YYYY-MM-DDTHH:MM:SS.sssZ. */
  function ParseIso(s: string): Option<int> {
    if |s| != Sum(Widths) then None
    else
      match ParsePieces(Split(s, Widths))
      case None => None
      case Some(i) => Some(Compose(i))
  }

  /* ---------------- the string form round-trips ---------------- */

  lemma FourDigitRange(t: int)
    requires FirstFourDigitTime <= t <= LastFourDigitTime
    ensures 0 <= Decompose(t).date.year <= 9999
    ensures -MaxTimeValue <= t <= MaxTimeValue
  {
    assert Calendar.DayFromYear(0) == -719528;
    assert Calendar.DayFromYear(10000) == 2932897;
    Calendar.FourDigitYears(Day(t));
  }

  lemma FieldsWidths(i: Instant)
    requires ValidInstant(i) && 0 <= i.date.year <= 9999
    ensures |Fields(i)| == |Widths|
    ensures forall k | 0 <= k < |Widths| :: |Fields(i)[k]| == Widths[k]
  {
  }

  /** ParsePieces accepts any pieces with the right separators whose digit
      pieces carry the fields of a valid instant. */
  lemma ParsePiecesOfValues(p: seq<string>, i: Instant)
    requires |p| == |Widths| && ValidInstant(i)
    requires p[1] == "-" && p[3] == "-" && p[5] == "T" && p[7] == ":" && p[9] == ":" && p[11] == "." && p[13] == "Z"
    requires AllDigits(p[0]) && AllDigits(p[2]) && AllDigits(p[4]) && AllDigits(p[6])
      && AllDigits(p[8]) && AllDigits(p[10]) && AllDigits(p[12])
    requires DigitsValue(p[0]) == i.date.year && DigitsValue(p[2]) == i.date.month
      && DigitsValue(p[4]) == i.date.day && DigitsValue(p[6]) == i.hour && DigitsValue(p[8]) == i.minute
      && DigitsValue(p[10]) == i.second && DigitsValue(p[12]) == i.millisecond
    ensures ParsePieces(p) == Some(i)
  {
  }

  /** Each digit piece of the string form reads back as its field. */
  lemma FieldDigitsValues(i: Instant)
    requires 0 <= i.date.year <= 9999 && 0 <= i.date.month < 100 && 0 <= i.date.day < 100
    requires 0 <= i.hour < 100 && 0 <= i.minute < 100 && 0 <= i.second < 100 && 0 <= i.millisecond < 1000
    ensures DigitsValue(Digits(i.date.year, 4)) == i.date.year
    ensures DigitsValue(Digits(i.date.month, 2)) == i.date.month
    ensures DigitsValue(Digits(i.date.day, 2)) == i.date.day
    ensures DigitsValue(Digits(i.hour, 2)) == i.hour
    ensures DigitsValue(Digits(i.minute, 2)) == i.minute
    ensures DigitsValue(Digits(i.second, 2)) == i.second
    ensures DigitsValue(Digits(i.millisecond, 3)) == i.millisecond
  {
    hide Digits;
    hide DigitsValue;
    Pow10Widths();
    DigitsValueOfDigits(i.date.year, 4);
    DigitsValueOfDigits(i.date.month, 2);
    DigitsValueOfDigits(i.date.day, 2);
    DigitsValueOfDigits(i.hour, 2);
    DigitsValueOfDigits(i.minute, 2);
    DigitsValueOfDigits(i.second, 2);
    DigitsValueOfDigits(i.millisecond, 3);
  }

  lemma ParsePiecesOfFields(i: Instant)
    requires ValidInstant(i) && 0 <= i.date.year <= 9999
    ensures |Fields(i)| == |Widths| && ParsePieces(Fields(i)) == Some(i)
  {
    FieldDigitsValues(i);
    ParsePiecesOfValues(Fields(i), i);
  }

  /** The parser reads back the time value of every string the formatter
      writes for a four-digit year. */
  lemma ParseFormat(t: int)
    requires FirstFourDigitTime <= t <= LastFourDigitTime
    ensures ToIsoString(t).Some?
    ensures ParseIso(ToIsoString(t).value) == Some(t)
  {
    FourDigitRange(t);
    DecomposeInverse(t);
    var i := Decompose(t);
    FieldsWidths(i);
    SplitJoin(Fields(i), Widths);
    ParsePiecesOfFields(i);
  }

  lemma ComposeRange(i: Instant)
    requires ValidInstant(i) && 0 <= i.date.year <= 9999
    ensures FirstFourDigitTime <= Compose(i) <= LastFourDigitTime
  {
    Calendar.DayOfYearBounds(i.date);
    Calendar.DayFromYearStep(i.date.year);
    if i.date.year > 0 {
      Calendar.DayFromYearIncreasing(0, i.date.year);
    }
    if i.date.year < 9999 {
      Calendar.DayFromYearIncreasing(i.date.year + 1, 10000);
    }
    assert Calendar.DayFromYear(0) == -719528;
    assert Calendar.DayFromYear(10000) == 2932897;
  }

  /** Digit pieces of the right widths are the string form of the values they carry. */
  lemma FieldsOfValues(p: seq<string>, i: Instant)
    requires |p| == |Widths| && Separators(p) && DigitPieces(p)
    requires forall k | 0 <= k < |Widths| :: |p[k]| == Widths[k]
    requires 0 <= i.date.year <= 9999
    requires DigitsValue(p[0]) == i.date.year && DigitsValue(p[2]) == i.date.month
      && DigitsValue(p[4]) == i.date.day && DigitsValue(p[6]) == i.hour && DigitsValue(p[8]) == i.minute
      && DigitsValue(p[10]) == i.second && DigitsValue(p[12]) == i.millisecond
    ensures Fields(i) == p
  {
    assert |p[0]| == 4 && |p[2]| == 2 && |p[4]| == 2 && |p[6]| == 2 && |p[8]| == 2 && |p[10]| == 2 && |p[12]| == 3;
    var y, mo, d := Digits(i.date.year, 4), Digits(i.date.month, 2), Digits(i.date.day, 2);
    var h, mi, s, ms := Digits(i.hour, 2), Digits(i.minute, 2), Digits(i.second, 2), Digits(i.millisecond, 3);
    assert y == p[0] by { DigitsOfDigitsValue(p[0]); }
    assert mo == p[2] by { DigitsOfDigitsValue(p[2]); }
    assert d == p[4] by { DigitsOfDigitsValue(p[4]); }
    assert h == p[6] by { DigitsOfDigitsValue(p[6]); }
    assert mi == p[8] by { DigitsOfDigitsValue(p[8]); }
    assert s == p[10] by { DigitsOfDigitsValue(p[10]); }
    assert ms == p[12] by { DigitsOfDigitsValue(p[12]); }
    assert Fields(i) == [y, "-", mo, "-", d, "T", h, ":", mi, ":", s, ".", ms, "Z"];
  }

  lemma FieldsOfParsePieces(p: seq<string>)
    requires |p| == |Widths| && ParsePieces(p).Some?
    requires forall k | 0 <= k < |Widths| :: |p[k]| == Widths[k]
    ensures 0 <= ParsePieces(p).value.date.year <= 9999
    ensures Fields(ParsePieces(p).value) == p
  {
    var i := ParsePieces(p).value;
    assert i.date.year < 10000 by {
      assert |p[0]| == 4;
      Pow10Widths();
    }
    FieldsOfValues(p, i);
  }

  /** Every string the parser accepts is the formatter's output for the time
      value it reads. */
  lemma FormatParse(s: string)
    requires ParseIso(s).Some?
    ensures ToIsoString(ParseIso(s).value) == Some(s)
  {
    var p := Split(s, Widths);
    FieldsOfParsePieces(p);
    var i := ParsePieces(p).value;
    ComposeRange(i);
    ComposeInverse(i);
    JoinSplit(s, Widths);
  }

  /* ---------------- the string form is ordered like time ---------------- */

  /** JavaScript's `<` on strings: code-unit lexicographic order. */
  predicate LexLess(a: string, b: string)
    decreases |a|
  {
    |b| > 0 && (|a| == 0 || a[0] < b[0] || (a[0] == b[0] && LexLess(a[1..], b[1..])))
  }

  lemma {:induction false} LexLessAsymmetric(a: string, b: string)
    requires LexLess(a, b)
    ensures !LexLess(b, a) && a != b
    decreases |a|
  {
    if |a| > 0 && a[0] == b[0] {
      LexLessAsymmetric(a[1..], b[1..]);
    }
  }

  lemma {:induction false} ExtendLess(a: string, b: string, c: string, d: string)
    requires |a| == |b| && LexLess(a, b)
    ensures LexLess(a + c, b + d)
    decreases |a|
  {
    if a[0] == b[0] {
      assert (a + c)[1..] == a[1..] + c;
      assert (b + d)[1..] == b[1..] + d;
      ExtendLess(a[1..], b[1..], c, d);
    }
  }

  lemma {:induction false} PrefixLess(p: string, c: string, d: string)
    requires LexLess(c, d)
    ensures LexLess(p + c, p + d)
    decreases |p|
  {
    if p == [] {
      assert p + c == c && p + d == d;
    } else {
      assert (p + c)[1..] == p[1..] + c;
      assert (p + d)[1..] == p[1..] + d;
      PrefixLess(p[1..], c, d);
    }
  }

  lemma {:induction false} JoinLength(ps: seq<string>, qs: seq<string>)
    requires |ps| == |qs|
    requires forall k | 0 <= k < |ps| :: |ps[k]| == |qs[k]|
    ensures |Join(ps)| == |Join(qs)|
  {
    if ps != [] {
      JoinLength(ps[..|ps| - 1], qs[..|qs| - 1]);
    }
  }

  /** Pieces of equal widths compare like their first differing piece. */
  lemma {:induction false} JoinLess(ps: seq<string>, qs: seq<string>, j: nat)
    requires |ps| == |qs| && j < |ps|
    requires forall k | 0 <= k < |ps| :: |ps[k]| == |qs[k]|
    requires forall k | 0 <= k < j :: ps[k] == qs[k]
    requires LexLess(ps[j], qs[j])
    ensures LexLess(Join(ps), Join(qs))
  {
    var n := |ps| - 1;
    if j == n {
      assert ps[..n] == qs[..n];
      PrefixLess(Join(ps[..n]), ps[n], qs[n]);
    } else {
      JoinLess(ps[..n], qs[..n], j);
      JoinLength(ps[..n], qs[..n]);
      ExtendLess(Join(ps[..n]), Join(qs[..n]), ps[n], qs[n]);
    }
  }

  lemma {:induction false} DigitsLess(m: nat, n: nat, width: nat)
    requires m < n < Pow10(width)
    ensures LexLess(Digits(m, width), Digits(n, width))
  {
    if m / 10 < n / 10 {
      DigitsLess(m / 10, n / 10, width - 1);
      ExtendLess(Digits(m / 10, width - 1), Digits(n / 10, width - 1), [DigitChar(m % 10)], [DigitChar(n % 10)]);
    } else {
      PrefixLess(Digits(m / 10, width - 1), [DigitChar(m % 10)], [DigitChar(n % 10)]);
    }
  }

  /** Lexicographic order on calendar fields. */
  predicate InstantBefore(a: Instant, b: Instant) {
    Calendar.Before(a.date, b.date)
    || (a.date == b.date
        && (a.hour < b.hour
            || (a.hour == b.hour && a.minute < b.minute)
            || (a.hour == b.hour && a.minute == b.minute && a.second < b.second)
            || (a.hour == b.hour && a.minute == b.minute && a.second == b.second
                && a.millisecond < b.millisecond)))
  }

  lemma TimeOfDayOrder(a: Instant, b: Instant)
    requires ValidInstant(a) && ValidInstant(b) && a.date == b.date
    requires a.hour * MsPerHour + a.minute * MsPerMinute + a.second * MsPerSecond + a.millisecond
           < b.hour * MsPerHour + b.minute * MsPerMinute + b.second * MsPerSecond + b.millisecond
    ensures InstantBefore(a, b)
  {
  }

  lemma DecomposeMonotone(t1: int, t2: int)
    requires t1 < t2
    ensures InstantBefore(Decompose(t1), Decompose(t2))
  {
    DecomposeInverse(t1);
    DecomposeInverse(t2);
    var a, b := Decompose(t1), Decompose(t2);
    if Day(t1) < Day(t2) {
      Calendar.CivilFromDaysMonotone(Day(t1), Day(t2));
    } else {
      assert Day(t1) == Day(t2) by {
        assert t1 / MsPerDay <= t2 / MsPerDay;
      }
      TimeOfDayOrder(a, b);
    }
  }

  /** The fields of a and b agree on every piece before piece j. */
  predicate SamePrefix(a: Instant, b: Instant, j: nat) {
    (j > 0 ==> a.date.year == b.date.year)
    && (j > 2 ==> a.date.month == b.date.month)
    && (j > 4 ==> a.date.day == b.date.day)
    && (j > 6 ==> a.hour == b.hour)
    && (j > 8 ==> a.minute == b.minute)
    && (j > 10 ==> a.second == b.second)
  }

  /** The number written in the even piece j of the string form. */
  function PieceValue(i: Instant, j: nat): int {
    if j == 0 then i.date.year
    else if j == 2 then i.date.month
    else if j == 4 then i.date.day
    else if j == 6 then i.hour
    else if j == 8 then i.minute
    else if j == 10 then i.second
    else i.millisecond
  }

  lemma FieldPiece(i: Instant, j: nat)
    requires ValidInstant(i) && 0 <= i.date.year <= 9999
    requires j < |Widths| && j % 2 == 0
    ensures 0 <= PieceValue(i, j) < Pow10(Widths[j])
    ensures Fields(i)[j] == Digits(PieceValue(i, j), Widths[j])
  {
    Pow10Widths();
  }

  /** Two strings of four-digit-year instants compare like their first differing field. */
  lemma FormatLessAt(a: Instant, b: Instant, j: nat)
    requires ValidInstant(a) && 0 <= a.date.year <= 9999
    requires ValidInstant(b) && 0 <= b.date.year <= 9999
    requires j < |Widths| && j % 2 == 0 && SamePrefix(a, b, j)
    requires PieceValue(a, j) < PieceValue(b, j)
    ensures LexLess(Format(a), Format(b))
  {
    FieldPiece(a, j);
    FieldPiece(b, j);
    DigitsLess(PieceValue(a, j), PieceValue(b, j), Widths[j]);
    FieldsWidths(a);
    FieldsWidths(b);
    JoinLess(Fields(a), Fields(b), j);
  }

  lemma FormatMonotone(a: Instant, b: Instant)
    requires ValidInstant(a) && 0 <= a.date.year <= 9999
    requires ValidInstant(b) && 0 <= b.date.year <= 9999
    requires InstantBefore(a, b)
    ensures LexLess(Format(a), Format(b))
  {
    if a.date.year != b.date.year {
      FormatLessAt(a, b, 0);
    } else if a.date.month < b.date.month {
      FormatLessAt(a, b, 2);
    } else if a.date.day < b.date.day {
      FormatLessAt(a, b, 4);
    } else if a.hour < b.hour {
      FormatLessAt(a, b, 6);
    } else if a.minute < b.minute {
      FormatLessAt(a, b, 8);
    } else if a.second < b.second {
      FormatLessAt(a, b, 10);
    } else {
      FormatLessAt(a, b, 12);
    }
  }

  /** For four-digit years, comparing the strings compares the time values. */
  lemma IsoMonotone(t1: int, t2: int)
    requires FirstFourDigitTime <= t1 <= LastFourDigitTime
    requires FirstFourDigitTime <= t2 <= LastFourDigitTime
    ensures ToIsoString(t1).Some? && ToIsoString(t2).Some?
    ensures t1 < t2 <==> LexLess(ToIsoString(t1).value, ToIsoString(t2).value)
  {
    FourDigitRange(t1);
    FourDigitRange(t2);
    DecomposeInverse(t1);
    DecomposeInverse(t2);
    if t1 < t2 {
      DecomposeMonotone(t1, t2);
      FormatMonotone(Decompose(t1), Decompose(t2));
    } else if t2 < t1 {
      DecomposeMonotone(t2, t1);
      FormatMonotone(Decompose(t2), Decompose(t1));
      LexLessAsymmetric(ToIsoString(t2).value, ToIsoString(t1).value);
    } else if LexLess(ToIsoString(t1).value, ToIsoString(t2).value) {
      LexLessAsymmetric(ToIsoString(t1).value, ToIsoString(t2).value);
    }
  }

  /* ---------------- a worked example ---------------- */

  /** The pieces of the ninth of March 2024, 16:00 UTC. */
  const ExamplePieces: seq<string> := ["2024", "-", "03", "-", "09", "T", "16", ":", "00", ":", "00", ".", "000", "Z"]

  lemma ExampleDigits()
    ensures Digits(2024, 4) == "2024"
    ensures Digits(3, 2) == "03" && Digits(9, 2) == "09" && Digits(16, 2) == "16"
    ensures Digits(0, 2) == "00" && Digits(0, 3) == "000"
  {
    assert Digits(2024, 4) == "2024";
    assert Digits(3, 2) == "03";
  }

  lemma ExampleFields()
    ensures Fields(Instant(Calendar.Date(2024, 3, 9), 16, 0, 0, 0)) == ExamplePieces
  {
    ExampleDigits();
    hide Digits;
  }

  lemma ExampleJoinDate()
    ensures Join(ExamplePieces[..7]) == "2024-03-09T16"
  {
    var p := ExamplePieces;
    assert p[..0] == [];
    assert Join(p[..0]) == "";
    hide Join;
    JoinStep(p, 0);
    assert Join(p[..1]) == "2024";
    JoinStep(p, 1);
    assert Join(p[..2]) == "2024-";
    JoinStep(p, 2);
    assert Join(p[..3]) == "2024-03";
    JoinStep(p, 3);
    assert Join(p[..4]) == "2024-03-";
    JoinStep(p, 4);
    assert Join(p[..5]) == "2024-03-09";
    JoinStep(p, 5);
    assert Join(p[..6]) == "2024-03-09T";
    JoinStep(p, 6);
    assert Join(p[..7]) == "2024-03-09T16";
  }

  lemma ExampleJoin()
    ensures Join(ExamplePieces) == "2024-03-09T16:00:00.000Z"
  {
    hide Join;
    var p := ExamplePieces;
    ExampleJoinDate();
    JoinStep(p, 7);
    assert Join(p[..8]) == "2024-03-09T16:";
    JoinStep(p, 8);
    assert Join(p[..9]) == "2024-03-09T16:00";
    JoinStep(p, 9);
    assert Join(p[..10]) == "2024-03-09T16:00:";
    JoinStep(p, 10);
    assert Join(p[..11]) == "2024-03-09T16:00:00";
    JoinStep(p, 11);
    assert Join(p[..12]) == "2024-03-09T16:00:00.";
    JoinStep(p, 12);
    assert Join(p[..13]) == "2024-03-09T16:00:00.000";
    JoinStep(p, 13);
    assert Join(p[..14]) == "2024-03-09T16:00:00.000Z";
    assert p[..14] == p;
  }

  /** Time value 1710000000000 is the ninth of March 2024 at 16:00 UTC. */
  lemma ToIsoStringExample()
    ensures ToIsoString(1710000000000) == Some("2024-03-09T16:00:00.000Z")
  {
    var i := Instant(Calendar.Date(2024, 3, 9), 16, 0, 0, 0);
    assert Calendar.DaysFromCivil(i.date) == 19791;
    assert Compose(i) == 1710000000000;
    ComposeInverse(i);
    ExampleFields();
    ExampleJoin();
  }
}
