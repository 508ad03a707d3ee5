/**
 Calendar arithmetic: the closed-form days-to-date formula of the vault's record timestamps
 against walking the proleptic Gregorian calendar one day at a time, and the printed form of a
 timestamp against reading it back.

 The leap-year rule is that of RFC 3339 Appendix C, the day-of-month table that of its section
 5.7, the printed form that of its section 5.6.
 */
module Civil {
  datatype Date = Date(year: int, month: int, day: int)

  // ---- the calendar itself ----

  predicate IsLeap(y: int) {
    y % 4 == 0 && (y % 100 != 0 || y % 400 == 0)
  }

  function DaysInMonth(y: int, m: int): int {
    if m == 2 then (if IsLeap(y) then 29 else 28)
    else if m == 4 || m == 6 || m == 9 || m == 11 then 30
    else 31
  }

  predicate Valid(d: Date) {
    1 <= d.month <= 12 && 1 <= d.day <= DaysInMonth(d.year, d.month)
  }

  function NextDay(d: Date): Date {
    if d.day < DaysInMonth(d.year, d.month) then d.(day := d.day + 1)
    else if d.month < 12 then Date(d.year, d.month + 1, 1)
    else Date(d.year + 1, 1, 1)
  }

  function PreviousDay(d: Date): Date {
    if d.day > 1 then d.(day := d.day - 1)
    else if d.month > 1 then Date(d.year, d.month - 1, DaysInMonth(d.year, d.month - 1))
    else Date(d.year - 1, 12, 31)
  }

  const EPOCH := Date(1970, 1, 1)

  /** The date reached from 1970-01-01 by walking `n` days (backwards when `n` is negative). */
  function Walk(n: int): Date
    decreases if n < 0 then -n else n
  {
    if n == 0 then EPOCH
    else if n > 0 then NextDay(Walk(n - 1))
    else PreviousDay(Walk(n + 1))
  }

  predicate Before(a: Date, b: Date) {
    a.year < b.year
    || (a.year == b.year && (a.month < b.month || (a.month == b.month && a.day < b.day)))
  }

  // ---- the formula ----

  /** Rust's `/`, which truncates toward zero. */
  function Quot(a: int, b: int): int
    requires b > 0
  {
    if a >= 0 then a / b else -((-a) / b)
  }

  function CivilFromDays(days: int): Date {
    var z := days + 719_468;
    var era := Quot(if z >= 0 then z else z - 146_096, 146_097);
    var doe := z - era * 146_097;
    var yoe := Quot(doe - Quot(doe, 1460) + Quot(doe, 36524) - Quot(doe, 146_096), 365);
    var y := yoe + era * 400;
    var doy := doe - (365 * yoe + Quot(yoe, 4) - Quot(yoe, 100));
    var mp := Quot(5 * doy + 2, 153);
    var d := doy - Quot(153 * mp + 2, 5) + 1;
    var m := if mp < 10 then mp + 3 else mp - 9;
    Date(if m <= 2 then y + 1 else y, m, d)
  }

  // The formula counts years from 1 March, 400 to an era. `YearStart` is the day of the era on
  // which year `yoe` of it starts.

  function YearStart(yoe: int): int {
    365 * yoe + yoe / 4 - yoe / 100
  }

  function YearOfEra(doe: int): int
    requires 0 <= doe < 146_097
  {
    (doe - doe / 1460 + doe / 36524 - doe / 146_096) / 365
  }

  lemma EraIsFloor(z: int)
    ensures Quot(if z >= 0 then z else z - 146_096, 146_097) == z / 146_097
  {
  }

  /** Within a century `c` the year is found from the four-year cycle `k` and the day `s` of it. */
  lemma YearOfCycle(doe: int, c: int, k: int, s: int)
    requires 0 <= c <= 3 && 0 <= k <= 24 && 0 <= s <= 1460
    requires doe == 36524 * c + 1461 * k + s
    requires k == 24 && c < 3 ==> s < 1460
    ensures 0 <= doe < 146_097
    ensures YearOfEra(doe) == 100 * c + 4 * k + (if s == 1460 then 3 else s / 365)
  {
    if doe < 146_096 {
      assert doe / 36524 == c;
      assert doe / 1460 == 25 * c + k + (if 24 * c + k + s >= 1460 then 1 else 0);
      assert doe / 146_096 == 0;
    }
  }

  lemma YearOfEraCorrect(doe: int)
    requires 0 <= doe < 146_097
    ensures var y := YearOfEra(doe);
            0 <= y < 400 && YearStart(y) <= doe && (y < 399 ==> doe < YearStart(y + 1))
  {
    var c := if doe == 146_096 then 3 else doe / 36524;
    var r := doe - 36524 * c;
    var k, s := r / 1461, r % 1461;
    YearOfCycle(doe, c, k, s);
    var q := if s == 1460 then 3 else s / 365;
    var y := 100 * c + 4 * k + q;
    assert 0 <= q <= 3 && 365 * q <= s;
    assert y / 100 == c && y / 4 == 25 * c + k;
    if q < 3 {
      assert (y + 1) / 4 == 25 * c + k && (y + 1) / 100 == c;
    } else {
      assert (y + 1) / 4 == 25 * c + k + 1;
      assert (y + 1) / 100 == if k == 24 then c + 1 else c;
    }
  }

  /** Days in the year that starts on 1 March of year `y`. */
  function MarchYearLength(y: int): int {
    if IsLeap(y + 1) then 366 else 365
  }

  /** The date `doy` days after 1 March of year `y`. */
  function FromMarch(y: int, doy: int): Date {
    var mp := (5 * doy + 2) / 153;
    var m := if mp < 10 then mp + 3 else mp - 9;
    Date(if m <= 2 then y + 1 else y, m, doy - (153 * mp + 2) / 5 + 1)
  }

  lemma Mod4(a: int, q: int)
    ensures (4 * q + a) % 4 == a % 4
  {
  }

  lemma Mod100(a: int, q: int)
    ensures (100 * q + a) % 100 == a % 100
  {
  }

  lemma Mod400(a: int, q: int)
    ensures (400 * q + a) % 400 == a % 400
  {
  }

  lemma LeapRepeats(y: int, era: int)
    ensures IsLeap(era * 400 + y) == IsLeap(y)
  {
    Mod4(y, 100 * era);
    Mod100(y, 4 * era);
    Mod400(y, era);
  }

  lemma YearStartStep(yoe: int, era: int)
    requires 0 <= yoe < 400
    ensures yoe < 399 ==> YearStart(yoe + 1) == YearStart(yoe) + MarchYearLength(era * 400 + yoe)
    ensures yoe == 399 ==> YearStart(yoe) + MarchYearLength(era * 400 + yoe) == 146_097
  {
    LeapRepeats(yoe + 1, era);
  }

  /** Where day number `days` falls: its era, year of era and day of year, counted from March. */
  ghost predicate Falls(days: int, era: int, yoe: int, doy: int) {
    && 0 <= yoe < 400
    && 0 <= doy < MarchYearLength(era * 400 + yoe)
    && days + 719_468 == 146_097 * era + YearStart(yoe) + doy
  }

  lemma QuotIsFloor(a: int, b: int)
    requires a >= 0 && b > 0
    ensures Quot(a, b) == a / b
  {
  }

  lemma YearUnfolded(doe: int)
    requires 0 <= doe < 146_097
    ensures Quot(doe - Quot(doe, 1460) + Quot(doe, 36524) - Quot(doe, 146_096), 365) == YearOfEra(doe)
  {
    QuotIsFloor(doe, 1460);
    QuotIsFloor(doe, 36524);
    QuotIsFloor(doe, 146_096);
    QuotIsFloor(doe - doe / 1460 + doe / 36524 - doe / 146_096, 365);
  }

  lemma YearStartUnfolded(yoe: int)
    requires yoe >= 0
    ensures 365 * yoe + Quot(yoe, 4) - Quot(yoe, 100) == YearStart(yoe)
  {
    QuotIsFloor(yoe, 4);
    QuotIsFloor(yoe, 100);
  }

  lemma MonthUnfolded(doy: int)
    requires doy >= 0
    ensures var mp := (5 * doy + 2) / 153;
            Quot(5 * doy + 2, 153) == mp && Quot(153 * mp + 2, 5) == (153 * mp + 2) / 5
  {
    QuotIsFloor(5 * doy + 2, 153);
    QuotIsFloor(153 * ((5 * doy + 2) / 153) + 2, 5);
  }

  lemma EraUnfolded(z: int, era: int, doe: int)
    requires 0 <= doe < 146_097 && z == era * 146_097 + doe
    ensures Quot(if z >= 0 then z else z - 146_096, 146_097) == era
  {
    EraIsFloor(z);
  }

  /** On the non-negative numbers after the first line every truncating `/` is a floor. */
  lemma FormulaUnfolded(days: int, era: int, doe: int, yoe: int)
    requires 0 <= doe < 146_097 && days + 719_468 == era * 146_097 + doe
    requires yoe == YearOfEra(doe) && 0 <= yoe && YearStart(yoe) <= doe
    ensures CivilFromDays(days) == FromMarch(era * 400 + yoe, doe - YearStart(yoe))
  {
    hide Quot, YearOfEra, YearStart;
    EraUnfolded(days + 719_468, era, doe);
    YearUnfolded(doe);
    YearStartUnfolded(yoe);
    MonthUnfolded(doe - YearStart(yoe));
  }

  lemma FormulaAtEpoch()
    ensures CivilFromDays(0) == EPOCH
  {
    hide CivilFromDays;
    FormulaUnfolded(0, 4, 135_080, 369);
  }

  lemma FallsSomewhere(days: int) returns (era: int, yoe: int, doy: int)
    ensures Falls(days, era, yoe, doy)
    ensures CivilFromDays(days) == FromMarch(era * 400 + yoe, doy)
  {
    hide CivilFromDays, FromMarch;
    var z := days + 719_468;
    era := z / 146_097;
    var doe := z - era * 146_097;
    YearOfEraCorrect(doe);
    yoe := YearOfEra(doe);
    doy := doe - YearStart(yoe);
    YearStartStep(yoe, era);
    FormulaUnfolded(days, era, doe, yoe);
  }

  lemma FallsOnce(days: int, era: int, yoe: int, doy: int, era': int, yoe': int, doy': int)
    requires Falls(days, era, yoe, doy) && Falls(days, era', yoe', doy')
    ensures era == era' && yoe == yoe' && doy == doy'
  {
    YearStartStep(yoe, era);
    YearStartStep(yoe', era');
    assert era == (days + 719_468) / 146_097 == era';
  }

  lemma FormulaAt(days: int, era: int, yoe: int, doy: int)
    requires Falls(days, era, yoe, doy)
    ensures CivilFromDays(days) == FromMarch(era * 400 + yoe, doy)
  {
    var e, y, d := FallsSomewhere(days);
    FallsOnce(days, era, yoe, doy, e, y, d);
  }

  /** Within a March year the formula's month and day run through the calendar's table. */
  lemma MarchSuccessor(y: int, doy: int)
    requires 0 <= doy < MarchYearLength(y)
    ensures Valid(FromMarch(y, doy))
    ensures doy + 1 < MarchYearLength(y) ==> FromMarch(y, doy + 1) == NextDay(FromMarch(y, doy))
    ensures doy + 1 == MarchYearLength(y) ==> FromMarch(y + 1, 0) == NextDay(FromMarch(y, doy))
  {
  }

  /** The formula gives a date that exists, and day `days + 1` is the day after day `days`. */
  lemma FormulaSuccessor(days: int)
    ensures Valid(CivilFromDays(days))
    ensures CivilFromDays(days + 1) == NextDay(CivilFromDays(days))
  {
    hide CivilFromDays, FromMarch;
    var era, yoe, doy := FallsSomewhere(days);
    var y := era * 400 + yoe;
    MarchSuccessor(y, doy);
    YearStartStep(yoe, era);
    if doy + 1 < MarchYearLength(y) {
      FormulaAt(days + 1, era, yoe, doy + 1);
    } else if yoe < 399 {
      FormulaAt(days + 1, era, yoe + 1, 0);
    } else {
      FormulaAt(days + 1, era + 1, 0, 0);
    }
  }

  lemma PreviousUndoesNext(d: Date)
    requires Valid(d)
    ensures Valid(NextDay(d)) && PreviousDay(NextDay(d)) == d
  {
  }

  /** For every day number the closed form is the date reached by walking that many days. */
  lemma {:induction false} FormulaIsWalk(days: int)
    ensures CivilFromDays(days) == Walk(days) && Valid(Walk(days))
    decreases if days < 0 then -days else days
  {
    hide CivilFromDays, FromMarch;
    FormulaAtEpoch();
    FormulaSuccessor(days);
    if days > 0 {
      FormulaIsWalk(days - 1);
      FormulaSuccessor(days - 1);
    } else if days < 0 {
      FormulaIsWalk(days + 1);
      PreviousUndoesNext(CivilFromDays(days));
    }
  }

  lemma {:induction false} WalkAscends(a: int, b: int)
    requires a < b
    ensures Before(CivilFromDays(a), CivilFromDays(b))
    decreases b - a
  {
    hide CivilFromDays, FromMarch;
    FormulaSuccessor(b - 1);
    if a < b - 1 { WalkAscends(a, b - 1); }
  }

  // ---- counting days the other way ----

  function YearLength(y: int): int {
    if IsLeap(y) then 366 else 365
  }

  /** Days from 1970-01-01 to 1 January of year `y`. */
  function DaysBeforeYear(y: int): int
    decreases if y < 1970 then 1970 - y else y - 1970
  {
    if y == 1970 then 0
    else if y > 1970 then DaysBeforeYear(y - 1) + YearLength(y - 1)
    else DaysBeforeYear(y + 1) - YearLength(y)
  }

  function DaysBeforeMonth(y: int, m: int): int {
    if m <= 1 then 0 else DaysBeforeMonth(y, m - 1) + DaysInMonth(y, m - 1)
  }

  function DayNumber(d: Date): int {
    DaysBeforeYear(d.year) + DaysBeforeMonth(d.year, d.month) + d.day - 1
  }

  lemma MonthsFillYear(y: int)
    ensures DaysBeforeMonth(y, 12) + DaysInMonth(y, 12) == YearLength(y)
  {
    assert DaysBeforeMonth(y, 2) == 31;
    assert DaysBeforeMonth(y, 3) == 31 + DaysInMonth(y, 2);
    assert DaysBeforeMonth(y, 5) == DaysBeforeMonth(y, 3) + 61;
    assert DaysBeforeMonth(y, 7) == DaysBeforeMonth(y, 5) + 61;
    assert DaysBeforeMonth(y, 9) == DaysBeforeMonth(y, 7) + 62;
    assert DaysBeforeMonth(y, 11) == DaysBeforeMonth(y, 9) + 61;
  }

  lemma DayNumberSuccessor(d: Date)
    requires Valid(d)
    ensures DayNumber(NextDay(d)) == DayNumber(d) + 1
  {
    hide DaysBeforeYear, DaysBeforeMonth, DaysInMonth, YearLength, IsLeap;
    if d.day == DaysInMonth(d.year, d.month) {
      if d.month < 12 {
        MonthStep(d.year, d.month);
      } else {
        MonthsFillYear(d.year);
        YearStep(d.year);
      }
    }
  }

  lemma MonthStep(y: int, m: int)
    requires 1 <= m
    ensures DaysBeforeMonth(y, m + 1) == DaysBeforeMonth(y, m) + DaysInMonth(y, m)
  {
  }

  lemma YearStep(y: int)
    ensures DaysBeforeYear(y + 1) == DaysBeforeYear(y) + YearLength(y)
    ensures DaysBeforeMonth(y + 1, 1) == 0
  {
  }

  lemma {:induction false} DayNumberOfWalk(days: int)
    ensures DayNumber(CivilFromDays(days)) == days
    decreases if days < 0 then -days else days
  {
    hide CivilFromDays, FromMarch;
    FormulaAtEpoch();
    if days > 0 {
      DayNumberOfWalk(days - 1);
      FormulaSuccessor(days - 1);
      DayNumberSuccessor(CivilFromDays(days - 1));
    } else if days < 0 {
      DayNumberOfWalk(days + 1);
      FormulaSuccessor(days);
      DayNumberSuccessor(CivilFromDays(days));
    }
  }

  lemma {:induction false} YearsAscend(a: int, b: int)
    requires a < b
    ensures DaysBeforeYear(a) + YearLength(a) <= DaysBeforeYear(b)
    decreases b - a
  {
    if a < b - 1 { YearsAscend(a, b - 1); }
  }

  lemma {:induction false} MonthsAscend(y: int, a: int, b: int)
    requires 1 <= a < b
    ensures DaysBeforeMonth(y, a) + DaysInMonth(y, a) <= DaysBeforeMonth(y, b)
    decreases b - a
  {
    if a < b - 1 { MonthsAscend(y, a, b - 1); }
  }

  lemma DayNumberAscends(a: Date, b: Date)
    requires Valid(a) && Valid(b) && Before(a, b)
    ensures DayNumber(a) < DayNumber(b)
  {
    MonthsFillYear(a.year);
    if a.year < b.year {
      YearsAscend(a.year, b.year);
      if a.month < 12 { MonthsAscend(a.year, a.month, 12); }
      if b.month > 1 { MonthsAscend(b.year, 1, b.month); }
    } else if a.month < b.month {
      MonthsAscend(a.year, a.month, b.month);
    }
  }

  /** Every date of the calendar is the image of exactly one day number. */
  lemma FormulaReachesEveryDate(d: Date)
    requires Valid(d)
    ensures CivilFromDays(DayNumber(d)) == d
    ensures forall days :: CivilFromDays(days) == d ==> days == DayNumber(d)
  {
    hide CivilFromDays, FromMarch, DayNumber;
    var e := CivilFromDays(DayNumber(d));
    DayNumberOfWalk(DayNumber(d));
    FormulaSuccessor(DayNumber(d));
    if Before(d, e) { DayNumberAscends(d, e); }
    if Before(e, d) { DayNumberAscends(e, d); }
    forall days | CivilFromDays(days) == d ensures days == DayNumber(d) { DayNumberOfWalk(days); }
  }
}

/** The printed form of a record timestamp, `YYYY-MM-DDTHH:MM:SS.mmmZ`. */
module Iso {
  import opened Outcomes
  import opened Text
  import opened Decimals
  import opened Civil

  /** The fields of the format string with their widths and the text after each. */
  const WIDTHS: seq<nat> := [4, 2, 2, 2, 2, 2, 3]
  const AFTER: seq<char> := ['-', '-', 'T', ':', ':', '.', 'Z']

  function PrintFields(fields: seq<nat>, widths: seq<nat>, after: seq<char>): string
    requires |fields| == |widths| == |after|
  {
    if fields == [] then ""
    else Padded(fields[0], widths[0]) + ([after[0]] + PrintFields(fields[1..], widths[1..], after[1..]))
  }

  /** Year, month, day, hour, minute, second and millisecond of a time after the epoch. */
  function Fields(ms: nat): (f: seq<int>)
    ensures |f| == 7
  {
    var totalSecs := ms / 1000;
    var secsOfDay := totalSecs % 86_400;
    var d := CivilFromDays(totalSecs / 86_400);
    [d.year, d.month, d.day, secsOfDay / 3600, secsOfDay % 3600 / 60, secsOfDay % 60, ms % 1000]
  }

  ghost predicate AllFit(fields: seq<int>, widths: seq<nat>) {
    && |fields| == |widths|
    && forall i :: 0 <= i < |fields| ==> 0 <= fields[i] < Power10(widths[i])
  }

  /** The years after the epoch are positive, so every field is a natural number. */
  lemma FieldsNatural(ms: nat)
    ensures forall i :: 0 <= i < 7 ==> Fields(ms)[i] >= 0
    ensures Fields(ms)[0] >= 1970
    ensures AllFit(Fields(ms)[1..], WIDTHS[1..])
  {
    hide CivilFromDays;
    var days := ms / 1000 / 86_400;
    FormulaAtEpoch();
    FormulaSuccessor(days);
    if days > 0 { WalkAscends(0, days); }
    assert Power10(2) == 100 && Power10(3) == 1000;
  }

  function IsoFromUnixMs(ms: nat): string {
    FieldsNatural(ms);
    PrintFields(Fields(ms), WIDTHS, AFTER)
  }

  // ---- reading a timestamp back ----

  function ReadFields(s: string, widths: seq<nat>, after: seq<char>): Option<seq<nat>>
    requires |widths| == |after|
  {
    if widths == [] then (if s == "" then Some([]) else None)
    else
      var w := widths[0];
      if |s| <= w || s[w] != after[0] then None
      else
        match (ReadNat(s[..w]), ReadFields(s[w + 1..], widths[1..], after[1..]))
        case (Some(n), Some(rest)) => Some([n] + rest)
        case _ => None
  }

  /** Milliseconds since the epoch of a text in the printed form. */
  function ReadIso(s: string): Option<int> {
    match ReadFields(s, WIDTHS, AFTER)
    case Some(f) =>
      if |f| == 7 && Valid(Date(f[0], f[1], f[2])) && f[3] < 24 && f[4] < 60 && f[5] < 60 then
        var day := DayNumber(Date(f[0], f[1], f[2]));
        Some((((day * 24 + f[3]) * 60 + f[4]) * 60 + f[5]) * 1000 + f[6])
      else None
    case None => None
  }

  /** The day and the clock reading that `Fields` prints, as one linear equation. */
  lemma Clock(ms: nat) returns (days: nat, hh: nat, mm: nat, ss: nat, milli: nat)
    ensures Fields(ms) == [CivilFromDays(days).year, CivilFromDays(days).month, CivilFromDays(days).day, hh, mm, ss, milli]
    ensures hh < 24 && mm < 60 && ss < 60 && milli < 1000
    ensures ms == (((days * 24 + hh) * 60 + mm) * 60 + ss) * 1000 + milli
  {
    hide CivilFromDays;
    var secs := ms / 1000;
    days, milli := secs / 86_400, ms % 1000;
    hh, mm, ss := secs % 86_400 / 3600, secs % 86_400 % 3600 / 60, secs % 86_400 % 60;
    assert secs % 86_400 % 60 == secs % 86_400 % 3600 % 60;
  }

  // ---- properties ----

  lemma {:induction false} ReadPrinted(fields: seq<nat>, widths: seq<nat>, after: seq<char>)
    requires AllFit(fields, widths) && |widths| == |after|
    requires forall i :: 0 <= i < |widths| ==> widths[i] > 0
    ensures ReadFields(PrintFields(fields, widths, after), widths, after) == Some(fields)
    ensures forall s :: ReadFields(s, widths, after).Some? ==> |ReadFields(s, widths, after).value| == |widths|
  {
    if fields != [] {
      ReadPrinted(fields[1..], widths[1..], after[1..]);
      var head, rest := Padded(fields[0], widths[0]), PrintFields(fields[1..], widths[1..], after[1..]);
      PaddedLength(fields[0], widths[0]);
      ReadPadded(fields[0], widths[0]);
      var s := head + ([after[0]] + rest);
      assert s[..widths[0]] == head && s[widths[0] + 1..] == rest;
      assert fields == [fields[0]] + fields[1..];
    }
  }

  /** A printed timestamp has 24 characters exactly up to the end of year 9999. */
  lemma IsoLength(ms: nat)
    ensures |IsoFromUnixMs(ms)| == 24 <==> ms < 253_402_300_800_000
  {
    hide CivilFromDays;
    FieldsNatural(ms);
    var f := Fields(ms);
    YearFits(ms);
    PaddedLength(f[0], 4);
    TailLength(f[1..], WIDTHS[1..], AFTER[1..]);
    assert Sum(WIDTHS[1..]) == 13 by {
      assert WIDTHS[1..] == [2, 2, 2, 2, 2, 3] && WIDTHS[1..][1..] == [2, 2, 2, 2, 3];
      assert WIDTHS[1..][1..][1..] == [2, 2, 2, 3] && WIDTHS[1..][1..][1..][1..] == [2, 2, 3];
      assert [2, 2, 3][1..] == [2, 3] && [2, 3][1..] == [3];
      assert Sum([2, 2, 3]) == 7;
      assert Sum([2, 2, 2, 2, 3]) == 11;
    }
  }

  /** Each two- or three-digit field takes exactly its width. */
  lemma {:induction false} TailLength(fields: seq<nat>, widths: seq<nat>, after: seq<char>)
    requires AllFit(fields, widths) && |widths| == |after|
    requires forall i :: 0 <= i < |widths| ==> widths[i] > 0
    ensures |PrintFields(fields, widths, after)| == Sum(widths) + |widths|
  {
    if fields != [] {
      PaddedLength(fields[0], widths[0]);
      TailLength(fields[1..], widths[1..], after[1..]);
    }
  }

  function Sum(widths: seq<nat>): nat {
    if widths == [] then 0 else widths[0] + Sum(widths[1..])
  }

  lemma YearFits(ms: nat)
    ensures Fields(ms)[0] < Power10(4) <==> ms < 253_402_300_800_000
  {
    var days := ms / 1000 / 86_400;
    LastDayOf9999();
    assert days < 2_932_897 <==> ms < 253_402_300_800_000;
    hide CivilFromDays;
    if days < 2_932_896 { WalkAscends(days, 2_932_896); }
    if days > 2_932_897 { WalkAscends(2_932_897, days); }
    assert Power10(4) == 10_000;
  }

  lemma LastDayOf9999()
    ensures CivilFromDays(2_932_896) == Date(9999, 12, 31)
    ensures CivilFromDays(2_932_897) == Date(10_000, 1, 1)
  {
    hide CivilFromDays;
    FormulaUnfolded(2_932_896, 24, 146_036, 399);
    FormulaUnfolded(2_932_897, 24, 146_037, 399);
  }

  lemma FieldsFit(ms: nat)
    requires ms < 253_402_300_800_000
    ensures AllFit(Fields(ms), WIDTHS)
  {
    hide CivilFromDays;
    FieldsNatural(ms);
    YearFits(ms);
    var f := Fields(ms);
    assert f == [f[0]] + f[1..] && WIDTHS == [4] + WIDTHS[1..];
  }

  /** Reading a printed timestamp gives back exactly the millisecond that was printed. */
  lemma IsoReadsBack(ms: nat)
    requires ms < 253_402_300_800_000
    ensures ReadIso(IsoFromUnixMs(ms)) == Some(ms)
  {
    hide CivilFromDays, DayNumber;
    var f := Fields(ms);
    FieldsFit(ms);
    ReadPrinted(f, WIDTHS, AFTER);
    var days, hh, mm, ss, milli := Clock(ms);
    hide Fields;
    FormulaSuccessor(days);
    DayNumberOfWalk(days);
  }

  /** The first field in which two rows of fields differ decides their text order. */
  lemma {:induction false} PrintedOrder(a: seq<nat>, b: seq<nat>, widths: seq<nat>, after: seq<char>, k: nat)
    requires AllFit(a, widths) && AllFit(b, widths) && |widths| == |after|
    requires forall i :: 0 <= i < |widths| ==> widths[i] > 0
    requires k < |a| && a[..k] == b[..k] && a[k] < b[k]
    ensures Less(PrintFields(a, widths, after), PrintFields(b, widths, after))
  {
    var x := [after[0]] + PrintFields(a[1..], widths[1..], after[1..]);
    var y := [after[0]] + PrintFields(b[1..], widths[1..], after[1..]);
    PaddedLength(a[0], widths[0]);
    PaddedLength(b[0], widths[0]);
    LessConcat(Padded(a[0], widths[0]), Padded(b[0], widths[0]), x, y);
    if k == 0 {
      PaddedOrder(a[0], b[0], widths[0]);
    } else {
      assert a[0] == a[..k][0] == b[..k][0] == b[0];
      assert a[1..][..k - 1] == a[..k][1..] && b[1..][..k - 1] == b[..k][1..];
      PrintedOrder(a[1..], b[1..], widths[1..], after[1..], k - 1);
      LessConcat([after[0]], [after[0]], x[1..], y[1..]);
    }
  }

  lemma {:induction false} PaddedOrder(m: nat, n: nat, width: nat)
    requires m < n < Power10(width)
    ensures Less(Padded(m, width), Padded(n, width))
    decreases width
  {
    PaddedLength(m / 10, width - 1);
    PaddedLength(n / 10, width - 1);
    LessConcat(Padded(m / 10, width - 1), Padded(n / 10, width - 1), [Digit(m % 10)], [Digit(n % 10)]);
    if m / 10 < n / 10 { PaddedOrder(m / 10, n / 10, width - 1); }
  }

  /** Text order is time order. */
  lemma IsoOrder(a: nat, b: nat)
    requires a < 253_402_300_800_000 && b < 253_402_300_800_000
    ensures a < b <==> Less(IsoFromUnixMs(a), IsoFromUnixMs(b))
  {
    hide IsoFromUnixMs, Leq;
    if a < b {
      IsoAscends(a, b);
    } else if b < a {
      IsoAscends(b, a);
      if Leq(IsoFromUnixMs(a), IsoFromUnixMs(b)) { LeqAntisymmetric(IsoFromUnixMs(a), IsoFromUnixMs(b)); }
    }
  }

  lemma IsoAscends(a: nat, b: nat)
    requires a < b < 253_402_300_800_000
    ensures Less(IsoFromUnixMs(a), IsoFromUnixMs(b))
  {
    hide CivilFromDays, Fields, PrintFields;
    FieldsFit(a);
    FieldsFit(b);
    var k := FirstDifference(a, b);
    PrintedOrder(Fields(a), Fields(b), WIDTHS, AFTER, k);
  }

  lemma FirstDifference(a: nat, b: nat) returns (k: nat)
    requires a < b
    ensures k < 7 && Fields(a)[..k] == Fields(b)[..k] && Fields(a)[k] < Fields(b)[k]
  {
    hide CivilFromDays, Fields;
    var da, ha, ma, sa, ua := Clock(a);
    var db, hb, mb, sb, ub := Clock(b);
    if da < db { WalkAscends(da, db); }
    var f, g := Fields(a), Fields(b);
    k := if f[0] != g[0] then 0 else if f[1] != g[1] then 1 else if f[2] != g[2] then 2
         else if f[3] != g[3] then 3 else if f[4] != g[4] then 4 else if f[5] != g[5] then 5 else 6;
  }

  /** Where the fields and the marks between them stand in the printed text. */
  lemma PrintedPlaces(ms: nat)
    requires ms < 253_402_300_800_000
    ensures var s := IsoFromUnixMs(ms);
      && |s| == 24
      && s[4] == '-' && s[7] == '-' && s[10] == 'T' && s[13] == ':' && s[16] == ':' && s[19] == '.' && s[23] == 'Z'
      && var d := CivilFromDays(ms / 86_400_000);
         && ReadNat(s[..4]) == Some(d.year) && ReadNat(s[5..7]) == Some(d.month) && ReadNat(s[8..10]) == Some(d.day)
         && ReadNat(s[11..13]) == Some(ms / 3_600_000 % 24) && ReadNat(s[14..16]) == Some(ms / 60_000 % 60)
         && ReadNat(s[17..19]) == Some(ms / 1000 % 60) && ReadNat(s[20..23]) == Some(ms % 1000)
  {
    hide CivilFromDays, PrintFields;
    var f := Fields(ms);
    FieldsFit(ms);
    IsoLength(ms);
    FieldsAre(ms);
    hide Fields, IsoFromUnixMs;
    var s := IsoFromUnixMs(ms);
    assert s == PrintFields(f, WIDTHS, AFTER);
    PlacesOf(f, WIDTHS, AFTER, s);
  }

  lemma FieldsAre(ms: nat)
    ensures var d := CivilFromDays(ms / 86_400_000);
            Fields(ms) == [d.year, d.month, d.day, ms / 3_600_000 % 24, ms / 60_000 % 60, ms / 1000 % 60, ms % 1000]
  {
    hide CivilFromDays;
    var days, hh, mm, ss, milli := Clock(ms);
    assert days == ms / 86_400_000;
    assert hh == ms / 3_600_000 % 24 && mm == ms / 60_000 % 60 && ss == ms / 1000 % 60 && milli == ms % 1000 by {
      assert ms / 1000 == ((days * 24 + hh) * 60 + mm) * 60 + ss;
      assert ms / 60_000 == (days * 24 + hh) * 60 + mm;
      assert ms / 3_600_000 == days * 24 + hh;
    }
  }

  /** From index `at` on, the text is the printed fields from position `k` on. */
  predicate PrintedFrom(f: seq<nat>, w: seq<nat>, a: seq<char>, k: nat, at: nat, s: string)
    requires |f| == |w| == |a|
  {
    k <= |f| && at <= |s| && s[at..] == PrintFields(f[k..], w[k..], a[k..])
  }

  /** The field at position `k`, its mark, and what follows. */
  lemma FieldAt(f: seq<nat>, w: seq<nat>, a: seq<char>, k: nat, at: nat, s: string)
    requires |f| == |w| == |a| && k < |f| && AllFit(f, w) && PrintedFrom(f, w, a, k, at, s)
    ensures var to := at + w[k];
      to < |s| && ReadNat(s[at..to]) == Some(f[k]) && s[to] == a[k] && PrintedFrom(f, w, a, k + 1, to + 1, s)
  {
    var head, rest := Padded(f[k], w[k]), PrintFields(f[k + 1..], w[k + 1..], a[k + 1..]);
    PaddedLength(f[k], w[k]);
    ReadPadded(f[k], w[k]);
    assert f[k..][1..] == f[k + 1..] && w[k..][1..] == w[k + 1..] && a[k..][1..] == a[k + 1..];
    hide ReadNat, Padded, PrintFields;
    PrintFirst(f[k..], w[k..], a[k..]);
    Cut(s, at, head, a[k], rest);
  }

  lemma PrintFirst(f: seq<nat>, w: seq<nat>, a: seq<char>)
    requires |f| == |w| == |a| && f != []
    ensures PrintFields(f, w, a) == Padded(f[0], w[0]) + ([a[0]] + PrintFields(f[1..], w[1..], a[1..]))
  {
    hide Padded;
  }

  lemma Cut(s: string, at: nat, head: string, mark: char, rest: string)
    requires at <= |s| && s[at..] == head + ([mark] + rest)
    ensures var to := at + |head|;
            to < |s| && s[at..to] == head && s[to] == mark && s[to + 1..] == rest
  {
    var to := at + |head|;
    assert |s[at..]| == |head| + 1 + |rest|;
    assert s[at..to] == s[at..][..|head|] && s[to] == s[at..][|head|] && s[to + 1..] == s[at..][|head| + 1..];
  }

  lemma PlacesOf(f: seq<nat>, w: seq<nat>, a: seq<char>, s: string)
    requires |f| == |w| == |a| == 7 && AllFit(f, w) && s == PrintFields(f, w, a)
    requires w[0] == 4 && w[1] == w[2] == w[3] == w[4] == w[5] == 2 && w[6] == 3
    ensures |s| >= 24
    ensures s[4] == a[0] && s[7] == a[1] && s[10] == a[2] && s[13] == a[3] && s[16] == a[4] && s[19] == a[5] && s[23] == a[6]
    ensures ReadNat(s[..4]) == Some(f[0]) && ReadNat(s[5..7]) == Some(f[1]) && ReadNat(s[8..10]) == Some(f[2])
    ensures ReadNat(s[11..13]) == Some(f[3]) && ReadNat(s[14..16]) == Some(f[4]) && ReadNat(s[17..19]) == Some(f[5]) && ReadNat(s[20..23]) == Some(f[6])
  {
    assert s[0..] == s && f[0..] == f && w[0..] == w && a[0..] == a;
    assert PrintedFrom(f, w, a, 0, 0, s);
    hide ReadNat, PrintFields, AllFit, PrintedFrom;
    FieldAt(f, w, a, 0, 0, s);
    FieldAt(f, w, a, 1, 5, s);
    FieldAt(f, w, a, 2, 8, s);
    FieldAt(f, w, a, 3, 11, s);
    FieldAt(f, w, a, 4, 14, s);
    FieldAt(f, w, a, 5, 17, s);
    FieldAt(f, w, a, 6, 20, s);
    assert s[0..4] == s[..4];
  }
}
