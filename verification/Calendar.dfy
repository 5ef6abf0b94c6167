/** Timestamp arithmetic of src/input_freshness.rs: the closed-form day number
    against plain day counting under the Gregorian rules (sections 5.6 and 5.7
    of RFC 3339), and the round trip with the fixed timestamp form. */
module Calendar {
  import opened Types
  import opened Text

  // ---------- counting days one year and one month at a time ----------

  predicate IsLeap(y: int) {
    y % 4 == 0 && (y % 100 != 0 || y % 400 == 0)
  }

  function YearLength(y: int): int {
    if IsLeap(y) then 366 else 365
  }

  function MonthLength(y: int, m: int): int {
    if m == 2 then (if IsLeap(y) then 29 else 28)
    else if m in {4, 6, 9, 11} then 30
    else 31
  }

  /** Days from 1970-01-01 to the first day of year `y`, counted year by year. */
  function DaysBeforeYear(y: int): int
    decreases AbsDiff(y, 1970)
  {
    if y == 1970 then 0
    else if y > 1970 then DaysBeforeYear(y - 1) + YearLength(y - 1)
    else DaysBeforeYear(y + 1) - YearLength(y)
  }

  function DaysBeforeMonth(y: int, m: int): int
    requires 1 <= m
  {
    if m == 1 then 0 else DaysBeforeMonth(y, m - 1) + MonthLength(y, m - 1)
  }

  predicate ValidDate(y: int, m: int, d: int) {
    1 <= m <= 12 && 1 <= d <= MonthLength(y, m)
  }

  function DayNumber(y: int, m: int, d: int): int
    requires 1 <= m
  {
    DaysBeforeYear(y) + DaysBeforeMonth(y, m) + d - 1
  }

  // ---------- the closed form ----------

  /** Rust's `/`, truncating toward zero. */
  function RustDiv(a: int, b: int): int
    requires b > 0
  {
    if a >= 0 then a / b else -((-a) / b)
  }

  /** Days since 1970-01-01 as `parse_iso8601_utc_secs` computes them. */
  function DaysFromCivil(year: int, month: int, day: int): int {
    var y := if month <= 2 then year - 1 else year;
    var era := RustDiv(if y >= 0 then y else y - 399, 400);
    var yoe := y - era * 400;
    var doy := RustDiv(153 * (if month > 2 then month - 3 else month + 9) + 2, 5) + day - 1;
    var doe := yoe * 365 + RustDiv(yoe, 4) - RustDiv(yoe, 100) + doy;
    era * 146097 + doe - 719468
  }

  /** Days before March 1 of year `y`, up to the epoch offset, without eras. */
  function MarchDays(y: int): int {
    365 * y + y / 4 - y / 100 + y / 400
  }

  lemma EraIsFloor(y: int)
    ensures RustDiv(if y >= 0 then y else y - 399, 400) == y / 400
  {}

  /** Eras of 400 years regroup into one leap-day formula. */
  lemma ErasRegroup(y: int)
    ensures var era := y / 400; var yoe := y - era * 400;
      0 <= yoe < 400 && era * 146097 + yoe * 365 + yoe / 4 - yoe / 100 == MarchDays(y)
  {
    var era, yoe := y / 400, y % 400;
    assert y == 400 * era + yoe;
    assert y / 4 == 100 * era + yoe / 4;
    assert y / 100 == 4 * era + yoe / 100;
  }

  lemma DaysFromCivilByMarch(year: int, month: int, day: int)
    requires -9 <= month
    ensures var y := if month <= 2 then year - 1 else year;
      DaysFromCivil(year, month, day)
        == MarchDays(y) + (153 * (if month > 2 then month - 3 else month + 9) + 2) / 5 + day - 1 - 719468
  {
    var y := if month <= 2 then year - 1 else year;
    EraIsFloor(y);
    ErasRegroup(y);
  }

  lemma MarchYear(y: int)
    ensures MarchDays(y) - MarchDays(y - 1) == YearLength(y)
  {
    DivStep(y, 4);
    DivStep(y, 100);
    DivStep(y, 400);
    LeapRulesNest(y);
  }

  lemma LeapRulesNest(y: int)
    ensures y % 400 == 0 ==> y % 100 == 0
    ensures y % 100 == 0 ==> y % 4 == 0
  {
    if y % 400 == 0 { Multiple(4 * (y / 400), 100); }
    if y % 100 == 0 { Multiple(25 * (y / 100), 4); }
  }

  lemma Multiple(j: int, d: int)
    requires d == 4 || d == 100
    ensures (d * j) % d == 0
  {}

  lemma DivStep(y: int, k: int)
    requires k in {4, 100, 400}
    ensures y / k - (y - 1) / k == if y % k == 0 then 1 else 0
  {}

  lemma JanuaryFirst(y: int)
    ensures DaysFromCivil(y, 1, 1) == MarchDays(y - 1) + 306 - 719468
  {
    DaysFromCivilByMarch(y, 1, 1);
  }

  lemma {:induction false} YearsAgree(y: int)
    ensures DaysFromCivil(y, 1, 1) == DaysBeforeYear(y)
    decreases AbsDiff(y, 1970)
  {
    JanuaryFirst(y);
    if y == 1970 {
    } else if y > 1970 {
      YearsAgree(y - 1);
      JanuaryFirst(y - 1);
      MarchYear(y - 1);
    } else {
      YearsAgree(y + 1);
      JanuaryFirst(y + 1);
      MarchYear(y);
    }
  }

  lemma MonthsAgree(y: int, m: int)
    requires 1 <= m <= 12
    ensures DaysBeforeMonth(y, m) ==
      if m == 1 then 0 else if m == 2 then 31
      else (153 * (m - 3) + 2) / 5 + 59 + (if IsLeap(y) then 1 else 0)
  {
    if m == 1 {
    } else {
      MonthsAgree(y, m - 1);
    }
  }

  /** The closed form is the day count, for every Gregorian date and every other
      day number within a month of the year. */
  lemma ClosedFormCountsDays(y: int, m: int, d: int)
    requires 1 <= m <= 12
    ensures DaysFromCivil(y, m, d) == DayNumber(y, m, d)
  {
    YearsAgree(y);
    DaysFromCivilByMarch(y, 1, 1);
    DaysFromCivilByMarch(y, m, d);
    MonthsAgree(y, m);
    MarchYear(y);
  }

  // ---------- months and days out of range ----------

  /** The day number when months past December run on into the years around. */
  function RolledDay(y: int, m: int, d: int): int {
    DayNumber(y + (m - 1) / 12, (m - 1) % 12 + 1, 1) + d - 1
  }

  lemma {:induction false} MarchYearsBounded(y: int, k: nat)
    ensures MarchDays(y + k) - MarchDays(y) <= 366 * k
  {
    if k == 0 {
    } else {
      MarchYearsBounded(y, k - 1);
      MarchYear(y + k);
    }
  }

  /** Months down to March of the year before are counted right. */
  lemma EarlyMonthsRoll(y: int, m: int, d: int)
    requires -9 <= m <= 0
    ensures DaysFromCivil(y, m, d) == RolledDay(y, m, d)
  {
    assert (m - 1) / 12 == -1 && (m - 1) % 12 + 1 == m + 12;
    DaysFromCivilByMarch(y, m, d);
    DaysFromCivilByMarch(y - 1, m + 12, 1);
    ClosedFormCountsDays(y - 1, m + 12, 1);
  }

  /** So are January and February of the year after. */
  lemma LateWinterRolls(y: int, m: int, d: int)
    requires m == 13 || m == 14
    ensures DaysFromCivil(y, m, d) == RolledDay(y, m, d)
  {
    DaysFromCivilByMarch(y, m, d);
    DaysFromCivilByMarch(y + 1, m - 12, 1);
    ClosedFormCountsDays(y + 1, m - 12, 1);
  }

  /** From the next March on the closed form runs ahead: it counts 367 days to the year. */
  lemma LateMonthsOverrun(y: int, m: int, d: int)
    requires 15 <= m
    ensures DaysFromCivil(y, m, d) > RolledDay(y, m, d)
  {
    var k, r := (m - 3) / 12, (m - 3) % 12;
    RolledByMarch(y, m, k, r, d);
    DaysFromCivilByMarch(y, m, d);
    MarchYearsBounded(y, k);
    YearsOfMonths(k, r);
  }

  lemma YearsOfMonths(k: nat, r: nat)
    ensures (153 * (12 * k + r) + 2) / 5 >= 367 * k + (153 * r + 2) / 5
  {
    assert 153 * (12 * k + r) + 2 == 5 * (367 * k) + (153 * r + 2 + k);
  }

  lemma RolledByMarch(y: int, m: int, k: int, r: int, d: int)
    requires m - 3 == 12 * k + r && 0 <= r < 12
    ensures RolledDay(y, m, d) == MarchDays(y + k) + (153 * r + 2) / 5 + d - 1 - 719468
  {
    if r < 10 {
      assert (m - 1) / 12 == k && (m - 1) % 12 == r + 2;
      ClosedFormCountsDays(y + k, r + 3, 1);
      DaysFromCivilByMarch(y + k, r + 3, 1);
    } else {
      assert (m - 1) / 12 == k + 1 && (m - 1) % 12 == r - 10;
      ClosedFormCountsDays(y + k + 1, r - 9, 1);
      DaysFromCivilByMarch(y + k + 1, r - 9, 1);
    }
  }

  /** Whatever the day, the closed form counts a rolled-over date right exactly
      for month fields up to February of the year after. */
  lemma ClosedFormRollsIff(y: int, m: int, d: int)
    requires -9 <= m
    ensures DaysFromCivil(y, m, d) == RolledDay(y, m, d) <==> m <= 14
  {
    if m <= 0 {
      EarlyMonthsRoll(y, m, d);
    } else if m <= 12 {
      ClosedFormCountsDays(y, m, d);
    } else if m <= 14 {
      LateWinterRolls(y, m, d);
    } else {
      LateMonthsOverrun(y, m, d);
    }
  }

  // ---------- civil times ----------

  datatype Civil = Civil(year: int, month: int, day: int, hour: int, min: int, sec: int)

  predicate ValidCivil(c: Civil) {
    && ValidDate(c.year, c.month, c.day)
    && 0 <= c.hour < 24 && 0 <= c.min < 60 && 0 <= c.sec < 60
  }

  /** Unix seconds, by counting days. */
  function UnixSecs(c: Civil): int
    requires 1 <= c.month
  {
    DayNumber(c.year, c.month, c.day) * 86400 + c.hour * 3600 + c.min * 60 + c.sec
  }

  predicate Before(a: Civil, b: Civil) {
    || a.year < b.year
    || (a.year == b.year &&
        (|| a.month < b.month
         || (a.month == b.month &&
             (|| a.day < b.day
              || (a.day == b.day &&
                  (|| a.hour < b.hour
                   || (a.hour == b.hour && (a.min < b.min || (a.min == b.min && a.sec < b.sec)))))))))
  }

  lemma {:induction false} LaterYears(y: int, z: int)
    requires y < z
    ensures DaysBeforeYear(y) + YearLength(y) <= DaysBeforeYear(z)
    decreases z - y
  {
    assert DaysBeforeYear(y) + YearLength(y) == DaysBeforeYear(y + 1);
    if y + 1 == z {
    } else {
      LaterYears(y + 1, z);
    }
  }

  lemma {:induction false} LaterMonths(y: int, m: int, n: int)
    requires 1 <= m < n <= 13
    ensures DaysBeforeMonth(y, m) + MonthLength(y, m) <= DaysBeforeMonth(y, n)
    decreases n
  {
    if m + 1 == n {
    } else {
      LaterMonths(y, m, n - 1);
    }
  }

  lemma DaysInYear(y: int, m: int, d: int)
    requires ValidDate(y, m, d)
    ensures 0 <= DaysBeforeMonth(y, m) + d - 1 < YearLength(y)
  {
    MonthsAgree(y, m);
    MonthsAgree(y, 12);
    LaterMonths(y, m, 13);
    if m > 1 { LaterMonths(y, 1, m); }
  }

  lemma LaterDates(a: Civil, b: Civil)
    requires ValidCivil(a) && ValidCivil(b)
    requires a.year < b.year || (a.year == b.year && (a.month < b.month || (a.month == b.month && a.day < b.day)))
    ensures DayNumber(a.year, a.month, a.day) < DayNumber(b.year, b.month, b.day)
  {
    DaysInYear(a.year, a.month, a.day);
    DaysInYear(b.year, b.month, b.day);
    if a.year < b.year {
      LaterYears(a.year, b.year);
    } else if a.month < b.month {
      LaterMonths(a.year, a.month, b.month);
    }
  }

  lemma BeforeIsEarlier(a: Civil, b: Civil)
    requires ValidCivil(a) && ValidCivil(b) && Before(a, b)
    ensures UnixSecs(a) < UnixSecs(b)
  {
    if (a.year, a.month, a.day) != (b.year, b.month, b.day) {
      LaterDates(a, b);
    }
  }

  /** Seconds order civil times exactly as their fields do. */
  lemma SecondsOrderTimes(a: Civil, b: Civil)
    requires ValidCivil(a) && ValidCivil(b)
    ensures UnixSecs(a) < UnixSecs(b) <==> Before(a, b)
    ensures UnixSecs(a) == UnixSecs(b) <==> a == b
  {
    if Before(a, b) { BeforeIsEarlier(a, b); }
    if Before(b, a) { BeforeIsEarlier(b, a); }
  }

  // ---------- the civil time of a Unix second, by walking ----------

  /** The year and day-of-year reached `n` days after January 1 of `y`. */
  function WalkYears(y: int, n: nat): (r: (int, nat))
    ensures r.0 >= y && r.1 < YearLength(r.0)
    ensures DaysBeforeYear(r.0) + r.1 == DaysBeforeYear(y) + n
    decreases n
  {
    if n < YearLength(y) then (y, n)
    else
      assert DaysBeforeYear(y + 1) == DaysBeforeYear(y) + YearLength(y);
      WalkYears(y + 1, n - YearLength(y))
  }

  /** The month and day reached `n` days after the first of month `m`. */
  function WalkMonths(y: int, m: int, n: nat): (r: (int, int))
    requires 1 <= m <= 12 && n < YearLength(y) - DaysBeforeMonth(y, m)
    ensures ValidDate(y, r.0, r.1)
    ensures DaysBeforeMonth(y, r.0) + r.1 - 1 == DaysBeforeMonth(y, m) + n
    decreases 12 - m
  {
    if n < MonthLength(y, m) then (m, n + 1)
    else
      MonthsAgree(y, 12);
      WalkMonths(y, m + 1, n - MonthLength(y, m))
  }

  function CivilOf(t: nat): (c: Civil)
    ensures ValidCivil(c) && c.year >= 1970 && UnixSecs(c) == t
  {
    var (y, n) := WalkYears(1970, t / 86400);
    var (m, d) := WalkMonths(y, 1, n);
    var s := t % 86400;
    Civil(y, m, d, s / 3600, s / 60 % 60, s % 60)
  }

  // ---------- the timestamp text ----------

  /** `str::parse::<i64>` on at most four bytes: an optional sign, then digits. */
  function ParseI64(b: seq<Byte>): Option<int> {
    if |b| > 0 && b[0] == '-' as int then
      (var r := ParseDigits(b[1..]); if r.Some? then Some(-r.value) else None)
    else if |b| > 0 && b[0] == '+' as int then ParseDigits(b[1..])
    else ParseDigits(b)
  }

  function ParseDigits(b: seq<Byte>): Option<int> {
    if |b| == 0 then None
    else if !('0' as int <= b[|b|-1] <= '9' as int) then None
    else
      var d := b[|b|-1] - '0' as int;
      if |b| == 1 then Some(d)
      else
        var r := ParseDigits(b[..|b|-1]);
        if r.Some? then Some(r.value * 10 + d) else None
  }

  const MALFORMED := ContextRootMalformed("timestamp")

  /** `parse_iso8601_utc_secs`. Slicing inside a multi-byte character and parsing
      its bytes fail alike, so the fields are read as bytes. */
  function ParseIso8601(ts: string): Result<U64> {
    var b := Utf8(ts);
    if |b| < 19 then Err(MALFORMED)
    else
      var year, month, day := ParseI64(b[0..4]), ParseI64(b[5..7]), ParseI64(b[8..10]);
      var hour, min, sec := ParseI64(b[11..13]), ParseI64(b[14..16]), ParseI64(b[17..19]);
      if year.None? || month.None? || day.None? || hour.None? || min.None? || sec.None? then Err(MALFORMED)
      else
        var total := DaysFromCivil(year.value, month.value, day.value) * 86400
                     + hour.value * 3600 + min.value * 60 + sec.value;
        if 0 <= total < TWO_64 then Ok(total) else Err(MALFORMED)
  }

  // ---------- every text the parser accepts ----------

  /** The six fields of the text parse to the fields of `c`; nothing is asked of
      the separators, nor of what follows the nineteenth byte. */
  predicate ReadsAs(ts: string, c: Civil) {
    var b := Utf8(ts);
    && |b| >= 19
    && ParseI64(b[0..4]) == Some(c.year) && ParseI64(b[5..7]) == Some(c.month) && ParseI64(b[8..10]) == Some(c.day)
    && ParseI64(b[11..13]) == Some(c.hour) && ParseI64(b[14..16]) == Some(c.min) && ParseI64(b[17..19]) == Some(c.sec)
  }

  function ClosedFormSecs(c: Civil): int {
    DaysFromCivil(c.year, c.month, c.day) * 86400 + c.hour * 3600 + c.min * 60 + c.sec
  }

  function RolledSecs(c: Civil): int {
    RolledDay(c.year, c.month, c.day) * 86400 + c.hour * 3600 + c.min * 60 + c.sec
  }

  lemma {:induction false} DigitsBounded(b: seq<Byte>)
    requires ParseDigits(b).Some?
    ensures 0 <= ParseDigits(b).value < Pow10(|b|)
  {
    if |b| <= 1 {
      assert Pow10(1) == 10;
    } else {
      DigitsBounded(b[..|b|-1]);
    }
  }

  predicate AllDigits(b: seq<Byte>) {
    forall i :: 0 <= i < |b| ==> 48 <= b[i] <= 57
  }

  /** Exactly the nonempty runs of ASCII digits parse, in base ten. */
  lemma {:induction false} DigitsParseIff(b: seq<Byte>)
    ensures ParseDigits(b).Some? <==> |b| > 0 && AllDigits(b)
    ensures |b| == 1 && AllDigits(b) ==> ParseDigits(b) == Some(b[0] - 48)
    ensures |b| > 1 && AllDigits(b) ==>
      ParseDigits(b[..|b|-1]).Some? && ParseDigits(b) == Some(10 * ParseDigits(b[..|b|-1]).value + b[|b|-1] - 48)
  {
    if |b| == 0 {
    } else {
      var n := |b| - 1;
      DigitsParseIff(b[..n]);
      assert AllDigits(b) <==> AllDigits(b[..n]) && 48 <= b[n] <= 57;
    }
  }

  /** A field is digits, with at most one sign before them, and only a minus negates. */
  lemma UnsignedField(digits: seq<Byte>)
    requires AllDigits(digits)
    ensures ParseI64(digits) == ParseDigits(digits)
    ensures ParseDigits(digits).Some? <==> |digits| > 0
  {
    DigitsParseIff(digits);
    if |digits| > 0 {
      assert 48 <= digits[0];
    }
  }

  lemma SignedField(b: seq<Byte>)
    requires |b| > 0 && (b[0] == 0x2B || b[0] == 0x2D)
    ensures ParseI64(b).Some? <==> ParseDigits(b[1..]).Some?
    ensures ParseI64(b).Some? ==>
      ParseI64(b).value == if b[0] == 0x2D then -ParseDigits(b[1..]).value else ParseDigits(b[1..]).value
  {}

  /** Whatever starts with neither a sign nor a digit, or has another byte further on, is refused. */
  lemma FieldParsesIff(b: seq<Byte>)
    ensures ParseI64(b).Some? <==>
      || (|b| > 0 && AllDigits(b))
      || (|b| > 1 && (b[0] == 0x2B || b[0] == 0x2D) && AllDigits(b[1..]))
  {
    DigitsParseIff(b);
    if |b| > 0 {
      DigitsParseIff(b[1..]);
      if b[0] == 0x2B || b[0] == 0x2D {
        assert !AllDigits(b);
      }
    }
  }

  /** A signed field is shorter by its sign. */
  lemma FieldBounded(b: seq<Byte>)
    requires |b| > 0 && ParseI64(b).Some?
    ensures 0 - Pow10(|b| - 1) < ParseI64(b).value < Pow10(|b|)
  {
    if b[0] == '-' as int || b[0] == '+' as int {
      DigitsBounded(b[1..]);
    } else {
      DigitsBounded(b);
    }
  }

  lemma FieldsBounded(ts: string, c: Civil)
    requires ReadsAs(ts, c)
    ensures -999 <= c.year <= 9999 && -9 <= c.month <= 99 && -9 <= c.day <= 99
    ensures -9 <= c.hour <= 99 && -9 <= c.min <= 99 && -9 <= c.sec <= 99
  {
    var b := Utf8(ts);
    TenPowers();
    assert Pow10(1) == 10 && Pow10(3) == 1000;
    FieldBounded(b[0..4]);
    FieldBounded(b[5..7]);
    FieldBounded(b[8..10]);
    FieldBounded(b[11..13]);
    FieldBounded(b[14..16]);
    FieldBounded(b[17..19]);
  }

  lemma ClosedFormBounded(y: int, m: int, d: int)
    requires y <= 9999 && -9 <= m <= 99 && d <= 99
    ensures DaysFromCivil(y, m, d) < 4_000_000
  {
    DaysFromCivilByMarch(y, m, d);
  }

  lemma ReadTextParses(ts: string, c: Civil)
    requires ReadsAs(ts, c)
    ensures ParseIso8601(ts) == if ClosedFormSecs(c) >= 0 then Ok(ClosedFormSecs(c)) else Err(MALFORMED)
  {
    FieldsBounded(ts, c);
    ClosedFormBounded(c.year, c.month, c.day);
  }

  /** The accepted texts: all six fields parse and do not name a time before 1970. */
  lemma AcceptedIff(ts: string)
    ensures ParseIso8601(ts).Ok? <==> exists c :: ReadsAs(ts, c) && ClosedFormSecs(c) >= 0
  {
    if ParseIso8601(ts).Ok? {
      var b := Utf8(ts);
      var c := Civil(ParseI64(b[0..4]).value, ParseI64(b[5..7]).value, ParseI64(b[8..10]).value,
                     ParseI64(b[11..13]).value, ParseI64(b[14..16]).value, ParseI64(b[17..19]).value);
      assert ReadsAs(ts, c);
      ReadTextParses(ts, c);
    }
    forall c | ReadsAs(ts, c) && ClosedFormSecs(c) >= 0 ensures ParseIso8601(ts).Ok? {
      ReadTextParses(ts, c);
    }
  }

  /** What an accepted text is read as: its rolled-over instant exactly when the
      month field is at most 14, and an instant with these very fields exactly
      when they are a valid date and time. */
  lemma AcceptedTextMeans(ts: string, c: Civil)
    requires ReadsAs(ts, c) && ParseIso8601(ts).Ok?
    ensures ParseIso8601(ts).value == RolledSecs(c) <==> c.month <= 14
    ensures CivilOf(ParseIso8601(ts).value) == c <==> ValidCivil(c)
  {
    FieldsBounded(ts, c);
    ReadTextParses(ts, c);
    ClosedFormRollsIff(c.year, c.month, c.day);
    if ValidCivil(c) {
      ClosedFormCountsDays(c.year, c.month, c.day);
      SecondsOrderTimes(CivilOf(ParseIso8601(ts).value), c);
    }
  }

  /** `n` as `width` decimal digits. */
  function Padded(n: nat, width: nat): (r: string)
    ensures |r| == width && IsAscii(r)
  {
    if width == 0 then "" else Padded(n / 10, width - 1) + [Digit(n % 10)]
  }

  function Pow10(w: nat): nat {
    if w == 0 then 1 else 10 * Pow10(w - 1)
  }

  /** `Date.prototype.toISOString`: YYYY-MM-DDTHH:MM:SS.sssZ. */
  function IsoText(c: Civil, millis: nat): string
    requires ValidCivil(c) && 0 <= c.year < 10000
  {
    Padded(c.year, 4) + "-" + Padded(c.month, 2) + "-" + Padded(c.day, 2) + "T"
    + Padded(c.hour, 2) + ":" + Padded(c.min, 2) + ":" + Padded(c.sec, 2) + "." + Padded(millis, 3) + "Z"
  }

  lemma {:induction false} PaddedParses(n: nat, width: nat)
    requires 0 < width && n < Pow10(width)
    ensures ParseDigits(Codes(Padded(n, width))) == Some(n)
  {
    var b := Codes(Padded(n, width));
    assert b[width-1] == Digit(n % 10) as int;
    if width == 1 {
    } else {
      PaddedParses(n / 10, width - 1);
      assert b[..width-1] == Codes(Padded(n / 10, width - 1));
    }
  }

  lemma {:induction false} PaddedStartsWithDigit(n: nat, width: nat)
    requires 0 < width
    ensures IsDigit(Padded(n, width)[0])
  {
    if width == 1 {
    } else {
      PaddedStartsWithDigit(n / 10, width - 1);
    }
  }

  lemma PaddedField(n: nat, width: nat)
    requires 0 < width && n < Pow10(width)
    ensures ParseI64(Codes(Padded(n, width))) == Some(n)
  {
    PaddedParses(n, width);
    PaddedStartsWithDigit(n, width);
  }

  lemma FieldsOf(c: Civil, millis: nat)
    requires ValidCivil(c) && 0 <= c.year < 10000
    ensures var b := Codes(IsoText(c, millis));
      && |b| == 24 && IsAscii(IsoText(c, millis))
      && b[0..4] == Codes(Padded(c.year, 4))
      && b[5..7] == Codes(Padded(c.month, 2))
      && b[8..10] == Codes(Padded(c.day, 2))
      && b[11..13] == Codes(Padded(c.hour, 2))
      && b[14..16] == Codes(Padded(c.min, 2))
      && b[17..19] == Codes(Padded(c.sec, 2))
  {}

  /** Parsing the fixed form of a valid time returns its counted seconds, or
      rejects it when it lies before 1970. */
  lemma ParseReadsIsoText(c: Civil, millis: nat)
    requires ValidCivil(c) && 0 <= c.year < 10000
    ensures ParseIso8601(IsoText(c, millis)) == if c.year >= 1970 then Ok(UnixSecs(c)) else Err(MALFORMED)
  {
    FieldsParse(c, millis);
    ClosedFormCountsDays(c.year, c.month, c.day);
    FarEnough(c);
    SinceEpoch(c);
  }

  lemma FieldsParse(c: Civil, millis: nat)
    requires ValidCivil(c) && 0 <= c.year < 10000
    ensures var b := Utf8(IsoText(c, millis));
      && |b| == 24
      && ParseI64(b[0..4]) == Some(c.year) && ParseI64(b[5..7]) == Some(c.month) && ParseI64(b[8..10]) == Some(c.day)
      && ParseI64(b[11..13]) == Some(c.hour) && ParseI64(b[14..16]) == Some(c.min) && ParseI64(b[17..19]) == Some(c.sec)
  {
    FieldsOf(c, millis);
    AsciiBytes(IsoText(c, millis));
    TenPowers();
    PaddedField(c.year, 4);
    PaddedField(c.month, 2);
    PaddedField(c.day, 2);
    PaddedField(c.hour, 2);
    PaddedField(c.min, 2);
    PaddedField(c.sec, 2);
  }

  lemma TenPowers()
    ensures Pow10(2) == 100 && Pow10(4) == 10000
  {
    assert Pow10(2) == 100;
  }

  lemma MillenniumDays(y: int)
    requires y == 10000
    ensures DaysBeforeYear(y) == 2932897
  {
    YearsAgree(y);
    DaysFromCivilByMarch(y, 1, 1);
  }

  lemma FarEnough(c: Civil)
    requires ValidCivil(c) && c.year < 10000
    ensures UnixSecs(c) < 253402300800
  {
    var end := 10000;
    MillenniumDays(end);
    DaysInYear(c.year, c.month, c.day);
    LaterYears(c.year, end);
  }

  lemma SinceEpoch(c: Civil)
    requires ValidCivil(c)
    ensures UnixSecs(c) >= 0 <==> c.year >= 1970
  {
    DaysInYear(c.year, c.month, c.day);
    if c.year > 1970 { LaterYears(1970, c.year); }
    if c.year < 1970 { LaterYears(c.year, 1970); }
  }

  /** From 1970 on, parsed timestamps order exactly as the times they name. */
  lemma ParseOrdersTimestamps(a: Civil, b: Civil, m: nat, n: nat)
    requires ValidCivil(a) && ValidCivil(b) && 1970 <= a.year < 10000 && 1970 <= b.year < 10000
    ensures ParseIso8601(IsoText(a, m)).Ok? && ParseIso8601(IsoText(b, n)).Ok?
    ensures ParseIso8601(IsoText(a, m)).value < ParseIso8601(IsoText(b, n)).value <==> Before(a, b)
  {
    ParseReadsIsoText(a, m);
    ParseReadsIsoText(b, n);
    SecondsOrderTimes(a, b);
  }

  lemma LateYears(c: Civil)
    requires ValidCivil(c) && c.year >= 10000
    ensures UnixSecs(c) >= 253402300800
  {
    var end := 10000;
    MillenniumDays(end);
    DaysInYear(c.year, c.month, c.day);
    if c.year > end { LaterYears(end, c.year); }
  }

  /** Every Unix second through year 9999 survives the trip through its timestamp. */
  lemma TimestampRoundTrip(t: nat, millis: nat)
    requires t < 253402300800
    ensures CivilOf(t).year < 10000
    ensures ParseIso8601(IsoText(CivilOf(t), millis)) == Ok(t)
  {
    var c := CivilOf(t);
    if c.year >= 10000 {
      LateYears(c);
    } else {
      ParseReadsIsoText(c, millis);
    }
  }
}
