/** Day counts and Gregorian dates. Years here begin in March, so that the leap day comes last. */
module Calendar {
  import opened Bytes

  datatype Date = Date(year: int, month: nat, day: nat)

  // ---- the calendar itself ----

  predicate IsLeap(y: int) { y % 4 == 0 && (y % 100 != 0 || y % 400 == 0) }

  function MonthLength(y: int, m: nat): nat {
    if m == 2 then (if IsLeap(y) then 29 else 28) else if m == 4 || m == 6 || m == 9 || m == 11 then 30 else 31
  }

  predicate ValidDate(d: Date) { 1 <= d.month <= 12 && 1 <= d.day <= MonthLength(d.year, d.month) }

  function NextDay(d: Date): Date {
    if d.day < MonthLength(d.year, d.month) then d.(day := d.day + 1)
    else if d.month < 12 then Date(d.year, d.month + 1, 1)
    else Date(d.year + 1, 1, 1)
  }

  // ---- from a day count ----

  const ERA_DAYS := 146_097
  const EPOCH := 719_468

  function YearOfEra(doe: nat): nat
    requires doe < ERA_DAYS
  {
    (doe - doe / 1460 + doe / 36_524 - doe / 146_096) / 365
  }

  function DayOfYear(doe: nat, yoe: nat): int { doe - (365 * yoe + yoe / 4 - yoe / 100) }

  function MonthStart(mp: nat): nat { (153 * mp + 2) / 5 }

  /** The date at day `doe` of an era that starts on the first of March of year `first`. */
  function DateInEra(first: int, doe: nat): Date
    requires doe < ERA_DAYS
  {
    EraArithmetic(doe);
    var yoe := YearOfEra(doe);
    var y := yoe + first;
    var doy: nat := DayOfYear(doe, yoe);
    var mp: nat := (5 * doy + 2) / 153;
    var d: nat := doy - MonthStart(mp) + 1;
    var m: nat := if mp < 10 then mp + 3 else mp - 9;
    Date(if m <= 2 then y + 1 else y, m, d)
  }

  /** As the build script does it, for days since 1970 and without signs. */
  function DateFromDays(days: nat): Date {
    var z := days + EPOCH;
    var era := z / ERA_DAYS;
    var doe := z - era * ERA_DAYS;
    DateInEra(era * 400, doe)
  }

  function TruncatingDiv(a: int, b: nat): int
    requires b > 0
  {
    if a >= 0 then a / b else -((-a) / b)
  }

  predicate FitsI32(n: int) { -0x8000_0000 <= n < 0x8000_0000 }

  function AsI32(n: int): int {
    var m := n % 0x1_0000_0000;
    if m < 0x8000_0000 then m else m - 0x1_0000_0000
  }

  /** How a build treats a 32-bit addition that does not fit: it faults or it wraps. */
  datatype Build = Checked | Wrapping

  function AddI32(build: Build, a: int, b: int): Option<int> {
    if FitsI32(a + b) then Some(a + b) else if build.Checked? then None else Some(AsI32(a + b))
  }

  /** Where the survey's 64-bit arithmetic does not overflow. */
  predicate FitsI64(days: int) {
    -0x8000_0000_0000_0000 + 146_096 <= days + EPOCH < 0x8000_0000_0000_0000
  }

  /** The year as the survey adds it up in 32 bits: the first year of the era is cut to 32 bits, then the year of the
      era is added, then one more for January and February. `None` is a fault. */
  function YearI32(build: Build, first: int, yoe: nat, late: bool): Option<int> {
    match AddI32(build, yoe, AsI32(first))
    case None => None
    case Some(y) => if late then AddI32(build, y, 1) else Some(y)
  }

  /** As the survey does it, for a signed day count. */
  function CivilFromDays(build: Build, days: int): Option<Date>
    requires build.Checked? || FitsI64(days)
  {
    if !FitsI64(days) then None else
    var z := days + EPOCH;
    var era := TruncatingDiv(if z >= 0 then z else z - 146_096, ERA_DAYS);
    EraFloors(z);
    var doe := z - era * ERA_DAYS;
    var d := DateInEra(era * 400, doe);
    match YearI32(build, era * 400, YearOfEra(doe), d.month <= 2)
    case None => None
    case Some(y) => Some(d.(year := y))
  }

  lemma EraFloors(z: int)
    ensures TruncatingDiv(if z >= 0 then z else z - 146_096, ERA_DAYS) == z / ERA_DAYS
    ensures 0 <= z - (z / ERA_DAYS) * ERA_DAYS < ERA_DAYS
  {
  }

  // ---- years in an era ----

  /** Days before year `k` of an era. */
  function DaysBefore(k: nat): nat { 365 * k + k / 4 - k / 100 + k / 400 }

  /** Century `c`, four-year cycle `q` and day `t` of that cycle pin down the year. */
  lemma YearFromCycles(c: nat, q: nat, t: nat)
    requires c < 4 && q < 25 && t < 1461 && (q == 24 ==> t < 1460)
    ensures 36_524 * c + 1461 * q + t < ERA_DAYS - 1
    ensures YearOfEra(36_524 * c + 1461 * q + t) == 100 * c + 4 * q + (if t == 1460 then 3 else t / 365)
  {
    var doe := 36_524 * c + 1461 * q + t;
    var e := if 24 * c + q + t >= 1460 then 1 else 0;
    assert doe / 36_524 == c;
    assert doe / 146_096 == 0;
    assert doe == 1460 * (25 * c + q + e) + (24 * c + q + t - 1460 * e);
    assert doe / 1460 == 25 * c + q + e;
    assert doe - doe / 1460 + doe / 36_524 - doe / 146_096 == 365 * (100 * c + 4 * q) + (t - e);
  }

  lemma DaysBeforeCycles(c: nat, q: nat, j: nat)
    requires c < 4 && q < 25 && j < 4
    ensures DaysBefore(100 * c + 4 * q + j) == 36_524 * c + 1461 * q + 365 * j
  {
    var k := 100 * c + 4 * q + j;
    assert k / 4 == 25 * c + q && k / 100 == c && k / 400 == 0;
  }

  lemma SpanOfCycles(c: nat, q: nat, t: nat)
    requires c < 4 && q < 25 && t < 1461 && (q == 24 ==> t < 1460)
    ensures var k := 100 * c + 4 * q + (if t == 1460 then 3 else t / 365);
      DaysBefore(k) <= 36_524 * c + 1461 * q + t < DaysBefore(k + 1)
  {
    var j := if t == 1460 then 3 else t / 365;
    DaysBeforeCycles(c, q, j);
    if j < 3 {
      DaysBeforeCycles(c, q, j + 1);
    } else if q < 24 {
      DaysBeforeCycles(c, q + 1, 0);
    } else if c < 3 {
      DaysBeforeCycles(c + 1, 0, 0);
    }
  }

  lemma LastDayOfEra()
    ensures YearOfEra(ERA_DAYS - 1) == 399 && DaysBefore(399) < ERA_DAYS == DaysBefore(400)
  {
  }

  /** The closed-form year is the one whose days include `doe`. */
  lemma YearOfEraRight(doe: nat)
    requires doe < ERA_DAYS
    ensures var k := YearOfEra(doe); k < 400 && DaysBefore(k) <= doe < DaysBefore(k + 1)
  {
    hide YearOfEra;
    hide DaysBefore;
    if doe == ERA_DAYS - 1 {
      LastDayOfEra();
    } else {
      var c := doe / 36_524;
      var r := doe % 36_524;
      var q, t := r / 1461, r % 1461;
      assert doe == 36_524 * c + 1461 * q + t && c < 4 && q < 25 && (q == 24 ==> t < 1460);
      YearFromCycles(c, q, t);
      SpanOfCycles(c, q, t);
    }
  }

  /** No subtraction of the day-count arithmetic goes below zero, and month and day come out in range. */
  lemma EraArithmetic(doe: nat)
    requires doe < ERA_DAYS
    ensures var yoe := YearOfEra(doe); var doy := DayOfYear(doe, yoe);
      && yoe < 400 && 0 <= doy <= 365 && doe - DaysBefore(yoe) == doy
      && var mp := (5 * doy + 2) / 153;
      mp <= 11 && MonthStart(mp) <= doy < MonthStart(mp + 1)
  {
    hide YearOfEra;
    YearOfEraRight(doe);
    var k := YearOfEra(doe);
    YearSpan(k, doe);
    hide DaysBefore;
    hide DayOfYear;
    MonthOfDay(DayOfYear(doe, k));
  }

  lemma YearSpan(k: nat, doe: nat)
    requires k < 400 && DaysBefore(k) <= doe < DaysBefore(k + 1)
    ensures 0 <= DayOfYear(doe, k) <= 365 && doe - DaysBefore(k) == DayOfYear(doe, k)
  {
    assert (k + 1) / 4 <= k / 4 + 1 && (k + 1) / 100 >= k / 100;
    assert k == 399 ==> (k + 1) / 4 == k / 4 + 1 && (k + 1) / 100 == k / 100 + 1;
  }

  lemma MonthOfDay(doy: nat)
    requires doy <= 365
    ensures var mp := (5 * doy + 2) / 153; mp <= 11 && MonthStart(mp) <= doy < MonthStart(mp + 1)
  {
  }

  // ---- back to a day count ----

  function MonthIndex(m: nat): nat
    requires 1 <= m <= 12
  {
    if m >= 3 then m - 3 else m + 9
  }

  function DaysFromDate(d: Date): int
    requires ValidDate(d)
  {
    var y := if d.month <= 2 then d.year - 1 else d.year;
    (y / 400) * ERA_DAYS + DaysBefore(y % 400) + MonthStart(MonthIndex(d.month)) + d.day - 1 - EPOCH
  }

  function Era(days: int): int { (days + EPOCH) / ERA_DAYS }

  function DayOfEra(days: int): (doe: nat)
    ensures doe < ERA_DAYS
  {
    EraFloors(days + EPOCH);
    days + EPOCH - Era(days) * ERA_DAYS
  }

  /** A whole count of days, in the signed form and before the year is cut to 32 bits. */
  function DateOf(days: int): Date { DateInEra(Era(days) * 400, DayOfEra(days)) }

  lemma LeapYearLength(k: nat)
    requires k < 400
    ensures DaysBefore(k + 1) - DaysBefore(k) == if IsLeap(k + 1) then 366 else 365
  {
    OneMore4(k);
    OneMore100(k);
    assert k == 399 <==> (k + 1) % 400 == 0;
    assert (k + 1) / 400 - k / 400 == if k == 399 then 1 else 0;
  }

  lemma OneMore4(k: nat)
    ensures (k + 1) / 4 - k / 4 == if (k + 1) % 4 == 0 then 1 else 0
  {
  }

  lemma OneMore100(k: nat)
    ensures (k + 1) / 100 - k / 100 == if (k + 1) % 100 == 0 then 1 else 0
  {
  }

  /** The leap-year rule repeats every 400 years. */
  lemma LeapAcrossEras(era: int, yoe: nat)
    requires yoe < 400
    ensures var y := yoe + era * 400;
      y / 400 == era && y % 400 == yoe && (IsLeap(y + 1) <==> IsLeap(yoe + 1))
  {
    SameMod4(yoe + 1, era);
    SameMod100(yoe + 1, era);
    SameMod400(yoe + 1, era);
    SameMod400(yoe, era);
  }

  lemma SameMod4(x: int, era: int)
    ensures (x + era * 400) % 4 == x % 4
  {
    Mod4Is(x + era * 400, x / 4 + 100 * era, x % 4);
  }

  lemma Mod4Is(n: int, p: int, r: int)
    requires n == 4 * p + r && 0 <= r < 4
    ensures n % 4 == r
  {
  }

  lemma SameMod100(x: int, era: int)
    ensures (x + era * 400) % 100 == x % 100
  {
    Mod100Is(x + era * 400, x / 100 + 4 * era, x % 100);
  }

  lemma Mod100Is(n: int, p: int, r: int)
    requires n == 100 * p + r && 0 <= r < 100
    ensures n % 100 == r
  {
  }

  lemma SameMod400(x: int, era: int)
    ensures (x + era * 400) % 400 == x % 400 && (x + era * 400) / 400 == x / 400 + era
  {
    Mod400Is(x + era * 400, x / 400 + era, x % 400);
  }

  lemma Mod400Is(n: int, p: int, r: int)
    requires n == 400 * p + r && 0 <= r < 400
    ensures n % 400 == r && n / 400 == p
  {
  }

  /** Day `doy` of the March-based year `y` has a proper month and day. */
  lemma MonthRight(y: int, doy: nat)
    requires doy <= 365 && (doy == 365 ==> IsLeap(y + 1))
    ensures var mp := (5 * doy + 2) / 153; var m := if mp < 10 then mp + 3 else mp - 9;
      && mp <= 11 && MonthStart(mp) <= doy && 1 <= m <= 12 && MonthIndex(m) == mp
      && ValidDate(Date(if m <= 2 then y + 1 else y, m, doy - MonthStart(mp) + 1))
  {
    hide IsLeap;
  }

  lemma DateInEraValid(era: int, doe: nat)
    requires doe < ERA_DAYS
    ensures var d := DateInEra(era * 400, doe);
      ValidDate(d) && DaysFromDate(d) == era * ERA_DAYS + doe - EPOCH
  {
    hide YearOfEra;
    hide DayOfYear;
    hide DaysBefore;
    hide MonthStart;
    hide IsLeap;
    EraArithmetic(doe);
    YearOfEraRight(doe);
    LeapYearLength(YearOfEra(doe));
    LeapAcrossEras(era, YearOfEra(doe));
    MonthRight(YearOfEra(doe) + era * 400, DayOfYear(doe, YearOfEra(doe)));
  }

  lemma {:induction false} DaysBeforeGrows(a: nat, b: nat)
    requires a < b
    ensures DaysBefore(a + 1) <= DaysBefore(b)
    decreases b
  {
    if a + 1 < b {
      DaysBeforeGrows(a, b - 1);
      OneYearOn(b - 1);
    }
  }

  lemma OneYearOn(k: nat)
    ensures DaysBefore(k) <= DaysBefore(k + 1)
  {
  }

  lemma YearUnique(doe: nat, k: nat)
    requires doe < ERA_DAYS && DaysBefore(k) <= doe < DaysBefore(k + 1)
    ensures YearOfEra(doe) == k
  {
    hide DaysBefore;
    hide YearOfEra;
    YearOfEraRight(doe);
    if k < YearOfEra(doe) {
      DaysBeforeGrows(k, YearOfEra(doe));
    } else if YearOfEra(doe) < k {
      DaysBeforeGrows(YearOfEra(doe), k);
    }
  }

  /** A valid date lies inside its March-based year, and its month is the one the day of that year falls in. */
  lemma DateInsideYear(d: Date)
    requires ValidDate(d)
    ensures var y := if d.month <= 2 then d.year - 1 else d.year; var mp := MonthIndex(d.month);
      var doy := MonthStart(mp) + d.day - 1;
      && doy <= (if IsLeap(y + 1) then 365 else 364) && (5 * doy + 2) / 153 == mp
  {
    hide IsLeap;
  }

  lemma DayInsideEra(yoe: nat, doy: nat)
    requires yoe < 400 && doy <= (if IsLeap(yoe + 1) then 365 else 364)
    ensures var doe := DaysBefore(yoe) + doy;
      doe < ERA_DAYS && YearOfEra(doe) == yoe && DayOfYear(doe, yoe) == doy
  {
    hide IsLeap;
    LeapYearLength(yoe);
    assert DaysBefore(400) == ERA_DAYS;
    if yoe < 399 {
      DaysBeforeGrows(yoe, 400);
    }
    YearUnique(DaysBefore(yoe) + doy, yoe);
  }

  /** Every valid date is the date of its own day count. */
  lemma DateOfItsDays(d: Date)
    ensures ValidDate(d) ==> DateOf(DaysFromDate(d)) == d
  {
    hide IsLeap;
    hide DaysBefore;
    hide YearOfEra;
    hide DayOfYear;
    hide MonthStart;
    if ValidDate(d) {
      var y := if d.month <= 2 then d.year - 1 else d.year;
      var era, yoe := y / 400, y % 400;
      var doy := MonthStart(MonthIndex(d.month)) + d.day - 1;
      DateInsideYear(d);
      LeapAcrossEras(era, yoe);
      DayInsideEra(yoe, doy);
      var doe := DaysBefore(yoe) + doy;
      var z := DaysFromDate(d) + EPOCH;
      assert z == era * ERA_DAYS + doe;
      EraOf(era, doe);
      EraArithmetic(doe);
    }
  }

  lemma EraOf(era: int, doe: nat)
    requires doe < ERA_DAYS
    ensures (era * ERA_DAYS + doe) / ERA_DAYS == era
  {
  }

  lemma NextDayCounts(d: Date)
    requires ValidDate(d)
    ensures ValidDate(NextDay(d)) && DaysFromDate(NextDay(d)) == DaysFromDate(d) + 1
  {
    hide IsLeap;
    hide DaysBefore;
    if d.month == 2 && d.day == MonthLength(d.year, 2) {
      NewMarchYear(d.year - 1);
    }
  }

  /** The year that starts after the last day of February follows on without a gap. */
  lemma NewMarchYear(y: int)
    ensures (y / 400) * ERA_DAYS + DaysBefore(y % 400) + (if IsLeap(y + 1) then 366 else 365) ==
      ((y + 1) / 400) * ERA_DAYS + DaysBefore((y + 1) % 400)
  {
    hide IsLeap;
    hide DaysBefore;
    var era, yoe := y / 400, y % 400;
    LeapYearLength(yoe);
    LeapAcrossEras(era, yoe);
    if yoe == 399 {
      FullEra();
      Mod400Is(y + 1, era + 1, 0);
    } else {
      Mod400Is(y + 1, era, yoe + 1);
    }
  }

  lemma FullEra()
    ensures DaysBefore(400) == ERA_DAYS && DaysBefore(0) == 0
  {
  }

  lemma Epoch()
    ensures DateOf(0) == Date(1970, 1, 1)
  {
  }

  lemma DateUnfolds(days: int)
    ensures DateOf(days) == DateInEra(Era(days) * 400, DayOfEra(days))
    ensures Era(days) * ERA_DAYS + DayOfEra(days) - EPOCH == days
  {
    hide DateInEra;
  }

  /** Day counts and Gregorian dates correspond one to one: day 0 is the first of January 1970, each further day is the
      calendar's next day, every date of a count is valid and gives back the count, and every valid date is reached. */
  lemma DayCountBijection(days: int, d: Date)
    ensures DateOf(0) == Date(1970, 1, 1)
    ensures ValidDate(DateOf(days)) && DaysFromDate(DateOf(days)) == days
    ensures DateOf(days + 1) == NextDay(DateOf(days))
    ensures ValidDate(d) ==> DateOf(DaysFromDate(d)) == d
  {
    hide DateOf;
    hide DaysFromDate;
    hide NextDay;
    hide ValidDate;
    hide DateInEra;
    hide Era;
    Epoch();
    DateUnfolds(days);
    DateInEraValid(Era(days), DayOfEra(days));
    NextDayCounts(DateOf(days));
    DateOfItsDays(NextDay(DateOf(days)));
    DateOfItsDays(d);
  }

  // ---- dates in order ----

  predicate DateBefore(a: Date, b: Date) {
    a.year < b.year || (a.year == b.year && (a.month < b.month || (a.month == b.month && a.day < b.day)))
  }

  lemma NextIsLater(d: Date)
    ensures DateBefore(d, NextDay(d))
  {
  }

  lemma {:induction false} LaterDayLaterDate(a: int, b: int)
    requires a < b
    ensures DateBefore(DateOf(a), DateOf(b))
    decreases b - a
  {
    hide DateOf;
    hide NextDay;
    DayCountBijection(b - 1, Date(1970, 1, 1));
    NextIsLater(DateOf(b - 1));
    if a < b - 1 {
      LaterDayLaterDate(a, b - 1);
    }
  }

  // ---- the two versions in the repository ----

  /** The unsigned version is exact from 1970 on. */
  lemma UnsignedExact(days: nat)
    ensures DateFromDays(days) == DateOf(days)
  {
    hide DateInEra;
    EraFloors(days + EPOCH);
  }

  lemma AsI32Facts(n: int)
    ensures FitsI32(AsI32(n)) && (FitsI32(n) <==> AsI32(n) == n)
    ensures AsI32(n) == n || AsI32(n) - n >= 0x1_0000_0000 || n - AsI32(n) >= 0x1_0000_0000
  {
  }

  lemma AsI32Sum(n: int, k: int)
    ensures AsI32(AsI32(n) + k) == AsI32(n + k)
  {
    var q := (AsI32(n) - n) / 0x1_0000_0000;
    assert AsI32(n) == n + q * 0x1_0000_0000;
    Wraps(n + k, q);
  }

  lemma Wraps(n: int, q: int)
    ensures (n + q * 0x1_0000_0000) % 0x1_0000_0000 == n % 0x1_0000_0000
  {
    var r := n % 0x1_0000_0000;
    Mod2to32(n + q * 0x1_0000_0000, n / 0x1_0000_0000 + q, r);
  }

  lemma Mod2to32(n: int, p: int, r: int)
    requires n == 0x1_0000_0000 * p + r && 0 <= r < 0x1_0000_0000
    ensures n % 0x1_0000_0000 == r
  {
  }

  /** What the signed version computes: the date, with a year that is off by what the cast cut away, if the additions
      fit. */
  lemma SignedResult(build: Build, days: int)
    requires FitsI64(days)
    ensures var d, cut := DateOf(days), AsI32(Era(days) * 400) - Era(days) * 400;
      CivilFromDays(build, days) ==
        if FitsI32(d.year + cut) then Some(d.(year := d.year + cut))
        else if build.Checked? then None else Some(d.(year := AsI32(d.year)))
  {
    hide AsI32;
    hide CivilFromDays;
    hide DateOf;
    hide YearOfEra;
    SignedUnfolds(build, days);
    YearOfDays(days);
    YearI32Is(build, Era(days) * 400, YearOfEra(DayOfEra(days)), DateOf(days).month <= 2);
  }

  lemma SignedUnfolds(build: Build, days: int)
    requires FitsI64(days)
    ensures CivilFromDays(build, days) ==
      match YearI32(build, Era(days) * 400, YearOfEra(DayOfEra(days)), DateOf(days).month <= 2)
      case None => None
      case Some(y) => Some(DateOf(days).(year := y))
  {
    hide YearI32;
    hide DateInEra;
    hide YearOfEra;
    hide TruncatingDiv;
    EraFloors(days + EPOCH);
  }

  lemma YearOfDays(days: int)
    ensures YearOfEra(DayOfEra(days)) < 400
    ensures var d, y := DateOf(days), Era(days) * 400 + YearOfEra(DayOfEra(days));
      d.year == if d.month <= 2 then y + 1 else y
  {
    hide DateInEra;
    hide YearOfEra;
    EraFloors(days + EPOCH);
    YearInEra(Era(days) * 400, DayOfEra(days));
    EraArithmetic(DayOfEra(days));
  }

  lemma YearInEra(first: int, doe: nat)
    requires doe < ERA_DAYS
    ensures var d := DateInEra(first, doe); d.year == first + YearOfEra(doe) + (if d.month <= 2 then 1 else 0)
  {
  }

  lemma YearI32Is(build: Build, first: int, yoe: nat, late: bool)
    requires yoe < 400
    ensures var y, cut := first + yoe + (if late then 1 else 0), AsI32(first) - first;
      YearI32(build, first, yoe, late) ==
        if FitsI32(y + cut) then Some(y + cut) else if build.Checked? then None else Some(AsI32(y))
  {
    hide AsI32;
    var a := AsI32(first);
    AsI32Facts(first);
    AsI32Sum(first, yoe);
    AsI32Sum(first, yoe + 1);
    AsI32Sum(first + yoe, 1);
    AsI32Facts(AsI32(first + yoe) + 1);
    assert yoe + a == a + yoe && a + yoe + 1 == a + (yoe + 1);
    assert first + yoe + 1 == first + (yoe + 1);
  }

  // ---- exactly where the signed version is right ----

  /** The first and the last day of the years that fit 32 bits. */
  const FIRST_DAY := DaysFromDate(Date(-0x8000_0000, 1, 1))
  const LAST_DAY := DaysFromDate(Date(0x7FFF_FFFF, 12, 31))

  /** The first day of the first era that starts in a year that fits 32 bits. */
  const FIRST_WHOLE_ERA := -5_368_709 * ERA_DAYS - EPOCH

  lemma DayBounds()
    ensures FIRST_DAY == -784_353_015_833 && LAST_DAY == 784_351_576_776 && FIRST_WHOLE_ERA == -784_352_998_241
  {
    hide DaysFromDate;
    FirstDayIs();
    LastDayIs();
  }

  lemma FirstDayIs()
    ensures DaysFromDate(Date(-0x8000_0000, 1, 1)) == -784_353_015_833
  {
    assert (-0x8000_0000 - 1) / 400 == -5_368_710 && (-0x8000_0000 - 1) % 400 == 351;
  }

  lemma LastDayIs()
    ensures DaysFromDate(Date(0x7FFF_FFFF, 12, 31)) == 784_351_576_776
  {
    assert 0x7FFF_FFFF / 400 == 5_368_709 && 0x7FFF_FFFF % 400 == 47;
  }

  lemma YearFits(days: int)
    ensures FitsI32(DateOf(days).year) <==> FIRST_DAY <= days <= LAST_DAY
  {
    hide DateOf;
    hide DaysFromDate;
    var a, b := Date(-0x8000_0000, 1, 1), Date(0x7FFF_FFFF, 12, 31);
    DayCountBijection(days, a);
    DayCountBijection(days, b);
    if days < FIRST_DAY { LaterDayLaterDate(days, FIRST_DAY); }
    if FIRST_DAY < days { LaterDayLaterDate(FIRST_DAY, days); }
    if days < LAST_DAY { LaterDayLaterDate(days, LAST_DAY); }
    if LAST_DAY < days { LaterDayLaterDate(LAST_DAY, days); }
  }

  lemma EraBound(days: int)
    ensures Era(days) >= -5_368_709 <==> FIRST_WHOLE_ERA <= days
  {
  }

  /** A build that wraps gives the right date exactly for the days whose year fits 32 bits: the bounds are `FIRST_DAY`
      and `LAST_DAY`. */
  lemma WrappingExact(days: int)
    requires FitsI64(days)
    ensures CivilFromDays(Wrapping, days) == Some(DateOf(days)) <==> -784_353_015_833 <= days <= 784_351_576_776
  {
    hide DateOf;
    hide CivilFromDays;
    hide AsI32;
    hide Era;
    DayBounds();
    hide DaysFromDate;
    YearFits(days);
    SignedResult(Wrapping, days);
    AsI32Facts(Era(days) * 400);
    AsI32Facts(DateOf(days).year);
  }

  /** A build that checks for overflow gives it exactly from the first era on that starts in a year that fits: the
      bounds are `FIRST_WHOLE_ERA` and `LAST_DAY`. */
  lemma CheckedExact(days: int)
    ensures CivilFromDays(Checked, days) == Some(DateOf(days)) <==> -784_352_998_241 <= days <= 784_351_576_776
  {
    hide DateOf;
    hide CivilFromDays;
    hide AsI32;
    hide YearOfEra;
    DayBounds();
    EraBound(days);
    hide DaysFromDate;
    hide Era;
    YearFits(days);
    if FitsI64(days) {
      SignedResult(Checked, days);
      AsI32Facts(Era(days) * 400);
      YearOfDays(days);
    } else {
      BeyondI64(days);
    }
  }

  /** For the years that fit before that era it faults. */
  lemma CheckedFaults(days: int)
    requires FIRST_DAY <= days < FIRST_WHOLE_ERA
    ensures CivilFromDays(Checked, days) == None
  {
    hide DateOf;
    hide CivilFromDays;
    hide AsI32;
    hide YearOfEra;
    DayBounds();
    EraBound(days);
    hide DaysFromDate;
    hide Era;
    YearFits(days);
    YearOfDays(days);
    CutAt(Era(days));
    SignedResult(Checked, days);
  }

  lemma BeyondI64(days: int)
    requires !FitsI64(days)
    ensures CivilFromDays(Checked, days) == None
  {
  }

  /** A year that fits in an era that does not start in one: a checking build faults, a wrapping one is right. */
  lemma FaultAtFittingYear() returns (days: int)
    ensures days == -784_353_015_773 && DateOf(days).year == -0x8000_0000
    ensures CivilFromDays(Checked, days) == None && CivilFromDays(Wrapping, days) == Some(DateOf(days))
  {
    hide CivilFromDays;
    hide AsI32;
    days := -784_353_015_773;
    assert Era(days) == -5_368_710 && DateOf(days).year == -0x8000_0000;
    hide DateOf;
    hide Era;
    CutAt(-5_368_710);
    SignedResult(Checked, days);
    SignedResult(Wrapping, days);
    AsI32Facts(-0x8000_0000);
  }

  lemma CutAt(era: int)
    ensures era == -5_368_710 ==> AsI32(era * 400) == era * 400 + 0x1_0000_0000
    ensures era == 5_368_709 ==> AsI32(era * 400) == era * 400
    ensures AsI32(0x8000_0000) == -0x8000_0000
  {
  }

  /** The day after the last year that fits: a checking build faults, a wrapping one goes back to the first. */
  lemma DayAfterLast()
    ensures DateOf(LAST_DAY + 1) == Date(0x8000_0000, 1, 1)
    ensures CivilFromDays(Checked, LAST_DAY + 1) == None
    ensures CivilFromDays(Wrapping, LAST_DAY + 1) == Some(Date(-0x8000_0000, 1, 1))
  {
    hide CivilFromDays;
    hide AsI32;
    hide DateOf;
    DayBounds();
    assert Era(784_351_576_777) == 5_368_709;
    hide Era;
    hide DaysFromDate;
    DayCountBijection(LAST_DAY, Date(0x7FFF_FFFF, 12, 31));
    CutAt(5_368_709);
    SignedResult(Checked, LAST_DAY + 1);
    SignedResult(Wrapping, LAST_DAY + 1);
  }
}
