/** Build timestamps: `YYYY-MM-DDTHH:MM:SSZ`, the UTC form of section 5.6 of RFC 3339. */
module Timestamps {
  import opened Bytes
  import opened Calendar
  import opened Decimals

  // ---- string order ----

  predicate Before(a: string, b: string) {
    if a == "" || b == "" then a == "" && b != ""
    else a[0] < b[0] || (a[0] == b[0] && Before(a[1..], b[1..]))
  }

  lemma {:induction false} BeforeTail(a: string, x: string, y: string)
    requires Before(x, y)
    ensures Before(a + x, a + y)
  {
    if a == "" {
      assert a + x == x && a + y == y;
    } else {
      BeforeTail(a[1..], x, y);
      assert (a + x)[1..] == a[1..] + x && (a + y)[1..] == a[1..] + y;
    }
  }

  lemma {:induction false} BeforeHead(a: string, b: string, x: string, y: string)
    requires |a| == |b| && Before(a, b)
    ensures Before(a + x, b + y)
  {
    if a[0] == b[0] {
      BeforeHead(a[1..], b[1..], x, y);
      assert (a + x)[1..] == a[1..] + x && (b + y)[1..] == b[1..] + y;
    }
  }

  lemma {:induction false} BeforeIrreflexive(a: string, b: string)
    requires Before(a, b)
    ensures a != b && !Before(b, a)
  {
    if a != "" && a[0] == b[0] {
      BeforeIrreflexive(a[1..], b[1..]);
    }
  }

  lemma {:induction false} FixedOrder(n: nat, m: nat, w: nat)
    requires n < m < Pow10(w)
    ensures Before(Fixed(n, w), Fixed(m, w))
  {
    if n / 10 < m / 10 {
      FixedOrder(n / 10, m / 10, w - 1);
      BeforeHead(Fixed(n / 10, w - 1), Fixed(m / 10, w - 1), [Digit(n % 10)], [Digit(m % 10)]);
    } else {
      BeforeTail(Fixed(n / 10, w - 1), [Digit(n % 10)], [Digit(m % 10)]);
    }
  }

  // ---- fixed-width fields ----

  /** A field's width and the character after it. */
  datatype Field = Field(width: nat, after: char)

  predicate Fit(vs: seq<nat>, fields: seq<Field>) {
    |vs| == |fields| && forall i | 0 <= i < |vs| :: vs[i] < Pow10(fields[i].width)
  }

  function Render(vs: seq<nat>, fields: seq<Field>): string
    requires |vs| == |fields|
  {
    if vs == [] then ""
    else Fixed(vs[0], fields[0].width) + ([fields[0].after] + Render(vs[1..], fields[1..]))
  }

  function ReadFields(s: string, fields: seq<Field>): Option<seq<nat>> {
    if fields == [] then (if s == "" then Some([]) else None) else
    var w := fields[0].width;
    if |s| <= w || s[w] != fields[0].after then None else
    match (Number(s[..w]), ReadFields(s[w + 1..], fields[1..]))
    case (Some(v), Some(vs)) => Some([v] + vs)
    case _ => None
  }

  lemma {:induction false} RenderReadsBack(vs: seq<nat>, fields: seq<Field>)
    requires Fit(vs, fields)
    ensures ReadFields(Render(vs, fields), fields) == Some(vs)
  {
    hide Fixed;
    hide Number;
    hide Pow10;
    if vs != [] {
      var w, rest := fields[0].width, Render(vs[1..], fields[1..]);
      FixedReadsBack(vs[0], w);
      RenderReadsBack(vs[1..], fields[1..]);
      FieldSplits(Fixed(vs[0], w), fields[0].after, rest);
      assert vs == [vs[0]] + vs[1..];
    }
  }

  lemma FieldSplits(digits: string, after: char, rest: string)
    ensures var s := digits + ([after] + rest);
      |s| > |digits| && s[..|digits|] == digits && s[|digits|] == after && s[|digits| + 1..] == rest
  {
  }

  predicate ValuesBefore(a: seq<nat>, b: seq<nat>)
    requires |a| == |b|
  {
    a != [] && (a[0] < b[0] || (a[0] == b[0] && ValuesBefore(a[1..], b[1..])))
  }

  /** Text order of rendered fields is the order of their values. */
  lemma {:induction false} RenderOrder(a: seq<nat>, b: seq<nat>, fields: seq<Field>)
    requires Fit(a, fields) && Fit(b, fields) && ValuesBefore(a, b)
    ensures Before(Render(a, fields), Render(b, fields))
  {
    var w, sep := fields[0].width, [fields[0].after];
    var x, y := Render(a[1..], fields[1..]), Render(b[1..], fields[1..]);
    if a[0] < b[0] {
      FixedOrder(a[0], b[0], w);
      BeforeHead(Fixed(a[0], w), Fixed(b[0], w), sep + x, sep + y);
    } else {
      RenderOrder(a[1..], b[1..], fields[1..]);
      BeforeTail(sep, x, y);
      BeforeTail(Fixed(a[0], w), sep + x, sep + y);
    }
  }

  // ---- timestamps ----

  const LAYOUT := [Field(4, '-'), Field(2, '-'), Field(2, 'T'), Field(2, ':'), Field(2, ':'), Field(2, 'Z')]

  /** The first second of the year 10000. */
  const YEAR_10000 := 253_402_300_800

  function Parts(secs: nat): seq<nat>
    requires DateFromDays(secs / 86_400).year >= 0
  {
    var d := DateFromDays(secs / 86_400);
    var ofDay := secs % 86_400;
    [d.year, d.month, d.day, ofDay / 3_600, (ofDay % 3_600) / 60, ofDay % 60]
  }

  lemma YearNotNegative(days: nat)
    ensures DateFromDays(days).year >= 0
  {
    EraArithmetic((days + EPOCH) % ERA_DAYS);
  }

  function FormatRfc3339(secs: nat): string {
    YearNotNegative(secs / 86_400);
    var p := Parts(secs);
    Padded(p[0], 4) + ("-" + (Padded(p[1], 2) + ("-" + (Padded(p[2], 2) + ("T"
    + (Padded(p[3], 2) + (":" + (Padded(p[4], 2) + (":" + (Padded(p[5], 2) + ("Z" + "")))))))))))
  }

  // ---- how the text is laid out ----

  lemma LastDay()
    ensures DaysFromDate(Date(9_999, 12, 31)) == YEAR_10000 / 86_400 - 1
  {
  }

  lemma YearHasFourDigits(days: nat)
    requires days < YEAR_10000 / 86_400
    ensures 1970 <= DateOf(days).year < 10_000
  {
    hide DateOf;
    hide DaysFromDate;
    var last := Date(9_999, 12, 31);
    LastDay();
    DayCountBijection(0, last);
    if days > 0 { LaterDayLaterDate(0, days); }
    if days < DaysFromDate(last) { LaterDayLaterDate(days, DaysFromDate(last)); }
  }

  lemma PartsFit(secs: nat)
    requires secs < YEAR_10000
    ensures DateFromDays(secs / 86_400).year >= 0 && Fit(Parts(secs), LAYOUT)
  {
    hide DateOf;
    hide DateFromDays;
    var days := secs / 86_400;
    UnsignedExact(days);
    YearHasFourDigits(days);
    DayCountBijection(days, Date(1970, 1, 1));
    assert Pow10(4) == 10_000 && Pow10(2) == 100;
  }

  /** Below the year 10000 the text is exactly the six fixed-width fields. */
  lemma FormatIsRender(secs: nat)
    requires secs < YEAR_10000
    ensures DateFromDays(secs / 86_400).year >= 0
    ensures FormatRfc3339(secs) == Render(Parts(secs), LAYOUT) && |FormatRfc3339(secs)| == 20
  {
    PartsFit(secs);
    var p := Parts(secs);
    PaddedIsFixed(p[0], 4);
    PaddedIsFixed(p[1], 2);
    PaddedIsFixed(p[2], 2);
    PaddedIsFixed(p[3], 2);
    PaddedIsFixed(p[4], 2);
    PaddedIsFixed(p[5], 2);
    RenderSix(p);
  }

  lemma RenderSix(p: seq<nat>)
    requires |p| == 6
    ensures Render(p, LAYOUT) ==
      Fixed(p[0], 4) + ("-" + (Fixed(p[1], 2) + ("-" + (Fixed(p[2], 2) + ("T"
      + (Fixed(p[3], 2) + (":" + (Fixed(p[4], 2) + (":" + (Fixed(p[5], 2) + ("Z" + "")))))))))))
  {
    hide Fixed;
    var s5 := Render(p[5..], LAYOUT[5..]);
    assert p[5..][1..] == [] && LAYOUT[5..][1..] == [] && Render([], []) == "";
    assert LAYOUT[5..][0] == Field(2, 'Z') && p[5..][0] == p[5];
    assert s5 == Fixed(p[5], 2) + (['Z'] + "");
    var s4 := Render(p[4..], LAYOUT[4..]);
    assert p[4..][1..] == p[5..] && LAYOUT[4..][1..] == LAYOUT[5..];
    assert s4 == Fixed(p[4], 2) + ([':'] + s5);
    var s3 := Render(p[3..], LAYOUT[3..]);
    assert p[3..][1..] == p[4..] && LAYOUT[3..][1..] == LAYOUT[4..];
    assert s3 == Fixed(p[3], 2) + ([':'] + s4);
    var s2 := Render(p[2..], LAYOUT[2..]);
    assert p[2..][1..] == p[3..] && LAYOUT[2..][1..] == LAYOUT[3..];
    assert s2 == Fixed(p[2], 2) + (['T'] + s3);
    var s1 := Render(p[1..], LAYOUT[1..]);
    assert p[1..][1..] == p[2..] && LAYOUT[1..][1..] == LAYOUT[2..];
    assert s1 == Fixed(p[1], 2) + (['-'] + s2);
    assert Render(p, LAYOUT) == Fixed(p[0], 4) + (['-'] + s1);
  }

  /** Reading a timestamp back: the inverse of formatting, from the calendar alone. */
  function ParseRfc3339(s: string): Option<int> {
    match ReadFields(s, LAYOUT)
    case None => None
    case Some(vs) =>
      if |vs| == 6 && ValidDate(Date(vs[0], vs[1], vs[2])) && vs[3] < 24 && vs[4] < 60 && vs[5] < 60
      then Some(86_400 * DaysFromDate(Date(vs[0], vs[1], vs[2])) + 3_600 * vs[3] + 60 * vs[4] + vs[5])
      else None
  }

  /** Twenty characters that give back the seconds they were made from. */
  lemma TimestampRoundTrip(secs: nat)
    requires secs < YEAR_10000
    ensures |FormatRfc3339(secs)| == 20 && ParseRfc3339(FormatRfc3339(secs)) == Some(secs)
  {
    hide FormatRfc3339;
    hide DateFromDays;
    hide DateOf;
    hide ReadFields;
    hide Render;
    hide ValidDate;
    hide DaysFromDate;
    FormatIsRender(secs);
    PartsFit(secs);
    RenderReadsBack(Parts(secs), LAYOUT);
    UnsignedExact(secs / 86_400);
    DayCountBijection(secs / 86_400, Date(1970, 1, 1));
    SecondsOfDay(secs % 86_400);
  }

  lemma SecondsOfDay(n: nat)
    requires n < 86_400
    ensures 3_600 * (n / 3_600) + 60 * ((n % 3_600) / 60) + n % 60 == n
    ensures n / 3_600 < 24 && (n % 3_600) / 60 < 60
  {
  }

  lemma LaterInDay(x: nat, y: nat)
    requires x < y < 86_400
    ensures
      || x / 3_600 < y / 3_600
      || (x / 3_600 == y / 3_600 && (x % 3_600) / 60 < (y % 3_600) / 60)
      || (x / 3_600 == y / 3_600 && (x % 3_600) / 60 == (y % 3_600) / 60 && x % 60 < y % 60)
  {
    SecondsOfDay(x);
    SecondsOfDay(y);
  }

  lemma LaterSecondLaterParts(a: nat, b: nat)
    requires a < b < YEAR_10000
    ensures DateFromDays(a / 86_400).year >= 0 && DateFromDays(b / 86_400).year >= 0
    ensures ValuesBefore(Parts(a), Parts(b))
  {
    hide DateFromDays;
    hide DateOf;
    hide ValuesBefore;
    hide Fit;
    hide Parts;
    PartsFit(a);
    PartsFit(b);
    if a / 86_400 < b / 86_400 {
      LaterDayLaterParts(a, b);
    } else {
      SameDayLaterParts(a, b);
    }
  }

  lemma LaterDayLaterParts(a: nat, b: nat)
    requires DateFromDays(a / 86_400).year >= 0 && DateFromDays(b / 86_400).year >= 0
    requires a / 86_400 < b / 86_400
    ensures ValuesBefore(Parts(a), Parts(b))
  {
    hide DateFromDays;
    hide DateOf;
    hide ValuesBefore;
    UnsignedExact(a / 86_400);
    UnsignedExact(b / 86_400);
    LaterDayLaterDate(a / 86_400, b / 86_400);
    SixBefore(Parts(a), Parts(b));
  }

  lemma SameDayLaterParts(a: nat, b: nat)
    requires DateFromDays(a / 86_400).year >= 0
    requires a < b && a / 86_400 == b / 86_400
    ensures ValuesBefore(Parts(a), Parts(b))
  {
    hide DateFromDays;
    hide ValuesBefore;
    assert a % 86_400 < b % 86_400;
    LaterInDay(a % 86_400, b % 86_400);
    SixBefore(Parts(a), Parts(b));
  }

  lemma SixBefore(a: seq<nat>, b: seq<nat>)
    requires |a| == |b| == 6
    ensures ValuesBefore(a, b) <==>
      || a[0] < b[0]
      || (a[0] == b[0] && a[1] < b[1])
      || (a[0] == b[0] && a[1] == b[1] && a[2] < b[2])
      || (a[0] == b[0] && a[1] == b[1] && a[2] == b[2] && a[3] < b[3])
      || (a[0] == b[0] && a[1] == b[1] && a[2] == b[2] && a[3] == b[3] && a[4] < b[4])
      || (a[0] == b[0] && a[1] == b[1] && a[2] == b[2] && a[3] == b[3] && a[4] == b[4] && a[5] < b[5])
  {
    assert a[1..][1..] == a[2..] && b[1..][1..] == b[2..];
    assert a[2..][1..] == a[3..] && b[2..][1..] == b[3..];
    assert a[3..][1..] == a[4..] && b[3..][1..] == b[4..];
    assert a[4..][1..] == a[5..] && b[4..][1..] == b[5..];
    assert a[5..][1..] == [] && b[5..][1..] == [];
    assert ValuesBefore(a[5..], b[5..]) == (a[5] < b[5]);
    assert ValuesBefore(a[4..], b[4..]) == (a[4] < b[4] || (a[4] == b[4] && ValuesBefore(a[5..], b[5..])));
    assert ValuesBefore(a[3..], b[3..]) == (a[3] < b[3] || (a[3] == b[3] && ValuesBefore(a[4..], b[4..])));
    assert ValuesBefore(a[2..], b[2..]) == (a[2] < b[2] || (a[2] == b[2] && ValuesBefore(a[3..], b[3..])));
    assert ValuesBefore(a[1..], b[1..]) == (a[1] < b[1] || (a[1] == b[1] && ValuesBefore(a[2..], b[2..])));
  }

  /** Sorting timestamps as text sorts them by time, as section 5.1 of RFC 3339 asks. */
  lemma TextOrderIsTimeOrder(a: nat, b: nat)
    requires a < YEAR_10000 && b < YEAR_10000
    ensures Before(FormatRfc3339(a), FormatRfc3339(b)) <==> a < b
  {
    hide FormatRfc3339;
    hide Render;
    hide Parts;
    if a < b {
      SoonerFormatsBefore(a, b);
    } else if b < a {
      SoonerFormatsBefore(b, a);
      BeforeIrreflexive(FormatRfc3339(b), FormatRfc3339(a));
    } else if Before(FormatRfc3339(a), FormatRfc3339(b)) {
      BeforeIrreflexive(FormatRfc3339(a), FormatRfc3339(b));
    }
  }

  lemma SoonerFormatsBefore(a: nat, b: nat)
    requires a < b < YEAR_10000
    ensures Before(FormatRfc3339(a), FormatRfc3339(b))
  {
    hide FormatRfc3339;
    hide Render;
    PartsFit(a);
    PartsFit(b);
    FormatIsRender(a);
    FormatIsRender(b);
    LaterSecondLaterParts(a, b);
    RenderOrder(Parts(a), Parts(b), LAYOUT);
  }
}
