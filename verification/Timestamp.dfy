/** The fixed-width timestamp that starts every log line, `YYYY-MM-DD HH:MM:SS.fff`, and why lines
    sort by time (RFC 3339, section 5.1, gives the argument for its own format). */
module Timestamp {
  import opened Arithmetic
  import opened Calendar

  // ---- Text ----

  function Digit(n: int): char
    requires 0 <= n <= 9
  {
    "0123456789"[n]
  }

  function Decimal(n: nat): string {
    if n < 10 then [Digit(n)] else Decimal(n / 10) + [Digit(n % 10)]
  }

  function Zeros(n: nat): string {
    if n == 0 then "" else "0" + Zeros(n - 1)
  }

  /** `{n:0width}`: pads to at least `width`, never truncates. */
  function Padded(n: nat, width: nat): string {
    var s := Decimal(n);
    if |s| >= width then s else Zeros(width - |s|) + s
  }

  const NANOS_PER_MILLI: int := 1_000_000
  const MILLIS_PER_DAY: int := 86_400_000
  const NANOS_PER_SEC: int := 1_000_000_000

  /** A non-negative number for the formatter; the years it is given here are never negative. */
  function AsNat(n: int): nat {
    if n < 0 then 0 else n
  }

  function Cell(n: nat, width: nat, sep: string): string {
    Padded(n, width) + sep
  }

  /** `format_timestamp_utc` on an instant in nanoseconds since the epoch; earlier instants format as the epoch. */
  function FormatTimestampUtc(nanos: int): string {
    var dur := AsNat(nanos);
    var totalSecs := dur / NANOS_PER_SEC;
    var millis := dur % NANOS_PER_SEC / NANOS_PER_MILLI;
    var days := totalSecs / 86_400;
    var secsOfDay := totalSecs % 86_400;
    var date := CivilFromDays(days);
    Cell(AsNat(date.year), 4, "-") + (Cell(AsNat(date.month), 2, "-") + (Cell(AsNat(date.day), 2, " ")
    + (Cell(secsOfDay / 3600, 2, ":") + (Cell(secsOfDay % 3600 / 60, 2, ":") + (Cell(secsOfDay % 60, 2, ".")
    + Cell(millis, 3, ""))))))
  }

  // ---- Order on text ----

  predicate LexLess(a: string, b: string) {
    if b == "" then false
    else if a == "" then true
    else a[0] < b[0] || (a[0] == b[0] && LexLess(a[1..], b[1..]))
  }

  lemma {:induction false} LexConcat(a: string, b: string, c: string, d: string)
    requires |a| == |b|
    ensures LexLess(a + c, b + d) <==> LexLess(a, b) || (a == b && LexLess(c, d))
  {
    if a == "" {
      assert a + c == c && b + d == d;
    } else {
      LexConcat(a[1..], b[1..], c, d);
      assert (a + c)[1..] == a[1..] + c && (b + d)[1..] == b[1..] + d;
      assert a == [a[0]] + a[1..] && b == [b[0]] + b[1..];
    }
  }

  lemma {:induction false} LexIrreflexive(a: string)
    ensures !LexLess(a, a)
  {
    if a != "" {
      LexIrreflexive(a[1..]);
    }
  }

  // ---- Fixed-width fields ----

  function Pow10(w: nat): nat {
    if w == 0 then 1 else 10 * Pow10(w - 1)
  }

  /** The last `w` decimal digits of `n`. */
  function Fixed(n: nat, w: nat): (s: string)
    ensures |s| == w
  {
    if w == 0 then "" else Fixed(n / 10, w - 1) + [Digit(n % 10)]
  }

  lemma {:induction false} ZerosSnoc(w: nat)
    ensures |Zeros(w)| == w
    ensures Zeros(w) + "0" == "0" + Zeros(w)
  {
    if w > 0 {
      ZerosSnoc(w - 1);
    }
  }

  lemma {:induction false} FixedZero(w: nat)
    ensures Fixed(0, w) == Zeros(w)
  {
    if w > 0 {
      FixedZero(w - 1);
      ZerosSnoc(w - 1);
    }
  }

  lemma PaddedDigit(n: nat, w: nat)
    requires w > 0 && n < 10
    ensures Padded(n, w) == Fixed(n, w)
  {
    assert Decimal(n) == [Digit(n)];
    assert n / 10 == 0 && n % 10 == n;
    assert Fixed(n, w) == Fixed(0, w - 1) + [Digit(n)];
    hide Digit, Decimal, Fixed;
    FixedZero(w - 1);
    ZerosSnoc(w - 1);
    if w == 1 {
      assert Zeros(0) + [Digit(n)] == [Digit(n)];
    }
  }

  lemma PaddedSnoc(n: nat, w: nat)
    requires w > 1 && n >= 10
    ensures Padded(n, w) == Padded(n / 10, w - 1) + [Digit(n % 10)]
  {
    var s := Decimal(n / 10);
    assert Decimal(n) == s + [Digit(n % 10)];
    if |s| < w - 1 {
      assert Zeros(w - 1 - |s|) + (s + [Digit(n % 10)]) == Zeros(w - 1 - |s|) + s + [Digit(n % 10)];
    }
  }

  lemma {:induction false} PaddedIsFixed(n: nat, w: nat)
    requires w > 0 && n < Pow10(w)
    ensures Padded(n, w) == Fixed(n, w)
  {
    if n < 10 {
      PaddedDigit(n, w);
    } else {
      assert w > 1 by {
        assert Pow10(0) == 1;
      }
      assert Pow10(w) == 10 * Pow10(w - 1);
      PaddedSnoc(n, w);
      PaddedIsFixed(n / 10, w - 1);
    }
  }

  lemma FixedSnoc(n: nat, w: nat)
    requires w > 0
    ensures Fixed(n, w) == Fixed(n / 10, w - 1) + [Digit(n % 10)]
  {
  }

  lemma LexSnoc(s: string, t: string, x: nat, y: nat)
    requires |s| == |t| && x <= 9 && y <= 9
    ensures LexLess(s + [Digit(x)], t + [Digit(y)]) <==> LexLess(s, t) || (s == t && x < y)
    ensures s + [Digit(x)] == t + [Digit(y)] <==> s == t && x == y
  {
    LexConcat(s, t, [Digit(x)], [Digit(y)]);
    assert LexLess([Digit(x)], [Digit(y)]) <==> x < y;
    hide LexLess;
    var u, v := s + [Digit(x)], t + [Digit(y)];
    assert u[..|s|] == s && v[..|t|] == t && u[|s|] == Digit(x) && v[|t|] == Digit(y);
  }

  lemma {:induction false} FixedOrder(a: nat, b: nat, w: nat)
    requires a < Pow10(w) && b < Pow10(w)
    ensures LexLess(Fixed(a, w), Fixed(b, w)) <==> a < b
    ensures Fixed(a, w) == Fixed(b, w) <==> a == b
  {
    if w > 0 {
      FixedOrder(a / 10, b / 10, w - 1);
      FixedSnoc(a, w);
      FixedSnoc(b, w);
      hide Fixed, Pow10;
      LexSnoc(Fixed(a / 10, w - 1), Fixed(b / 10, w - 1), a % 10, b % 10);
    }
  }

  /** A number printed at a fixed width, followed by a separator. */
  datatype Field = Field(value: nat, width: nat, sep: string)

  function Rendered(fs: seq<Field>): string {
    if fs == [] then "" else Fixed(fs[0].value, fs[0].width) + fs[0].sep + Rendered(fs[1..])
  }

  predicate SameLayout(fs: seq<Field>, gs: seq<Field>) {
    && |fs| == |gs|
    && forall i :: 0 <= i < |fs| ==>
         && fs[i].width == gs[i].width && fs[i].sep == gs[i].sep
         && fs[i].value < Pow10(fs[i].width) && gs[i].value < Pow10(gs[i].width)
  }

  predicate FieldsLess(fs: seq<Field>, gs: seq<Field>)
    requires |fs| == |gs|
  {
    fs != [] && (fs[0].value < gs[0].value || (fs[0].value == gs[0].value && FieldsLess(fs[1..], gs[1..])))
  }

  lemma RenderedCons(fs: seq<Field>)
    requires fs != []
    ensures Rendered(fs) == Fixed(fs[0].value, fs[0].width) + (fs[0].sep + Rendered(fs[1..]))
  {
  }

  lemma {:induction false} RenderedOrder(fs: seq<Field>, gs: seq<Field>)
    requires SameLayout(fs, gs)
    ensures LexLess(Rendered(fs), Rendered(gs)) <==> FieldsLess(fs, gs)
  {
    if fs != [] {
      var f, g := fs[0], gs[0];
      RenderedOrder(fs[1..], gs[1..]);
      RenderedCons(fs);
      RenderedCons(gs);
      hide Fixed, LexLess, Rendered, Pow10;
      FixedOrder(f.value, g.value, f.width);
      LexConcat(f.sep, g.sep, Rendered(fs[1..]), Rendered(gs[1..]));
      LexIrreflexive(f.sep);
      LexConcat(Fixed(f.value, f.width), Fixed(g.value, g.width), f.sep + Rendered(fs[1..]), g.sep + Rendered(gs[1..]));
    }
  }

  // ---- The timestamp as fields ----

  /** The instant in whole milliseconds that a timestamp shows. */
  function MillisOf(nanos: int): nat {
    AsNat(nanos) / NANOS_PER_MILLI
  }

  /** First day number of the year 10000. */
  const DAYS_TO_10000: int := 2_932_897
  const MILLIS_TO_10000: int := DAYS_TO_10000 * MILLIS_PER_DAY

  function TimeOfDayFields(ms: nat): seq<Field>
    requires ms < MILLIS_PER_DAY
  {
    [Field(ms / 3_600_000, 2, ":"), Field(ms % 3_600_000 / 60_000, 2, ":"), Field(ms % 60_000 / 1000, 2, "."),
     Field(ms % 1000, 3, "")]
  }

  function DateFields(days: nat): seq<Field> {
    var d := DateOfDay(days);
    [Field(AsNat(d.year), 4, "-"), Field(AsNat(d.month), 2, "-"), Field(AsNat(d.day), 2, " ")]
  }

  function TimestampFields(ms: nat): seq<Field> {
    DateFields(ms / MILLIS_PER_DAY) + TimeOfDayFields(ms % MILLIS_PER_DAY)
  }

  lemma Dec31InMarchYear()
    ensures MarchDate(9999, 305) == Date(9999, 12, 31)
  {
  }

  lemma LastDayOf9999()
    ensures DateOfDay(DAYS_TO_10000 - 1) == Date(9999, 12, 31)
  {
    hide CivilInEra, MarchDate, Civil, DateOfDay;
    CivilAt(24, 146_036);
    CivilInEraAt(24, 146_036, 399);
    CivilIsDateOfDay(DAYS_TO_10000 - 1);
    Dec31InMarchYear();
  }

  lemma DayZero()
    ensures DateOfDay(0) == Date(1970, 1, 1)
  {
  }

  lemma DateInRange(days: nat)
    requires days < DAYS_TO_10000
    ensures CivilFromDays(days) == DateOfDay(days)
    ensures var d := DateOfDay(days); 1970 <= d.year <= 9999 && 1 <= d.month <= 12 && 1 <= d.day <= 31
  {
    hide DateOfDay, CivilFromDays;
    CivilFromDaysIsTheCalendar(days);
    LastDayOf9999();
    DayZero();
    if 0 < days {
      DatesIncrease(0, days);
    }
    if days < DAYS_TO_10000 - 1 {
      DatesIncrease(days, DAYS_TO_10000 - 1);
    }
  }

  /** The nested divisions agree: splitting nanoseconds is splitting milliseconds. */
  lemma SplitNanos(dur: nat)
    ensures dur / NANOS_PER_SEC == dur / NANOS_PER_MILLI / 1000
    ensures dur % NANOS_PER_SEC / NANOS_PER_MILLI == dur / NANOS_PER_MILLI % 1000
  {
    var s, n := dur / NANOS_PER_SEC, dur % NANOS_PER_SEC;
    assert dur / NANOS_PER_MILLI == 1000 * s + n / NANOS_PER_MILLI;
  }

  lemma SplitMillis(ms: nat)
    ensures ms / 1000 / 86_400 == ms / MILLIS_PER_DAY
    ensures ms / 1000 % 86_400 == ms % MILLIS_PER_DAY / 1000
    ensures ms % 1000 == ms % MILLIS_PER_DAY % 1000
  {
    var d, r := ms / MILLIS_PER_DAY, ms % MILLIS_PER_DAY;
    assert ms / 1000 == 86_400 * d + r / 1000;
  }

  lemma SplitHour(q: nat)
    requires q < 3_600_000
    ensures q / 1000 / 60 == q / 60_000
  {
  }

  lemma SplitDay(r: nat)
    requires r < MILLIS_PER_DAY
    ensures r / 1000 / 3600 == r / 3_600_000
    ensures r / 1000 % 3600 / 60 == r % 3_600_000 / 60_000
    ensures r / 1000 % 60 == r % 60_000 / 1000
  {
    var h, q := r / 3_600_000, r % 3_600_000;
    assert r / 1000 == 3600 * h + q / 1000;
    var m, p := r / 60_000, r % 60_000;
    assert r / 1000 == 60 * m + p / 1000;
    SplitHour(q);
  }

  lemma SmallPowers()
    ensures Pow10(2) == 100 && Pow10(3) == 1000 && Pow10(4) == 10_000
  {
    assert Pow10(1) == 10 && Pow10(2) == 10 * Pow10(1) && Pow10(3) == 10 * Pow10(2);
  }

  lemma RenderedNil(fs: seq<Field>)
    ensures Rendered(fs[|fs|..]) == ""
  {
  }

  function FixedCell(f: Field): string {
    Fixed(f.value, f.width) + f.sep
  }

  lemma RenderedTail(fs: seq<Field>, i: nat)
    requires i < |fs|
    ensures Rendered(fs[i..]) == FixedCell(fs[i]) + Rendered(fs[i + 1..])
  {
    assert fs[i..][1..] == fs[i + 1..];
  }

  lemma RenderedLast4(fs: seq<Field>)
    requires |fs| == 7
    ensures Rendered(fs[3..]) == FixedCell(fs[3]) + (FixedCell(fs[4]) + (FixedCell(fs[5]) + FixedCell(fs[6])))
  {
    hide FixedCell, Rendered;
    RenderedTail(fs, 3);
    RenderedTail(fs, 4);
    RenderedTail(fs, 5);
    RenderedTail(fs, 6);
    RenderedNil(fs);
    assert FixedCell(fs[6]) + "" == FixedCell(fs[6]);
  }

  lemma Rendered7(fs: seq<Field>)
    requires |fs| == 7
    ensures Rendered(fs) == FixedCell(fs[0]) + (FixedCell(fs[1]) + (FixedCell(fs[2]) + (FixedCell(fs[3])
                            + (FixedCell(fs[4]) + (FixedCell(fs[5]) + FixedCell(fs[6]))))))
  {
    hide FixedCell, Rendered;
    RenderedTail(fs, 0);
    RenderedTail(fs, 1);
    RenderedTail(fs, 2);
    RenderedLast4(fs);
    assert fs[0..] == fs;
  }

  lemma TimestampIsFields(nanos: int)
    requires MillisOf(nanos) < MILLIS_TO_10000
    ensures FormatTimestampUtc(nanos) == Rendered(TimestampFields(MillisOf(nanos)))
  {
    hide Fixed, Padded, Rendered, DateOfDay, CivilFromDays, Pow10;
    var ms := MillisOf(nanos);
    SplitNanos(AsNat(nanos));
    SplitMillis(ms);
    SplitDay(ms % MILLIS_PER_DAY);
    DateInRange(ms / MILLIS_PER_DAY);
    SmallPowers();
    var fs := TimestampFields(ms);
    PaddedIsFixed(fs[0].value, 4);
    PaddedIsFixed(fs[1].value, 2);
    PaddedIsFixed(fs[2].value, 2);
    PaddedIsFixed(fs[3].value, 2);
    PaddedIsFixed(fs[4].value, 2);
    PaddedIsFixed(fs[5].value, 2);
    PaddedIsFixed(fs[6].value, 3);
    Rendered7(fs);
  }

  // ---- Order of instants is order of fields ----

  lemma SplitByHour(a: nat)
    ensures a == a / 3_600_000 * 3_600_000 + a % 3_600_000 / 60_000 * 60_000 + a % 60_000 / 1000 * 1000 + a % 1000
    ensures 0 <= a % 3_600_000 / 60_000 < 60 && 0 <= a % 60_000 / 1000 < 60 && 0 <= a % 1000 < 1000
  {
    var h, r := a / 3_600_000, a % 3_600_000;
    var m, s := r / 60_000, r % 60_000;
    var t, ms := s / 1000, s % 1000;
    DivModUnique(a, 60 * h + m, s, 60_000);
    DivModUnique(a, 60 * (60 * h + m) + t, ms, 1000);
  }

  lemma LessTail(f: seq<Field>, g: seq<Field>, i: nat)
    requires |f| == |g| && i < |f|
    ensures FieldsLess(f[i..], g[i..])
            <==> f[i].value < g[i].value || (f[i].value == g[i].value && FieldsLess(f[i + 1..], g[i + 1..]))
  {
    assert f[i..][1..] == f[i + 1..] && g[i..][1..] == g[i + 1..];
  }

  lemma LessNil(f: seq<Field>, g: seq<Field>)
    requires |f| == |g|
    ensures !FieldsLess(f[|f|..], g[|g|..])
  {
  }

  lemma Less4(f: seq<Field>, g: seq<Field>)
    requires |f| == |g| == 4
    ensures FieldsLess(f, g) <==>
            || f[0].value < g[0].value
            || (f[0].value == g[0].value && (f[1].value < g[1].value
            || (f[1].value == g[1].value && (f[2].value < g[2].value
            || (f[2].value == g[2].value && f[3].value < g[3].value)))))
  {
    hide FieldsLess;
    LessTail(f, g, 0);
    LessTail(f, g, 1);
    LessTail(f, g, 2);
    LessTail(f, g, 3);
    LessNil(f, g);
    assert f[0..] == f && g[0..] == g;
  }

  lemma TimeOfDayOrder(a: nat, b: nat)
    requires a < MILLIS_PER_DAY && b < MILLIS_PER_DAY
    ensures FieldsLess(TimeOfDayFields(a), TimeOfDayFields(b)) <==> a < b
  {
    var f, g := TimeOfDayFields(a), TimeOfDayFields(b);
    Less4(f, g);
    SplitByHour(a);
    SplitByHour(b);
  }

  lemma Less3(f: seq<Field>, g: seq<Field>)
    requires |f| == |g| >= 3
    ensures FieldsLess(f, g) <==>
            || f[0].value < g[0].value
            || (f[0].value == g[0].value && (f[1].value < g[1].value
            || (f[1].value == g[1].value && (f[2].value < g[2].value
            || (f[2].value == g[2].value && FieldsLess(f[3..], g[3..]))))))
  {
    hide FieldsLess;
    LessTail(f, g, 0);
    LessTail(f, g, 1);
    LessTail(f, g, 2);
    assert f[0..] == f && g[0..] == g;
  }

  lemma FieldsOrder(a: nat, b: nat)
    requires a < MILLIS_TO_10000 && b < MILLIS_TO_10000
    ensures FieldsLess(TimestampFields(a), TimestampFields(b)) <==> a < b
  {
    hide DateOfDay, FieldsLess, CivilFromDays;
    var m, n := a / MILLIS_PER_DAY, b / MILLIS_PER_DAY;
    DateInRange(m);
    DateInRange(n);
    Less3(TimestampFields(a), TimestampFields(b));
    assert TimestampFields(a)[3..] == TimeOfDayFields(a % MILLIS_PER_DAY);
    assert TimestampFields(b)[3..] == TimeOfDayFields(b % MILLIS_PER_DAY);
    TimeOfDayOrder(a % MILLIS_PER_DAY, b % MILLIS_PER_DAY);
    if m < n {
      DatesIncrease(m, n);
    } else if n < m {
      DatesIncrease(n, m);
    }
  }

  lemma TimestampLayout(a: nat, b: nat)
    requires a < MILLIS_TO_10000 && b < MILLIS_TO_10000
    ensures SameLayout(TimestampFields(a), TimestampFields(b))
  {
    hide DateOfDay, CivilFromDays, Pow10;
    SmallPowers();
    DateInRange(a / MILLIS_PER_DAY);
    DateInRange(b / MILLIS_PER_DAY);
  }

  // ---- Main results ----

  /** From the epoch to the end of 9999 timestamps compare as strings exactly as their instants compare in
      milliseconds. */
  lemma TimestampsSortByTime(x: int, y: int)
    requires MillisOf(x) < MILLIS_TO_10000 && MillisOf(y) < MILLIS_TO_10000
    ensures LexLess(FormatTimestampUtc(x), FormatTimestampUtc(y)) <==> MillisOf(x) < MillisOf(y)
    ensures FormatTimestampUtc(x) == FormatTimestampUtc(y) <==> MillisOf(x) == MillisOf(y)
  {
    hide FormatTimestampUtc, LexLess, Rendered, TimestampFields, SameLayout, FieldsLess;
    TimestampIsFields(x);
    TimestampIsFields(y);
    TimestampLayout(MillisOf(x), MillisOf(y));
    TimestampLayout(MillisOf(y), MillisOf(x));
    RenderedOrder(TimestampFields(MillisOf(x)), TimestampFields(MillisOf(y)));
    RenderedOrder(TimestampFields(MillisOf(y)), TimestampFields(MillisOf(x)));
    FieldsOrder(MillisOf(x), MillisOf(y));
    FieldsOrder(MillisOf(y), MillisOf(x));
    LexIrreflexive(FormatTimestampUtc(x));
  }

  lemma TimestampWidth(nanos: int)
    requires MillisOf(nanos) < MILLIS_TO_10000
    ensures |FormatTimestampUtc(nanos)| == 23
  {
    hide Fixed, Rendered, FormatTimestampUtc;
    TimestampIsFields(nanos);
    Rendered7(TimestampFields(MillisOf(nanos)));
  }

  lemma FirstDigitIsTheYears(nanos: nat, days: nat, year: nat)
    requires nanos / NANOS_PER_SEC / 86_400 == days && CivilFromDays(days).year == year
    requires Padded(year, 4) != ""
    ensures FormatTimestampUtc(nanos) != "" && FormatTimestampUtc(nanos)[0] == Padded(year, 4)[0]
  {
    hide CivilFromDays, Padded;
  }

  lemma NextYear()
    requires DateOfDay(DAYS_TO_10000 - 1) == Date(9999, 12, 31)
    ensures DateOfDay(DAYS_TO_10000) == Date(10_000, 1, 1)
  {
  }

  lemma DecimalNotEmpty(n: nat)
    ensures Decimal(n) != ""
  {
  }

  lemma DecimalGrows(n: nat)
    requires n >= 10
    ensures |Decimal(n)| == |Decimal(n / 10)| + 1 && Decimal(n)[0] == Decimal(n / 10)[0]
  {
    DecimalNotEmpty(n / 10);
  }

  lemma FirstDigits()
    ensures Padded(10_000, 4) != "" && Padded(9999, 4) != ""
    ensures Padded(10_000, 4)[0] == '1' && Padded(9999, 4)[0] == '9'
  {
    assert Decimal(1) == "1" && Decimal(9) == "9";
    hide Decimal;
    DecimalGrows(10);
    DecimalGrows(100);
    DecimalGrows(1000);
    DecimalGrows(10_000);
    DecimalGrows(99);
    DecimalGrows(999);
    DecimalGrows(9999);
  }

  /** One millisecond later, in the year 10000, the order breaks: the bound on the instants is the last one that
      works. */
  lemma Year10000SortsBeforeYear9999()
    ensures LexLess(FormatTimestampUtc(MILLIS_TO_10000 * NANOS_PER_MILLI),
                    FormatTimestampUtc((MILLIS_TO_10000 - 1) * NANOS_PER_MILLI))
  {
    hide DateOfDay, CivilFromDays, FormatTimestampUtc;
    LastDayOf9999();
    NextYear();
    CivilFromDaysIsTheCalendar(DAYS_TO_10000);
    CivilFromDaysIsTheCalendar(DAYS_TO_10000 - 1);
    FirstDigits();
    FirstDigitIsTheYears(MILLIS_TO_10000 * NANOS_PER_MILLI, DAYS_TO_10000, 10_000);
    FirstDigitIsTheYears((MILLIS_TO_10000 - 1) * NANOS_PER_MILLI, DAYS_TO_10000 - 1, 9999);
  }
}
