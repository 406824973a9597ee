/** Monthly partitions: calendar arithmetic, names, and the maintenance run. */
module Partitions {
  import opened Wrappers
  import opened Decimal

  // ---- the calendar -----------------------------------------------------------

  datatype Date = Date(year: int, month: int, day: int)

  predicate IsLeap(year: int) { year % 4 == 0 && (year % 100 != 0 || year % 400 == 0) }

  function DaysIn(year: int, month: int): int {
    if month == 2 then (if IsLeap(year) then 29 else 28)
    else if month == 4 || month == 6 || month == 9 || month == 11 then 30
    else 31
  }

  predicate ValidDate(d: Date) {
    1 <= d.month <= 12 && 1 <= d.day <= DaysIn(d.year, d.month)
  }

  predicate Before(a: Date, b: Date) {
    a.year < b.year || (a.year == b.year && (a.month < b.month || (a.month == b.month && a.day < b.day)))
  }

  function Yesterday(d: Date): Date {
    if d.day > 1 then d.(day := d.day - 1)
    else if d.month > 1 then Date(d.year, d.month - 1, DaysIn(d.year, d.month - 1))
    else Date(d.year - 1, 12, 31)
  }

  function DaysBefore(d: Date, n: nat): Date {
    if n == 0 then d else Yesterday(DaysBefore(d, n - 1))
  }

  // Months counted from year 0.
  function MonthIndex(d: Date): int { d.year * 12 + d.month - 1 }

  function MonthStart(d: Date): Date { d.(day := 1) }

  function AddMonths(d: Date, months: int): Date {
    var index := d.month - 1 + months;
    Date(d.year + index / 12, index % 12 + 1, 1)
  }

  lemma AddMonthsMoves(d: Date, months: int)
    ensures MonthIndex(AddMonths(d, months)) == MonthIndex(d) + months
    ensures ValidDate(AddMonths(d, months)) && AddMonths(d, months).day == 1
  {
    var index := d.month - 1 + months;
    assert index == 12 * (index / 12) + index % 12;
  }

  lemma FirstsAreEqual(a: Date, b: Date)
    requires ValidDate(a) && ValidDate(b) && a.day == 1 && b.day == 1 && MonthIndex(a) == MonthIndex(b)
    ensures a == b
  {
  }

  /** Adding months composes, whatever the signs. */
  lemma AddMonthsComposes(d: Date, a: int, b: int)
    ensures AddMonths(AddMonths(d, a), b) == AddMonths(d, a + b)
  {
    AddMonthsMoves(d, a);
    AddMonthsMoves(AddMonths(d, a), b);
    AddMonthsMoves(d, a + b);
    FirstsAreEqual(AddMonths(AddMonths(d, a), b), AddMonths(d, a + b));
  }

  // In the month that begins `months` after the month of `d`: its start is not after
  // the date, its end is.
  predicate InMonth(x: Date, d: Date, months: int) {
    !Before(x, AddMonths(d, months)) && Before(x, AddMonths(d, months + 1))
  }

  /** Month ranges tile the calendar: every date lies in the range of its own month and
      in no other, so there is no gap and no overlap. */
  lemma MonthsTile(x: Date, d: Date, months: int)
    requires ValidDate(x)
    ensures InMonth(x, d, months) <==> months == MonthIndex(x) - MonthIndex(d)
  {
    AddMonthsMoves(d, months);
    AddMonthsMoves(d, months + 1);
    BeforeFirst(x, AddMonths(d, months));
    BeforeFirst(x, AddMonths(d, months + 1));
  }

  lemma BeforeFirst(x: Date, first: Date)
    requires ValidDate(x) && ValidDate(first) && first.day == 1
    ensures Before(x, first) <==> MonthIndex(x) < MonthIndex(first)
  {
  }

  lemma {:induction false} DaysBeforeGoesBack(d: Date, n: nat)
    requires ValidDate(d)
    ensures ValidDate(DaysBefore(d, n)) && !Before(d, DaysBefore(d, n))
    ensures MonthIndex(DaysBefore(d, n)) <= MonthIndex(d)
  {
    if n > 0 {
      DaysBeforeGoesBack(d, n - 1);
    }
  }

  // ---- days counted -----------------------------------------------------------

  // Leap years up to and including this one.
  function LeapsTo(year: int): int { year / 4 - year / 100 + year / 400 }

  // Days of an ordinary year before the month.
  function DaysToMonth(month: int): int {
    match month
    case 1 => 0
    case 2 => 31
    case 3 => 59
    case 4 => 90
    case 5 => 120
    case 6 => 151
    case 7 => 181
    case 8 => 212
    case 9 => 243
    case 10 => 273
    case 11 => 304
    case _ => 334
  }

  // The number of a day, counted from the first of January of the year 1.
  function DayNumber(d: Date): int {
    365 * (d.year - 1) + LeapsTo(d.year - 1)
    + DaysToMonth(d.month) + (if d.month > 2 then LeapsTo(d.year) - LeapsTo(d.year - 1) else 0)
    + d.day
  }

  lemma Quotient(year: int, n: int)
    requires n > 0
    ensures year / n - (year - 1) / n == if year % n == 0 then 1 else 0
  {
    var q, r := (year - 1) / n, (year - 1) % n;
    assert year - 1 == n * q + r && 0 <= r < n;
    if r == n - 1 {
      assert year == n * (q + 1);
      QuotientIs(year, n, q + 1, 0);
    } else {
      assert year == n * q + (r + 1);
      QuotientIs(year, n, q, r + 1);
    }
  }

  lemma ProductIsAtLeast(n: int, k: int)
    requires n > 0 && k > 0
    ensures n * k >= n
  {
  }

  lemma BigMultiple(n: int, k: int)
    requires n > 0 && k != 0
    ensures n * k >= n || n * k <= -n
  {
    if k > 0 {
      ProductIsAtLeast(n, k);
    } else {
      ProductIsAtLeast(n, -k);
      assert n * -k == -(n * k);
    }
  }

  lemma QuotientIs(a: int, n: int, q: int, r: int)
    requires n > 0 && a == n * q + r && 0 <= r < n
    ensures a / n == q && a % n == r
  {
    var k := a / n - q;
    assert n * k == n * (a / n) - n * q;
    if k != 0 { BigMultiple(n, k); }
  }

  lemma LeapsStep(year: int)
    ensures LeapsTo(year) - LeapsTo(year - 1) == if IsLeap(year) then 1 else 0
  {
    Quotient(year, 4);
    Quotient(year, 100);
    Quotient(year, 400);
    Factor(year, 4, 25);
    Factor(year, 100, 4);
  }

  lemma Factor(year: int, a: int, b: int)
    requires a > 0 && b > 0 && a * b > 0
    ensures year % (a * b) == 0 ==> year % a == 0
  {
    if year % (a * b) == 0 {
      var q := year / (a * b);
      assert year == (a * b) * q == a * (b * q);
      QuotientIs(year, a, b * q, 0);
    }
  }

  lemma YesterdayIsOneLess(d: Date)
    requires ValidDate(d)
    ensures ValidDate(Yesterday(d)) && DayNumber(Yesterday(d)) == DayNumber(d) - 1
  {
    hide LeapsTo, IsLeap;
    LeapsStep(d.year);
    LeapsStep(d.year - 1);
  }

  /** Going back `n` days goes back by exactly `n` in the count of days. */
  lemma {:induction false} DaysBeforeCounts(d: Date, n: nat)
    requires ValidDate(d)
    ensures ValidDate(DaysBefore(d, n)) && DayNumber(DaysBefore(d, n)) == DayNumber(d) - n
  {
    hide DayNumber;
    if n > 0 {
      DaysBeforeCounts(d, n - 1);
      YesterdayIsOneLess(DaysBefore(d, n - 1));
    }
  }

  lemma NextFirst(d: Date)
    requires ValidDate(d)
    ensures FirstOf(MonthIndex(d) + 1)
         == if d.month == 12 then Date(d.year + 1, 1, 1) else Date(d.year, d.month + 1, 1)
  {
    if d.month == 12 {
      QuotientIs(MonthIndex(d) + 1, 12, d.year + 1, 0);
    } else {
      QuotientIs(MonthIndex(d) + 1, 12, d.year, d.month);
    }
  }

  lemma MonthHolds(d: Date)
    requires ValidDate(d)
    ensures DayNumber(MonthStart(d)) <= DayNumber(d) < DayNumber(FirstOf(MonthIndex(d) + 1))
  {
    hide LeapsTo, FirstOf, IsLeap;
    LeapsStep(d.year);
    NextFirst(d);
  }

  lemma MonthStartIs(d: Date)
    requires ValidDate(d)
    ensures FirstOf(MonthIndex(d)) == MonthStart(d)
  {
    QuotientIs(MonthIndex(d), 12, d.year, d.month - 1);
  }

  lemma {:induction false} FirstsRise(m: int, n: int)
    requires m <= n
    ensures DayNumber(FirstOf(m)) <= DayNumber(FirstOf(n)) && (m < n ==> DayNumber(FirstOf(m)) < DayNumber(FirstOf(n)))
    decreases n - m
  {
    hide DayNumber;
    if m < n {
      FirstsRise(m, n - 1);
      FirstOfIs(n - 1);
      MonthHolds(FirstOf(n - 1));
      assert MonthStart(FirstOf(n - 1)) == FirstOf(n - 1);
    }
  }

  /** The order of dates is that of their numbers. */
  lemma BeforeIsFewerDays(a: Date, b: Date)
    requires ValidDate(a) && ValidDate(b)
    ensures Before(a, b) <==> DayNumber(a) < DayNumber(b)
  {
    hide DayNumber;
    if MonthIndex(a) == MonthIndex(b) {
      SameMonth(a, b);
    } else if MonthIndex(a) < MonthIndex(b) {
      LaterMonth(a, b);
    } else {
      LaterMonth(b, a);
    }
  }

  lemma SameMonth(a: Date, b: Date)
    requires ValidDate(a) && ValidDate(b) && MonthIndex(a) == MonthIndex(b)
    ensures Before(a, b) <==> DayNumber(a) < DayNumber(b)
  {
    assert a.year == b.year && a.month == b.month;
  }

  lemma LaterMonth(a: Date, b: Date)
    requires ValidDate(a) && ValidDate(b) && MonthIndex(a) < MonthIndex(b)
    ensures Before(a, b) && DayNumber(a) < DayNumber(b)
  {
    MonthHolds(a);
    FirstsRise(MonthIndex(a) + 1, MonthIndex(b));
    MonthHolds(b);
    MonthStartIs(b);
  }

  // ---- names ------------------------------------------------------------------

  const PARENT := "alerts"

  function Pad2(n: int): string { if n < 10 then "0" + IntText(n) else IntText(n) }

  function PartitionName(start: Date): string {
    PARENT + "_" + IntText(start.year) + "_" + Pad2(start.month)
  }

  // Digits only; anything else is not recognised.
  function ReadNumber(s: string): Option<nat> {
    if s != [] && AllDigits(s) then Some(NatValue(s)) else None
  }

  // Negative slice bounds, as the language reads them.
  function FromEnd(s: string, n: nat): nat { if n <= |s| then |s| - n else 0 }

  function ReadName(name: string): Option<(nat, nat)> {
    var year := ReadNumber(name[FromEnd(name, 7)..FromEnd(name, 3)]);
    var month := ReadNumber(name[FromEnd(name, 2)..]);
    if year.Some? && month.Some? then Some((year.value, month.value)) else None
  }

  lemma FourDigits(n: nat)
    requires 1000 <= n <= 9999
    ensures |NatText(n)| == 4
  {
    assert NatText(n / 10 / 10 / 10) == [DIGITS[n / 10 / 10 / 10]];
    assert NatText(n / 10 / 10) == NatText(n / 10 / 10 / 10) + [DIGITS[n / 10 / 10 % 10]];
    assert NatText(n / 10) == NatText(n / 10 / 10) + [DIGITS[n / 10 % 10]];
  }

  lemma TwoDigits(n: nat)
    requires n <= 99
    ensures |Pad2(n)| == 2 && AllDigits(Pad2(n)) && NatValue(Pad2(n)) == n
  {
    TextReadsBack(n);
    if n < 10 {
      assert Pad2(n) == ['0', DIGITS[n]];
      assert Pad2(n)[..1] == "0" && "0"[..0] == "";
      assert NatValue("") == 0;
      assert NatValue("0") == 0;
    } else {
      assert NatText(n / 10) == [DIGITS[n / 10]];
    }
  }

  lemma FourDigitNameReadsBack(start: Date)
    requires 1000 <= start.year <= 9999 && 1 <= start.month <= 12
    ensures ReadName(PartitionName(start)) == Some((start.year, start.month))
  {
    FourDigits(start.year);
    TwoDigits(start.month);
    TextReadsBack(start.year);
    var name := PartitionName(start);
    assert |name| == 14;
    assert name[7..11] == NatText(start.year);
    assert name[12..] == Pad2(start.month);
  }

  lemma AtMostThreeDigits(n: nat)
    requires n < 1000
    ensures 1 <= |NatText(n)| <= 3
  {
    assert NatText(n / 10 / 10) == [DIGITS[n / 10 / 10]];
    if n >= 10 {
      assert NatText(n) == NatText(n / 10) + [DIGITS[n % 10]];
    }
  }

  // A shorter year leaves the separator among the four characters read as the year.
  lemma ShortYearIsUnread(start: Date)
    requires 1 <= start.year < 1000 && 1 <= start.month <= 12
    ensures ReadName(PartitionName(start)) == None
  {
    AtMostThreeDigits(start.year);
    TwoDigits(start.month);
    var name, n := PartitionName(start), |NatText(start.year)|;
    assert |name| == 10 + n && name[6] == '_';
    var year := name[FromEnd(name, 7)..FromEnd(name, 3)];
    assert year[6 - (3 + n)] == '_';
    assert !IsDigit('_');
  }

  /** Over every year the calendar has, the name reads back as the month it was made
      from exactly when the year has four digits. */
  lemma NameReadsBackIffFourDigits(start: Date)
    requires 1 <= start.year <= 9999 && 1 <= start.month <= 12
    ensures ReadName(PartitionName(start)) == Some((start.year, start.month)) <==> start.year >= 1000
  {
    if start.year >= 1000 {
      FourDigitNameReadsBack(start);
    } else {
      ShortYearIsUnread(start);
    }
  }

  // ---- months by index --------------------------------------------------------

  // The first day of a month given by its index.
  function FirstOf(m: int): Date { Date(m / 12, m % 12 + 1, 1) }

  const FIRST_MONTH := 1000 * 12
  // The last month whose next month is in the calendar too.
  const LAST_MONTH := 9999 * 12 + 10

  lemma FirstOfIs(m: int)
    ensures MonthIndex(FirstOf(m)) == m && FirstOf(m).day == 1 && 1 <= FirstOf(m).month <= 12
    ensures FIRST_MONTH <= m <= LAST_MONTH ==> 1000 <= FirstOf(m).year <= 9999
    ensures AddMonths(FirstOf(m), 1) == FirstOf(m + 1)
  {
    AddMonthsMoves(FirstOf(m), 1);
    FirstsAreEqual(AddMonths(FirstOf(m), 1), FirstOf(m + 1));
  }

  function Premade(today: Date, offset: int): Date { AddMonths(MonthStart(today), offset) }

  lemma PremadeMonth(today: Date, k: int)
    requires ValidDate(today)
    ensures Premade(today, k) == FirstOf(MonthIndex(today) + k)
  {
    AddMonthsMoves(MonthStart(today), k);
    FirstOfIs(MonthIndex(today) + k);
    FirstsAreEqual(Premade(today, k), FirstOf(MonthIndex(today) + k));
  }

  function Cutoff(today: Date, retention: nat): Date { MonthStart(DaysBefore(today, retention)) }

  // ---- judging a name ---------------------------------------------------------

  datatype Verdict = Keep | Unrecognised | Drop | Broken

  // The calendar runs from the year 1 to the year 9999; outside it a date raises.
  predicate Exists(year: int, month: int) { 1 <= year <= 9999 && 1 <= month <= 12 }

  // What the sweep decides about one name; a month outside the calendar raises, and so
  // does one whose next month is.
  function Judge(name: string, cutoff: Date): Verdict {
    var read := ReadName(name);
    if read.None? then Unrecognised
    else if !Exists(read.value.0, read.value.1) then Broken
    else
      var end := AddMonths(Date(read.value.0, read.value.1, 1), 1);
      if !Exists(end.year, end.month) then Broken
      else if !Before(cutoff, end) then Drop
      else Keep
  }

  lemma {:induction false} ValueIsBounded(s: string)
    requires AllDigits(s)
    ensures NatValue(s) < PowerOfTen(|s|)
  {
    if s != [] { ValueIsBounded(s[..|s| - 1]); }
  }

  /** Exactly which names make a sweep raise: those that read as a month outside 1 to 12,
      as any month of the year 0, or as December 9999. */
  lemma RaisesExactly(name: string, cutoff: Date)
    ensures Judge(name, cutoff) == Broken <==>
      var read := ReadName(name);
      read.Some? &&
      (!(1 <= read.value.1 <= 12) || read.value.0 == 0 || (read.value.0 == 9999 && read.value.1 == 12))
  {
    var read := ReadName(name);
    if read.Some? {
      var year := name[FromEnd(name, 7)..FromEnd(name, 3)];
      ValueIsBounded(year);
      assert |year| <= 4;
      assert PowerOfTen(1) == 10 && PowerOfTen(2) == 100 && PowerOfTen(3) == 1000 && PowerOfTen(4) == 10000;
      AddMonthsMoves(Date(read.value.0, read.value.1, 1), 1);
    }
  }

  lemma ReadsAs(year: string, month: string)
    requires |year| == 4 && |month| == 2 && AllDigits(year) && AllDigits(month)
    ensures ReadName(PARENT + "_" + year + "_" + month) == Some((NatValue(year), NatValue(month)))
  {
    var name := PARENT + "_" + year + "_" + month;
    assert |name| == 14 && name[7..11] == year && name[12..] == month;
  }

  lemma ValueOfTwo(a: char, b: char)
    requires IsDigit(a) && IsDigit(b)
    ensures NatValue([a, b]) == 10 * DigitValue(a) + DigitValue(b)
  {
    assert [a, b][..1] == [a] && [a][..0] == [];
    assert NatValue([]) == 0;
    assert NatValue([a]) == DigitValue(a);
  }

  lemma ValueOfFour(a: char, b: char, c: char, d: char)
    requires IsDigit(a) && IsDigit(b) && IsDigit(c) && IsDigit(d)
    ensures NatValue([a, b, c, d]) == 100 * NatValue([a, b]) + 10 * DigitValue(c) + DigitValue(d)
  {
    assert [a, b, c, d][..3] == [a, b, c] && [a, b, c][..2] == [a, b];
  }

  lemma ThirteenthMonthRaises(cutoff: Date)
    ensures Judge("alerts_2024_13", cutoff) == Broken
  {
    ValueOfTwo('2', '0');
    ValueOfFour('2', '0', '2', '4');
    ValueOfTwo('1', '3');
    ReadsAs("2024", "13");
    assert PARENT + "_" + "2024" + "_" + "13" == "alerts_2024_13";
    RaisesExactly("alerts_2024_13", cutoff);
  }

  lemma YearZeroRaises(cutoff: Date)
    ensures Judge("alerts_0000_05", cutoff) == Broken
  {
    ValueOfTwo('0', '0');
    ValueOfFour('0', '0', '0', '0');
    ReadsAs("0000", "05");
    assert PARENT + "_" + "0000" + "_" + "05" == "alerts_0000_05";
    RaisesExactly("alerts_0000_05", cutoff);
  }

  lemma LastMonthRaises(cutoff: Date)
    ensures Judge("alerts_9999_12", cutoff) == Broken
  {
    ValueOfTwo('9', '9');
    ValueOfFour('9', '9', '9', '9');
    ValueOfTwo('1', '2');
    ReadsAs("9999", "12");
    assert PARENT + "_" + "9999" + "_" + "12" == "alerts_9999_12";
    RaisesExactly("alerts_9999_12", cutoff);
  }

  // Three tables that would stop the sweep.
  lemma ThreeNamesRaise(cutoff: Date)
    ensures Judge("alerts_2024_13", cutoff) == Broken
    ensures Judge("alerts_0000_05", cutoff) == Broken
    ensures Judge("alerts_9999_12", cutoff) == Broken
  {
    hide Judge;
    ThirteenthMonthRaises(cutoff);
    YearZeroRaises(cutoff);
    LastMonthRaises(cutoff);
  }

  // A way of naming months and judging names. The maintenance below uses nothing of the
  // names but this; `MonthlyNames` is the one the program has.
  datatype Naming = Naming(write: Date -> string, judge: (string, Date) -> Verdict)

  function MonthlyNames(): Naming { Naming(start => PartitionName(start), (name, cutoff) => Judge(name, cutoff)) }

  predicate InCalendar(m: int) { FIRST_MONTH <= m <= LAST_MONTH }

  // No two months share a name, and a name is condemned exactly when its month ended by
  // the cutoff.
  ghost predicate Faithful(naming: Naming) {
    && (forall m, n {:trigger InCalendar(m), InCalendar(n)} | InCalendar(m) && InCalendar(n) && m < n ::
          naming.write(FirstOf(m)) != naming.write(FirstOf(n)))
    && (forall m, cutoff {:trigger InCalendar(m), ValidDate(cutoff)} | InCalendar(m) && ValidDate(cutoff) ::
          naming.judge(naming.write(FirstOf(m)), cutoff) == if m < MonthIndex(cutoff) then Drop else Keep)
  }

  lemma NamedMonth(m: int)
    requires FIRST_MONTH <= m <= LAST_MONTH
    ensures ReadName(PartitionName(FirstOf(m))) == Some((FirstOf(m).year, FirstOf(m).month))
  {
    FirstOfIs(m);
    FourDigitNameReadsBack(FirstOf(m));
  }

  lemma MonthNamesDiffer(m: int, n: int)
    requires FIRST_MONTH <= m <= LAST_MONTH && FIRST_MONTH <= n <= LAST_MONTH && m != n
    ensures PartitionName(FirstOf(m)) != PartitionName(FirstOf(n))
  {
    NamedMonth(m);
    NamedMonth(n);
    FirstOfIs(m);
    FirstOfIs(n);
  }

  lemma JudgeMonth(m: int, cutoff: Date)
    requires ValidDate(cutoff) && FIRST_MONTH <= m <= LAST_MONTH
    ensures Judge(PartitionName(FirstOf(m)), cutoff) == if m < MonthIndex(cutoff) then Drop else Keep
  {
    NamedMonth(m);
    FirstOfIs(m);
    var end := AddMonths(FirstOf(m), 1);
    AddMonthsMoves(FirstOf(m), 1);
    assert FirstOf(m) == Date(FirstOf(m).year, FirstOf(m).month, 1);
    BeforeFirst(cutoff, end);
  }

  /** The program's own names are faithful for every four-digit year. */
  lemma MonthlyNamesAreFaithful()
    ensures Faithful(MonthlyNames())
  {
    var naming := MonthlyNames();
    forall m, n | InCalendar(m) && InCalendar(n) && m < n ensures naming.write(FirstOf(m)) != naming.write(FirstOf(n)) {
      MonthNamesDiffer(m, n);
    }
    forall m, cutoff | InCalendar(m) && ValidDate(cutoff)
      ensures naming.judge(naming.write(FirstOf(m)), cutoff) == if m < MonthIndex(cutoff) then Drop else Keep
    {
      JudgeMonth(m, cutoff);
    }
  }

  // ---- maintenance ------------------------------------------------------------

  datatype Bounds = Bounds(from: Date, to: Date)

  // The partitions by name.
  type Catalogue = map<string, Bounds>

  // `create table if not exists`.
  function Created(naming: Naming, partitions: Catalogue, start: Date): Catalogue {
    if naming.write(start) in partitions then partitions
    else partitions[naming.write(start) := Bounds(start, AddMonths(start, 1))]
  }

  // How many months are made ahead is a setting (three unless changed), and so is the
  // retention in days (ninety): `premake` and `retention` below.

  // The first `n` of this month and the months after it.
  function Ensured(naming: Naming, partitions: Catalogue, today: Date, n: nat): Catalogue {
    if n == 0 then partitions
    else Created(naming, Ensured(naming, partitions, today, n - 1), Premade(today, n - 1))
  }

  function NamesOf(naming: Naming, today: Date, n: nat): seq<string> {
    if n == 0 then [] else NamesOf(naming, today, n - 1) + [naming.write(Premade(today, n - 1))]
  }

  /** The names made are those of this month and of the months after it, in order. */
  lemma {:induction false} NamesInOrder(naming: Naming, today: Date, n: nat)
    requires ValidDate(today)
    ensures |NamesOf(naming, today, n)| == n
    ensures forall k | 0 <= k < n :: NamesOf(naming, today, n)[k] == naming.write(FirstOf(MonthIndex(today) + k))
  {
    if n > 0 {
      NamesInOrder(naming, today, n - 1);
      PremadeMonth(today, n - 1);
    }
  }

  function Swept(naming: Naming, partitions: Catalogue, cutoff: Date): Catalogue {
    map name | name in partitions && naming.judge(name, cutoff) != Drop :: partitions[name]
  }

  ghost predicate Sweepable(naming: Naming, partitions: Catalogue, cutoff: Date) {
    forall name | name in partitions :: naming.judge(name, cutoff) != Broken
  }

  class Maintainer {
    const naming: Naming
    var partitions: Catalogue

    constructor (naming: Naming, partitions: Catalogue)
      ensures this.naming == naming && this.partitions == partitions
    {
      this.naming, this.partitions := naming, partitions;
    }

    /** Creates this month's partition and the next `premake`. */
    method EnsurePartitions(today: Date, premake: nat) returns (created: seq<string>)
      modifies this
      ensures partitions == Ensured(naming, old(partitions), today, premake + 1)
      ensures created == NamesOf(naming, today, premake + 1)
    {
      created := [];
      for offset := 0 to premake + 1
        invariant partitions == Ensured(naming, old(partitions), today, offset)
        invariant created == NamesOf(naming, today, offset)
      {
        partitions := Created(naming, partitions, Premade(today, offset));
        created := created + [naming.write(Premade(today, offset))];
      }
    }

    /** Drops every partition wholly before the cutoff, reading the names in whatever
        order the catalogue lists them; raises, changing nothing, exactly when some name
        is judged broken. */
    method DropExpired(today: Date, retention: nat, names: seq<string>) returns (dropped: seq<string>, raised: bool)
      requires forall name :: name in names <==> name in partitions
      modifies this
      ensures raised <==> !Sweepable(naming, old(partitions), Cutoff(today, retention))
      ensures partitions == if raised then old(partitions) else Swept(naming, old(partitions), Cutoff(today, retention))
      ensures !raised ==> forall name :: name in dropped <==> name in old(partitions) && name !in partitions
    {
      var cutoff := Cutoff(today, retention);
      dropped, raised := [], false;
      var left := partitions;
      for i := 0 to |names|
        invariant partitions == old(partitions)
        invariant forall k | 0 <= k < i :: naming.judge(names[k], cutoff) != Broken
        invariant forall name :: name in dropped <==> name in names[..i] && naming.judge(name, cutoff) == Drop
        invariant left == map name | name in partitions && name !in dropped :: partitions[name]
      {
        assert names[..i + 1] == names[..i] + [names[i]];
        var verdict := naming.judge(names[i], cutoff);
        if verdict == Broken {
          assert names[i] in names;
          return [], true;
        }
        if verdict == Drop {
          left := left - {names[i]};
          dropped := dropped + [names[i]];
        }
      }
      assert names[..|names|] == names;
      partitions := left;
    }
  }

  // ---- the lifecycle over months ----------------------------------------------

  // Exactly the months from `low` to `high`, each under its own name with its own bounds.
  function MonthsFrom(naming: Naming, low: int, high: int): Catalogue
    decreases high - low
  {
    if high < low then map[]
    else MonthsFrom(naming, low, high - 1)[naming.write(FirstOf(high)) := Bounds(FirstOf(high), FirstOf(high + 1))]
  }

  /** What the interval catalogue holds: every month of the interval under its own name
      with its own bounds. */
  lemma {:induction false} IntervalHolds(naming: Naming, low: int, high: int, m: int)
    requires Faithful(naming)
    requires FIRST_MONTH <= low && high <= LAST_MONTH && FIRST_MONTH <= m <= LAST_MONTH
    ensures naming.write(FirstOf(m)) in MonthsFrom(naming, low, high) <==> low <= m <= high
    ensures low <= m <= high ==>
      MonthsFrom(naming, low, high)[naming.write(FirstOf(m))] == Bounds(FirstOf(m), FirstOf(m + 1))
    decreases high - low
  {
    if low <= high {
      IntervalHolds(naming, low, high - 1, m);
      assert InCalendar(m) && InCalendar(high);
    }
  }

  /** And nothing else: one entry a month. */
  lemma {:induction false} IntervalSize(naming: Naming, low: int, high: int)
    requires Faithful(naming) && FIRST_MONTH <= low && high <= LAST_MONTH
    ensures |MonthsFrom(naming, low, high)| == Max(0, high - low + 1)
    decreases high - low
  {
    if low <= high {
      IntervalSize(naming, low, high - 1);
      IntervalHolds(naming, low, high - 1, high);
    }
  }

  lemma CreatedIs(naming: Naming, partitions: Catalogue, m: int)
    ensures Created(naming, partitions, FirstOf(m)) ==
      if naming.write(FirstOf(m)) in partitions then partitions
      else partitions[naming.write(FirstOf(m)) := Bounds(FirstOf(m), FirstOf(m + 1))]
  {
    FirstOfIs(m);
  }

  // Creating the month after the highest, or one already held.
  lemma CreateExtends(naming: Naming, low: int, high: int, m: int)
    requires Faithful(naming)
    requires FIRST_MONTH <= low <= m <= high + 1 && high <= LAST_MONTH && m <= LAST_MONTH
    ensures Created(naming, MonthsFrom(naming, low, high), FirstOf(m)) == MonthsFrom(naming, low, Max(high, m))
  {
    CreatedIs(naming, MonthsFrom(naming, low, high), m);
    IntervalHolds(naming, low, high, m);
  }

  lemma {:induction false} EnsureExtends(naming: Naming, today: Date, low: int, high: int, n: nat)
    requires Faithful(naming) && ValidDate(today) && MonthIndex(today) + n - 1 <= LAST_MONTH
    requires FIRST_MONTH <= low <= MonthIndex(today) <= high + 1 && high <= LAST_MONTH
    ensures Ensured(naming, MonthsFrom(naming, low, high), today, n) ==
      MonthsFrom(naming, low, Max(high, MonthIndex(today) + n - 1))
  {
    if n > 0 {
      var m := MonthIndex(today) + n - 1;
      EnsureExtends(naming, today, low, high, n - 1);
      PremadeMonth(today, n - 1);
      CreateExtends(naming, low, Max(high, m - 1), m);
    }
  }

  lemma {:induction false} EnsuredHolds(naming: Naming, partitions: Catalogue, today: Date, n: nat, m: int)
    requires Faithful(naming) && ValidDate(today) && FIRST_MONTH <= m <= LAST_MONTH
    requires FIRST_MONTH <= MonthIndex(today) && MonthIndex(today) + n - 1 <= LAST_MONTH
    ensures naming.write(FirstOf(m)) in Ensured(naming, partitions, today, n) <==>
      naming.write(FirstOf(m)) in partitions || MonthIndex(today) <= m < MonthIndex(today) + n
  {
    if n > 0 {
      EnsuredHolds(naming, partitions, today, n - 1, m);
      PremadeMonth(today, n - 1);
      assert InCalendar(m) && InCalendar(MonthIndex(today) + n - 1);
    }
  }

  /** Exactly when a run leaves a gap: going forward to a month past `high`, the month
      after `high` is missing if and only if the run comes more than one month late. */
  lemma LateRunLeavesAGap(naming: Naming, today: Date, low: int, high: int, premake: nat)
    requires Faithful(naming) && ValidDate(today) && FIRST_MONTH <= low <= MonthIndex(today)
    requires low <= high < MonthIndex(today) + premake <= LAST_MONTH
    ensures naming.write(FirstOf(high + 1)) !in Ensured(naming, MonthsFrom(naming, low, high), today, premake + 1) <==>
      MonthIndex(today) > high + 1
  {
    EnsuredHolds(naming, MonthsFrom(naming, low, high), today, premake + 1, high + 1);
    IntervalHolds(naming, low, high, high + 1);
  }

  lemma {:induction false} SweepShortens(naming: Naming, cutoff: Date, low: int, high: int)
    requires Faithful(naming) && ValidDate(cutoff) && FIRST_MONTH <= low && high <= LAST_MONTH
    ensures Sweepable(naming, MonthsFrom(naming, low, high), cutoff)
    ensures Swept(naming, MonthsFrom(naming, low, high), cutoff)
         == MonthsFrom(naming, Max(low, MonthIndex(cutoff)), high)
    decreases high - low
  {
    if low <= high {
      SweepShortens(naming, cutoff, low, high - 1);
      assert InCalendar(high);
    }
  }

  lemma CutoffIs(today: Date, retention: nat)
    requires ValidDate(today)
    ensures ValidDate(Cutoff(today, retention))
    ensures MonthIndex(Cutoff(today, retention)) == MonthIndex(DaysBefore(today, retention)) <= MonthIndex(today)
  {
    DaysBeforeGoesBack(today, retention);
  }

  /** Retention: every date in a partition the sweep drops is older than the window. */
  lemma DroppedIsOutsideRetention(m: int, today: Date, retention: nat, x: Date)
    requires ValidDate(today) && ValidDate(x) && FIRST_MONTH <= m <= LAST_MONTH
    requires Judge(PartitionName(FirstOf(m)), Cutoff(today, retention)) == Drop
    requires !Before(x, FirstOf(m)) && Before(x, FirstOf(m + 1))
    ensures DayNumber(x) < DayNumber(today) - retention
  {
    hide DayNumber, Judge;
    var oldest := DaysBefore(today, retention);
    CutoffIs(today, retention);
    JudgeMonth(m, Cutoff(today, retention));
    FirstOfIs(m);
    FirstOfIs(m + 1);
    BeforeFirst(x, FirstOf(m));
    BeforeFirst(x, FirstOf(m + 1));
    assert MonthIndex(x) < MonthIndex(oldest);
    DaysBeforeCounts(today, retention);
    LaterMonth(x, oldest);
  }

  /** And exactly: a month's partition is dropped if and only if the month ended, by count
      of days, by the start of the month that holds the oldest day of the window. */
  lemma DroppedExactly(m: int, today: Date, retention: nat, oldest: Date)
    requires ValidDate(today) && ValidDate(oldest) && FIRST_MONTH <= m <= LAST_MONTH
    requires DayNumber(oldest) == DayNumber(today) - retention
    ensures Judge(PartitionName(FirstOf(m)), Cutoff(today, retention)) == Drop <==>
      DayNumber(FirstOf(m + 1)) <= DayNumber(Date(oldest.year, oldest.month, 1))
    ensures Judge(PartitionName(FirstOf(m)), Cutoff(today, retention)) != Drop ==>
      Judge(PartitionName(FirstOf(m)), Cutoff(today, retention)) == Keep
  {
    hide DayNumber, Judge, MonthIndex, FirstOf, ValidDate;
    DaysBeforeCounts(today, retention);
    SameNumber(oldest, DaysBefore(today, retention));
    CutoffIs(today, retention);
    JudgeMonth(m, Cutoff(today, retention));
    EndedByMonth(m, oldest);
  }

  lemma EndedByMonth(m: int, d: Date)
    requires ValidDate(d)
    ensures m < MonthIndex(d) <==> DayNumber(FirstOf(m + 1)) <= DayNumber(Date(d.year, d.month, 1))
  {
    hide DayNumber;
    MonthStartIs(d);
    if m < MonthIndex(d) {
      FirstsRise(m + 1, MonthIndex(d));
    } else {
      FirstsRise(MonthIndex(d), m + 1);
    }
  }

  // A day's number is its own.
  lemma SameNumber(a: Date, b: Date)
    requires ValidDate(a) && ValidDate(b) && DayNumber(a) == DayNumber(b)
    ensures a == b
  {
    hide DayNumber;
    BeforeIsFewerDays(a, b);
    BeforeIsFewerDays(b, a);
  }

  // ---- over every sequence of runs --------------------------------------------

  // One run of the maintenance. The two halves commit apart: a run that dies between them
  // has ensured and not swept, and one that dies before has done nothing and is no run.
  datatype Maintenance = Maintenance(today: Date, swept: bool)

  function LastOf(runs: seq<Maintenance>): Date
    requires runs != []
  {
    runs[|runs| - 1].today
  }

  // The catalogue one run leaves.
  function Maintained(naming: Naming, before: Catalogue, run: Maintenance, premake: nat, retention: nat): Catalogue {
    var ensured := Ensured(naming, before, run.today, premake + 1);
    if run.swept then Swept(naming, ensured, Cutoff(run.today, retention)) else ensured
  }

  // The catalogue after every run, from nothing.
  function MaintainAll(naming: Naming, runs: seq<Maintenance>, premake: nat, retention: nat): Catalogue {
    if runs == [] then map[]
    else
      var before := MaintainAll(naming, runs[..|runs| - 1], premake, retention);
      Maintained(naming, before, runs[|runs| - 1], premake, retention)
  }

  // Valid dates that never go back a month nor skip past what was made ahead.
  ghost predicate Steady(runs: seq<Maintenance>, premake: nat) {
    && (forall i | 0 <= i < |runs| :: InReach(runs[i].today, premake))
    && (forall i | 0 <= i < |runs| - 1 ::
          MonthIndex(runs[i].today) <= MonthIndex(runs[i + 1].today) <= MonthIndex(runs[i].today) + premake + 1)
  }

  predicate InReach(d: Date, premake: nat) {
    ValidDate(d) && FIRST_MONTH <= MonthIndex(d) && MonthIndex(d) + premake <= LAST_MONTH
  }

  // The lowest month still held: the first ever made, or the last cutoff above it.
  function LowAfter(runs: seq<Maintenance>, retention: nat): int
    requires runs != []
  {
    var run := runs[|runs| - 1];
    if |runs| == 1 then MonthIndex(run.today)
    else
      var low := LowAfter(runs[..|runs| - 1], retention);
      if run.swept then Max(low, MonthIndex(Cutoff(run.today, retention))) else low
  }

  lemma OneSweep(naming: Naming, today: Date, low: int, high: int, premake: nat, retention: nat)
    requires Faithful(naming) && InReach(today, premake)
    requires FIRST_MONTH <= low <= MonthIndex(today) <= high + 1 <= MonthIndex(today) + premake + 1
    ensures var ensured := Ensured(naming, MonthsFrom(naming, low, high), today, premake + 1);
      var cutoff := Cutoff(today, retention);
      && ensured == MonthsFrom(naming, low, MonthIndex(today) + premake)
      && Sweepable(naming, ensured, cutoff)
      && Swept(naming, ensured, cutoff) ==
           MonthsFrom(naming, Max(low, MonthIndex(cutoff)), MonthIndex(today) + premake)
  {
    EnsureExtends(naming, today, low, high, premake + 1);
    CutoffIs(today, retention);
    SweepShortens(naming, Cutoff(today, retention), low, MonthIndex(today) + premake);
  }

  lemma OneMaintenance(naming: Naming, run: Maintenance, low: int, high: int, premake: nat, retention: nat)
    requires Faithful(naming) && InReach(run.today, premake)
    requires FIRST_MONTH <= low <= MonthIndex(run.today) <= high + 1 <= MonthIndex(run.today) + premake + 1
    ensures Maintained(naming, MonthsFrom(naming, low, high), run, premake, retention) ==
      MonthsFrom(naming, if run.swept then Max(low, MonthIndex(Cutoff(run.today, retention))) else low,
                 MonthIndex(run.today) + premake)
  {
    OneSweep(naming, run.today, low, high, premake, retention);
  }

  lemma SteadyStep(runs: seq<Maintenance>, premake: nat)
    requires Steady(runs, premake) && runs != []
    ensures var front := runs[..|runs| - 1];
      && InReach(LastOf(runs), premake)
      && Steady(front, premake)
      && (front != [] ==>
            MonthIndex(LastOf(front)) <= MonthIndex(LastOf(runs)) <= MonthIndex(LastOf(front)) + premake + 1)
  {
    var front := runs[..|runs| - 1];
    forall i | 0 <= i < |front| - 1
      ensures MonthIndex(front[i].today) <= MonthIndex(front[i + 1].today) <= MonthIndex(front[i].today) + premake + 1
    {
      assert front[i] == runs[i] && front[i + 1] == runs[i + 1];
    }
    if front != [] {
      assert front[|front| - 1] == runs[|runs| - 2];
    }
  }

  // The interval of months that the last run of a steady sequence finds: none at first.
  ghost predicate Found(naming: Naming, runs: seq<Maintenance>, premake: nat, retention: nat, low: int, high: int)
    requires runs != []
  {
    && FIRST_MONTH <= low <= MonthIndex(LastOf(runs)) <= high + 1 <= MonthIndex(LastOf(runs)) + premake + 1
    && MaintainAll(naming, runs[..|runs| - 1], premake, retention) == MonthsFrom(naming, low, high)
  }

  lemma FoundFirst(naming: Naming, runs: seq<Maintenance>, premake: nat, retention: nat)
    requires Steady(runs, premake) && |runs| == 1
    ensures Found(naming, runs, premake, retention, MonthIndex(LastOf(runs)), MonthIndex(LastOf(runs)) - 1)
  {
    SteadyStep(runs, premake);
  }

  lemma FoundNext(naming: Naming, runs: seq<Maintenance>, premake: nat, retention: nat)
    requires Steady(runs, premake) && |runs| > 1
    requires var front := runs[..|runs| - 1];
      && FIRST_MONTH <= LowAfter(front, retention) <= MonthIndex(LastOf(front))
      && MaintainAll(naming, front, premake, retention)
           == MonthsFrom(naming, LowAfter(front, retention), MonthIndex(LastOf(front)) + premake)
    ensures var front := runs[..|runs| - 1];
      Found(naming, runs, premake, retention, LowAfter(front, retention), MonthIndex(LastOf(front)) + premake)
  {
    SteadyStep(runs, premake);
  }

  /** Any steady sequence of maintenance runs, from nothing, some of which may die before
      their sweep: after each the partitions are exactly one contiguous interval of
      months, each under its own name and bounds, from the lowest month kept to `premake`
      months ahead of the last date. */
  lemma {:induction false} PartitionsStayContiguous(naming: Naming, runs: seq<Maintenance>, premake: nat,
      retention: nat)
    requires Faithful(naming) && Steady(runs, premake) && runs != []
    ensures FIRST_MONTH <= LowAfter(runs, retention) <= MonthIndex(LastOf(runs))
    ensures MaintainAll(naming, runs, premake, retention) ==
      MonthsFrom(naming, LowAfter(runs, retention), MonthIndex(LastOf(runs)) + premake)
    decreases runs
  {
    hide MonthsFrom, MonthIndex, Maintained, Faithful;
    var front, run := runs[..|runs| - 1], runs[|runs| - 1];
    SteadyStep(runs, premake);
    CutoffIs(run.today, retention);
    if front == [] {
      FoundFirst(naming, runs, premake, retention);
      OneMaintenance(naming, run, MonthIndex(run.today), MonthIndex(run.today) - 1, premake, retention);
    } else {
      PartitionsStayContiguous(naming, front, premake, retention);
      FoundNext(naming, runs, premake, retention);
      OneMaintenance(naming, run, LowAfter(front, retention), MonthIndex(LastOf(front)) + premake, premake, retention);
    }
  }

  /** And no run's sweep raises on a name. */
  lemma NoSweepRaises(naming: Naming, runs: seq<Maintenance>, premake: nat, retention: nat)
    requires Faithful(naming) && Steady(runs, premake) && runs != []
    ensures var before := MaintainAll(naming, runs[..|runs| - 1], premake, retention);
      Sweepable(naming, Ensured(naming, before, LastOf(runs), premake + 1), Cutoff(LastOf(runs), retention))
  {
    hide MaintainAll, MonthsFrom, MonthIndex, Sweepable, Ensured, Cutoff, LowAfter, Faithful;
    var front, today := runs[..|runs| - 1], LastOf(runs);
    SteadyStep(runs, premake);
    if front == [] {
      FoundFirst(naming, runs, premake, retention);
      OneSweep(naming, today, MonthIndex(today), MonthIndex(today) - 1, premake, retention);
    } else {
      PartitionsStayContiguous(naming, front, premake, retention);
      FoundNext(naming, runs, premake, retention);
      OneSweep(naming, today, LowAfter(front, retention), MonthIndex(LastOf(front)) + premake, premake, retention);
    }
  }

  /** So every date of the window is always covered, by the partition of its own month, and
      there is one partition a month and no other. */
  lemma WindowIsCovered(naming: Naming, runs: seq<Maintenance>, premake: nat, retention: nat, m: int)
    requires Faithful(naming) && Steady(runs, premake) && runs != []
    requires LowAfter(runs, retention) <= m <= MonthIndex(LastOf(runs)) + premake
    ensures var partitions := MaintainAll(naming, runs, premake, retention);
      var name := naming.write(FirstOf(m));
      && name in partitions && partitions[name] == Bounds(FirstOf(m), FirstOf(m + 1))
      && |partitions| == MonthIndex(LastOf(runs)) + premake - LowAfter(runs, retention) + 1
  {
    hide MaintainAll, MonthsFrom, LowAfter, MonthIndex, Faithful, FirstOf;
    SteadyStep(runs, premake);
    PartitionsStayContiguous(naming, runs, premake, retention);
    IntervalSize(naming, LowAfter(runs, retention), MonthIndex(LastOf(runs)) + premake);
    IntervalHolds(naming, LowAfter(runs, retention), MonthIndex(LastOf(runs)) + premake, m);
  }

  /** All of it holds of the program's own monthly names. */
  lemma MonthlyPartitionsStayContiguous(runs: seq<Maintenance>, premake: nat, retention: nat)
    requires Steady(runs, premake) && runs != []
    ensures var naming := MonthlyNames();
      && MaintainAll(naming, runs, premake, retention) ==
           MonthsFrom(naming, LowAfter(runs, retention), MonthIndex(LastOf(runs)) + premake)
      && Sweepable(naming, Ensured(naming, MaintainAll(naming, runs[..|runs| - 1], premake, retention), LastOf(runs),
                                   premake + 1),
                   Cutoff(LastOf(runs), retention))
  {
    MonthlyNamesAreFaithful();
    PartitionsStayContiguous(MonthlyNames(), runs, premake, retention);
    NoSweepRaises(MonthlyNames(), runs, premake, retention);
  }
}
