/**
 * UTC datetimes as stored text. `isoformat()` leaves the fraction out when it is zero, so two
 * stored instants may differ in length; the outbox nevertheless selects and orders rows by
 * comparing the texts (sqlite_action_outbox.py).
 */
module InstantText {
  import opened Base
  import opened TextOrder
  import opened ActionRecords
  import P = ActionProtocol
  import AI = ActionInvariants
  import AT = ActionTheorems

  datatype DateTime = DateTime(year: nat, month: nat, day: nat, hour: nat, minute: nat, second: nat, micro: nat)

  // ------------------------------------------------------------- the instant

  predicate Leap(year: nat) {
    year % 4 == 0 && (year % 100 != 0 || year % 400 == 0)
  }

  function DaysInMonth(year: nat, month: nat): nat
    requires 1 <= month <= 12
  {
    if month == 2 then (if Leap(year) then 29 else 28)
    else if month == 4 || month == 6 || month == 9 || month == 11 then 30
    else 31
  }

  function DaysBeforeMonth(year: nat, month: nat): nat
    requires 1 <= month <= 13
  {
    if month == 1 then 0 else DaysBeforeMonth(year, month - 1) + DaysInMonth(year, month - 1)
  }

  function DaysBeforeYear(year: nat): nat
    requires 1 <= year
  {
    var y := year - 1;
    y * 365 + y / 4 - y / 100 + y / 400
  }

  /** The range of Python's `datetime`. */
  predicate Legal(d: DateTime) {
    && 1 <= d.year <= 9999 && 1 <= d.month <= 12 && 1 <= d.day <= DaysInMonth(d.year, d.month)
    && d.hour < 24 && d.minute < 60 && d.second < 60 && d.micro < 1_000_000
  }

  function Day(d: DateTime): nat
    requires Legal(d)
  {
    DaysBeforeYear(d.year) + DaysBeforeMonth(d.year, d.month) + d.day
  }

  function MicroOfDay(d: DateTime): nat {
    ((d.hour * 60 + d.minute) * 60 + d.second) * 1_000_000 + d.micro
  }

  /** Microseconds since the start of year 1. */
  function At(d: DateTime): Instant
    requires Legal(d)
  {
    Day(d) * 86_400_000_000 + MicroOfDay(d)
  }

  // ----------------------------------------------------------------- the text

  function Digits(n: nat, width: nat): string {
    if width == 0 then "" else Digits(n / 10, width - 1) + [('0' as int + n % 10) as char]
  }

  function Power10(width: nat): nat {
    if width == 0 then 1 else 10 * Power10(width - 1)
  }

  function Fraction(micro: nat): string {
    if micro == 0 then "+00:00" else "." + Digits(micro, 6) + "+00:00"
  }

  /** `isoformat()` of a UTC datetime. */
  function IsoFormat(d: DateTime): string {
    Digits(d.year, 4) + ("-" + (Digits(d.month, 2) + ("-" + (Digits(d.day, 2) + ("T" + (
    Digits(d.hour, 2) + (":" + (Digits(d.minute, 2) + (":" + (Digits(d.second, 2) + Fraction(d.micro)))))))))))
  }

  // -------------------------------------------------------- fields in order

  /** The first field that differs decides. */
  predicate FieldsBefore(a: DateTime, b: DateTime) {
    a.year < b.year || (a.year == b.year && (
    a.month < b.month || (a.month == b.month && (
    a.day < b.day || (a.day == b.day && (
    a.hour < b.hour || (a.hour == b.hour && (
    a.minute < b.minute || (a.minute == b.minute && (
    a.second < b.second || (a.second == b.second &&
    a.micro < b.micro)))))))))))
  }

  lemma {:induction false} DigitsInOrder(m: nat, n: nat, width: nat, x: string, y: string)
    requires m < Power10(width) && n < Power10(width)
    ensures Less(Digits(m, width) + x, Digits(n, width) + y) <==> m < n || (m == n && Less(x, y))
  {
    if width == 0 {
      assert Digits(m, width) + x == x && Digits(n, width) + y == y;
    } else {
      var c, d := [('0' as int + m % 10) as char], [('0' as int + n % 10) as char];
      assert Digits(m, width) + x == Digits(m / 10, width - 1) + (c + x);
      assert Digits(n, width) + y == Digits(n / 10, width - 1) + (d + y);
      DigitsInOrder(m / 10, n / 10, width - 1, c + x, d + y);
      assert (c + x)[1..] == x && (d + y)[1..] == y;
    }
  }

  lemma FractionInOrder(m: nat, n: nat)
    requires m < 1_000_000 && n < 1_000_000
    ensures Less(Fraction(m), Fraction(n)) <==> m < n
  {
    assert Power10(6) == 1_000_000 by { assert Power10(2) == 100 && Power10(4) == 10_000; }
    LessTotal("+00:00", "+00:00");
    if m != 0 && n != 0 {
      DigitsInOrder(m, n, 6, "+00:00", "+00:00");
      assert Fraction(m) == "." + (Digits(m, 6) + "+00:00");
      assert Fraction(n) == "." + (Digits(n, 6) + "+00:00");
      LessAfter(".", Digits(m, 6) + "+00:00", Digits(n, 6) + "+00:00");
    }
  }

  /** One two-digit field after a separator, then the rest. */
  lemma FieldInOrder(separator: string, m: nat, n: nat, x: string, y: string)
    requires m < 100 && n < 100
    ensures Less(separator + (Digits(m, 2) + x), separator + (Digits(n, 2) + y)) <==> m < n || (m == n && Less(x, y))
  {
    LessAfter(separator, Digits(m, 2) + x, Digits(n, 2) + y);
    assert Power10(2) == 100;
    DigitsInOrder(m, n, 2, x, y);
  }

  lemma TextFollowsFields(a: DateTime, b: DateTime)
    requires Legal(a) && Legal(b)
    ensures Less(IsoFormat(a), IsoFormat(b)) <==> FieldsBefore(a, b)
  {
    FractionInOrder(a.micro, b.micro);
    var a6, b6 := Fraction(a.micro), Fraction(b.micro);
    FieldInOrder(":", a.second, b.second, a6, b6);
    var a5, b5 := ":" + (Digits(a.second, 2) + a6), ":" + (Digits(b.second, 2) + b6);
    FieldInOrder(":", a.minute, b.minute, a5, b5);
    var a4, b4 := ":" + (Digits(a.minute, 2) + a5), ":" + (Digits(b.minute, 2) + b5);
    FieldInOrder("T", a.hour, b.hour, a4, b4);
    var a3, b3 := "T" + (Digits(a.hour, 2) + a4), "T" + (Digits(b.hour, 2) + b4);
    FieldInOrder("-", a.day, b.day, a3, b3);
    var a2, b2 := "-" + (Digits(a.day, 2) + a3), "-" + (Digits(b.day, 2) + b3);
    FieldInOrder("-", a.month, b.month, a2, b2);
    var a1, b1 := "-" + (Digits(a.month, 2) + a2), "-" + (Digits(b.month, 2) + b2);
    assert Power10(4) == 10_000 by { assert Power10(2) == 100; }
    DigitsInOrder(a.year, b.year, 4, a1, b1);
  }

  // ---------------------------------------------------- instants in order

  lemma {:induction false} YearsInOrder(m: nat, n: nat)
    requires 1 <= m < n
    ensures DaysBeforeYear(m) + DaysBeforeMonth(m, 13) <= DaysBeforeYear(n)
    decreases n
  {
    YearLength(n - 1);
    if m < n - 1 {
      YearsInOrder(m, n - 1);
    }
  }

  lemma YearLength(year: nat)
    requires 1 <= year
    ensures DaysBeforeYear(year + 1) == DaysBeforeYear(year) + DaysBeforeMonth(year, 13)
  {
    MonthsOf(year);
    FourthYear(year - 1);
    Century(year - 1);
    FourthCentury(year - 1);
    LeapDays(year);
  }

  lemma FourthYear(y: nat)
    ensures (y + 1) / 4 == y / 4 + if (y + 1) % 4 == 0 then 1 else 0
  {
  }

  lemma Century(y: nat)
    ensures (y + 1) / 100 == y / 100 + if (y + 1) % 100 == 0 then 1 else 0
  {
  }

  lemma FourthCentury(y: nat)
    ensures (y + 1) / 400 == y / 400 + if (y + 1) % 400 == 0 then 1 else 0
  {
  }

  lemma LeapDays(year: nat)
    ensures year % 400 == 0 ==> year % 100 == 0
    ensures year % 100 == 0 ==> year % 4 == 0
  {
    if year % 400 == 0 { NoRest(year / 400, 4, 100, year / 100, year % 100); }
    if year % 100 == 0 { NoRest(year / 100, 25, 4, year / 4, year % 4); }
  }

  /** A multiple of a multiple of `d` leaves no rest. */
  lemma NoRest(k: nat, factor: nat, d: nat, quotient: nat, rest: nat)
    requires d * (factor * k) == d * quotient + rest && rest < d
    ensures rest == 0
  {
    var more := factor * k - quotient;
    assert rest == d * more;
    assert more >= 1 ==> d * more >= d;
  }

  lemma MonthsOf(year: nat)
    ensures DaysBeforeMonth(year, 13) == if Leap(year) then 366 else 365
  {
    assert DaysBeforeMonth(year, 2) == 31;
    assert DaysBeforeMonth(year, 3) == if Leap(year) then 60 else 59;
    assert DaysBeforeMonth(year, 5) == DaysBeforeMonth(year, 3) + 61;
    assert DaysBeforeMonth(year, 7) == DaysBeforeMonth(year, 5) + 61;
    assert DaysBeforeMonth(year, 9) == DaysBeforeMonth(year, 7) + 62;
    assert DaysBeforeMonth(year, 11) == DaysBeforeMonth(year, 9) + 61;
    assert DaysBeforeMonth(year, 13) == DaysBeforeMonth(year, 11) + 61;
  }

  lemma {:induction false} MonthsInOrder(year: nat, m: nat, n: nat)
    requires 1 <= m < n <= 13
    ensures DaysBeforeMonth(year, m) + DaysInMonth(year, m) <= DaysBeforeMonth(year, n)
    decreases n
  {
    if m < n - 1 {
      MonthsInOrder(year, m, n - 1);
    }
  }

  lemma InstantFollowsFields(a: DateTime, b: DateTime)
    requires Legal(a) && Legal(b) && FieldsBefore(a, b)
    ensures At(a) < At(b)
  {
    if a.year < b.year {
      YearsInOrder(a.year, b.year);
      MonthsInOrder(a.year, a.month, 13);
      assert Day(a) < Day(b);
    } else if a.month < b.month {
      MonthsInOrder(a.year, a.month, b.month);
      assert Day(a) < Day(b);
    }
  }

  /** Stored texts compare exactly as the instants do, and equal texts are equal instants. */
  lemma TextOrderIsTimeOrder(a: DateTime, b: DateTime)
    requires Legal(a) && Legal(b)
    ensures Less(IsoFormat(a), IsoFormat(b)) <==> At(a) < At(b)
    ensures IsoFormat(a) == IsoFormat(b) <==> At(a) == At(b)
  {
    TextFollowsFields(a, b);
    TextFollowsFields(b, a);
    LessTotal(IsoFormat(a), IsoFormat(b));
    if FieldsBefore(a, b) {
      InstantFollowsFields(a, b);
    } else if FieldsBefore(b, a) {
      InstantFollowsFields(b, a);
    } else {
      assert a == b;
    }
  }

  // --------------------------------------------------------- the claim query

  /** The times of a row as stored. */
  datatype StoredTimes = StoredTimes(availableAt: DateTime, createdAt: DateTime, leaseExpiresAt: Option<DateTime>)

  predicate Stores(t: StoredTimes, r: Row) {
    && Legal(t.availableAt) && At(t.availableAt) == r.availableAt
    && Legal(t.createdAt) && At(t.createdAt) == r.identity.createdAt
    && (t.leaseExpiresAt.Some? <==> r.leaseExpiresAt.Some?)
    && (t.leaseExpiresAt.Some? ==> Legal(t.leaseExpiresAt.value) && At(t.leaseExpiresAt.value) == r.leaseExpiresAt.value)
  }

  predicate AtMost(a: DateTime, b: DateTime) {
    IsoFormat(a) == IsoFormat(b) || Less(IsoFormat(a), IsoFormat(b))
  }

  /** The WHERE clause of `claim` and `list_ready`, on text. */
  predicate ReadyByText(r: Row, t: StoredTimes, now: DateTime) {
    || (r.status.Pending? && AtMost(t.availableAt, now))
    || (r.status.Leased? && t.leaseExpiresAt.Some? && AtMost(t.leaseExpiresAt.value, now))
  }

  /** The ORDER BY clause of `claim` and `list_ready`, on text. */
  predicate BeforeByText(r: Row, t: StoredTimes, r': Row, t': StoredTimes) {
    var (a, c, a', c') := (IsoFormat(t.availableAt), IsoFormat(t.createdAt), IsoFormat(t'.availableAt), IsoFormat(t'.createdAt));
    Less(a, a') || (a == a' && Less(c, c')) || (a == a' && c == c' && r.id < r'.id)
  }

  /** The query over text picks what `ActionProtocol` picks over instants. */
  lemma ReadinessByTextIsByTime(r: Row, t: StoredTimes, r': Row, t': StoredTimes, now: DateTime)
    requires Stores(t, r) && Stores(t', r') && Legal(now)
    ensures ReadyByText(r, t, now) <==> P.Ready(r, At(now))
    ensures BeforeByText(r, t, r', t') <==> P.Before(r, r')
  {
    TextOrderIsTimeOrder(t.availableAt, now);
    if t.leaseExpiresAt.Some? { TextOrderIsTimeOrder(t.leaseExpiresAt.value, now); }
    TextOrderIsTimeOrder(t.availableAt, t'.availableAt);
    TextOrderIsTimeOrder(t.createdAt, t'.createdAt);
  }

  /** Each row of the table with its times as stored. */
  ghost predicate StoresAll(times: map<nat, StoredTimes>, rows: map<nat, Row>) {
    times.Keys == rows.Keys && forall id :: id in rows ==> Stores(times[id], rows[id])
  }

  /** The row that the query over text returns: ready, and before every other ready row. */
  ghost predicate IsNextByText(rows: map<nat, Row>, times: map<nat, StoredTimes>, now: DateTime, id: nat)
    requires times.Keys == rows.Keys
  {
    && id in rows && ReadyByText(rows[id], times[id], now)
    && forall other :: other in rows && other != id && ReadyByText(rows[other], times[other], now) ==>
         BeforeByText(rows[id], times[id], rows[other], times[other])
  }

  /** Over a whole table, the query over text returns a row exactly when it is the next over instants. */
  lemma NextByTextIsNext(rows: map<nat, Row>, times: map<nat, StoredTimes>, now: DateTime, id: nat)
    requires StoresAll(times, rows) && Legal(now)
    ensures IsNextByText(rows, times, now, id) <==> P.IsNext(rows, At(now), id)
    ensures IsNextByText(rows, times, now, id) <==> P.NextReady(rows, At(now)) == Some(id)
  {
    if id in rows {
      forall other | other in rows
        ensures ReadyByText(rows[other], times[other], now) <==> P.Ready(rows[other], At(now))
        ensures BeforeByText(rows[id], times[id], rows[other], times[other]) <==> P.Before(rows[id], rows[other])
      {
        ReadinessByTextIsByTime(rows[other], times[other], rows[id], times[id], now);
        ReadinessByTextIsByTime(rows[id], times[id], rows[other], times[other], now);
      }
    }
    NextIsUnique(rows, At(now), id);
  }

  lemma NextIsUnique(rows: map<nat, Row>, now: Instant, id: nat)
    ensures P.IsNext(rows, now, id) <==> P.NextReady(rows, now) == Some(id)
  {
    if P.IsNext(rows, now, id) {
      var next := P.NextReady(rows, now).value;
      assert P.IsNext(rows, now, next);
    }
  }

  /**
   * In every reachable queue and at every legal time, the query over text finds no row exactly when
   * none is ready, and otherwise the row that `claim` leases.
   */
  lemma ClaimByTextIsClaim(ops: seq<P.Op>, times: map<nat, StoredTimes>, now: DateTime)
    requires StoresAll(times, P.Run(P.EMPTY_DB, ops).rows) && Legal(now)
    ensures
      var rows := P.Run(P.EMPTY_DB, ops).rows;
      match P.NextReady(rows, At(now))
      case None => forall id :: id in rows ==> !ReadyByText(rows[id], times[id], now)
      case Some(next) => forall id: nat :: IsNextByText(rows, times, now, id) <==> id == next
  {
    var db := P.Run(P.EMPTY_DB, ops);
    AI.RunKeepsInv(P.EMPTY_DB, ops);
    forall id: nat ensures IsNextByText(db.rows, times, now, id) <==> P.NextReady(db.rows, At(now)) == Some(id) {
      NextByTextIsNext(db.rows, times, now, id);
    }
    forall id | id in db.rows && ReadyByText(db.rows[id], times[id], now) ensures P.NextReady(db.rows, At(now)).Some? {
      ReadinessByTextIsByTime(db.rows[id], times[id], db.rows[id], times[id], now);
      AT.SomeReadySomeNext(db, At(now), id);
    }
  }

  // ------------------------------------------------------ the attempt listing

  /** `ORDER BY started_at, intent_id, attempt_number, revision`, on the stored text of the start. */
  predicate ListedBeforeByText(a: Attempt, started: DateTime, b: Attempt, started': DateTime) {
    var (s, s') := (IsoFormat(started), IsoFormat(started'));
    || Less(s, s')
    || (s == s' && a.intentId < b.intentId)
    || (s == s' && a.intentId == b.intentId && a.number < b.number)
    || (s == s' && a.intentId == b.intentId && a.number == b.number && a.revision < b.revision)
  }

  /** The listing by stored text is the causal order of an intent's records. */
  lemma ListingByTextIsCausal(ops: seq<P.Op>, a: Attempt, started: DateTime, b: Attempt, started': DateTime)
    requires a in P.Run(P.EMPTY_DB, ops).attempts && b in P.Run(P.EMPTY_DB, ops).attempts && a.intentId == b.intentId
    requires Legal(started) && At(started) == a.startedAt && Legal(started') && At(started') == b.startedAt
    ensures ListedBeforeByText(a, started, b, started') <==> AT.CausallyBefore(a, b)
  {
    TextOrderIsTimeOrder(started, started');
    AT.ListingIsCausal(ops, a, b);
  }
}
