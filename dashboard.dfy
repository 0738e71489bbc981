/**
 * The dashboard statistics of routes/dashboard.js: the pending predicate and
 * the overall pending count, and the six-month series that fills months
 * missing from the aggregation result with zeros. The aggregation result is
 * an input; "now" is an input (year, month) with month in 1..12.
 */
module Dashboard {
  import opened Wrappers
  import opened ReportSchema
  import opened Lifecycle

  const MONTHS: seq<string> := ["Jan", "Feb", "Mar", "Apr", "May", "Jun", "Jul", "Aug", "Sep", "Oct", "Nov", "Dec"]

  /** One bucket of the aggregation: reports submitted in (year, month), and how many of them are pending. */
  datatype Bucket = Bucket(year: int, month: int, total: int, pending: int)

  /** One entry of `monthlyStats`. */
  datatype MonthStat = MonthStat(month: string, total: int, pending: int)

  /** A report counts as pending exactly when it is not approved, whether or not it was rejected. */
  predicate IsPending(r: Report) {
    !r.isApproved
  }

  /** `countDocuments({ isApproved: false })`. */
  function PendingApprovals(m: map<string, Report>): (n: nat)
    ensures n <= |m|
  {
    var pending := set id | id in m && IsPending(m[id]);
    assert m.Keys == pending + (m.Keys - pending);
    assert |m.Keys| == |pending| + |m.Keys - pending|;
    |pending|
  }

  /** Rewriting one record changes the pending count by its change of status alone. */
  lemma PendingAfterUpdate(m: map<string, Report>, id: string, r: Report)
    requires id in m
    ensures PendingApprovals(m[id := r]) ==
      PendingApprovals(m) - (if IsPending(m[id]) then 1 else 0) + (if IsPending(r) then 1 else 0)
  {
    var before := set k | k in m && IsPending(m[k]);
    var m' := m[id := r];
    var after := set k | k in m' && IsPending(m'[k]);
    var others := before - {id};
    assert after == if IsPending(r) then others + {id} else others;
    assert |others| == |before| - (if id in before then 1 else 0);
  }

  /** Approving a pending report lowers the pending count by one. */
  lemma ApproveLowersPending(m: map<string, Report>, id: string)
    requires id in m && IsPending(m[id])
    ensures PendingApprovals(m[id := Approve(m[id])]) == PendingApprovals(m) - 1
  {
    PendingAfterUpdate(m, id, Approve(m[id]));
  }

  /** Rejecting a report never lowers the pending count: a rejected report is still pending. */
  lemma RejectedCountsAsPending(m: map<string, Report>, id: string, reason: Option<string>)
    requires id in m
    ensures IsPending(Reject(m[id], reason))
    ensures PendingApprovals(m[id := Reject(m[id], reason)]) ==
      PendingApprovals(m) + (if IsPending(m[id]) then 0 else 1)
  {
    PendingAfterUpdate(m, id, Reject(m[id], reason));
  }

  /**
   * `new Date(year, month - 1 - back, 1)`: the calendar month `back` months
   * before (year, month); the month index normalises by floor division, as the
   * Date constructor does.
   */
  function MonthsBefore(year: int, month: int, back: int): (ym: (int, int))
    requires 1 <= month <= 12
    ensures 1 <= ym.1 <= 12
  {
    var index := month - 1 - back;
    (year + index / 12, index % 12 + 1)
  }

  /** The calendar month after (year, month). */
  function NextMonth(ym: (int, int)): (int, int) {
    if ym.1 == 12 then (ym.0 + 1, 1) else (ym.0, ym.1 + 1)
  }

  /** Within a year back, the month is plain subtraction; before January it wraps to the previous year. */
  lemma MonthsBeforeWraps(year: int, month: int, back: int)
    requires 1 <= month <= 12 && 0 <= back <= 11
    ensures MonthsBefore(year, month, back) ==
      if back < month then (year, month - back) else (year - 1, month - back + 12)
  {
    var index := month - 1 - back;
    if back < month {
      assert 0 <= index < 12;
    } else {
      assert -12 <= index < 0 && index + 12 < 12;
      assert index == -1 * 12 + (index + 12);
    }
  }

  /** Going one month back and then one month forward returns to the same month. */
  lemma MonthsBeforeStep(year: int, month: int, back: int)
    requires 1 <= month <= 12
    ensures NextMonth(MonthsBefore(year, month, back + 1)) == MonthsBefore(year, month, back)
  {
    var i := month - 1 - back;
    var q, r := (i - 1) / 12, (i - 1) % 12;
    assert i - 1 == q * 12 + r && 0 <= r < 12;
    if r == 11 {
      assert i == (q + 1) * 12 + 0;
    } else {
      assert i == q * 12 + (r + 1) && r + 1 < 12;
    }
  }

  /** Different distances back give different calendar months. */
  lemma MonthsBeforeInjective(year: int, month: int, a: int, b: int)
    requires 1 <= month <= 12
    requires MonthsBefore(year, month, a) == MonthsBefore(year, month, b)
    ensures a == b
  {
    var i, j := month - 1 - a, month - 1 - b;
    assert i == (i / 12) * 12 + i % 12;
    assert j == (j / 12) * 12 + j % 12;
  }

  /** The first bucket for (year, month), as the linear `find` returns it. */
  function Lookup(agg: seq<Bucket>, year: int, month: int): Option<Bucket> {
    if agg == [] then None
    else if agg[0].year == year && agg[0].month == month then Some(agg[0])
    else Lookup(agg[1..], year, month)
  }

  /** Lookup finds nothing exactly when no bucket matches, and otherwise the first matching bucket. */
  lemma {:induction false} LookupFindsFirst(agg: seq<Bucket>, year: int, month: int)
    ensures Lookup(agg, year, month).None? <==>
      forall j :: 0 <= j < |agg| ==> !(agg[j].year == year && agg[j].month == month)
    ensures Lookup(agg, year, month).Some? ==>
      exists j :: 0 <= j < |agg| && agg[j] == Lookup(agg, year, month).value
        && agg[j].year == year && agg[j].month == month
        && forall i :: 0 <= i < j ==> !(agg[i].year == year && agg[i].month == month)
  {
    if agg != [] && !(agg[0].year == year && agg[0].month == month) {
      LookupFindsFirst(agg[1..], year, month);
      if Lookup(agg[1..], year, month).Some? {
        var j :| 0 <= j < |agg[1..]| && agg[1..][j] == Lookup(agg[1..], year, month).value
          && agg[1..][j].year == year && agg[1..][j].month == month
          && forall i :: 0 <= i < j ==> !(agg[1..][i].year == year && agg[1..][i].month == month);
        assert agg[j + 1] == agg[1..][j];
        forall i | 0 <= i < j + 1
          ensures !(agg[i].year == year && agg[i].month == month)
        {
          if i > 0 {
            assert agg[i] == agg[1..][i - 1];
          }
        }
      } else {
        forall j | 0 <= j < |agg| ensures !(agg[j].year == year && agg[j].month == month) {
          if j > 0 {
            assert agg[j] == agg[1..][j - 1];
          }
        }
      }
    }
  }

  function DigitChar(d: int): char
    requires 0 <= d < 10
  {
    "0123456789"[d]
  }

  /** The decimal digits of `n`, most significant first, without leading zeros. */
  function NatToString(n: nat): (s: string)
    ensures |s| >= 1 && (|s| > 1 ==> s[0] != '0')
    ensures forall i :: 0 <= i < |s| ==> '0' <= s[i] <= '9'
  {
    if n < 10 then [DigitChar(n)] else NatToString(n / 10) + [DigitChar(n % 10)]
  }

  /** A number as a template literal writes it: decimal, with a leading minus sign when negative. */
  function IntToString(n: int): string {
    if n < 0 then "-" + NatToString(-n) else NatToString(n)
  }

  /** The value of a string of decimal digits. */
  function ParseDigits(s: string): int {
    if s == [] then 0 else 10 * ParseDigits(s[..|s| - 1]) + (s[|s| - 1] as int - '0' as int)
  }

  /** The value of a decimal numeral with an optional minus sign. */
  function ParseInt(s: string): int {
    if |s| > 0 && s[0] == '-' then -ParseDigits(s[1..]) else ParseDigits(s)
  }

  /** Each digit character reads back as its digit. */
  lemma DigitCharValue(d: int)
    requires 0 <= d < 10
    ensures DigitChar(d) as int - '0' as int == d
  {
  }

  /** Reading back the digits gives the number. */
  lemma {:induction false} NatToStringRoundTrip(n: nat)
    ensures ParseDigits(NatToString(n)) == n
  {
    if n < 10 {
      DigitCharValue(n);
      assert NatToString(n) == [DigitChar(n)];
      assert ParseDigits([DigitChar(n)]) == 10 * ParseDigits([]) + (DigitChar(n) as int - '0' as int);
    } else {
      NatToStringRoundTrip(n / 10);
      DigitCharValue(n % 10);
      var s := NatToString(n);
      var last := DigitChar(n % 10);
      assert s == NatToString(n / 10) + [last];
      assert s[..|s| - 1] == NatToString(n / 10) && s[|s| - 1] == last;
      assert n == 10 * (n / 10) + n % 10;
    }
  }

  /** A minus sign in front of a digit string negates its value; without one the value is the digits'. */
  lemma ParseIntSigned(digits: string)
    requires |digits| >= 1 && digits[0] != '-'
    ensures ParseInt("-" + digits) == -ParseDigits(digits) && ParseInt(digits) == ParseDigits(digits)
  {
    assert ("-" + digits)[1..] == digits;
  }

  /** Reading back the year's numeral gives the year. */
  lemma IntToStringRoundTrip(n: int)
    ensures ParseInt(IntToString(n)) == n
  {
    var digits := NatToString(if n < 0 then -n else n);
    assert '0' <= digits[0] <= '9';
    ParseIntSigned(digits);
    NatToStringRoundTrip(if n < 0 then -n else n);
  }

  /** The `"Mon YYYY"` key of a month. */
  function MonthKey(year: int, month: int): string
    requires 1 <= month <= 12
  {
    MONTHS[month - 1] + " " + IntToString(year)
  }

  /** The month number of a three-letter month name, 0 for any other string. */
  function MonthNumber(name: string): int {
    if name == "Jan" then 1 else if name == "Feb" then 2 else if name == "Mar" then 3
    else if name == "Apr" then 4 else if name == "May" then 5 else if name == "Jun" then 6
    else if name == "Jul" then 7 else if name == "Aug" then 8 else if name == "Sep" then 9
    else if name == "Oct" then 10 else if name == "Nov" then 11 else if name == "Dec" then 12
    else 0
  }

  /** Reads a `"Mon YYYY"` key back into (year, month). */
  function ParseMonthKey(key: string): (int, int) {
    if |key| < 4 then (0, 0) else (ParseInt(key[4..]), MonthNumber(key[..3]))
  }

  /** Each month's name reads back as its number. */
  lemma MonthNumberOfName(month: int)
    requires 1 <= month <= 12
    ensures |MONTHS[month - 1]| == 3 && MonthNumber(MONTHS[month - 1]) == month
  {
  }

  /** A key reads back as the month it was made from. */
  lemma MonthKeyRoundTrip(year: int, month: int)
    requires 1 <= month <= 12
    ensures ParseMonthKey(MonthKey(year, month)) == (year, month)
  {
    var key := MonthKey(year, month);
    MonthNumberOfName(month);
    assert key[..3] == MONTHS[month - 1];
    assert key[4..] == IntToString(year);
    IntToStringRoundTrip(year);
  }

  /** Two months have the same key only when they are the same month. */
  lemma MonthKeyInjective(y1: int, m1: int, y2: int, m2: int)
    requires 1 <= m1 <= 12 && 1 <= m2 <= 12
    requires MonthKey(y1, m1) == MonthKey(y2, m2)
    ensures y1 == y2 && m1 == m2
  {
    MonthKeyRoundTrip(y1, m1);
    MonthKeyRoundTrip(y2, m2);
  }

  /** The entry for one month: its key, and the bucket's counts or zeros when there is no bucket. */
  function StatFor(ym: (int, int), agg: seq<Bucket>): (s: MonthStat)
    requires 1 <= ym.1 <= 12
  {
    var found := Lookup(agg, ym.0, ym.1);
    MonthStat(MonthKey(ym.0, ym.1),
              if found.Some? then found.value.total else 0,
              if found.Some? then found.value.pending else 0)
  }

  /** The entry for a month with no bucket is zero; with a bucket it carries that bucket's counts. */
  lemma StatForCounts(ym: (int, int), agg: seq<Bucket>)
    requires 1 <= ym.1 <= 12
    ensures (forall j :: 0 <= j < |agg| ==> !(agg[j].year == ym.0 && agg[j].month == ym.1)) ==>
      StatFor(ym, agg).total == 0 && StatFor(ym, agg).pending == 0
    ensures forall j ::
        (0 <= j < |agg| && agg[j].year == ym.0 && agg[j].month == ym.1
         && forall i :: 0 <= i < j ==> !(agg[i].year == ym.0 && agg[i].month == ym.1)) ==>
      StatFor(ym, agg).total == agg[j].total && StatFor(ym, agg).pending == agg[j].pending
  {
    LookupFindsFirst(agg, ym.0, ym.1);
  }

  /** `monthlyAggregation.find(...)`: a linear scan for the first bucket of (year, month). */
  method FindBucket(agg: seq<Bucket>, year: int, month: int) returns (found: Option<Bucket>)
    ensures found == Lookup(agg, year, month)
  {
    var i := 0;
    while i < |agg|
      invariant 0 <= i <= |agg|
      invariant Lookup(agg[i..], year, month) == Lookup(agg, year, month)
    {
      assert agg[i..][1..] == agg[i + 1..];
      if agg[i].year == year && agg[i].month == month {
        return Some(agg[i]);
      }
      i := i + 1;
    }
    return None;
  }

  /** The series the fill is meant to produce: entry `k` is the month `5 - k` months back. */
  function Series(nowYear: int, nowMonth: int, agg: seq<Bucket>): seq<MonthStat>
    requires 1 <= nowMonth <= 12
  {
    seq(6, k requires 0 <= k < 6 => StatFor(MonthsBefore(nowYear, nowMonth, 5 - k), agg))
  }

  /**
   * One entry of the fill: the month's key and the counts of its bucket, or
   * zeros. It computes what `StatFor` defines, through the linear scan; it is a
   * method of its own so that the fill loop's proof reasons about one call.
   */
  method MonthEntry(ym: (int, int), agg: seq<Bucket>) returns (entry: MonthStat)
    requires 1 <= ym.1 <= 12
    ensures entry == StatFor(ym, agg)
  {
    var found := FindBucket(agg, ym.0, ym.1);
    var total := if found.Some? then found.value.total else 0;
    var pending := if found.Some? then found.value.pending else 0;
    entry := MonthStat(MonthKey(ym.0, ym.1), total, pending);
  }

  /**
   * The `monthlyStats` fill: six entries, five months back up to the current
   * month, oldest first, each keyed `"Mon YYYY"` and carrying the counts of its
   * bucket or zeros.
   */
  method MonthlyStats(nowYear: int, nowMonth: int, agg: seq<Bucket>) returns (stats: seq<MonthStat>)
    requires 1 <= nowMonth <= 12
    ensures stats == Series(nowYear, nowMonth, agg)
  {
    stats := [];
    var i := 5;
    while i >= 0
      invariant -1 <= i <= 5
      invariant stats == Series(nowYear, nowMonth, agg)[..5 - i]
    {
      var ym := MonthsBefore(nowYear, nowMonth, i);
      var entry := MonthEntry(ym, agg);
      SeriesStep(nowYear, nowMonth, agg, i, stats, entry);
      stats := stats + [entry];
      i := i - 1;
    }
    SeriesAt(nowYear, nowMonth, agg, 0);
    assert Series(nowYear, nowMonth, agg)[..6] == Series(nowYear, nowMonth, agg);
  }

  /** The entry `back` months back extends the filled prefix of the series by one. */
  lemma SeriesStep(nowYear: int, nowMonth: int, agg: seq<Bucket>, back: int, done: seq<MonthStat>, entry: MonthStat)
    requires 1 <= nowMonth <= 12 && 0 <= back <= 5
    requires done == Series(nowYear, nowMonth, agg)[..5 - back]
    requires entry == StatFor(MonthsBefore(nowYear, nowMonth, back), agg)
    ensures done + [entry] == Series(nowYear, nowMonth, agg)[..5 - back + 1]
  {
    SeriesAt(nowYear, nowMonth, agg, 5 - back);
    PrefixStep(Series(nowYear, nowMonth, agg), 5 - back);
  }

  /** A prefix followed by the next element is the next prefix. */
  lemma PrefixStep<T>(s: seq<T>, n: int)
    requires 0 <= n < |s|
    ensures s[..n] + [s[n]] == s[..n + 1]
  {
  }

  /** The key of the entry `back` months before the current one. */
  function SeriesKey(nowYear: int, nowMonth: int, back: int): string
    requires 1 <= nowMonth <= 12
  {
    var ym := MonthsBefore(nowYear, nowMonth, back);
    MonthKey(ym.0, ym.1)
  }

  /**
   * The six months of the series run oldest to newest with no gap, end at the
   * current month, and have six different keys.
   */
  lemma SeriesIsConsecutive(nowYear: int, nowMonth: int)
    requires 1 <= nowMonth <= 12
    ensures MonthsBefore(nowYear, nowMonth, 0) == (nowYear, nowMonth)
    ensures forall back :: 0 <= back < 5 ==>
      NextMonth(MonthsBefore(nowYear, nowMonth, back + 1)) == MonthsBefore(nowYear, nowMonth, back)
    ensures forall a, b :: 0 <= a < b < 6 ==> SeriesKey(nowYear, nowMonth, a) != SeriesKey(nowYear, nowMonth, b)
  {
    forall back | 0 <= back < 5
      ensures NextMonth(MonthsBefore(nowYear, nowMonth, back + 1)) == MonthsBefore(nowYear, nowMonth, back)
    {
      MonthsBeforeStep(nowYear, nowMonth, back);
    }
    forall a, b | 0 <= a < b < 6
      ensures SeriesKey(nowYear, nowMonth, a) != SeriesKey(nowYear, nowMonth, b)
    {
      var ya := MonthsBefore(nowYear, nowMonth, a);
      var yb := MonthsBefore(nowYear, nowMonth, b);
      if MonthKey(ya.0, ya.1) == MonthKey(yb.0, yb.1) {
        MonthKeyInjective(ya.0, ya.1, yb.0, yb.1);
        MonthsBeforeInjective(nowYear, nowMonth, a, b);
      }
    }
  }

  /** Entry `k` of the series is the month `5 - k` months back, keyed by `SeriesKey`. */
  lemma SeriesAt(nowYear: int, nowMonth: int, agg: seq<Bucket>, k: int)
    requires 1 <= nowMonth <= 12 && 0 <= k < 6
    ensures |Series(nowYear, nowMonth, agg)| == 6
    ensures Series(nowYear, nowMonth, agg)[k] == StatFor(MonthsBefore(nowYear, nowMonth, 5 - k), agg)
    ensures Series(nowYear, nowMonth, agg)[k].month == SeriesKey(nowYear, nowMonth, 5 - k)
  {
  }

  /**
   * The series has six entries ending with the current month, and no two of
   * its entries share a key.
   */
  lemma SeriesShape(nowYear: int, nowMonth: int, agg: seq<Bucket>)
    requires 1 <= nowMonth <= 12
    ensures |Series(nowYear, nowMonth, agg)| == 6
    ensures Series(nowYear, nowMonth, agg)[5].month == MonthKey(nowYear, nowMonth)
    ensures forall a, b :: 0 <= a < b < 6 ==>
      Series(nowYear, nowMonth, agg)[a].month != Series(nowYear, nowMonth, agg)[b].month
  {
    SeriesIsConsecutive(nowYear, nowMonth);
    SeriesAt(nowYear, nowMonth, agg, 5);
    forall a, b | 0 <= a < b < 6
      ensures Series(nowYear, nowMonth, agg)[a].month != Series(nowYear, nowMonth, agg)[b].month
    {
      SeriesAt(nowYear, nowMonth, agg, a);
      SeriesAt(nowYear, nowMonth, agg, b);
    }
  }
}
