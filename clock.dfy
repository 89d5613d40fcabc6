/**
 * Wall-clock values as the app uses them: `datetime.time()` for the slot policy,
 * `strftime("%Y-%m-%d")` as the per-day key, and `strftime("%Y-%m-%d %H:%M:%S")`
 * as the timestamp written into each ledger row.
 */
module Clock {
  import opened Text

  const MicrosPerSecond := 1_000_000
  const MicrosPerMinute := 60_000_000

  /** A time of day, in microseconds since midnight (the resolution of `datetime.time`). */
  type TimeOfDay = t: int | 0 <= t < 86_400_000_000

  /** `datetime.time(h, m)`. */
  function At(h: nat, m: nat): int {
    (h * 60 + m) * MicrosPerMinute
  }

  /** What `strftime("%Y-%m-%d")` produces: digits and dashes. */
  predicate IsDateKey(s: string) {
    |s| > 0 && forall i :: 0 <= i < |s| ==> ('0' <= s[i] <= '9' || s[i] == '-')
  }

  /** A calendar date, used only as a key. */
  type DateKey = s: string | IsDateKey(s) witness "1970-01-01"

  /** `datetime.now()`, split into the date key and the time of day. */
  datatype Instant = Instant(date: DateKey, clock: TimeOfDay)

  /** Whole minutes since midnight. */
  function MinuteOfDay(t: TimeOfDay): (m: nat)
    ensures m < 24 * 60
    ensures t < At(m / 60, m % 60 + 1) && At(m / 60, m % 60) <= t
  {
    t / MicrosPerMinute
  }

  function Digit(d: nat): (c: char)
    requires d < 10
    ensures '0' <= c <= '9'
    ensures c as int == '0' as int + d
  {
    ('0' as int + d) as char
  }

  /** `%02d`. */
  function TwoDigits(n: nat): (r: string)
    requires n < 100
    ensures |r| == 2 && '0' <= r[0] <= '9' && '0' <= r[1] <= '9'
  {
    [Digit(n / 10), Digit(n % 10)]
  }

  /** `%H:%M`, the first five characters of the clock text. */
  function HourMinute(t: TimeOfDay): (r: string)
    ensures |r| == 5
  {
    var m := MinuteOfDay(t);
    TwoDigits(m / 60) + ":" + TwoDigits(m % 60)
  }

  /** `%H:%M:%S` (seconds truncated, as `strftime` does). */
  function ClockText(t: TimeOfDay): (r: string)
    ensures |r| == 8 && r[..5] == HourMinute(t)
    ensures r != [] && NoSpace(r) && ',' !in r
  {
    var r := HourMinute(t) + ":" + TwoDigits((t / MicrosPerSecond) % 60);
    assert r[..5] == HourMinute(t);
    r
  }

  /** `strftime("%Y-%m-%d %H:%M:%S")`. */
  function Stamp(now: Instant): (r: string)
    ensures ',' !in r
  {
    DateKeyUnspaced(now.date);
    now.date + " " + ClockText(now.clock)
  }

  lemma DateKeyUnspaced(d: DateKey)
    ensures d != [] && NoSpace(d) && ',' !in d
  {
    forall i | 0 <= i < |d| ensures !IsSpace(d[i]) && d[i] != ',' {
      assert '0' <= d[i] <= '9' || d[i] == '-';
    }
  }

  /** `stamp.split()` gives the date and the clock text. */
  lemma StampWords(now: Instant)
    ensures Words(Stamp(now)) == [now.date, ClockText(now.clock)]
  {
    DateKeyUnspaced(now.date);
    WordsOfPair(now.date, ClockText(now.clock));
  }

  /** Two-digit fields compare as text exactly as their numbers do. */
  lemma TwoDigitsOrder(p: nat, q: nat, a: string, b: string)
    requires p < 100 && q < 100
    ensures LexLe(TwoDigits(p) + a, TwoDigits(q) + b) == (p < q || (p == q && LexLe(a, b)))
  {
    var dp, ep := Digit(p / 10), Digit(p % 10);
    var dq, eq := Digit(q / 10), Digit(q % 10);
    assert TwoDigits(p) + a == [dp] + ([ep] + a);
    assert TwoDigits(q) + b == [dq] + ([eq] + b);
    LexLeCons(dp, [ep] + a, dq, [eq] + b);
    LexLeCons(ep, a, eq, b);
  }

  /** Zero-padded `HH:MM` text orders like the minute of the day. */
  lemma HourMinuteOrder(t1: TimeOfDay, t2: TimeOfDay)
    ensures LexLe(HourMinute(t1), HourMinute(t2)) <==> MinuteOfDay(t1) <= MinuteOfDay(t2)
  {
    var m1, m2 := MinuteOfDay(t1), MinuteOfDay(t2);
    TwoDigitsOrder(m1 / 60, m2 / 60, ":" + TwoDigits(m1 % 60), ":" + TwoDigits(m2 % 60));
    LexLeCons(':', TwoDigits(m1 % 60), ':', TwoDigits(m2 % 60));
    TwoDigitsOrder(m1 % 60, m2 % 60, "", "");
    assert TwoDigits(m1 % 60) + "" == TwoDigits(m1 % 60);
    assert TwoDigits(m2 % 60) + "" == TwoDigits(m2 % 60);
    assert HourMinute(t1) == TwoDigits(m1 / 60) + (":" + TwoDigits(m1 % 60));
    assert HourMinute(t2) == TwoDigits(m2 / 60) + (":" + TwoDigits(m2 % 60));
  }

  /** The hour is below 24, so its leading digit is at most '2'. */
  lemma HourMinuteLeadingDigit(t: TimeOfDay)
    ensures '0' <= HourMinute(t)[0] <= '2'
  {
    var m := MinuteOfDay(t);
    assert HourMinute(t)[0] == Digit(m / 60 / 10);
  }
}
