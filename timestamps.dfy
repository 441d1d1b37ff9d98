/**
  Timestamps as the scanners see them. The `asctime('%Y-%m-%d %H:%M:%S')`
  converter is a foreign strptime wrapper, so it is a parameter here: a
  Parser maps a text to seconds since 1970-01-01 00:00:00, or to None where
  the converter would raise. Durations are whole seconds.
*/
module Timestamps {
  import opened Wrappers
  import Strings

  type Parser = string -> Option<int>

  /** Width of the `YYYY-MM-DD HH:MM:SS` prefix a log line is tested on. */
  const Width := 19

  /**
    `dtf.asc2dt('1970-01-01 00:00:00')`: the reference the first netstat
    block is compared with. This is 0 only for a Parser that counts seconds
    from 1970-01-01 00:00:00, as every Parser here is taken to do.
  */
  const Epoch := 0

  /** NSFILTER, `timedelta(minutes=15)`, in seconds. */
  const NetstatFilter := 15 * 60

  /** `row[0:19]` */
  function Head(line: string): (r: string)
    ensures r <= line
    ensures |r| == if |line| < Width then |line| else Width
  {
    Strings.Prefix(line, Width)
  }

  /** The hours, minutes and seconds printed after a repeated TRIGGERED event. */
  datatype Elapsed = Elapsed(hours: int, minutes: int, seconds: int)

  function TotalSeconds(e: Elapsed): int {
    e.hours * 3600 + e.minutes * 60 + e.seconds
  }

  /**
    `divmod(total_seconds, 3600)` then `divmod(rem, 60)`: Python's divmod
    floors, which for a positive divisor is Dafny's `/` and `%`. The hours
    are not reduced modulo 24, and a negative span gives negative hours.
  */
  function SplitDuration(s: int): (e: Elapsed)
    ensures 0 <= e.minutes < 60 && 0 <= e.seconds < 60
    ensures TotalSeconds(e) == s
  {
    Elapsed(s / 3600, (s % 3600) / 60, (s % 3600) % 60)
  }

  lemma MulAtLeast(k: int, d: int)
    requires k >= 1 && d > 0
    ensures k * d >= d
  {
    assert k * d == (k - 1) * d + d;
  }

  lemma DivModUnique(x: int, d: int, q: int, r: int)
    requires d > 0 && 0 <= r < d && x == q * d + r
    ensures x / d == q && x % d == r
  {
    var q', r' := x / d, x % d;
    assert x == q' * d + r';
    if q' > q {
      assert (q' - q) * d == q' * d - q * d;
      MulAtLeast(q' - q, d);
    } else if q' < q {
      assert (q - q') * d == q * d - q' * d;
      MulAtLeast(q - q', d);
    }
  }

  /** Splitting a span whose minutes and seconds are in range gives those fields back. */
  lemma SplitTotal(e: Elapsed)
    requires 0 <= e.minutes < 60 && 0 <= e.seconds < 60
    ensures SplitDuration(TotalSeconds(e)) == e
  {
    var rem := e.minutes * 60 + e.seconds;
    DivModUnique(TotalSeconds(e), 3600, e.hours, rem);
    DivModUnique(rem, 60, e.minutes, e.seconds);
  }
}
