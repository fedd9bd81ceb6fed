/** Instants, and the range in which they encode as int64 UTC nanoseconds (canon/canon.go). */
module Instants {
  import opened Bytes

  const BILLION: int := 1_000_000_000

  /** What time.Time keeps after its location and monotonic reading are dropped:
      whole seconds since the Unix epoch (any sign) and a nanosecond within the second. */
  datatype InstantParts = Instant(sec: int, nsec: int)
  type Instant = t: InstantParts | 0 <= t.nsec < BILLION witness Instant(0, 0)

  /** Go's integer division and remainder, which truncate toward zero. */
  function TruncDiv(a: int, b: int): int
    requires b > 0
  {
    if a >= 0 then a / b else -((-a) / b)
  }

  /** time.Unix(0, nsec): normalises nsec into [0, 1e9). */
  function UnixOfNanos(nsec: int64): (t: Instant)
    ensures 0 <= t.nsec < 1_000_000_000 && t.sec * 1_000_000_000 + t.nsec == nsec
  {
    var n := TruncDiv(nsec, BILLION);
    var r := nsec - n * BILLION;
    if r < 0 then Instant(n - 1, r + BILLION) else Instant(n, r)
  }

  const MIN_REPRESENTABLE := UnixOfNanos(-TWO_63)
  const MAX_REPRESENTABLE := UnixOfNanos(TWO_63 - 1)

  /** time.Time.Before compares seconds, then nanoseconds. */
  predicate Before(t: Instant, u: Instant) {
    t.sec < u.sec || (t.sec == u.sec && t.nsec < u.nsec)
  }

  predicate ValidTime(t: Instant) {
    !Before(t, MIN_REPRESENTABLE) && !Before(MAX_REPRESENTABLE, t)
  }

  /** time.Time.UnixNano: both int64 steps may wrap. */
  function UnixNano(t: Instant): int64 {
    Wrap64(Wrap64(Wrap64(t.sec) * BILLION) + t.nsec)
  }

  /** The instant in nanoseconds, with no bound on the integers. */
  function Nanos(t: Instant): int {
    t.sec * BILLION + t.nsec
  }

  /** The lexicographic comparison accepts exactly the instants whose nanosecond count is an int64. */
  lemma ValidTimeExact(t: Instant)
    ensures ValidTime(t) <==> -TWO_63 <= Nanos(t) < TWO_63
    ensures ValidTime(t) <==>
      -0x8000_0000_0000_0000 <= t.sec * 1_000_000_000 + t.nsec <= 0x7FFF_FFFF_FFFF_FFFF
  {
    assert MIN_REPRESENTABLE == Instant(-9223372037, 145224192);
    assert MAX_REPRESENTABLE == Instant(9223372036, 854775807);
  }

  lemma WrapExact(x: int, k: int)
    requires -TWO_63 <= x + k * TWO_64 < TWO_63
    ensures Wrap64(x) == x + k * TWO_64
  {
    var y := x + k * TWO_64;
    assert x % TWO_64 == y % TWO_64;
  }

  /** On a valid instant the wrapping evaluation is exact; the product alone overflows
      precisely in the last second before the minimum. */
  lemma UnixNanoExact(t: Instant)
    requires ValidTime(t)
    ensures UnixNano(t) == Nanos(t)
    ensures Wrap64(t.sec) * BILLION != Wrap64(Wrap64(t.sec) * BILLION) <==> t.sec == -9223372037
  {
    ValidTimeExact(t);
    WrapExact(t.sec, 0);
    if t.sec == -9223372037 {
      WrapExact(t.sec * BILLION, 1);
      WrapExact(t.sec * BILLION + TWO_64 + t.nsec, -1);
    } else {
      WrapExact(t.sec * BILLION, 0);
      WrapExact(Nanos(t), 0);
    }
  }

  /** Outside the range the wrapped value is never the instant's own count: the check is needed everywhere. */
  lemma UnixNanoWrongOutside(t: Instant)
    ensures UnixNano(t) == Nanos(t) <==> ValidTime(t)
  {
    ValidTimeExact(t);
    if ValidTime(t) { UnixNanoExact(t); }
  }

  /** Valid instants and int64 nanosecond counts are in one-to-one correspondence. */
  lemma UnixNanoBijective(t: Instant, n: int64)
    ensures ValidTime(UnixOfNanos(n)) && UnixNano(UnixOfNanos(n)) == n
    ensures ValidTime(t) ==> (UnixNano(t) == n <==> t == UnixOfNanos(n))
  {
    ValidTimeExact(UnixOfNanos(n));
    UnixNanoExact(UnixOfNanos(n));
    if ValidTime(t) { UnixNanoExact(t); }
  }
}
