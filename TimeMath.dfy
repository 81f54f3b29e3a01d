/**
 Arithmetic on time instants held as whole seconds since the Unix epoch
 plus a sub-second nanosecond count: sub-second rounding, and checked
 addition and subtraction of durations and of signed or unsigned whole
 seconds, with carry and borrow between nanoseconds and seconds.

 The calendar/time-zone constructor of the underlying date-time library is
 not modelled. The checked operations take it as an argument of type
 `TzConstructor` and rely only on what `IsTzConstructor` states of it.
 */
module TimeMath {
  import opened Wrappers
  import opened Ints

  const NANOS_IN_SECOND: int := 1_000_000_000

  type Nanos = x: int | 0 <= x < NANOS_IN_SECOND

  /** How a time presents itself: UTC, a fixed UTC offset, or a named zone. */
  datatype Offset = Utc | Fixed(utcOffsetSeconds: int) | Zone(name: string)

  /** The local time type (UTC offset, daylight-saving flag, abbreviation) in effect at an instant. */
  datatype LocalTimeType = LocalTimeType(utcOffsetSeconds: int, isDst: bool, abbreviation: string)

  datatype Time = Time(unixTime: i64, nanos: Nanos, offset: Offset, localTimeType: LocalTimeType)

  /** A non-negative span: whole seconds and the nanoseconds below one second. */
  datatype Duration = Duration(secs: u64, subsecNanos: Nanos)

  datatype TimeError = IntOverflow | TzOutOfRange

  /** The instant as a single count of nanoseconds since the epoch. */
  function Total(t: Time): int {
    t.unixTime * NANOS_IN_SECOND + t.nanos
  }

  function DurationNanos(d: Duration): int {
    d.secs * NANOS_IN_SECOND + d.subsecNanos
  }

  function Pow10(k: nat): (r: nat)
    ensures r >= 1
  {
    if k == 0 then 1 else 10 * Pow10(k - 1)
  }

  predicate InI64(x: int) {
    I64_MIN <= x <= I64_MAX
  }

  // ---------------------------------------------------------------------
  // The date-time constructor

  /**
   Builds a time from seconds, nanoseconds and an offset, resolving the
   local time type of the offset's zone at that instant; it may fail.
   */
  type TzConstructor = (i64, u32, Offset) -> Result<Time, TimeError>

  /**
   What the arithmetic needs of the constructor: nanoseconds of a full
   second or more are rejected, and a time it does build has the seconds,
   nanoseconds and offset it was given.
   */
  ghost predicate IsTzConstructor(ctor: TzConstructor) {
    forall s: i64, n: u32, o: Offset ::
      && (n >= NANOS_IN_SECOND ==> ctor(s, n, o).Err?)
      && (ctor(s, n, o).Ok? ==>
            ctor(s, n, o).value.unixTime == s && ctor(s, n, o).value.nanos == n && ctor(s, n, o).value.offset == o)
  }

  /** The constructor of a zone with a single local time type, such as UTC or a fixed offset. */
  function FixedZoneConstructor(ltt: LocalTimeType): (ctor: TzConstructor)
    ensures IsTzConstructor(ctor)
    ensures forall s: i64, n: Nanos, o: Offset :: ctor(s, n, o) == Ok(Time(s, n, o, ltt))
  {
    (s: i64, n: u32, o: Offset) => if n < NANOS_IN_SECOND then Ok(Time(s, n, o, ltt)) else Err(TzOutOfRange)
  }

  // ---------------------------------------------------------------------
  // Rounding

  /**
   The sub-second nanoseconds of `round` before the carry: truncate after
   `digits + 1` digits, then round half up on that digit. The result is the
   multiple of `10^(9 - digits)` nearest to `nanos`, ties going up, and is
   at most one second.
   */
  function RoundedNanos(nanos: Nanos, digits: nat): (r: nat)
    requires digits <= 8
    ensures var m := Pow10(9 - digits); r % m == 0 && nanos - m / 2 < r <= nanos + m / 2
    ensures r <= NANOS_IN_SECOND
  {
    var truncatingDivisor := Pow10(9 - digits - 1);
    var roundingMultiple := Pow10(9 - digits);
    Pow10Add(9 - digits, digits);
    assert Pow10(9) == NANOS_IN_SECOND;
    TruncateAndRound(nanos, truncatingDivisor, roundingMultiple, Pow10(digits))
  }

  /**
   The arithmetic of `RoundedNanos` for a divisor `d` and a multiple
   `m == 10 * d` with `m * p` nanoseconds in a second.
   */
  function TruncateAndRound(nanos: Nanos, truncatingDivisor: nat, roundingMultiple: nat, p: nat): (r: nat)
    requires truncatingDivisor >= 1 && roundingMultiple == 10 * truncatingDivisor
    requires roundingMultiple * p == NANOS_IN_SECOND
    ensures var m := roundingMultiple; r % m == 0 && nanos - m / 2 < r <= nanos + m / 2
    ensures r <= NANOS_IN_SECOND
  {
    var truncated: nat := nanos / truncatingDivisor;
    var units: nat := if truncated % 10 >= 5 then truncated / 10 + 1 else truncated / 10;
    TruncateThenHalfUp(nanos, truncatingDivisor);
    MultipleBelow(units * roundingMultiple, roundingMultiple, p);
    units * roundingMultiple
  }

  /**
   `round` may only carry into the seconds when they can grow: at
   `i64::MAX` seconds the increment overflows.
   */
  predicate CanRound(t: Time, digits: nat) {
    digits >= 9 || RoundedNanos(t.nanos, digits) < NANOS_IN_SECOND || t.unixTime < I64_MAX
  }

  /**
   `round(digits)`: with 9 or more digits nothing changes; otherwise the
   instant moves to a multiple of `10^(9 - digits)` nanoseconds at most half
   a unit away, ties going up, carrying into the seconds when the
   nanoseconds reach one second. Offset and local time type are kept.
   */
  function Round(t: Time, digits: u32): (r: Time)
    requires CanRound(t, digits)
    ensures r.offset == t.offset && r.localTimeType == t.localTimeType
    ensures digits >= 9 ==> r == t
    ensures digits <= 8 ==> var m := Pow10(9 - digits);
      r.nanos % m == 0 && Total(t) - m / 2 < Total(r) <= Total(t) + m / 2
  {
    if digits >= 9 then t
    else
      var newNanos := RoundedNanos(t.nanos, digits);
      if newNanos >= NANOS_IN_SECOND then
        assert newNanos == NANOS_IN_SECOND;
        Time(t.unixTime + 1, newNanos - NANOS_IN_SECOND, t.offset, t.localTimeType)
      else
        Time(t.unixTime, newNanos, t.offset, t.localTimeType)
  }

  /** A multiple of `m` less than `m` above `m * p` is at most `m * p`. */
  lemma MultipleBelow(n: int, m: int, p: int)
    requires m > 0 && n % m == 0 && n < m * p + m
    ensures n <= m * p
  {
    var j := n / m;
    assert n == j * m;
    if j > p {
      MulMono(p + 1, j, m);
      MulStep(p, m);
    }
  }

  lemma {:induction false} Pow10Add(a: nat, b: nat)
    ensures Pow10(a + b) == Pow10(a) * Pow10(b)
  {
    if a > 0 {
      Pow10Add(a - 1, b);
      MulAssoc(10, Pow10(a - 1), Pow10(b));
    }
  }

  /** Half-up on the digit after truncating by `d` rounds `x` half up to a multiple of `10 * d`. */
  lemma TruncateThenHalfUp(x: nat, d: nat)
    requires d >= 1
    ensures var t := x / d;
      var r := if t % 10 >= 5 then (t / 10 + 1) * (10 * d) else (t / 10) * (10 * d);
      && r % (10 * d) == 0
      && x - (10 * d) / 2 < r <= x + (10 * d) / 2
  {
    var m := 10 * d;
    var t := x / d;
    var q, e, low := t / 10, t % 10, x % d;
    assert x == t * d + low;
    assert t == q * 10 + e;
    assert x == q * m + (e * d + low) by {
      calc {
        t * d;
        (q * 10 + e) * d;
        { MulDistrib(q * 10, e, d); }
        (q * 10) * d + e * d;
        { MulAssoc(q, 10, d); }
        q * m + e * d;
      }
    }
    var up := if e >= 5 then q + 1 else q;
    DivModUnique(up * m, up, 0, m);
    assert m / 2 == 5 * d;
    if e >= 5 {
      MulMono(5, e, d);
      MulMono(e, 9, d);
      MulStep(q, m);
    } else {
      MulMono(e, 4, d);
    }
  }
  lemma MulDistrib(a: int, b: int, c: int)
    ensures (a + b) * c == a * c + b * c
  {
  }

  lemma MulAssoc(a: int, b: int, c: int)
    ensures (a * b) * c == a * (b * c)
  {
  }

  /** Rounding twice to the same number of digits is rounding once. */
  lemma RoundIdempotent(t: Time, digits: u32)
    requires CanRound(t, digits)
    ensures CanRound(Round(t, digits), digits)
    ensures Round(Round(t, digits), digits) == Round(t, digits)
  {
    if digits <= 8 {
      var r := Round(t, digits);
      var m := Pow10(9 - digits);
      MultiplesApart(r.nanos, RoundedNanos(r.nanos, digits), m);
    }
  }

  /** Two multiples of `m` less than `m` apart are equal. */
  lemma MultiplesApart(a: int, b: int, m: nat)
    requires m > 0 && a % m == 0 && b % m == 0
    requires a - m < b < a + m
    ensures a == b
  {
    var qa, qb := a / m, b / m;
    assert a == qa * m && b == qb * m;
    if qa < qb {
      assert b - a == (qb - qa) * m;
      MulGe(qb - qa, m);
    } else if qb < qa {
      assert a - b == (qa - qb) * m;
      MulGe(qa - qb, m);
    }
  }

  // ---------------------------------------------------------------------
  // Addition and subtraction

  /** Whether the duration's seconds fit `i64` and the seconds sum does not overflow. */
  predicate AddFits(t: Time, d: Duration) {
    d.secs <= I64_MAX && InI64(t.unixTime + d.secs)
  }

  /** Whether the duration's seconds fit `i64` and the seconds difference does not overflow. */
  predicate SubFits(t: Time, d: Duration) {
    d.secs <= I64_MAX && InI64(t.unixTime - d.secs)
  }

  /**
   `checked_add(duration)` as the source writes it: the carry into the
   seconds happens only when the nanosecond sum strictly exceeds one second,
   so a sum of exactly one second reaches the constructor, which rejects it.
   */
  function CheckedAddAsWritten(t: Time, d: Duration, ctor: TzConstructor): (r: Result<Time, TimeError>)
    requires !(AddFits(t, d) && t.unixTime + d.secs == I64_MAX && t.nanos + d.subsecNanos > NANOS_IN_SECOND)
    ensures t.nanos + d.subsecNanos != NANOS_IN_SECOND ==> r == CheckedAdd(t, d, ctor)
    ensures AddFits(t, d) && t.nanos + d.subsecNanos == NANOS_IN_SECOND ==>
      r == ctor(t.unixTime + d.secs, NANOS_IN_SECOND, t.offset)
    ensures IsTzConstructor(ctor) && AddFits(t, d) && t.nanos + d.subsecNanos == NANOS_IN_SECOND ==> r.Err?
  {
    if d.secs > I64_MAX then Err(IntOverflow)
    else if !InI64(t.unixTime + d.secs) then Err(IntOverflow)
    else if t.nanos + d.subsecNanos > U32_MAX then Err(IntOverflow)
    else
      var seconds: i64 := t.unixTime + d.secs;
      var nanoseconds: u32 := t.nanos + d.subsecNanos;
      if nanoseconds > NANOS_IN_SECOND then
        ctor(seconds + 1, nanoseconds - NANOS_IN_SECOND, t.offset)
      else
        ctor(seconds, nanoseconds, t.offset)
  }

  /** A nanosecond sum of exactly one second is not carried, and the UTC constructor rejects it. */
  lemma CheckedAddExactSecondRejected()
    ensures var t := Time(0, 500_000_000, Utc, LocalTimeType(0, false, "UTC"));
      CheckedAddAsWritten(t, Duration(0, 500_000_000), FixedZoneConstructor(t.localTimeType)) == Err(TzOutOfRange)
  {
  }

  /** Whether the carry of `checked_add` would push the seconds past `i64::MAX`. */
  predicate AddCarryOverflows(t: Time, d: Duration) {
    d.secs <= I64_MAX && t.unixTime + d.secs == I64_MAX && t.nanos + d.subsecNanos >= NANOS_IN_SECOND
  }

  /**
   `checked_add(duration)`, with the carry taken whenever the nanosecond sum
   reaches one second. An overflow of the seconds is `IntOverflow`; otherwise
   the result is the constructor's answer on the exact sum, split into whole
   seconds and the nanoseconds below one second.
   */
  function CheckedAdd(t: Time, d: Duration, ctor: TzConstructor): (r: Result<Time, TimeError>)
    requires !AddCarryOverflows(t, d)
    ensures !AddFits(t, d) ==> r == Err(IntOverflow)
    ensures AddFits(t, d) ==> var total := Total(t) + DurationNanos(d);
      InI64(total / NANOS_IN_SECOND) && r == ctor(total / NANOS_IN_SECOND, total % NANOS_IN_SECOND, t.offset)
    ensures IsTzConstructor(ctor) && r.Ok? ==>
      Total(r.value) == Total(t) + DurationNanos(d) && r.value.offset == t.offset
  {
    if d.secs > I64_MAX then Err(IntOverflow)
    else if !InI64(t.unixTime + d.secs) then Err(IntOverflow)
    else if t.nanos + d.subsecNanos > U32_MAX then Err(IntOverflow)
    else
      var seconds: i64 := t.unixTime + d.secs;
      var nanoseconds: u32 := t.nanos + d.subsecNanos;
      if nanoseconds >= NANOS_IN_SECOND then
        DivModUnique(Total(t) + DurationNanos(d), seconds + 1, nanoseconds - NANOS_IN_SECOND, NANOS_IN_SECOND);
        ctor(seconds + 1, nanoseconds - NANOS_IN_SECOND, t.offset)
      else
        DivModUnique(Total(t) + DurationNanos(d), seconds, nanoseconds, NANOS_IN_SECOND);
        ctor(seconds, nanoseconds, t.offset)
  }

  /** Whether the borrow of `checked_sub` would push the seconds below `i64::MIN`. */
  predicate SubBorrowOverflows(t: Time, d: Duration) {
    d.secs <= I64_MAX && t.unixTime - d.secs == I64_MIN && t.nanos < d.subsecNanos
  }

  /**
   `checked_sub(duration)`: borrows one second when the nanoseconds do not
   cover the duration's. An overflow of the seconds is `IntOverflow`;
   otherwise the result is the constructor's answer on the exact difference.
   */
  function CheckedSub(t: Time, d: Duration, ctor: TzConstructor): (r: Result<Time, TimeError>)
    requires !SubBorrowOverflows(t, d)
    ensures !SubFits(t, d) ==> r == Err(IntOverflow)
    ensures SubFits(t, d) ==> var total := Total(t) - DurationNanos(d);
      InI64(total / NANOS_IN_SECOND) && r == ctor(total / NANOS_IN_SECOND, total % NANOS_IN_SECOND, t.offset)
    ensures IsTzConstructor(ctor) && r.Ok? ==>
      Total(r.value) == Total(t) - DurationNanos(d) && r.value.offset == t.offset
  {
    if d.secs > I64_MAX then Err(IntOverflow)
    else if !InI64(t.unixTime - d.secs) then Err(IntOverflow)
    else
      var seconds: i64 := t.unixTime - d.secs;
      if t.nanos >= d.subsecNanos then
        DivModUnique(Total(t) - DurationNanos(d), seconds, t.nanos - d.subsecNanos, NANOS_IN_SECOND);
        ctor(seconds, t.nanos - d.subsecNanos, t.offset)
      else
        DivModUnique(Total(t) - DurationNanos(d), seconds - 1, t.nanos + NANOS_IN_SECOND - d.subsecNanos, NANOS_IN_SECOND);
        ctor(seconds - 1, t.nanos + NANOS_IN_SECOND - d.subsecNanos, t.offset)
  }

  /** `checked_add_u64(seconds)`: advances the whole seconds, keeping the nanoseconds. */
  function CheckedAddU64(t: Time, seconds: u64, ctor: TzConstructor): (r: Result<Time, TimeError>)
    ensures !(seconds <= I64_MAX && t.unixTime + seconds <= I64_MAX) ==> r == Err(IntOverflow)
    ensures seconds <= I64_MAX && t.unixTime + seconds <= I64_MAX ==>
      r == ctor(t.unixTime + seconds, t.nanos, t.offset)
  {
    DivModUnique(Total(t) + DurationNanos(Duration(seconds, 0)), t.unixTime + seconds, t.nanos, NANOS_IN_SECOND);
    CheckedAdd(t, Duration(seconds, 0), ctor)
  }

  /** `checked_sub_u64(seconds)`: moves the whole seconds back, keeping the nanoseconds. */
  function CheckedSubU64(t: Time, seconds: u64, ctor: TzConstructor): (r: Result<Time, TimeError>)
    ensures !(seconds <= I64_MAX && t.unixTime - seconds >= I64_MIN) ==> r == Err(IntOverflow)
    ensures seconds <= I64_MAX && t.unixTime - seconds >= I64_MIN ==>
      r == ctor(t.unixTime - seconds, t.nanos, t.offset)
  {
    DivModUnique(Total(t) - DurationNanos(Duration(seconds, 0)), t.unixTime - seconds, t.nanos, NANOS_IN_SECOND);
    CheckedSub(t, Duration(seconds, 0), ctor)
  }

  /**
   `checked_add_i64(seconds)`: a negative amount is subtracted as its
   magnitude, which `i64::MIN` does not have.
   */
  function CheckedAddI64(t: Time, seconds: i64, ctor: TzConstructor): (r: Result<Time, TimeError>)
    ensures seconds == I64_MIN ==> r == Err(IntOverflow)
    ensures seconds != I64_MIN && !InI64(t.unixTime + seconds) ==> r == Err(IntOverflow)
    ensures seconds != I64_MIN && InI64(t.unixTime + seconds) ==> r == ctor(t.unixTime + seconds, t.nanos, t.offset)
  {
    if seconds < 0 then
      if seconds == I64_MIN then Err(IntOverflow)
      else CheckedSubU64(t, -seconds, ctor)
    else CheckedAddU64(t, seconds, ctor)
  }

  /** `checked_sub_i64(seconds)`: the mirror image of `checked_add_i64`. */
  function CheckedSubI64(t: Time, seconds: i64, ctor: TzConstructor): (r: Result<Time, TimeError>)
    ensures seconds == I64_MIN ==> r == Err(IntOverflow)
    ensures seconds != I64_MIN && !InI64(t.unixTime - seconds) ==> r == Err(IntOverflow)
    ensures seconds != I64_MIN && InI64(t.unixTime - seconds) ==> r == ctor(t.unixTime - seconds, t.nanos, t.offset)
  {
    if seconds < 0 then
      if seconds == I64_MIN then Err(IntOverflow)
      else CheckedAddU64(t, -seconds, ctor)
    else CheckedSubU64(t, seconds, ctor)
  }

  // ---------------------------------------------------------------------
  // Relations between the operations

  lemma TotalInjective(a: Time, b: Time)
    requires Total(a) == Total(b)
    ensures a.unixTime == b.unixTime && a.nanos == b.nanos
  {
  }

  /**
   Subtracting a duration that was just added reaches the original seconds
   and nanoseconds: the result is what the constructor for the subtraction
   builds from them.
   */
  lemma AddThenSub(t: Time, d: Duration, add: TzConstructor, sub: TzConstructor)
    requires IsTzConstructor(add)
    requires !AddCarryOverflows(t, d) && CheckedAdd(t, d, add).Ok?
    ensures !SubBorrowOverflows(CheckedAdd(t, d, add).value, d)
    ensures CheckedSub(CheckedAdd(t, d, add).value, d, sub) == sub(t.unixTime, t.nanos, t.offset)
  {
    var s := CheckedAdd(t, d, add).value;
    assert Total(s) - DurationNanos(d) == Total(t);
    assert SubFits(s, d);
    DivModUnique(Total(t), t.unixTime, t.nanos, NANOS_IN_SECOND);
  }

  /** In a zone with a single local time type, adding and then subtracting a duration gives back the time itself. */
  lemma AddThenSubFixedZone(t: Time, d: Duration)
    requires !AddCarryOverflows(t, d)
    requires CheckedAdd(t, d, FixedZoneConstructor(t.localTimeType)).Ok?
    ensures var ctor := FixedZoneConstructor(t.localTimeType);
      CheckedSub(CheckedAdd(t, d, ctor).value, d, ctor) == Ok(t)
  {
    var ctor := FixedZoneConstructor(t.localTimeType);
    AddThenSub(t, d, ctor, ctor);
  }

  /** Adding a signed number of seconds and subtracting it again reaches the original seconds and nanoseconds. */
  lemma AddI64ThenSubI64(t: Time, seconds: i64, add: TzConstructor, sub: TzConstructor)
    requires IsTzConstructor(add)
    requires CheckedAddI64(t, seconds, add).Ok?
    ensures CheckedSubI64(CheckedAddI64(t, seconds, add).value, seconds, sub) == sub(t.unixTime, t.nanos, t.offset)
  {
  }

  /** Rounding 2010-03-30 05:43:25.123456789 UTC to 0, 5, 4 and 9 digits, as the unit tests do. */
  lemma RoundExamples()
    ensures var t := Time(1269927805, 123_456_789, Utc, LocalTimeType(0, false, "UTC"));
      && Round(t, 0).nanos == 0
      && Round(t, 5).nanos == 123_460_000
      && Round(t, 4).nanos == 123_500_000
      && Round(t, 9).nanos == 123_456_789
  {
    assert Pow10(9) == 1_000_000_000 && Pow10(8) == 100_000_000;
    assert Pow10(5) == 100_000 && Pow10(4) == 10_000 && Pow10(3) == 1_000;
  }

  /** Rounding 1999-12-31 23:59:59.9 to whole seconds carries into the next second. */
  lemma RoundCarryExample()
    ensures var t := Time(946684799, 900_000_000, Utc, LocalTimeType(0, false, "UTC"));
      Round(t, 0).unixTime == 946684800 && Round(t, 0).nanos == 0
  {
    assert Pow10(9) == 1_000_000_000 && Pow10(8) == 100_000_000;
  }

  /** One second after and before an instant with half a second of nanoseconds, in UTC. */
  lemma AddSubSecondExample()
    ensures var ltt := LocalTimeType(0, false, "UTC");
      var t := Time(1554681599, 500_000_000, Utc, ltt);
      && CheckedAddU64(t, 1, FixedZoneConstructor(ltt)) == Ok(Time(1554681600, 500_000_000, Utc, ltt))
      && CheckedSubU64(t, 1, FixedZoneConstructor(ltt)) == Ok(Time(1554681598, 500_000_000, Utc, ltt))
  {
  }
}
