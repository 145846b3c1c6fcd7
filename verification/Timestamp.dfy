/**
 Conversion between `struct timespec` and PostgreSQL's integer timestamps, in the unsigned
 64-bit arithmetic of the code. The byte order of the wire value is not modelled.
 */
module Timestamp {

  const EPOCH := 946684800
  const WORD := 0x1_0000_0000_0000_0000
  const TIME_LIMIT := 0x8000_0000_0000_0000

  datatype Timespec = Timespec(sec: int, nsec: nat)

  /** A `time_t` of 64 bits and a normalised nanosecond part. */
  predicate Proper(t: Timespec) {
    -TIME_LIMIT <= t.sec < TIME_LIMIT && t.nsec < 1_000_000_000
  }

  /** Addition, subtraction and multiplication of `uint64_t` wrap around. */
  function Wrap(x: int): nat { x % WORD }

  function ToTimestamp(t: Timespec): nat
    requires Proper(t)
  {
    Wrap(Wrap(Wrap(Wrap(t.sec) - EPOCH) * 1_000_000) + t.nsec / 1000)
  }

  function FromTimestamp(raw: nat): Timespec {
    Timespec(EPOCH + raw / 1_000_000, raw % 1_000_000 * 1000)
  }

  // ----- the epoch

  function DaysIn(year: nat): nat {
    if year % 4 == 0 && (year % 100 != 0 || year % 400 == 0) then 366 else 365
  }

  /** Days of the Gregorian calendar from 1970-01-01 to the first day of a year. */
  function DaysBefore(year: nat): nat {
    if year <= 1970 then 0 else DaysBefore(year - 1) + DaysIn(year - 1)
  }

  /** The stored value 0 is midnight of 2000-01-01. */
  lemma ZeroIsYear2000()
    ensures FromTimestamp(0) == Timespec(DaysBefore(2000) * 86400, 0)
  {
    assert DaysBefore(1975) == 1826;
    assert DaysBefore(1980) == 3652;
    assert DaysBefore(1985) == 5479;
    assert DaysBefore(1990) == 7305;
    assert DaysBefore(1995) == 9131;
    assert DaysBefore(2000) == 10957;
  }

  /** Each unit of the stored value is a microsecond. */
  lemma CountsMicroseconds(raw: nat)
    ensures var a, b := FromTimestamp(raw), FromTimestamp(raw + 1);
            b.sec * 1_000_000 + b.nsec / 1000 == a.sec * 1_000_000 + a.nsec / 1000 + 1
            && a.nsec % 1000 == 0 && a.nsec < 1_000_000_000
  {
  }

  lemma WrapShift(a: int, n: int)
    ensures Wrap(n * WORD + a) == Wrap(a)
  {
  }

  lemma WrapAdd(a: int, b: int)
    ensures Wrap(Wrap(a) + b) == Wrap(a + b)
  {
    WrapShift(Wrap(a) + b, a / WORD);
  }

  lemma WrapMul(x: int, k: nat)
    ensures Wrap(Wrap(x) * k) == Wrap(x * k)
  {
    var q := x / WORD;
    assert x == q * WORD + Wrap(x);
    assert x * k == (q * k) * WORD + Wrap(x) * k;
    WrapShift(Wrap(x) * k, q * k);
  }

  /** The wraps of the single operations amount to one wrap of the exact value. */
  lemma ToTimestampValue(t: Timespec)
    requires Proper(t)
    ensures ToTimestamp(t) == Wrap((t.sec - EPOCH) * 1_000_000 + t.nsec / 1000)
  {
    WrapAdd(t.sec, -EPOCH);
    WrapMul(t.sec - EPOCH, 1_000_000);
    WrapAdd((t.sec - EPOCH) * 1_000_000, t.nsec / 1000);
  }

  /** Reading a stored time and writing it back stores the same 64 bits, whatever they are. */
  lemma DecodeEncode(raw: nat)
    requires raw < WORD
    ensures Proper(FromTimestamp(raw)) && ToTimestamp(FromTimestamp(raw)) == raw
  {
    ToTimestampValue(FromTimestamp(raw));
  }

  /** Between 2000-01-01 and the last microsecond that fits into 64 bits. */
  predicate Representable(t: Timespec) {
    EPOCH <= t.sec && (t.sec - EPOCH) * 1_000_000 + t.nsec / 1000 < WORD
  }

  /**
   A time survives storing, up to the nanoseconds below a microsecond, exactly when it is not
   before 2000-01-01 and its microseconds since then fit into 64 bits.
   */
  lemma EncodeDecodeExactly(t: Timespec)
    requires Proper(t)
    ensures FromTimestamp(ToTimestamp(t)) == Timespec(t.sec, t.nsec / 1000 * 1000) <==> Representable(t)
  {
    ToTimestampValue(t);
  }

  /** A witness: one second before 2000-01-01 comes back as a time far in the future. */
  lemma EarlierTimeWitness()
    ensures var t := Timespec(EPOCH - 1, 0);
            Proper(t) && FromTimestamp(ToTimestamp(t)).sec > EPOCH + 18_000_000_000_000
  {
    ToTimestampValue(Timespec(EPOCH - 1, 0));
  }
}
