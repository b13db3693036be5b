/**
 Python `datetime` values and the two conversions between them and BSON milliseconds:
 `datetime_millis` on the way in and `datetime_to_python` on the way out.
 */
module PythonTime {
  import opened Machine

  const EPOCH_ORDINAL: int := 719_163
  const MAX_ORDINAL: int := 3_652_059
  const MAX_TIMEDELTA_DAYS: int := 999_999_999
  const DAY_MICROS: int := 86_400_000_000

  /** A normalized `timedelta`: only `days` carries the sign. */
  datatype Timedelta = Timedelta(days: i64, seconds: i64, microseconds: i64) {
    predicate Valid() {
      && -MAX_TIMEDELTA_DAYS <= days <= MAX_TIMEDELTA_DAYS
      && 0 <= seconds < 86_400
      && 0 <= microseconds < 1_000_000
    }
  }

  /** A proleptic Gregorian `datetime`; `offset` is what `utcoffset()` returns. */
  datatype Datetime = Datetime(
    ordinal: i64, hour: i64, minute: i64, second: i64, microsecond: i64,
    offset: Option<Timedelta>)
  {
    /** What the Python constructor guarantees: year 1 to 9999, an offset below 24 hours. */
    predicate Valid() {
      && 1 <= ordinal <= MAX_ORDINAL
      && 0 <= hour < 24 && 0 <= minute < 60 && 0 <= second < 60
      && 0 <= microsecond < 1_000_000
      && (offset.Some? ==> offset.value.Valid() && -DAY_MICROS < TimedeltaTotal(offset.value) < DAY_MICROS)
    }
  }

  datatype TimeError = TimeOutOfRange

  predicate FitsI128(n: int) {
    -0x8000_0000_0000_0000_0000_0000_0000_0000 <= n < 0x8000_0000_0000_0000_0000_0000_0000_0000
  }

  function Checked128(n: int): Result<int, TimeError> {
    if FitsI128(n) then Ok(n) else Err(TimeOutOfRange)
  }

  function TimedeltaTotal(t: Timedelta): int {
    t.days * DAY_MICROS + t.seconds * 1_000_000 + t.microseconds
  }

  /** `timedelta_micros`: the three attributes folded in checked 128-bit arithmetic. */
  function TimedeltaMicros(t: Timedelta): Result<int, TimeError> {
    var days :- Checked128(t.days * DAY_MICROS);
    var seconds :- Checked128(days + t.seconds * 1_000_000);
    Checked128(seconds + t.microseconds)
  }

  /** `datetime_millis`: local time less the offset, in checked arithmetic, floored to milliseconds. */
  function DatetimeMillis(dt: Datetime): Result<i64, TimeError> {
    var offset :- if dt.offset.None? then Ok(0) else TimedeltaMicros(dt.offset.value);
    var days :- Checked128((dt.ordinal - EPOCH_ORDINAL) * DAY_MICROS);
    var hours :- Checked128(days + dt.hour * 3_600_000_000);
    var minutes :- Checked128(hours + dt.minute * 60_000_000);
    var seconds :- Checked128(minutes + dt.second * 1_000_000);
    var local :- Checked128(seconds + dt.microsecond);
    var utc :- Checked128(local - offset);
    if FitsI64(utc / 1000) then Ok(utc / 1000) else Err(TimeOutOfRange)
  }

  /** The instant a datetime denotes, in microseconds since the Unix epoch. */
  function UtcMicros(dt: Datetime): int {
    (dt.ordinal - EPOCH_ORDINAL) * DAY_MICROS
    + ((dt.hour * 60 + dt.minute) * 60 + dt.second) * 1_000_000 + dt.microsecond
    - (if dt.offset.None? then 0 else TimedeltaTotal(dt.offset.value))
  }

  /** What `datetime_to_python` builds: a UTC datetime, or `DatetimeMS` outside years 1 to 9999. */
  datatype PythonInstant = Aware(dt: Datetime) | DatetimeMs(millis: i64)

  /** `timedelta(milliseconds=ms)`; `None` stands for the `OverflowError` of too many days. */
  function TimedeltaOfMillis(ms: i64): (t: Option<Timedelta>)
    ensures t.Some? ==> t.value.Valid() && TimedeltaTotal(t.value) == ms * 1000
  {
    var days := ms / 86_400_000;
    var rest := ms % 86_400_000;
    if -MAX_TIMEDELTA_DAYS <= days <= MAX_TIMEDELTA_DAYS then
      Some(Timedelta(days, rest / 1000, rest % 1000 * 1000))
    else None
  }

  function DatetimeToPython(ms: i64): (out: PythonInstant)
    ensures out.Aware? ==> out.dt.Valid()
  {
    match TimedeltaOfMillis(ms)
    case None => DatetimeMs(ms)
    case Some(t) =>
      if 1 <= EPOCH_ORDINAL + t.days <= MAX_ORDINAL then
        Aware(Datetime(EPOCH_ORDINAL + t.days, t.seconds / 3600, t.seconds / 60 % 60, t.seconds % 60,
                       t.microseconds, Some(Timedelta(0, 0, 0))))
      else DatetimeMs(ms)
  }

  /** Whatever the attributes, no 128-bit step overflows: the result is the floor of the instant, if that fits. */
  lemma DatetimeMillisExact(dt: Datetime)
    ensures var millis := UtcMicros(dt) / 1000;
            DatetimeMillis(dt) == if FitsI64(millis) then Ok(millis) else Err(TimeOutOfRange)
  {
  }

  /** No 128-bit step overflows and every valid datetime has a millisecond: the floor of its instant. */
  lemma DatetimeMillisFloors(dt: Datetime)
    requires dt.Valid()
    ensures DatetimeMillis(dt).Ok?
    ensures DatetimeMillis(dt).value * 1000 <= UtcMicros(dt) < DatetimeMillis(dt).value * 1000 + 1000
  {
    var utc := UtcMicros(dt);
    assert -100_000_000_000_000_000 * 1000 < utc < 1_000_000_000_000_000 * 1000;
  }

  /** Only the instant matters: later instants never come out earlier, whatever the offsets. */
  lemma DatetimeMillisMonotone(a: Datetime, b: Datetime)
    requires a.Valid() && b.Valid() && UtcMicros(a) <= UtcMicros(b)
    ensures DatetimeMillis(a).Ok? && DatetimeMillis(b).Ok?
    ensures DatetimeMillis(a).value <= DatetimeMillis(b).value
    ensures UtcMicros(a) == UtcMicros(b) ==> DatetimeMillis(a) == DatetimeMillis(b)
  {
    DatetimeMillisFloors(a);
    DatetimeMillisFloors(b);
  }

  function ReadInstant(out: PythonInstant): Result<i64, TimeError> {
    match out
    case Aware(dt) => DatetimeMillis(dt)
    case DatetimeMs(ms) => Ok(ms)
  }

  /** `datetime_to_python` is exact, and yields a datetime exactly for years 1 to 9999. */
  lemma DatetimeToPythonExact(ms: i64)
    ensures DatetimeToPython(ms).Aware? ==> UtcMicros(DatetimeToPython(ms).dt) == ms * 1000
    ensures DatetimeToPython(ms).Aware? ==> DatetimeToPython(ms).dt.offset == Some(Timedelta(0, 0, 0))
    ensures DatetimeToPython(ms).Aware?
            <==> (1 - EPOCH_ORDINAL) * 86_400_000 <= ms < (MAX_ORDINAL + 1 - EPOCH_ORDINAL) * 86_400_000
  {
    if DatetimeToPython(ms).Aware? {
      var t := TimedeltaOfMillis(ms).value;
      assert t.seconds == (t.seconds / 3600 * 60 + t.seconds / 60 % 60) * 60 + t.seconds % 60;
    }
  }

  /** Out and back is the identity on every 64-bit millisecond, before 1970 and beyond year 9999 alike. */
  lemma MillisRoundTrip(ms: i64)
    ensures ReadInstant(DatetimeToPython(ms)) == Ok(ms)
  {
    DatetimeToPythonExact(ms);
    if DatetimeToPython(ms).Aware? {
      DatetimeMillisFloors(DatetimeToPython(ms).dt);
    }
  }

  /** In and back out is the same instant in UTC, less its sub-millisecond part. */
  lemma InstantRoundTrip(dt: Datetime)
    requires dt.Valid()
    ensures DatetimeMillis(dt).Ok?
    ensures var out := DatetimeToPython(DatetimeMillis(dt).value);
            out.Aware? ==> UtcMicros(out.dt) == UtcMicros(dt) - UtcMicros(dt) % 1000
    ensures DatetimeToPython(DatetimeMillis(dt).value).Aware?
            <==> (1 - EPOCH_ORDINAL) * DAY_MICROS <= UtcMicros(dt) < (MAX_ORDINAL + 1 - EPOCH_ORDINAL) * DAY_MICROS
  {
    DatetimeMillisFloors(dt);
    DatetimeToPythonExact(DatetimeMillis(dt).value);
  }
}
