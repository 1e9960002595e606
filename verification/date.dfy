/**
  File timestamps on the wire: a year, a millisecond count and the whole seconds elapsed
  since 00:00:00 UTC on 1 January of that year, all big-endian. A point in time is given
  as whole seconds relative to the Unix epoch (negative before it); the proleptic
  Gregorian calendar is written out here, and, like the date library the server uses,
  it ends with the year 9999.
*/
module Dates {
  import opened Wrappers
  import opened Wire
  import opened Protocol

  datatype DateParameter = DateParameter(year: int16, milliseconds: int16, seconds: int32)

  /** The all-zero value `unwrap_or_default` falls back to. */
  const DefaultDate: DateParameter := DateParameter(0, 0, 0)

  const SecondsPerDay: nat := 86400

  predicate IsLeap(y: int)
  {
    y % 4 == 0 && (y % 100 != 0 || y % 400 == 0)
  }

  function DaysInYear(y: int): nat
  {
    if IsLeap(y) then 366 else 365
  }

  /** Leap years among 1..n (for n >= 0). */
  function LeapsThrough(n: int): int
  {
    n / 4 - n / 100 + n / 400
  }

  /** Days from 1 January 1970 to 1 January of year y. */
  function YearStartDay(y: int): int
  {
    365 * (y - 1970) + LeapsThrough(y - 1) - LeapsThrough(1969)
  }

  /** The first second of the year 10000, which the date library cannot represent. */
  const EndOfTime: nat := 253402300800

  lemma EndOfTimeIsYear10000()
    ensures YearStartDay(10000) * SecondsPerDay == EndOfTime
  {
  }

  /** Successive multiples: y/k grows by one exactly when k divides y. */
  lemma DivStep(y: int, k: int)
    requires k > 0
    ensures y / k - (y - 1) / k == (if y % k == 0 then 1 else 0)
  {
    var q := (y - 1) / k;
    var r := (y - 1) % k;
    if r + 1 < k {
      DivUnique(y, k, q, r + 1);
    } else {
      DivUnique(y, k, q + 1, 0);
    }
  }

  /** Consecutive year starts are one year length apart. */
  lemma YearStartStep(y: int)
    ensures YearStartDay(y + 1) == YearStartDay(y) + DaysInYear(y)
  {
    DivStep(y, 4);
    DivStep(y, 100);
    DivStep(y, 400);
    assert y % 400 == 0 ==> y % 100 == 0 && y % 4 == 0 by {
      if y % 400 == 0 {
        ModUnique(y, 100, 4 * (y / 400), 0);
        ModUnique(y, 4, 100 * (y / 400), 0);
      }
    }
    assert y % 100 == 0 ==> y % 4 == 0 by {
      if y % 100 == 0 {
        ModUnique(y, 4, 25 * (y / 100), 0);
      }
    }
  }

  lemma {:induction false} YearStartMonotone(a: int, b: int)
    requires a < b
    ensures YearStartDay(a) + 365 * (b - a) <= YearStartDay(b)
    decreases b - a
  {
    YearStartStep(a);
    if a + 1 < b {
      YearStartMonotone(a + 1, b);
    }
  }

  /** The year, counted from y on, whose days include `day` (days since the epoch). */
  function Locate(day: int, y: int): (r: int)
    requires YearStartDay(y) <= day
    ensures r >= y
    ensures YearStartDay(r) <= day < YearStartDay(r + 1)
    decreases day - YearStartDay(y)
  {
    YearStartStep(y);
    if day < YearStartDay(y + 1) then y else Locate(day, y + 1)
  }

  /** At most one year contains a given day. */
  lemma YearUnique(a: int, b: int, day: int)
    requires YearStartDay(a) <= day < YearStartDay(a + 1)
    requires YearStartDay(b) <= day < YearStartDay(b + 1)
    ensures a == b
  {
    if a + 1 < b {
      YearStartMonotone(a + 1, b);
    } else if b + 1 < a {
      YearStartMonotone(b + 1, a);
    }
  }

  /**
    `DateParameter::try_from(SystemTime)`: times before the epoch count as the epoch; past
    the end of year 9999 the date library gives up, which surfaces as `SystemError`.
  */
  function TryFromTime(t: int): (r: Result<DateParameter, ProtocolError>)
    ensures r.Err? <==> t >= EndOfTime
    ensures r.Err? ==> r.error == SystemError
    ensures r.Ok? ==> r.value.milliseconds == 0 && 1970 <= r.value.year <= 9999
    ensures r.Ok? ==> 0 <= r.value.seconds < DaysInYear(r.value.year) * SecondsPerDay
    ensures r.Ok? ==> YearStartDay(r.value.year) * SecondsPerDay + r.value.seconds == (if t < 0 then 0 else t)
  {
    var elapsed := if t < 0 then 0 else t;
    if elapsed >= EndOfTime then Err(SystemError)
    else
      var y := Locate(elapsed / SecondsPerDay, 1970);
      YearOfElapsed(elapsed, y);
      var secs := elapsed - YearStartDay(y) * SecondsPerDay;
      Pow256Values();
      Wire.ToUnsignedCases(y, 2);
      Wire.WrapIdentity(y, 2);
      Wire.WrapIdentity(secs, 4);
      Ok(DateParameter(Wrap(y, 2), 0, Wrap(secs, 4)))
  }

  /** The year found for a time inside the library's range is one it can write, and the time falls in it. */
  lemma YearOfElapsed(elapsed: int, y: int)
    requires 0 <= elapsed < EndOfTime
    requires YearStartDay(y) <= elapsed / SecondsPerDay < YearStartDay(y + 1) && y >= 1970
    ensures y <= 9999
    ensures 0 <= elapsed - YearStartDay(y) * SecondsPerDay < DaysInYear(y) * SecondsPerDay
  {
    var day := elapsed / SecondsPerDay;
    DivUnique(elapsed, SecondsPerDay, day, elapsed % SecondsPerDay);
    YearStartStep(y);
    EndOfTimeIsYear10000();
    assert y < 10000 by {
      if y > 10000 { YearStartMonotone(10000, y); }
    }
  }

  /** Second k of year y falls on a day of year y. */
  lemma DayOfOffset(y: int, k: int)
    requires 0 <= k < DaysInYear(y) * SecondsPerDay
    ensures YearStartDay(y) <= (YearStartDay(y) * SecondsPerDay + k) / SecondsPerDay < YearStartDay(y + 1)
  {
    YearStartStep(y);
    var q := k / SecondsPerDay;
    DivUnique(k, SecondsPerDay, q, k % SecondsPerDay);
    DivUnique(YearStartDay(y) * SecondsPerDay + k, SecondsPerDay, YearStartDay(y) + q, k % SecondsPerDay);
  }

  /** `From<SystemTime>`: any failure becomes the all-zero default. */
  function FromTime(t: int): (r: DateParameter)
    ensures t >= EndOfTime ==> r == DefaultDate
    ensures t < EndOfTime ==> r == TryFromTime(t).value
  {
    TryFromTime(t).ToOption().GetOr(DefaultDate)
  }

  /** Any time before the epoch is stamped as the first second of 1970. */
  lemma BeforeEpoch(t: int)
    requires t < 0
    ensures FromTime(t) == DateParameter(1970, 0, 0)
  {
    var r := TryFromTime(t).value;
    assert YearStartDay(1970) == 0;
    if r.year != 1970 {
      YearStartStep(1970);
      YearUnique(r.year, 1970, 0);
    }
  }

  /** The inverse direction: second k of year y (within the library's range) is stamped (y, 0, k). */
  lemma StampOfYearOffset(y: int, k: int)
    requires 1970 <= y <= 9999 && 0 <= k < DaysInYear(y) * SecondsPerDay
    ensures FromTime(YearStartDay(y) * SecondsPerDay + k) == DateParameter(y, 0, k)
  {
    var t := YearStartDay(y) * SecondsPerDay + k;
    OffsetInRange(y, k);
    var r := TryFromTime(t).value;
    DayOfOffset(y, k);
    DayOfOffset(r.year, r.seconds);
    YearUnique(r.year, y, t / SecondsPerDay);
  }

  /** Every second of the years 1970 to 9999 lies between the epoch and the end of time. */
  lemma OffsetInRange(y: int, k: int)
    requires 1970 <= y <= 9999 && 0 <= k < DaysInYear(y) * SecondsPerDay
    ensures 0 <= YearStartDay(y) * SecondsPerDay + k < EndOfTime
  {
    assert YearStartDay(1970) == 0;
    if y > 1970 { YearStartMonotone(1970, y); }
    YearStartStep(y);
    if y < 9999 { YearStartMonotone(y + 1, 10000); }
    EndOfTimeIsYear10000();
  }

  // Wire layout: year (2 bytes), milliseconds (2 bytes), seconds (4 bytes), big-endian.

  function EncodeDate(d: DateParameter): (r: Bytes)
    ensures |r| == 8
    ensures r[..2] == EncodeInt(d.year, 2) && r[2..4] == EncodeInt(d.milliseconds, 2)
    ensures r[4..] == EncodeInt(d.seconds, 4)
  {
    EncodeInt(d.year, 2) + EncodeInt(d.milliseconds, 2) + EncodeInt(d.seconds, 4)
  }

  function DecodeDate(s: Bytes): (r: Result<Parsed<DateParameter>, ParseError>)
    ensures r.Ok? <==> |s| >= 8
    ensures r.Ok? ==> EncodeDate(r.value.value) == s[..8] && r.value.rest == s[8..]
  {
    var y :- TakeInt(s, 2);
    var ms :- TakeInt(y.rest, 2);
    var secs :- TakeInt(ms.rest, 4);
    Pow256Values();
    assert s[..8] == s[..2] + s[2..4] + s[4..8];
    Ok(Parsed(DateParameter(y.value, ms.value, secs.value), secs.rest))
  }

  lemma DecodeEncodeDate(d: DateParameter, rest: Bytes)
    ensures DecodeDate(EncodeDate(d) + rest) == Ok(Parsed(d, rest))
  {
    var s := EncodeDate(d) + rest;
    assert s[..8] == EncodeDate(d) && s[8..] == rest;
    var e := DecodeDate(s).value.value;
    Pow256Values();
    EncodeIntInjective(e.year, d.year, 2);
    EncodeIntInjective(e.milliseconds, d.milliseconds, 2);
    EncodeIntInjective(e.seconds, d.seconds, 4);
  }
}
