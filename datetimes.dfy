/** The part of `System.DateTime` the backup engine uses. */
module DateTimes {
  import opened Wrappers
  import opened Numerals

  /** One tick is 100 nanoseconds. */
  const TicksPerSecond: nat := 10_000_000

  /** A calendar date and time of day; `ticks` is the sub-second part. */
  datatype DateTime = DateTime(
    year: nat, month: nat, day: nat,
    hour: nat, minute: nat, second: nat,
    ticks: nat)
  {
    /** The ranges a `DateTime` can hold. */
    predicate Valid() {
      && 1 <= year <= 9999
      && 1 <= month <= 12
      && 1 <= day <= DaysInMonth(year, month)
      && hour < 24 && minute < 60 && second < 60
      && ticks < TicksPerSecond
    }

    /** The same instant with its sub-second part dropped. */
    function Truncated(): (t: DateTime)
      ensures t.ticks == 0
      ensures Valid() ==> t.Valid()
    {
      this.(ticks := 0)
    }
  }

  predicate IsLeapYear(y: nat) {
    y % 4 == 0 && (y % 100 != 0 || y % 400 == 0)
  }

  function DaysInMonth(y: nat, m: nat): nat
    requires 1 <= m <= 12
  {
    if m == 2 then (if IsLeapYear(y) then 29 else 28)
    else if m in {4, 6, 9, 11} then 30
    else 31
  }

  /** `new DateTime(Y, M, D, h, m, s)`: the constructor rejects fields out of
      range with an `ArgumentOutOfRangeException`. */
  function NewDateTime(Y: int, M: int, D: int, h: int, m: int, s: int): (r: Result<DateTime, Exception>)
    ensures r.Success? ==> r.value.Valid() && r.value.ticks == 0
    ensures r.Success? ==> r.value.year == Y && r.value.month == M && r.value.day == D
    ensures r.Success? ==> r.value.hour == h && r.value.minute == m && r.value.second == s
    ensures r.Failure? ==> r.error == ArgumentOutOfRangeException
  {
    if 1 <= Y <= 9999 && 1 <= M <= 12 && 1 <= D <= DaysInMonth(Y, M)
       && 0 <= h < 24 && 0 <= m < 60 && 0 <= s < 60
    then Success(DateTime(Y, M, D, h, m, s, 0))
    else Failure(ArgumentOutOfRangeException)
  }

  /** What `File.GetLastWriteTime` reports for a file that does not exist:
      midnight of 1 January 1601. */
  const MissingFileTime: DateTime := DateTime(1601, 1, 1, 0, 0, 0, 0)
}
