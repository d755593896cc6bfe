/** lib/utils/time.dart: five mutually recursive functions that split milliseconds. Quotients are
    real numbers, as in the source, and `num.floor` is `Floor`. */
module TimeSplit {

  datatype Time = Time(days: int, hours: int, minutes: int, seconds: int, milliseconds: int)

  const ZERO: Time := Time(0, 0, 0, 0, 0)
  const HRS: int := 60 * 60
  const DAY: int := HRS * 24

  function AddTime(a: Time, b: Time): Time {
    Time(a.days + b.days, a.hours + b.hours, a.minutes + b.minutes, a.seconds + b.seconds, a.milliseconds + b.milliseconds)
  }

  function ExtractTime(ms: int): Time
    decreases ms, 4
  {
    if ms == 0 then ZERO
    else if ms < 1000 then ZERO.(milliseconds := ms)
    else ExtractSecs(ms)
  }

  function ExtractSecs(ms: int): Time
    requires ms >= 1000
    decreases ms, 3
  {
    var secs := ms as real / 1000.0;
    if secs < 60.0 then
      var seconds := secs.Floor;
      AddTime(ZERO.(seconds := seconds), ExtractTime(ms - seconds * 1000))
    else ExtractMins(ms, secs)
  }

  function ExtractMins(ms: int, secs: real): Time
    requires secs == ms as real / 1000.0 && secs >= 60.0
    decreases ms, 2
  {
    var mins := secs / 60.0;
    if mins < 60.0 then
      var minutes := mins.Floor;
      AddTime(ZERO.(minutes := minutes), ExtractTime(ms - minutes * 60 * 1000))
    else ExtractHrs(ms, mins)
  }

  function ExtractHrs(ms: int, mins: real): Time
    requires mins == ms as real / 60000.0 && mins >= 60.0
    decreases ms, 1
  {
    var hrs := mins / 60.0;
    if hrs < 24.0 then
      var hours := hrs.Floor;
      AddTime(ZERO.(hours := hours), ExtractTime(ms - hours * HRS * 1000))
    else ExtractDays(ms, hrs)
  }

  function ExtractDays(ms: int, hrs: real): Time
    requires hrs == ms as real / 3600000.0 && hrs >= 24.0
    decreases ms, 0
  {
    var days := (hrs / 24.0).Floor;
    AddTime(ZERO.(days := days), ExtractTime(ms - days * DAY * 1000))
  }

  function Total(t: Time): int {
    (((t.days * 24 + t.hours) * 60 + t.minutes) * 60 + t.seconds) * 1000 + t.milliseconds
  }

  predicate Normal(t: Time) {
    0 <= t.days && 0 <= t.hours < 24 && 0 <= t.minutes < 60 && 0 <= t.seconds < 60 && 0 <= t.milliseconds < 1000
  }

  /** Rounding a real number down gives the integer it lies above by less than one. */
  lemma FloorIs(x: real, q: int)
    requires 0.0 <= x - q as real < 1.0
    ensures x.Floor == q
  {
  }

  lemma SecsStep(ms: nat)
    requires 1000 <= ms < 60000
    ensures ExtractTime(ms) == AddTime(ZERO.(seconds := ms / 1000), ExtractTime(ms % 1000))
  {
    FloorIs(ms as real / 1000.0, ms / 1000);
    assert ms - ms / 1000 * 1000 == ms % 1000;
  }

  /** The quotients the functions hand on, and where each comparison sends the duration. */
  lemma Dispatch(ms: int)
    requires ms >= 60000
    ensures var secs, mins, hrs := ms as real / 1000.0, ms as real / 60000.0, ms as real / 3600000.0;
            && secs >= 60.0 && secs / 60.0 == mins && mins / 60.0 == hrs
            && (mins < 60.0 <==> ms < 3600000) && (hrs < 24.0 <==> ms < 86400000)
            && hrs / 24.0 == ms as real / 86400000.0
            && ExtractTime(ms) == ExtractMins(ms, secs)
  {
    assert ExtractTime(ms) == ExtractSecs(ms);
  }

  lemma MinsStep(ms: nat)
    requires 60000 <= ms < 3600000
    ensures ExtractTime(ms) == AddTime(ZERO.(minutes := ms / 60000), ExtractTime(ms % 60000))
  {
    Dispatch(ms);
    FloorIs(ms as real / 60000.0, ms / 60000);
    assert ms - ms / 60000 * 60 * 1000 == ms % 60000;
  }

  lemma HoursOnly(ms: nat, mins: real)
    requires 3600000 <= ms < 86400000 && mins == ms as real / 60000.0
    ensures ExtractHrs(ms, mins) == AddTime(ZERO.(hours := ms / 3600000), ExtractTime(ms % 3600000))
  {
    FloorIs(mins / 60.0, ms / 3600000);
    assert ms - ms / 3600000 * HRS * 1000 == ms % 3600000;
  }

  lemma PassOn(ms: int, secs: real, mins: real)
    requires secs == ms as real / 1000.0 && mins == secs / 60.0 && mins >= 60.0
    ensures ExtractMins(ms, secs) == ExtractHrs(ms, mins)
  {
  }

  lemma HrsStep(ms: nat)
    requires 3600000 <= ms < 86400000
    ensures ExtractTime(ms) == AddTime(ZERO.(hours := ms / 3600000), ExtractTime(ms % 3600000))
  {
    hide *;
    Dispatch(ms);
    HoursOnly(ms, ms as real / 60000.0);
    PassOn(ms, ms as real / 1000.0, ms as real / 60000.0);
  }

  lemma DaysStep(ms: nat)
    requires 86400000 <= ms
    ensures ExtractTime(ms) == AddTime(ZERO.(days := ms / 86400000), ExtractTime(ms % 86400000))
  {
    Dispatch(ms);
    FloorIs(ms as real / 86400000.0, ms / 86400000);
    assert ms - ms / 86400000 * DAY * 1000 == ms % 86400000;
    var secs, mins, hrs := ms as real / 1000.0, ms as real / 60000.0, ms as real / 3600000.0;
    PassOn(ms, secs, mins);
    assert ExtractHrs(ms, mins) == ExtractDays(ms, hrs);
  }

  /** The split has every field in range and adds up to the argument, for every duration. */
  lemma {:induction false} ExtractExact(ms: nat)
    ensures Normal(ExtractTime(ms)) && Total(ExtractTime(ms)) == ms
    decreases ms
  {
    if ms >= 1000 {
      hide ExtractTime;
      var unit := if ms < 60000 then 1000 else if ms < 3600000 then 60000 else if ms < 86400000 then 3600000 else 86400000;
      ExtractExact(ms % unit);
      NoLargerUnit(ms % unit);
      if ms < 60000 {
        SecsStep(ms);
      } else if ms < 3600000 {
        MinsStep(ms);
      } else if ms < 86400000 {
        HrsStep(ms);
      } else {
        DaysStep(ms);
      }
    }
  }

  /** A normal split of a duration below a unit has no field of that unit or a larger one. */
  lemma NoLargerUnit(ms: nat)
    requires Normal(ExtractTime(ms)) && Total(ExtractTime(ms)) == ms
    ensures var t := ExtractTime(ms);
            && (ms < 1000 ==> t.seconds == 0)
            && (ms < 60000 ==> t.minutes == 0)
            && (ms < 3600000 ==> t.hours == 0)
            && (ms < 86400000 ==> t.days == 0)
  {
  }

  /** Only one split is in range and adds up, so the fields are the quotients and remainders. */
  lemma NormalUnique(t: Time, u: Time)
    requires Normal(t) && Normal(u) && Total(t) == Total(u)
    ensures t == u
  {
  }
}
