/**
 * A wall-clock time of day, kept as a number of minutes since midnight
 * (src/time/index.ts). A `Time` is immutable: `Add` and `Subtract` return new values.
 *
 * The value is NOT always inside [0, 1440): the string constructor only checks
 * the `HH:mm` shape, so "99:99" yields 6039. The numeric constructor and every
 * result of `Add` stay inside the day.
 */
module Time {
  import opened Wrappers
  import Numbers

  const MinutesPerDay: int := 1440

  datatype Time = Time(value: int)

  /** What the model needs of a moment: whether it is valid, and its hour and minute fields. */
  datatype Moment = Moment(valid: bool, hours: int, minutes: int)

  /** The four input shapes of the constructor. */
  datatype TimeLike =
    | FromNumber(n: int)
    | FromString(s: string)
    | FromTime(t: Time)
    | FromMoment(m: Moment)

  /** The three errors the constructor throws. */
  datatype TimeError =
    | OutOfRange     // RangeError: the number is not a minute of the day
    | BadFormat      // the string is not of the form "HH:mm"
    | InvalidMoment  // the moment is not valid

  predicate InDay(t: Time) {
    0 <= t.value < MinutesPerDay
  }

  /** The shape `^(\d{2}):(\d{2})$`: two digits, a colon, two digits, nothing else. */
  predicate IsHHmm(s: string) {
    |s| == 5 && Numbers.IsDigit(s[0]) && Numbers.IsDigit(s[1]) && s[2] == ':'
    && Numbers.IsDigit(s[3]) && Numbers.IsDigit(s[4])
  }

  /** `new Time(n)` for a number: a RangeError unless 0 <= n < 1440. */
  function OfNumber(n: int): (r: Result<Time, TimeError>)
    ensures r.Ok? <==> 0 <= n < MinutesPerDay
    ensures r.Ok? ==> r.value.value == n && InDay(r.value)
    ensures r.Err? ==> r.error == OutOfRange
  {
    if n < 0 || n >= MinutesPerDay then Err(OutOfRange) else Ok(Time(n))
  }

  /** The number written by the two digits `a` and `b`. */
  function TwoDigitValue(a: char, b: char): nat
    requires Numbers.IsDigit(a) && Numbers.IsDigit(b)
  {
    Numbers.DigitValue(a) * 10 + Numbers.DigitValue(b)
  }

  /** `new Time(s)` for a string: hours times 60 plus minutes; the hours and minutes are not range-checked. */
  function OfString(s: string): (r: Result<Time, TimeError>)
    ensures r.Ok? <==> IsHHmm(s)
    ensures r.Err? ==> r.error == BadFormat
    ensures r.Ok? ==> r.value.value == TwoDigitValue(s[0], s[1]) * 60 + TwoDigitValue(s[3], s[4])
    ensures r.Ok? ==> 0 <= r.value.value <= 99 * 60 + 99
  {
    if !IsHHmm(s) then Err(BadFormat)
    else
      Numbers.ParseTwo(s[..2]);
      Numbers.ParseTwo(s[3..]);
      Ok(Time(Numbers.ParseNat(s[..2]) * 60 + Numbers.ParseNat(s[3..])))
  }

  /** `new Time(m)` for a moment: its hours times 60 plus its minutes, or an error for an invalid moment. */
  function OfMoment(m: Moment): (r: Result<Time, TimeError>)
    ensures r.Ok? <==> m.valid
    ensures r.Err? ==> r.error == InvalidMoment
    ensures r.Ok? ==> r.value.value == m.hours * 60 + m.minutes
    ensures r.Ok? && 0 <= m.hours < 24 && 0 <= m.minutes < 60 ==> InDay(r.value)
  {
    if !m.valid then Err(InvalidMoment) else Ok(Time(m.hours * 60 + m.minutes))
  }

  /** The constructor: `None` is `new Time()`, which is midnight; another Time is copied. */
  function Construct(arg: Option<TimeLike>): (r: Result<Time, TimeError>)
    ensures arg.None? ==> r == Ok(Time(0))
    ensures arg.Some? && arg.value.FromTime? ==> r == Ok(arg.value.t)
    ensures arg.Some? && arg.value.FromNumber? ==> r == OfNumber(arg.value.n)
    ensures arg.Some? && arg.value.FromString? ==> r == OfString(arg.value.s)
    ensures arg.Some? && arg.value.FromMoment? ==> r == OfMoment(arg.value.m)
  {
    match arg
    case None => Ok(Time(0))
    case Some(FromNumber(n)) => OfNumber(n)
    case Some(FromString(s)) => OfString(s)
    case Some(FromTime(t)) => Ok(Time(t.value))
    case Some(FromMoment(m)) => OfMoment(m)
  }

  /**
   * `t.add(mins)`: `(value + mins) % 1440` with JavaScript's truncating `%`,
   * plus 1440 when that is negative, then the numeric constructor, which never
   * throws for it. The result is the value plus `mins` reduced into the day.
   */
  function Add(t: Time, mins: int): (r: Time)
    ensures InDay(r)
    ensures r.value == (t.value + mins) % MinutesPerDay
  {
    var newValue := Numbers.TruncRem(t.value + mins, MinutesPerDay);
    var adjusted := if newValue < 0 then newValue + MinutesPerDay else newValue;
    TruncRemAdjusted(t.value + mins);
    match OfNumber(adjusted)
    case Ok(time) => time
    case Err(_) => assert false; Time(0)
  }

  lemma TruncRemAdjusted(a: int)
    ensures var n := Numbers.TruncRem(a, MinutesPerDay);
            (if n < 0 then n + MinutesPerDay else n) == a % MinutesPerDay
  {
    if a < 0 {
      var k := (-a) % MinutesPerDay;
      assert -a == MinutesPerDay * ((-a) / MinutesPerDay) + k;
      if k == 0 {
        assert a == MinutesPerDay * -((-a) / MinutesPerDay);
      } else {
        assert a == MinutesPerDay * (-((-a) / MinutesPerDay) - 1) + (MinutesPerDay - k);
      }
    }
  }

  /** `t.subtract(mins)`, which is `t.add(-mins)`. */
  function Subtract(t: Time, mins: int): (r: Time)
    ensures InDay(r)
    ensures r.value == (t.value - mins) % MinutesPerDay
  {
    Add(t, -mins)
  }

  /** `t.valueOf()`: the minute count; for a time of the day the numeric constructor gives it back. */
  function ValueOf(t: Time): (v: int)
    ensures v == t.value
    ensures InDay(t) ==> OfNumber(v) == Ok(t)
  {
    t.value
  }

  /** `t.toJSON()`, the same number as `valueOf()`. */
  function ToJson(t: Time): (v: int)
    ensures v == ValueOf(t)
  {
    t.value
  }

  lemma Padded(n: nat)
    requires n < 100
    ensures Numbers.PadStart2(Numbers.IntToString(n)) == [Numbers.DigitChar(n / 10), Numbers.DigitChar(n % 10)]
  {
    Numbers.TwoDigits(n);
  }

  /** The text "HH:mm" for hours and minutes below 100. */
  function HHmm(h: nat, m: nat): string
    requires h < 100 && m < 100
  {
    [Numbers.DigitChar(h / 10), Numbers.DigitChar(h % 10), ':', Numbers.DigitChar(m / 10), Numbers.DigitChar(m % 10)]
  }

  /**
   * `t.toString()`: `mins = value % 60` and `hours = (value - mins) / 60`, each
   * printed with `String` and padded to two characters with zeros, joined by ':'.
   */
  function ToString(t: Time): (s: string)
    ensures 0 <= t.value < 6000 ==> s == HHmm(t.value / 60, t.value % 60)
  {
    var mins := Numbers.TruncRem(t.value, 60);
    var hours := (t.value - mins) / 60;
    var s := Numbers.PadStart2(Numbers.IntToString(hours)) + ":" + Numbers.PadStart2(Numbers.IntToString(mins));
    if 0 <= t.value < 6000 then
      SplitMinutes(t.value);
      PrintParts(hours, mins);
      s
    else s
  }

  lemma PrintParts(h: nat, m: nat)
    requires h < 100 && m < 100
    ensures Numbers.PadStart2(Numbers.IntToString(h)) + ":" + Numbers.PadStart2(Numbers.IntToString(m)) == HHmm(h, m)
  {
    var x := Numbers.PadStart2(Numbers.IntToString(h));
    var y := Numbers.PadStart2(Numbers.IntToString(m));
    Padded(h);
    Padded(m);
    JoinWithColon(x, y);
  }

  lemma JoinWithColon(x: string, y: string)
    requires |x| == 2 && |y| == 2
    ensures x + ":" + y == [x[0], x[1], ':', y[0], y[1]]
  {
  }

  lemma SplitMinutes(v: int)
    requires 0 <= v < 6000
    ensures Numbers.TruncRem(v, 60) == v % 60
    ensures (v - v % 60) / 60 == v / 60 < 100
  {
  }

  // ---------------------------------------------------------------------
  // Properties
  // ---------------------------------------------------------------------

  /** `new Time()` is midnight and prints as "00:00". */
  lemma DefaultIsMidnight()
    ensures Construct(None) == Ok(Time(0))
    ensures ToString(Time(0)) == "00:00"
  {
  }

  /** 1234 minutes print as "20:34". */
  lemma ToStringExample()
    ensures ToString(Time(1234)) == "20:34"
  {
    assert ToString(Time(1234)) == HHmm(20, 34);
  }

  /** Printing a time below 100 hours and parsing the text back gives the same time. */
  lemma {:induction false} ParseOfToString(t: Time)
    requires 0 <= t.value < 6000
    ensures OfString(ToString(t)) == Ok(t)
  {
    var h, m := t.value / 60, t.value % 60;
    var s := ToString(t);
    assert s == HHmm(h, m);
    HHmmValue(h, m);
    DivMod60(t.value);
  }

  lemma HHmmValue(h: nat, m: nat)
    requires h < 100 && m < 100
    ensures var s := HHmm(h, m); IsHHmm(s) && TwoDigitValue(s[0], s[1]) == h && TwoDigitValue(s[3], s[4]) == m
  {
  }

  lemma DivMod60(v: int)
    ensures v / 60 * 60 + v % 60 == v
  {
  }

  /** Parsing "HH:mm" with mm below 60 and printing the result gives the text back (also for HH above 23). */
  lemma {:induction false} ToStringOfParse(s: string)
    requires IsHHmm(s)
    requires TwoDigitValue(s[3], s[4]) < 60
    ensures OfString(s).Ok? && ToString(OfString(s).value) == s
  {
    var h := TwoDigitValue(s[0], s[1]);
    var m := TwoDigitValue(s[3], s[4]);
    var v := OfString(s).value.value;
    assert v == h * 60 + m;
    Recombine60(h, m);
    HHmmOfDigits(s);
  }

  lemma Recombine60(h: nat, m: nat)
    requires m < 60
    ensures (h * 60 + m) / 60 == h && (h * 60 + m) % 60 == m
  {
  }

  lemma HHmmOfDigits(s: string)
    requires IsHHmm(s)
    ensures HHmm(TwoDigitValue(s[0], s[1]), TwoDigitValue(s[3], s[4])) == s
  {
    DigitCharOfValue(s[0]);
    DigitCharOfValue(s[1]);
    DigitCharOfValue(s[3]);
    DigitCharOfValue(s[4]);
  }

  lemma DigitCharOfValue(c: char)
    requires Numbers.IsDigit(c)
    ensures Numbers.DigitChar(Numbers.DigitValue(c)) == c
  {
  }

  /** The string constructor does not range-check: "99:99" is 6039 minutes, outside the day. */
  lemma StringConstructorIsUnchecked()
    ensures OfString("99:99") == Ok(Time(6039))
    ensures !InDay(Time(6039))
    ensures OfString("1234").Err?
  {
  }

  /** Moving a time twice is moving it once by the sum, for any starting value. */
  lemma {:induction false} AddAdd(t: Time, a: int, b: int)
    ensures Add(Add(t, a), b) == Add(t, a + b)
  {
    var x := t.value + a;
    assert x == MinutesPerDay * (x / MinutesPerDay) + x % MinutesPerDay;
    assert x % MinutesPerDay + b == x + b - MinutesPerDay * (x / MinutesPerDay);
    ModShift(x + b, x / MinutesPerDay);
  }

  lemma ModShift(y: int, q: int)
    ensures (y - MinutesPerDay * q) % MinutesPerDay == y % MinutesPerDay
  {
  }

  /** Adding nothing, or a whole day, leaves a time of the day as it is. */
  lemma AddNothing(t: Time)
    requires InDay(t)
    ensures Add(t, 0) == t && Add(t, MinutesPerDay) == t
  {
  }

  /** `subtract(m)` is `add(-m)`. */
  lemma SubtractIsAddNegated(t: Time, mins: int)
    ensures Subtract(t, mins) == Add(t, -mins)
  {
  }

  /** Going back 10 minutes from 00:05 wraps to 23:55. */
  lemma CrossMidnightBackwards()
    ensures OfString("00:05") == Ok(Time(5)) && ToString(Subtract(Time(5), 10)) == "23:55"
  {
    assert Subtract(Time(5), 10) == Time(1435);
    assert ToString(Time(1435)) == HHmm(23, 55);
  }

  /** Going on 10 minutes from 23:55 wraps to 00:05. */
  lemma CrossMidnightForwards()
    ensures OfString("23:55") == Ok(Time(1435)) && ToString(Add(Time(1435), 10)) == "00:05"
  {
    assert Add(Time(1435), 10) == Time(5);
    assert ToString(Time(5)) == HHmm(0, 5);
  }

  /** A valid moment with hour and minute in range becomes a time that prints as the moment's "HH:mm". */
  lemma {:induction false} MomentToString(m: Moment)
    requires m.valid && 0 <= m.hours < 24 && 0 <= m.minutes < 60
    ensures OfMoment(m).Ok? && InDay(OfMoment(m).value)
    ensures ToString(OfMoment(m).value) == HHmm(m.hours, m.minutes)
  {
    var v := m.hours * 60 + m.minutes;
    assert v / 60 == m.hours && v % 60 == m.minutes;
  }
}
