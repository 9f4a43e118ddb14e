/**
 * The degrees-minutes-seconds converter: a latitude and a longitude in decimal
 * degrees to text such as `52°30'58.512252" N, 13°22'39.451372" E`.
 *
 * Each coordinate is split into a signed whole degree (its floor, so -12.5 has
 * degree -13 and a positive remainder), whole minutes and seconds. A precision
 * of 0 or more rounds the seconds half-down to that many decimals; the default
 * -1 leaves them as they are. The text shows the seconds with the precision's
 * decimals, 6 by default, and the hemisphere letters follow the signs.
 */
module LatLngToDms {
  import opened Numbers
  import opened Strings
  import opened Dtos

  /** A coordinate split into degrees, minutes and seconds. */
  datatype Sexagesimal = Sexagesimal(degrees: int, minutes: int, seconds: real)

  /**
   * `convert`: the degree is the floor of the coordinate, the minutes the floor
   * of the remaining fraction times 60, the seconds what is left, times 3600.
   */
  function Convert(c: real): (s: Sexagesimal)
    ensures s.degrees as real <= c < s.degrees as real + 1.0
    ensures 0 <= s.minutes <= 59
    ensures 0.0 <= s.seconds < 60.0
    ensures s.degrees as real + s.minutes as real / 60.0 + s.seconds / 3600.0 == c
  {
    var degree := c.Floor;
    var minutes := ((c - degree as real) * 60.0).Floor;
    Sexagesimal(degree, minutes, (c - degree as real - minutes as real / 60.0) * 3600.0)
  }

  /** The degree is the integer part only for c >= 0: below zero it is the next integer down. */
  lemma ConvertNegative()
    ensures Convert(-12.5) == Sexagesimal(-13, 30, 0.0)
    ensures Convert(12.5) == Sexagesimal(12, 30, 0.0)
  {
    assert (-12.5).Floor == -13;
    assert (12.5).Floor == 12;
  }

  /**
   * The seconds `run` shows: rounded half-down to the precision when it is 0 or
   * more, untouched otherwise.
   */
  function Seconds(c: real, precision: int): real
  {
    var raw := Convert(c).seconds;
    if precision >= 0 then RoundHalfDown(raw, precision) else raw
  }

  /**
   * The shown seconds stay within [0, 60] and within half a unit of the last
   * kept decimal of the exact seconds; the minutes are never touched, so the
   * rounding can reach 60 without carrying.
   */
  lemma SecondsBounds(c: real, precision: int)
    ensures 0.0 <= Seconds(c, precision) <= 60.0
    ensures precision < 0 ==> Seconds(c, precision) == Convert(c).seconds
    ensures precision >= 0 ==> Abs(Seconds(c, precision) - Convert(c).seconds) <= HalfUnit(precision)
  {
    var raw := Convert(c).seconds;
    if precision >= 0 {
      RoundHalfDownNonNegative(raw, precision);
      RoundHalfDownAtMost(raw, precision, 60);
      RoundHalfDownClose(raw, precision);
    }
  }

  /** 0.99999722... degrees (0°59'59.99") at precision 0 shows 60 seconds, not 1°0'0". */
  lemma SecondsReachSixty()
    ensures Convert(1.0 - 1.0 / 360000.0).minutes == 59
    ensures Seconds(1.0 - 1.0 / 360000.0, 0) == 60.0
  {
    var c := 1.0 - 1.0 / 360000.0;
    assert c.Floor == 0;
    assert (c * 60.0).Floor == 59;
    assert Convert(c).seconds == 59.99;
    assert HalfDownInt(59.99) == 60;
  }

  /** One coordinate as `run` writes it: `%d°%d'%.{p}f" %s`. */
  function Axis(s: Sexagesimal, seconds: real, p: nat, hemisphere: string): string
  {
    IntToString(s.degrees) + "°" + IntToString(s.minutes) + "'" + FixedToString(seconds, p) + "\" " + hemisphere
  }

  /** The latitude's half of the text. */
  function LatitudeText(latitude: real, precision: int): string
  {
    Axis(Convert(latitude), Seconds(latitude, precision), GetPrecision(precision), NorthSouth(latitude))
  }

  /** The longitude's half of the text. */
  function LongitudeText(longitude: real, precision: int): string
  {
    Axis(Convert(longitude), Seconds(longitude, precision), GetPrecision(precision), EastWest(longitude))
  }

  /** `run`: the latitude, a comma, the longitude, each with its hemisphere letter. */
  function Run(latitude: real, longitude: real, precision: int): string
  {
    LatitudeText(latitude, precision) + (", " + LongitudeText(longitude, precision))
  }

  /** Where the minutes start in one coordinate's text: after the degrees and '°'. */
  function MinutesAt(s: Sexagesimal): nat
  {
    |IntToString(s.degrees)| + 1
  }

  /** Where the seconds start in one coordinate's text: after the minutes and '\''. */
  function SecondsAt(s: Sexagesimal): nat
  {
    MinutesAt(s) + |IntToString(s.minutes)| + 1
  }

  /**
   * The value a reader takes from a coordinate's text: `(int)` of the degrees,
   * of the minutes and `(float)` of the seconds, as degrees + minutes / 60 +
   * seconds / 3600, the degrees signed as written.
   */
  function ReadBack(text: string, s: Sexagesimal): real
    requires SecondsAt(s) <= |text|
  {
    ParseInt(text) as real + ParseInt(text[MinutesAt(s)..]) as real / 60.0 + ParseFloat(text[SecondsAt(s)..]) / 3600.0
  }

  /** The latitude's half of the text reads back as the latitude to within HalfLastDecimal / 3600 degrees. */
  lemma LatitudeReadsBack(latitude: real, longitude: real, precision: int)
    ensures SecondsAt(Convert(latitude)) <= |Run(latitude, longitude, precision)|
    ensures Abs(ReadBack(Run(latitude, longitude, precision), Convert(latitude)) - latitude)
      <= HalfLastDecimal(precision) / 3600.0
  {
    CoordinateReadsBack(latitude, precision, NorthSouth(latitude), ", " + LongitudeText(longitude, precision));
  }

  /** After the latitude's half and the comma comes the longitude's half. */
  lemma AfterComma(latitude: real, longitude: real, precision: int)
    ensures |LatitudeText(latitude, precision)| + 2 <= |Run(latitude, longitude, precision)|
    ensures Run(latitude, longitude, precision)[|LatitudeText(latitude, precision)| + 2..] == LongitudeText(longitude, precision)
  {
    Joined(LatitudeText(latitude, precision), LongitudeText(longitude, precision));
  }

  /** The longitude's half of the text reads back as the longitude to within HalfLastDecimal / 3600 degrees. */
  lemma LongitudeReadsBack(longitude: real, precision: int)
    ensures SecondsAt(Convert(longitude)) <= |LongitudeText(longitude, precision)|
    ensures Abs(ReadBack(LongitudeText(longitude, precision), Convert(longitude)) - longitude)
      <= HalfLastDecimal(precision) / 3600.0
  {
    CoordinateReadsBack(longitude, precision, EastWest(longitude), "");
    AppendEmpty(LongitudeText(longitude, precision));
  }

  /** One coordinate's text, followed by anything, reads back as the coordinate. */
  lemma CoordinateReadsBack(c: real, precision: int, hemisphere: string, t: string)
    ensures var text := Axis(Convert(c), Seconds(c, precision), GetPrecision(precision), hemisphere) + t;
      && SecondsAt(Convert(c)) <= |text|
      && Abs(ReadBack(text, Convert(c)) - c) <= HalfLastDecimal(precision) / 3600.0
  {
    AxisDegrees(Convert(c), Seconds(c, precision), GetPrecision(precision), hemisphere, t);
    AxisMinutes(Convert(c), Seconds(c, precision), GetPrecision(precision), hemisphere, t);
    ShownSeconds(c, precision, hemisphere, t);
    Recompose(Convert(c), c,
      ParseFloat((Axis(Convert(c), Seconds(c, precision), GetPrecision(precision), hemisphere) + t)[SecondsAt(Convert(c))..]),
      HalfLastDecimal(precision));
  }

  /** The seconds read back from one coordinate's text are within HalfLastDecimal of the exact seconds. */
  lemma ShownSeconds(c: real, precision: int, hemisphere: string, t: string)
    ensures var text := Axis(Convert(c), Seconds(c, precision), GetPrecision(precision), hemisphere) + t;
      && SecondsAt(Convert(c)) <= |text|
      && Abs(ParseFloat(text[SecondsAt(Convert(c))..]) - Convert(c).seconds) <= HalfLastDecimal(precision)
  {
    SecondsBounds(c, precision);
    if precision >= 0 {
      RoundedIsWhole(Convert(c).seconds, precision);
      AxisSeconds(Convert(c), Seconds(c, precision), GetPrecision(precision), hemisphere, t);
    } else {
      AxisSecondsClose(Convert(c), Seconds(c, precision), GetPrecision(precision), hemisphere, t);
    }
  }

  /** `(int)` of one coordinate's text is its degrees. */
  lemma AxisDegrees(s: Sexagesimal, seconds: real, p: nat, hemisphere: string, t: string)
    ensures ParseInt(Axis(s, seconds, p, hemisphere) + t) == s.degrees
  {
    var m := IntToString(s.minutes);
    var f := FixedToString(seconds, p);
    Regroup(IntToString(s.degrees), m, f, hemisphere, t);
    ParseIntOfIntToString(s.degrees, "°" + (m + ("'" + (f + ("\" " + hemisphere + t)))));
  }

  /** `(int)` of one coordinate's text after its degree sign is its minutes. */
  lemma AxisMinutes(s: Sexagesimal, seconds: real, p: nat, hemisphere: string, t: string)
    requires s.minutes >= 0
    ensures MinutesAt(s) <= |Axis(s, seconds, p, hemisphere) + t|
    ensures ParseInt((Axis(s, seconds, p, hemisphere) + t)[MinutesAt(s)..]) == s.minutes
  {
    var f := FixedToString(seconds, p);
    assert MinutesAt(s) == |IntToString(s.degrees)| + 1;
    Regroup(IntToString(s.degrees), IntToString(s.minutes), f, hemisphere, t);
    assert (Axis(s, seconds, p, hemisphere) + t)[MinutesAt(s)..] == IntToString(s.minutes) + ("'" + (f + ("\" " + hemisphere + t)));
    ParseIntOfIntToString(s.minutes, "'" + (f + ("\" " + hemisphere + t)));
  }

  /** `(float)` of one coordinate's text after its minutes sign is its seconds, when they have at most p decimals. */
  lemma AxisSeconds(s: Sexagesimal, seconds: real, p: nat, hemisphere: string, t: string)
    requires seconds >= 0.0 && IsInteger(TimesTen(seconds, p))
    ensures SecondsAt(s) <= |Axis(s, seconds, p, hemisphere) + t|
    ensures ParseFloat((Axis(s, seconds, p, hemisphere) + t)[SecondsAt(s)..]) == seconds
  {
    SecondsText(s, seconds, p, hemisphere, t);
    ParseFixedExact(seconds, p, "\" " + hemisphere + t);
  }

  /** `(float)` of one coordinate's text after its minutes sign is its seconds to within half a unit of the p-th decimal. */
  lemma AxisSecondsClose(s: Sexagesimal, seconds: real, p: nat, hemisphere: string, t: string)
    ensures SecondsAt(s) <= |Axis(s, seconds, p, hemisphere) + t|
    ensures Abs(ParseFloat((Axis(s, seconds, p, hemisphere) + t)[SecondsAt(s)..]) - seconds) <= Tenths(0.5, p)
  {
    SecondsText(s, seconds, p, hemisphere, t);
    ParseFixedClose(seconds, p, "\" " + hemisphere + t);
  }

  /** One coordinate's text from its seconds on. */
  lemma SecondsText(s: Sexagesimal, seconds: real, p: nat, hemisphere: string, t: string)
    ensures SecondsAt(s) <= |Axis(s, seconds, p, hemisphere) + t|
    ensures (Axis(s, seconds, p, hemisphere) + t)[SecondsAt(s)..] == FixedToString(seconds, p) + ("\" " + hemisphere + t)
  {
    Regroup(IntToString(s.degrees), IntToString(s.minutes), FixedToString(seconds, p), hemisphere, t);
  }

  /** The pieces of one coordinate's text, regrouped around each number. */
  lemma Regroup(d: string, m: string, f: string, h: string, t: string)
    ensures var text := d + "°" + m + "'" + f + "\" " + h + t;
      && text == d + ("°" + (m + ("'" + (f + ("\" " + h + t)))))
      && text[|d| + 1..] == m + ("'" + (f + ("\" " + h + t)))
      && text[|d| + 1 + |m| + 1..] == f + ("\" " + h + t)
  {
    var text := d + "°" + m + "'" + f + "\" " + h + t;
    assert text == (d + "°") + (m + ("'" + (f + ("\" " + h + t))));
    DropPrefix(d + "°", m + ("'" + (f + ("\" " + h + t))));
    assert text == (d + "°" + m + "'") + (f + ("\" " + h + t));
    DropPrefix(d + "°" + m + "'", f + ("\" " + h + t));
  }

  /**
   * Seconds within e of the exact ones give a point within e / 3600 degrees of
   * the coordinate.
   */
  lemma Recompose(s: Sexagesimal, c: real, shown: real, e: real)
    requires s.degrees as real + s.minutes as real / 60.0 + s.seconds / 3600.0 == c
    requires Abs(shown - s.seconds) <= e
    ensures Abs(s.degrees as real + s.minutes as real / 60.0 + shown / 3600.0 - c) <= e / 3600.0
  {
  }

  /** The hemisphere letters follow the signs, 0 counting as north and east, and a comma separates the halves. */
  lemma RunHemispheres(latitude: real, longitude: real, precision: int)
    ensures var text := Run(latitude, longitude, precision);
      var n := |LatitudeText(latitude, precision)|;
      && text[n - 1] == (if latitude >= 0.0 then 'N' else 'S')
      && text[n..n + 2] == ", "
      && text[|text| - 1] == (if longitude >= 0.0 then 'E' else 'W')
  {
    LatitudeEnds(latitude, precision);
    LongitudeEnds(longitude, precision);
    Joined(LatitudeText(latitude, precision), LongitudeText(longitude, precision));
  }

  /** The latitude's half ends with its hemisphere letter. */
  lemma LatitudeEnds(latitude: real, precision: int)
    ensures |LatitudeText(latitude, precision)| > 0
    ensures LatitudeText(latitude, precision)[|LatitudeText(latitude, precision)| - 1] == (if latitude >= 0.0 then 'N' else 'S')
  {
  }

  /** The longitude's half ends with its hemisphere letter. */
  lemma LongitudeEnds(longitude: real, precision: int)
    ensures |LongitudeText(longitude, precision)| > 0
    ensures LongitudeText(longitude, precision)[|LongitudeText(longitude, precision)| - 1] == (if longitude >= 0.0 then 'E' else 'W')
  {
  }
}
