/**
 * The degrees-decimal-minutes converter: a latitude and a longitude in decimal
 * degrees to text such as `52°30.975204' N, 13°22.657523' E`.
 *
 * Each coordinate is split into a signed whole degree (its floor) and the
 * remaining fraction as minutes. A precision of 0 or more rounds the minutes
 * half-down to that many decimals; the default -1 leaves them as they are. The
 * text shows the minutes with the precision's decimals, 6 by default, and the
 * hemisphere letters follow the signs.
 */
module LatLngToDdm {
  import opened Numbers
  import opened Strings
  import opened Dtos

  /** A coordinate split into degrees and decimal minutes. */
  datatype DecimalMinutes = DecimalMinutes(degrees: int, minutes: real)

  /** `convert`: the degree is the floor of the coordinate, the minutes the remaining fraction times 60. */
  function Convert(c: real): (d: DecimalMinutes)
    ensures d.degrees as real <= c < d.degrees as real + 1.0
    ensures 0.0 <= d.minutes < 60.0
    ensures d.degrees as real + d.minutes / 60.0 == c
  {
    var degree := c.Floor;
    DecimalMinutes(degree, (c - degree as real) * 60.0)
  }

  /** Below zero the degree is the next integer down and the minutes count up from it. */
  lemma ConvertNegative()
    ensures Convert(-12.25) == DecimalMinutes(-13, 45.0)
    ensures Convert(12.25) == DecimalMinutes(12, 15.0)
  {
    assert (-12.25).Floor == -13;
    assert (12.25).Floor == 12;
  }

  /**
   * The minutes `run` shows: rounded half-down to the precision when it is 0 or
   * more, untouched otherwise.
   */
  function Minutes(c: real, precision: int): real
  {
    var raw := Convert(c).minutes;
    if precision >= 0 then RoundHalfDown(raw, precision) else raw
  }

  /**
   * The shown minutes stay within [0, 60] and within half a unit of the last
   * kept decimal of the exact minutes; the degrees are never touched, so the
   * rounding can reach 60 without carrying.
   */
  lemma MinutesBounds(c: real, precision: int)
    ensures 0.0 <= Minutes(c, precision) <= 60.0
    ensures precision < 0 ==> Minutes(c, precision) == Convert(c).minutes
    ensures precision >= 0 ==> Abs(Minutes(c, precision) - Convert(c).minutes) <= HalfUnit(precision)
  {
    var raw := Convert(c).minutes;
    if precision >= 0 {
      RoundHalfDownNonNegative(raw, precision);
      RoundHalfDownAtMost(raw, precision, 60);
      RoundHalfDownClose(raw, precision);
    }
  }

  /** 0.99999 degrees (0°59.9994') at precision 2 shows 60 minutes, not 1°0'. */
  lemma MinutesReachSixty()
    ensures Convert(0.99999).degrees == 0
    ensures Minutes(0.99999, 2) == 60.0
  {
    assert (0.99999).Floor == 0;
    assert Convert(0.99999).minutes == 59.9994;
    assert HalfDownInt(5999.94) == 6000;
  }

  /** One coordinate as `run` writes it: `%d°%.{p}f' %s`. */
  function Axis(d: DecimalMinutes, minutes: real, p: nat, hemisphere: string): string
  {
    IntToString(d.degrees) + "°" + FixedToString(minutes, p) + "' " + hemisphere
  }

  /** The latitude's half of the text. */
  function LatitudeText(latitude: real, precision: int): string
  {
    Axis(Convert(latitude), Minutes(latitude, precision), GetPrecision(precision), NorthSouth(latitude))
  }

  /** The longitude's half of the text. */
  function LongitudeText(longitude: real, precision: int): string
  {
    Axis(Convert(longitude), Minutes(longitude, precision), GetPrecision(precision), EastWest(longitude))
  }

  /** `run`: the latitude, a comma, the longitude, each with its hemisphere letter. */
  function Run(latitude: real, longitude: real, precision: int): string
  {
    LatitudeText(latitude, precision) + (", " + LongitudeText(longitude, precision))
  }

  /** Where the minutes start in one coordinate's text: after the degrees and '°'. */
  function MinutesAt(d: DecimalMinutes): nat
  {
    |IntToString(d.degrees)| + 1
  }

  /**
   * The value a reader takes from a coordinate's text: `(int)` of the degrees
   * and `(float)` of the minutes, as degrees + minutes / 60, the degrees signed
   * as written.
   */
  function ReadBack(text: string, d: DecimalMinutes): real
    requires MinutesAt(d) <= |text|
  {
    ParseInt(text) as real + ParseFloat(text[MinutesAt(d)..]) / 60.0
  }

  /** The latitude's half of the text reads back as the latitude to within HalfLastDecimal / 60 degrees. */
  lemma LatitudeReadsBack(latitude: real, longitude: real, precision: int)
    ensures MinutesAt(Convert(latitude)) <= |Run(latitude, longitude, precision)|
    ensures Abs(ReadBack(Run(latitude, longitude, precision), Convert(latitude)) - latitude)
      <= HalfLastDecimal(precision) / 60.0
  {
    CoordinateReadsBack(latitude, precision, NorthSouth(latitude), ", " + LongitudeText(longitude, precision));
  }

  /** After the latitude's half and the comma comes the longitude's half. */
  lemma AfterComma(latitude: real, longitude: real, precision: int)
    ensures |LatitudeText(latitude, precision)| + 2 <= |Run(latitude, longitude, precision)|
    ensures Run(latitude, longitude, precision)[|LatitudeText(latitude, precision)| + 2..] == LongitudeText(longitude, precision)
  {
    Joined(LatitudeText(latitude, precision), LongitudeText(longitude, precision));
  }

  /** The longitude's half of the text reads back as the longitude to within HalfLastDecimal / 60 degrees. */
  lemma LongitudeReadsBack(longitude: real, precision: int)
    ensures MinutesAt(Convert(longitude)) <= |LongitudeText(longitude, precision)|
    ensures Abs(ReadBack(LongitudeText(longitude, precision), Convert(longitude)) - longitude)
      <= HalfLastDecimal(precision) / 60.0
  {
    CoordinateReadsBack(longitude, precision, EastWest(longitude), "");
    AppendEmpty(LongitudeText(longitude, precision));
  }

  /** One coordinate's text, followed by anything, reads back as the coordinate. */
  lemma CoordinateReadsBack(c: real, precision: int, hemisphere: string, t: string)
    ensures var text := Axis(Convert(c), Minutes(c, precision), GetPrecision(precision), hemisphere) + t;
      && MinutesAt(Convert(c)) <= |text|
      && Abs(ReadBack(text, Convert(c)) - c) <= HalfLastDecimal(precision) / 60.0
  {
    AxisDegrees(Convert(c), Minutes(c, precision), GetPrecision(precision), hemisphere, t);
    ShownMinutes(c, precision, hemisphere, t);
    Recompose(Convert(c), c,
      ParseFloat((Axis(Convert(c), Minutes(c, precision), GetPrecision(precision), hemisphere) + t)[MinutesAt(Convert(c))..]),
      HalfLastDecimal(precision));
  }

  /** The minutes read back from one coordinate's text are within HalfLastDecimal of the exact minutes. */
  lemma ShownMinutes(c: real, precision: int, hemisphere: string, t: string)
    ensures var text := Axis(Convert(c), Minutes(c, precision), GetPrecision(precision), hemisphere) + t;
      && MinutesAt(Convert(c)) <= |text|
      && Abs(ParseFloat(text[MinutesAt(Convert(c))..]) - Convert(c).minutes) <= HalfLastDecimal(precision)
  {
    MinutesBounds(c, precision);
    if precision >= 0 {
      RoundedIsWhole(Convert(c).minutes, precision);
      AxisMinutes(Convert(c), Minutes(c, precision), GetPrecision(precision), hemisphere, t);
    } else {
      AxisMinutesClose(Convert(c), Minutes(c, precision), GetPrecision(precision), hemisphere, t);
    }
  }

  /** `(int)` of one coordinate's text is its degrees. */
  lemma AxisDegrees(d: DecimalMinutes, minutes: real, p: nat, hemisphere: string, t: string)
    ensures ParseInt(Axis(d, minutes, p, hemisphere) + t) == d.degrees
  {
    var f := FixedToString(minutes, p);
    Regroup(IntToString(d.degrees), f, hemisphere, t);
    ParseIntOfIntToString(d.degrees, "°" + (f + ("' " + hemisphere + t)));
  }

  /** `(float)` of one coordinate's text after its degree sign is its minutes, when they have at most p decimals. */
  lemma AxisMinutes(d: DecimalMinutes, minutes: real, p: nat, hemisphere: string, t: string)
    requires minutes >= 0.0 && IsInteger(TimesTen(minutes, p))
    ensures MinutesAt(d) <= |Axis(d, minutes, p, hemisphere) + t|
    ensures ParseFloat((Axis(d, minutes, p, hemisphere) + t)[MinutesAt(d)..]) == minutes
  {
    MinutesText(d, minutes, p, hemisphere, t);
    ParseFixedExact(minutes, p, "' " + hemisphere + t);
  }

  /** `(float)` of one coordinate's text after its degree sign is its minutes to within half a unit of the p-th decimal. */
  lemma AxisMinutesClose(d: DecimalMinutes, minutes: real, p: nat, hemisphere: string, t: string)
    ensures MinutesAt(d) <= |Axis(d, minutes, p, hemisphere) + t|
    ensures Abs(ParseFloat((Axis(d, minutes, p, hemisphere) + t)[MinutesAt(d)..]) - minutes) <= Tenths(0.5, p)
  {
    MinutesText(d, minutes, p, hemisphere, t);
    ParseFixedClose(minutes, p, "' " + hemisphere + t);
  }

  /** One coordinate's text from its minutes on. */
  lemma MinutesText(d: DecimalMinutes, minutes: real, p: nat, hemisphere: string, t: string)
    ensures MinutesAt(d) <= |Axis(d, minutes, p, hemisphere) + t|
    ensures (Axis(d, minutes, p, hemisphere) + t)[MinutesAt(d)..] == FixedToString(minutes, p) + ("' " + hemisphere + t)
  {
    assert MinutesAt(d) == |IntToString(d.degrees)| + 1;
    Regroup(IntToString(d.degrees), FixedToString(minutes, p), hemisphere, t);
  }

  /** The pieces of one coordinate's text, regrouped around each number. */
  lemma Regroup(g: string, f: string, h: string, t: string)
    ensures var text := g + "°" + f + "' " + h + t;
      && text == g + ("°" + (f + ("' " + h + t)))
      && text[|g| + 1..] == f + ("' " + h + t)
  {
    var text := g + "°" + f + "' " + h + t;
    assert text == (g + "°") + (f + ("' " + h + t));
    DropPrefix(g + "°", f + ("' " + h + t));
  }

  /**
   * Minutes within e of the exact ones give a point within e / 60 degrees of
   * the coordinate.
   */
  lemma Recompose(d: DecimalMinutes, c: real, shown: real, e: real)
    requires d.degrees as real + d.minutes / 60.0 == c
    requires Abs(shown - d.minutes) <= e
    ensures Abs(d.degrees as real + shown / 60.0 - c) <= e / 60.0
  {
  }

  /** The hemisphere letters follow the signs, 0 counting as north and east, and a comma separates the halves. */
  lemma RunHemispheres(latitude: real, longitude: real, precision: int)
    ensures var text := Run(latitude, longitude, precision);
      var n := |LatitudeText(latitude, precision)|;
      && text[n - 1] == (if latitude >= 0.0 then 'N' else 'S')
      && text[n..n + 2] == ", "
      && text[|text| - 1] == (if longitude >= 0.0 then 'E' else 'W')
  {
    LatitudeEnds(latitude, precision);
    LongitudeEnds(longitude, precision);
    Joined(LatitudeText(latitude, precision), LongitudeText(longitude, precision));
  }

  /** The latitude's half ends with its hemisphere letter. */
  lemma LatitudeEnds(latitude: real, precision: int)
    ensures |LatitudeText(latitude, precision)| > 0
    ensures LatitudeText(latitude, precision)[|LatitudeText(latitude, precision)| - 1] == (if latitude >= 0.0 then 'N' else 'S')
  {
  }

  /** The longitude's half ends with its hemisphere letter. */
  lemma LongitudeEnds(longitude: real, precision: int)
    ensures |LongitudeText(longitude, precision)| > 0
    ensures LongitudeText(longitude, precision)[|LongitudeText(longitude, precision)| - 1] == (if longitude >= 0.0 then 'E' else 'W')
  {
  }
}
