/**
 * The plain coordinate: a latitude and a longitude (0, 0 by default), rendered
 * through the DMS, DDM and UTM converters, and read from a UTM grid reference
 * written as `{zone}{band} {easting} {northing}`.
 *
 * `fromUTM` hands the four parsed fields to the inverse converter, which takes a
 * UTM value object and returns a LatLng; the model builds that value object.
 * The LatLng comes back as text, which `fromUTM` splits at its spaces and reads
 * as numbers, so at most six decimals survive.
 */
module Coordinates {
  import opened Numbers
  import opened Strings
  import opened Numerics
  import opened Dtos
  import CoordinateFormat
  import LatLngToDms
  import LatLngToDdm
  import LatLngToUtm
  import UtmToLatLng
  import DtoReaders

  datatype Coordinate = Coordinate(latitude: real := 0.0, longitude: real := 0.0)

  /** The default coordinate is the origin, as `coordinates()` and `new Coordinate` give. */
  lemma DefaultIsOrigin()
    ensures Coordinate().latitude == 0.0 && Coordinate().longitude == 0.0
    ensures Coordinate(10.0, 20.0).latitude == 10.0 && Coordinate(10.0, 20.0).longitude == 20.0
  {
  }

  /**
   * The parsing of `fromUTM`: split on spaces; the zone is `(int)` of the first
   * token without its last character, the band that last character; easting
   * and northing are `(float)` of the second and third tokens.
   */
  function ParseUtm(text: string): Utm
  {
    var parts := Explode(text, ' ');
    Utm(ParseInt(DropLast(parts[0])), LastChar(parts[0]), ParseFloat(Token(parts, 1)), ParseFloat(Token(parts, 2)))
  }

  /**
   * `fromUTM` as its test expects it: the parsed grid reference through the
   * inverse converter, whose LatLng is written at the default precision and
   * read back, each coordinate signed by its hemisphere letter.
   */
  function FromUtm(k: Kernels, text: string): Coordinate
  {
    var ll := DtoReaders.ReadLatLng(LatLngToString(UtmToLatLng.Run(k, ParseUtm(text)), -1));
    Coordinate(ll.latitude, ll.longitude)
  }

  /** `fromUTM` with the source's hemisphere test, which counts band N as southern. */
  function FromUtmBandAsWritten(k: Kernels, text: string): Coordinate
  {
    var ll := DtoReaders.ReadLatLng(LatLngToString(UtmToLatLng.RunAsWritten(k, ParseUtm(text)), -1));
    Coordinate(ll.latitude, ll.longitude)
  }

  /**
   * `fromUTM` reading the LatLng text as the source does: the `(float)` of the
   * second and fourth space-separated tokens.
   */
  function FromUtmTokensAsWritten(k: Kernels, text: string): Coordinate
  {
    var tokens := Explode(LatLngToString(UtmToLatLng.Run(k, ParseUtm(text)), -1), ' ');
    Coordinate(ParseFloat(Token(tokens, 1)), ParseFloat(Token(tokens, 3)))
  }

  /**
   * The second and fourth tokens of a LatLng text are its hemisphere letters,
   * so reading them as numbers gives the origin whatever the grid reference.
   */
  lemma FromUtmTokensAsWrittenIsOrigin(k: Kernels, text: string)
    ensures FromUtmTokensAsWritten(k, text) == Coordinate(0.0, 0.0)
  {
    var ll := UtmToLatLng.Run(k, ParseUtm(text));
    DtoReaders.MagnitudeReadsBack(ll.latitude, 6);
    DtoReaders.MagnitudeReadsBack(ll.longitude, 6);
    FourTokens(Magnitude(ll.latitude, 6), NorthSouth(ll.latitude), Magnitude(ll.longitude, 6), EastWest(ll.longitude));
    LetterReadsZero(NorthSouth(ll.latitude));
    LetterReadsZero(EastWest(ll.longitude));
  }

  /** `format`: the stored latitude and longitude and the caller's precision, passed to the declared format's converter. */
  function Format(k: Kernels, c: Coordinate, f: CoordinateFormat.Declared, given: int): string
  {
    match f
    case DMS => LatLngToDms.Run(c.latitude, c.longitude, given)
    case DDM => LatLngToDdm.Run(c.latitude, c.longitude, given)
    case UTM => LatLngToUtm.Text(k, c.latitude, c.longitude, given)
  }

  /** A number written by `%.{p}f` holds no space. */
  lemma FixedHasNoSpace(x: real, p: nat)
    ensures ' ' !in FixedToString(x, p)
  {
    FixedToStringIsNumber(x, p);
    NumberTextLacks(FixedToString(x, p), ' ');
  }

  /** The three tokens of a UTM value object's text. */
  lemma UtmTextTokens(u: Utm, given: int)
    requires |u.latitudeBand| == 1 && u.latitudeBand[0] != ' '
    ensures Explode(UtmToString(u, given), ' ') == [
      IntToString(u.zone) + u.latitudeBand,
      FixedToString(u.easting, GetPrecision(given)),
      FixedToString(u.northing, GetPrecision(given))]
  {
    IntToStringHasNoSpace(u.zone);
    FixedHasNoSpace(u.easting, GetPrecision(given));
    FixedHasNoSpace(u.northing, GetPrecision(given));
    ThreeTokens(IntToString(u.zone) + u.latitudeBand,
      FixedToString(u.easting, GetPrecision(given)), FixedToString(u.northing, GetPrecision(given)));
  }

  /** The zone and band read back from the first token. */
  lemma HeadReadsBack(zone: int, band: string)
    requires |band| == 1
    ensures ParseInt(DropLast(IntToString(zone) + band)) == zone
    ensures LastChar(IntToString(zone) + band) == band
  {
    assert DropLast(IntToString(zone) + band) == IntToString(zone) + "";
    ParseIntOfIntToString(zone, "");
  }

  /**
   * Parsing a UTM value object's text gives back its zone and band, and its
   * easting and northing to within half a unit of the last written decimal.
   */
  lemma ParseUtmReadsBack(u: Utm, given: int)
    requires |u.latitudeBand| == 1 && u.latitudeBand[0] != ' '
    ensures ParseUtm(UtmToString(u, given)).zone == u.zone
    ensures ParseUtm(UtmToString(u, given)).latitudeBand == u.latitudeBand
    ensures Abs(ParseUtm(UtmToString(u, given)).easting - u.easting) <= Tenths(0.5, GetPrecision(given))
    ensures Abs(ParseUtm(UtmToString(u, given)).northing - u.northing) <= Tenths(0.5, GetPrecision(given))
  {
    UtmTextTokens(u, given);
    HeadReadsBack(u.zone, u.latitudeBand);
    ParseFixedClose(u.easting, GetPrecision(given), "");
    ParseFixedClose(u.northing, GetPrecision(given), "");
    AppendEmpty(FixedToString(u.easting, GetPrecision(given)));
    AppendEmpty(FixedToString(u.northing, GetPrecision(given)));
  }

  /** A text whose easting and northing are non-negative and written in full parses back exactly. */
  lemma ParseUtmExact(u: Utm, p: nat)
    requires |u.latitudeBand| == 1 && u.latitudeBand[0] != ' '
    requires u.easting >= 0.0 && IsInteger(TimesTen(u.easting, p))
    requires u.northing >= 0.0 && IsInteger(TimesTen(u.northing, p))
    ensures ParseUtm(UtmToString(u, p)) == u
  {
    UtmTextTokens(u, p);
    HeadReadsBack(u.zone, u.latitudeBand);
    ParseFixedExact(u.easting, p, "");
    ParseFixedExact(u.northing, p, "");
    AppendEmpty(FixedToString(u.easting, p));
    AppendEmpty(FixedToString(u.northing, p));
  }

  /** From 80°S to 88°N the band is one letter, never a space. */
  lemma BandIsLetter(latitude: real)
    requires -80.0 <= latitude < 88.0
    ensures |LatLngToUtm.Band(latitude)| == 1 && LatLngToUtm.Band(latitude)[0] != ' '
  {
    LatLngToUtm.BandInRange(latitude);
    var i := LatLngToUtm.BandIndex(latitude);
    if i < 20 {
      UtmToLatLng.BandNumbers(i);
    } else {
      assert LatLngToUtm.Bands[20] == 'X';
    }
  }

  /**
   * Parsing the UTM converter's text gives back exactly the rounded grid
   * reference, when the latitude has a band and easting and northing are not
   * negative.
   */
  lemma ParseUtmOfConverter(k: Kernels, latitude: real, longitude: real, given: int)
    requires -80.0 <= latitude < 88.0
    requires LatLngToUtm.Forward(k, latitude, longitude).easting >= 0.0
    requires LatLngToUtm.Forward(k, latitude, longitude).northing >= 0.0
    ensures ParseUtm(LatLngToUtm.Text(k, latitude, longitude, given))
      == LatLngToUtm.RoundGrid(LatLngToUtm.Forward(k, latitude, longitude), LatLngToUtm.UtmPrecision(given))
  {
    var u := LatLngToUtm.Forward(k, latitude, longitude);
    var p := LatLngToUtm.UtmPrecision(given);
    BandIsLetter(latitude);
    RoundHalfDownNonNegative(u.easting, p);
    RoundHalfDownNonNegative(u.northing, p);
    RoundedIsWhole(u.easting, p);
    RoundedIsWhole(u.northing, p);
    ParseUtmExact(LatLngToUtm.RoundGrid(u, p), p);
  }

  /**
   * `fromUTM` undoes `format(UTM)` up to the six decimals it reads back: a point
   * whose grid reference has no more decimals than the precision writes comes
   * back rounded half-down to six decimals with its sign, so within half a
   * millionth of a degree, when the kernels invert each other and keep the
   * hemisphere.
   */
  lemma FromUtmRoundTrip(k: Kernels, c: Coordinate, given: int)
    requires Inverts(k) && PreservesHemisphere(k)
    requires -80.0 <= c.latitude < 88.0
    requires LatLngToUtm.Forward(k, c.latitude, c.longitude).easting >= 0.0
    requires LatLngToUtm.Forward(k, c.latitude, c.longitude).northing >= 0.0
    requires IsInteger(LatLngToUtm.Forward(k, c.latitude, c.longitude).easting * Scale(LatLngToUtm.UtmPrecision(given)))
    requires IsInteger(LatLngToUtm.Forward(k, c.latitude, c.longitude).northing * Scale(LatLngToUtm.UtmPrecision(given)))
    ensures var r := FromUtm(k, Format(k, c, CoordinateFormat.UTM, given));
      && r == Coordinate(DtoReaders.Shown(c.latitude, 6), DtoReaders.Shown(c.longitude, 6))
      && Abs(r.latitude - c.latitude) <= HalfUnit(6)
      && Abs(r.longitude - c.longitude) <= HalfUnit(6)
  {
    FormatUtmParses(k, c.latitude, c.longitude, given);
    UtmToLatLng.RoundTrip(k, c.latitude, c.longitude);
    DtoReaders.LatLngReadsBack(LatLng(c.latitude, c.longitude), -1);
  }

  /** A coordinate with at most six decimals on each axis comes back from `fromUTM` exactly. */
  lemma FromUtmRoundTripExact(k: Kernels, c: Coordinate, given: int)
    requires Inverts(k) && PreservesHemisphere(k)
    requires -80.0 <= c.latitude < 88.0
    requires LatLngToUtm.Forward(k, c.latitude, c.longitude).easting >= 0.0
    requires LatLngToUtm.Forward(k, c.latitude, c.longitude).northing >= 0.0
    requires IsInteger(LatLngToUtm.Forward(k, c.latitude, c.longitude).easting * Scale(LatLngToUtm.UtmPrecision(given)))
    requires IsInteger(LatLngToUtm.Forward(k, c.latitude, c.longitude).northing * Scale(LatLngToUtm.UtmPrecision(given)))
    requires IsInteger(c.latitude * Scale(6)) && IsInteger(c.longitude * Scale(6))
    ensures FromUtm(k, Format(k, c, CoordinateFormat.UTM, given)) == c
  {
    FromUtmRoundTrip(k, c, given);
    ShownCoordinateExact(c);
  }

  /** A coordinate with at most six decimals on each axis is shown as itself. */
  lemma ShownCoordinateExact(c: Coordinate)
    requires IsInteger(c.latitude * Scale(6)) && IsInteger(c.longitude * Scale(6))
    ensures Coordinate(DtoReaders.Shown(c.latitude, 6), DtoReaders.Shown(c.longitude, 6)) == c
  {
    DtoReaders.ShownExact(c.latitude, 6);
    DtoReaders.ShownExact(c.longitude, 6);
  }

  /**
   * With the source's hemisphere test, `fromUTM` of `format(UTM)` still gives
   * the rounded coordinate outside 0°N to 8°N, under the same conditions and a
   * bijective kernel; from 0°N to 8°N the inverse it reads back has already
   * lost the point.
   */
  lemma FromUtmRoundTripBandAsWritten(k: Kernels, c: Coordinate, given: int)
    requires Bijective(k) && PreservesHemisphere(k)
    requires -80.0 <= c.latitude < 88.0
    requires LatLngToUtm.Forward(k, c.latitude, c.longitude).easting >= 0.0
    requires LatLngToUtm.Forward(k, c.latitude, c.longitude).northing >= 0.0
    requires IsInteger(LatLngToUtm.Forward(k, c.latitude, c.longitude).easting * Scale(LatLngToUtm.UtmPrecision(given)))
    requires IsInteger(LatLngToUtm.Forward(k, c.latitude, c.longitude).northing * Scale(LatLngToUtm.UtmPrecision(given)))
    ensures !(0.0 <= c.latitude < 8.0) ==>
      FromUtmBandAsWritten(k, Format(k, c, CoordinateFormat.UTM, given))
        == Coordinate(DtoReaders.Shown(c.latitude, 6), DtoReaders.Shown(c.longitude, 6))
    ensures 0.0 <= c.latitude < 8.0 ==>
      UtmToLatLng.RunAsWritten(k, ParseUtm(Format(k, c, CoordinateFormat.UTM, given))) != LatLng(c.latitude, c.longitude)
  {
    FormatUtmParses(k, c.latitude, c.longitude, given);
    UtmToLatLng.RoundTripAsWritten(k, c.latitude, c.longitude);
    DtoReaders.LatLngReadsBack(LatLng(c.latitude, c.longitude), -1);
  }

  /**
   * The text `format(UTM)` writes parses back to the grid reference the forward
   * converter computed, when that reference is non-negative and has no more
   * decimals than the precision writes.
   */
  lemma FormatUtmParses(k: Kernels, latitude: real, longitude: real, given: int)
    requires -80.0 <= latitude < 88.0
    requires LatLngToUtm.Forward(k, latitude, longitude).easting >= 0.0
    requires LatLngToUtm.Forward(k, latitude, longitude).northing >= 0.0
    requires IsInteger(LatLngToUtm.Forward(k, latitude, longitude).easting * Scale(LatLngToUtm.UtmPrecision(given)))
    requires IsInteger(LatLngToUtm.Forward(k, latitude, longitude).northing * Scale(LatLngToUtm.UtmPrecision(given)))
    ensures ParseUtm(Format(k, Coordinate(latitude, longitude), CoordinateFormat.UTM, given))
      == LatLngToUtm.Forward(k, latitude, longitude)
  {
    FormatUtmRounded(k, latitude, longitude, given);
    ForwardExact(k, latitude, longitude, given);
  }

  /** The text `format(UTM)` writes parses back to the rounded grid reference, when that is non-negative. */
  lemma FormatUtmRounded(k: Kernels, latitude: real, longitude: real, given: int)
    requires -80.0 <= latitude < 88.0
    requires LatLngToUtm.Forward(k, latitude, longitude).easting >= 0.0
    requires LatLngToUtm.Forward(k, latitude, longitude).northing >= 0.0
    ensures ParseUtm(Format(k, Coordinate(latitude, longitude), CoordinateFormat.UTM, given))
      == LatLngToUtm.RoundGrid(LatLngToUtm.Forward(k, latitude, longitude), LatLngToUtm.UtmPrecision(given))
  {
    ParseUtmOfConverter(k, latitude, longitude, given);
  }

  /** A forward grid reference with no more decimals than the precision is not changed by the rounding. */
  lemma ForwardExact(k: Kernels, latitude: real, longitude: real, given: int)
    requires IsInteger(LatLngToUtm.Forward(k, latitude, longitude).easting * Scale(LatLngToUtm.UtmPrecision(given)))
    requires IsInteger(LatLngToUtm.Forward(k, latitude, longitude).northing * Scale(LatLngToUtm.UtmPrecision(given)))
    ensures LatLngToUtm.RoundGrid(LatLngToUtm.Forward(k, latitude, longitude), LatLngToUtm.UtmPrecision(given))
      == LatLngToUtm.Forward(k, latitude, longitude)
  {
    RoundGridExact(LatLngToUtm.Forward(k, latitude, longitude), LatLngToUtm.UtmPrecision(given));
  }

  /** Rounding a grid reference that has no more decimals than p leaves it as it is. */
  lemma RoundGridExact(u: Utm, p: nat)
    requires IsInteger(u.easting * Scale(p))
    requires IsInteger(u.northing * Scale(p))
    ensures LatLngToUtm.RoundGrid(u, p) == u
  {
    BothExact(u.easting, u.northing, p);
  }

  /** Two values with at most p decimals are both left unchanged by rounding. */
  lemma BothExact(x: real, y: real, p: nat)
    requires IsInteger(x * Scale(p))
    requires IsInteger(y * Scale(p))
    ensures RoundHalfDown(x, p) == x && RoundHalfDown(y, p) == y
  {
    RoundHalfDownExact(x, p);
    RoundHalfDownExact(y, p);
  }

  /**
   * `format(DMS)` and `format(DDM)` read back as the latitude: to within the
   * rounding of the seconds (over 3600) or of the minutes (over 60).
   */
  lemma FormatReadsLatitude(k: Kernels, c: Coordinate, given: int)
    ensures LatLngToDms.SecondsAt(LatLngToDms.Convert(c.latitude)) <= |Format(k, c, CoordinateFormat.DMS, given)|
    ensures Abs(LatLngToDms.ReadBack(Format(k, c, CoordinateFormat.DMS, given), LatLngToDms.Convert(c.latitude)) - c.latitude)
      <= HalfLastDecimal(given) / 3600.0
    ensures LatLngToDdm.MinutesAt(LatLngToDdm.Convert(c.latitude)) <= |Format(k, c, CoordinateFormat.DDM, given)|
    ensures Abs(LatLngToDdm.ReadBack(Format(k, c, CoordinateFormat.DDM, given), LatLngToDdm.Convert(c.latitude)) - c.latitude)
      <= HalfLastDecimal(given) / 60.0
  {
    LatLngToDms.LatitudeReadsBack(c.latitude, c.longitude, given);
    LatLngToDdm.LatitudeReadsBack(c.latitude, c.longitude, given);
  }

  /**
   * After the latitude's half and the comma, `format(DMS)` and `format(DDM)` read
   * back as the longitude: to within the rounding of the seconds (over 3600) or
   * of the minutes (over 60).
   */
  lemma FormatReadsLongitude(k: Kernels, c: Coordinate, given: int)
    ensures var text := Format(k, c, CoordinateFormat.DMS, given);
      var at := |LatLngToDms.LatitudeText(c.latitude, given)| + 2;
      && at <= |text|
      && LatLngToDms.SecondsAt(LatLngToDms.Convert(c.longitude)) <= |text[at..]|
      && Abs(LatLngToDms.ReadBack(text[at..], LatLngToDms.Convert(c.longitude)) - c.longitude)
        <= HalfLastDecimal(given) / 3600.0
    ensures var text := Format(k, c, CoordinateFormat.DDM, given);
      var at := |LatLngToDdm.LatitudeText(c.latitude, given)| + 2;
      && at <= |text|
      && LatLngToDdm.MinutesAt(LatLngToDdm.Convert(c.longitude)) <= |text[at..]|
      && Abs(LatLngToDdm.ReadBack(text[at..], LatLngToDdm.Convert(c.longitude)) - c.longitude)
        <= HalfLastDecimal(given) / 60.0
  {
    LatLngToDms.AfterComma(c.latitude, c.longitude, given);
    LatLngToDms.LongitudeReadsBack(c.longitude, given);
    LatLngToDdm.AfterComma(c.latitude, c.longitude, given);
    LatLngToDdm.LongitudeReadsBack(c.longitude, given);
  }
}
