/**
 * The coordinate value objects: decimal degrees (LatLng), a geohash, a UTM grid
 * reference, degrees-minutes-seconds (Dms) and degrees-decimal-minutes (Ddm).
 * Each is immutable once built; a datatype's destructors are its getters and
 * the constructor defaults are those of the value objects. This module holds
 * their rendering (`toString`) and the precision sentinel they share; conversion
 * between them is in BaseCoordinate.
 *
 * Strings are sequences of characters, so the degree sign is one character here
 * where PHP's UTF-8 string holds two bytes.
 */
module Dtos {
  import opened Numbers
  import opened Strings

  datatype LatLng = LatLng(latitude: real := 0.0, longitude: real := 0.0)

  datatype GeoHash = GeoHash(hash: string := "")

  datatype Utm = Utm(zone: int := 0, latitudeBand: string := "", easting: real := 0.0, northing: real := 0.0)

  datatype Dms = Dms(
    degreesLatitude: int := 0,
    minutesLatitude: int := 0,
    secondsLatitude: real := 0.0,
    hemisphereLatitude: string := "N",
    degreesLongitude: int := 0,
    minutesLongitude: int := 0,
    secondsLongitude: real := 0.0,
    hemisphereLongitude: string := "E")

  datatype Ddm = Ddm(
    degreesLatitude: int := 0,
    minutesLatitude: real := 0.0,
    hemisphereLatitude: string := "N",
    degreesLongitude: int := 0,
    minutesLongitude: real := 0.0,
    hemisphereLongitude: string := "E")

  /** A value object built without arguments holds the constructors' defaults. */
  lemma Defaults()
    ensures LatLng() == LatLng(0.0, 0.0)
    ensures GeoHash().hash == ""
    ensures Utm() == Utm(0, "", 0.0, 0.0)
    ensures Dms() == Dms(0, 0, 0.0, "N", 0, 0, 0.0, "E")
    ensures Ddm() == Ddm(0, 0.0, "N", 0, 0.0, "E")
  {
  }

  /** `getPrecision`: a given precision of -1 or below means the default of 6 decimals. */
  function GetPrecision(given: int): nat
  {
    if given > -1 then given else 6
  }

  /** The shared precision is never negative, keeps any p >= 0, and is a fixed point of itself. */
  lemma GetPrecisionFacts(given: int)
    ensures GetPrecision(given) >= 0
    ensures given >= 0 ==> GetPrecision(given) == given
    ensures given < 0 ==> GetPrecision(given) == 6
    ensures GetPrecision(GetPrecision(given)) == GetPrecision(given)
  {
  }

  /**
   * How far a number read back from a text with this precision may be from the
   * number written: half a unit of the last decimal, the default's sixth for the
   * sentinel.
   */
  function HalfLastDecimal(given: int): (e: real)
    ensures e > 0.0
  {
    if given >= 0 then HalfUnit(given) else Tenths(0.5, 6)
  }

  /** The hemisphere letter of a coordinate: one letter for 0 and above, the other below. */
  function Hemisphere(x: real, nonNegative: string, negative: string): string
  {
    if x >= 0.0 then nonNegative else negative
  }

  /** The hemisphere letter of a latitude: "N" for 0 and above, "S" below. */
  function NorthSouth(latitude: real): (h: string)
    ensures h == "N" || h == "S"
    ensures h == "N" <==> latitude >= 0.0
  {
    Hemisphere(latitude, "N", "S")
  }

  /** The hemisphere letter of a longitude: "E" for 0 and above, "W" below. */
  function EastWest(longitude: real): (h: string)
    ensures h == "E" || h == "W"
    ensures h == "E" <==> longitude >= 0.0
  {
    Hemisphere(longitude, "E", "W")
  }

  // ---------------------------------------------------------------------------
  // LatLng
  // ---------------------------------------------------------------------------

  /** One axis of `LatLng::toString`: the magnitude rounded half-down, written with p decimals, and a degree sign. */
  function Magnitude(x: real, p: nat): string
  {
    FixedToString(RoundHalfDown(Abs(x), p), p) + "°"
  }

  /**
   * `LatLng::toString`: both magnitudes rounded half-down to the precision and
   * written with that many decimals, each followed by a degree sign, a space and
   * its hemisphere letter.
   */
  function LatLngToString(ll: LatLng, given: int): string
  {
    var p := GetPrecision(given);
    Magnitude(ll.latitude, p) + " " + NorthSouth(ll.latitude) + " " + Magnitude(ll.longitude, p) + " " + EastWest(ll.longitude)
  }

  /** Mirroring a point across the equator changes only the latitude's hemisphere letter. */
  lemma LatLngToStringMirror(lat: real, lng: real, given: int)
    requires lat > 0.0
    ensures var p := GetPrecision(given);
      var m := Magnitude(lat, p);
      var tail := Magnitude(lng, p) + " " + EastWest(lng);
      && LatLngToString(LatLng(lat, lng), given) == m + " " + "N" + " " + tail
      && LatLngToString(LatLng(-lat, lng), given) == m + " " + "S" + " " + tail
  {
    assert Abs(-lat) == lat;
    var p := GetPrecision(given);
    Regroup(Magnitude(lat, p) + " " + "N" + " ", Magnitude(lng, p), EastWest(lng));
    Regroup(Magnitude(lat, p) + " " + "S" + " ", Magnitude(lng, p), EastWest(lng));
  }

  /** The text of a LatLng with the longitude's half taken as one piece. */
  lemma Regroup(head: string, b: string, e: string)
    ensures head + b + " " + e == head + (b + " " + e)
  {
  }

  // ---------------------------------------------------------------------------
  // GeoHash
  // ---------------------------------------------------------------------------

  function Min(a: int, b: int): int
  {
    if a < b then a else b
  }

  /** `GeoHash::toString`: `substr(hash, 0, precision)`, the hash cut to the precision. */
  function GeoHashToString(g: GeoHash, given: int): (s: string)
    ensures s <= g.hash
    ensures |s| == Min(GetPrecision(given), |g.hash|)
  {
    g.hash[..Min(GetPrecision(given), |g.hash|)]
  }

  /**
   * `GeoHash::toString` defaults to 12 characters, but an explicit -1 goes
   * through the shared sentinel and gives at most 6.
   */
  lemma GeoHashToStringDefaults(g: GeoHash)
    ensures |g.hash| <= 12 ==> GeoHashToString(g, 12) == g.hash
    ensures |GeoHashToString(g, -1)| <= 6
    ensures |g.hash| >= 6 ==> GeoHashToString(g, -1) == g.hash[..6]
  {
  }

  // ---------------------------------------------------------------------------
  // UTM
  // ---------------------------------------------------------------------------

  /** `UTM::toString`: zone and band, then easting and northing with the precision's decimals. */
  function UtmToString(u: Utm, given: int): string
  {
    var p := GetPrecision(given);
    IntToString(u.zone) + u.latitudeBand + " " + FixedToString(u.easting, p) + " " + FixedToString(u.northing, p)
  }

  // ---------------------------------------------------------------------------
  // DMS and DDM
  // ---------------------------------------------------------------------------

  /**
   * Longitude degrees as the value objects write them: `str_pad((string) d, 3, '0',
   * STR_PAD_LEFT)`. The padding goes in front of the sign, so -5 becomes "0-5".
   */
  function PadDegreesAsWritten(degrees: int): (s: string)
    ensures |s| >= 3 && NumberText(s)
  {
    IntToStringIsNumber(degrees);
    PaddedIsNumber(IntToString(degrees), 3);
    PadLeft(IntToString(degrees), 3, '0')
  }

  /** A magnitude zero-padded to at least `width` digits: 5 is "005" at width 3. */
  function ZeroPad(n: nat, width: int): (s: string)
    ensures |s| >= 1 && |s| >= width && AllDigits(s)
    ensures DigitsValue(s) == n
  {
    var s := PadLeft(NatToString(n), width, '0');
    PaddedValue(n, width, s);
    s
  }

  /** Zero-padding a magnitude keeps its value. */
  lemma PaddedValue(n: nat, width: int, digits: string)
    requires digits == PadLeft(NatToString(n), width, '0')
    ensures AllDigits(digits) && DigitsValue(digits) == n
  {
    var s := NatToString(n);
    if width <= |s| {
      assert digits == s;
    } else {
      var z := seq(width - |s|, _ => '0');
      assert digits == z + s;
      assert AllZeros(z);
      LeadingZerosValue(z, s);
    }
  }

  /**
   * Longitude degrees in a field three characters wide with the zeros after the
   * sign, as `sprintf('%03d', d)` writes them: 5 is "005", -5 is "-05", -10 is "-10".
   */
  function PadDegrees(degrees: int): (s: string)
    ensures |s| >= 3 && NumberText(s)
  {
    if degrees < 0 then
      DigitsAreNumber(ZeroPad(-degrees, 2));
      "-" + ZeroPad(-degrees, 2)
    else
      DigitsAreNumber(ZeroPad(degrees, 3));
      ZeroPad(degrees, 3)
  }

  /** A number of ten or more is written with at least two digits. */
  lemma TwoDigits(n: nat)
    requires n >= 10
    ensures |NatToString(n)| >= 2
  {
    assert NatToString(n) == NatToString(n / 10) + [DigitChar(n % 10)];
  }

  /**
   * The source's padding and the three-wide field write the same text for every
   * longitude except -9 to -1, where the source puts the zero before the sign.
   */
  lemma PadDegreesAgree(degrees: int)
    ensures PadDegreesAsWritten(degrees) == PadDegrees(degrees) <==> !(-9 <= degrees <= -1)
  {
    if degrees <= -10 {
      TwoDigits(-degrees);
      assert IntToString(degrees) == "-" + NatToString(-degrees);
    } else if degrees < 0 {
      assert PadDegreesAsWritten(degrees)[0] == '0';
      assert PadDegrees(degrees)[0] == '-';
    }
  }

  /** A negative one-digit longitude is written "0-d", which `(int)` reads as 0. */
  lemma PadDegreesAsWrittenLosesSign(t: string)
    requires t == [] || !IsDigit(t[0])
    ensures PadDegreesAsWritten(-5) == "0-5"
    ensures ParseInt(PadDegreesAsWritten(-5) + t) == 0
  {
    assert IntToString(-5) == "-" + NatToString(5);
    assert PadDegreesAsWritten(-5) == "0-5";
    assert ("0-5" + t)[1] == '-';
    LeadingDigitsOfDigits("0", "-5" + t);
    assert "0-5" + t == "0" + ("-5" + t);
  }

  /** `(int)` reads the source's padded degrees back, except -9 to -1, which come back as 0. */
  lemma PadDegreesAsWrittenReadsBack(degrees: int, t: string)
    requires t == [] || !IsDigit(t[0])
    ensures ParseInt(PadDegreesAsWritten(degrees) + t) == if -9 <= degrees <= -1 then 0 else degrees
  {
    if -9 <= degrees <= -1 {
      var i := IntToString(degrees);
      assert i == "-" + NatToString(-degrees);
      assert PadDegreesAsWritten(degrees) == "0" + i;
      assert PadDegreesAsWritten(degrees) + t == "0" + (i + t);
      LeadingDigitsOfDigits("0", i + t);
    } else {
      PadDegreesAgree(degrees);
      PadDegreesReadsBack(degrees, t);
    }
  }

  /** The three-wide degrees read back as the degrees, sign included. */
  lemma PadDegreesReadsBack(degrees: int, t: string)
    requires t == [] || !IsDigit(t[0])
    ensures ParseInt(PadDegrees(degrees) + t) == degrees
  {
    if degrees < 0 {
      NegativeDigitsRead(ZeroPad(-degrees, 2), t);
    } else {
      DigitsRead(ZeroPad(degrees, 3), t);
    }
  }

  /** One axis of the DMS text: the degrees as given, a degree sign, minutes, a quote, seconds with p decimals, a double quote. */
  function DmsAxis(degrees: string, minutes: int, seconds: real, p: nat): string
  {
    degrees + "°" + IntToString(minutes) + "'" + FixedToString(seconds, p) + "\""
  }

  /** The DMS layout, `%d°%d'%.{p}f" %s %s°%d'%.{p}f" %s`, around longitude degrees already written. */
  function DmsText(d: Dms, p: nat, longitudeDegrees: string): string
  {
    DmsAxis(IntToString(d.degreesLatitude), d.minutesLatitude, d.secondsLatitude, p) + " " + d.hemisphereLatitude + " "
      + DmsAxis(longitudeDegrees, d.minutesLongitude, d.secondsLongitude, p) + " " + d.hemisphereLongitude
  }

  /**
   * `DMS::toString`: latitude degrees as they are, longitude degrees through
   * `str_pad`, seconds with the precision's decimals (6 by default).
   */
  function DmsToString(d: Dms, given: int): string
  {
    DmsText(d, GetPrecision(given), PadDegreesAsWritten(d.degreesLongitude))
  }

  /** `DMS::toString` with the longitude degrees in the three-wide `%03d` field. */
  function DmsToStringCorrected(d: Dms, given: int): string
  {
    DmsText(d, GetPrecision(given), PadDegrees(d.degreesLongitude))
  }

  /** The two DMS renderings agree unless the longitude degrees are -9 to -1. */
  lemma DmsToStringAgrees(d: Dms, given: int)
    requires !(-9 <= d.degreesLongitude <= -1)
    ensures DmsToString(d, given) == DmsToStringCorrected(d, given)
  {
    PadDegreesAgree(d.degreesLongitude);
  }

  /** One axis of the DDM text: the degrees as given, a degree sign, minutes with p decimals, a quote. */
  function DdmAxis(degrees: string, minutes: real, p: nat): string
  {
    degrees + "°" + FixedToString(minutes, p) + "'"
  }

  /** The DDM layout, `%d°%.{p}f' %s %s°%.{p}f' %s`, around longitude degrees already written. */
  function DdmText(d: Ddm, p: nat, longitudeDegrees: string): string
  {
    DdmAxis(IntToString(d.degreesLatitude), d.minutesLatitude, p) + " " + d.hemisphereLatitude + " "
      + DdmAxis(longitudeDegrees, d.minutesLongitude, p) + " " + d.hemisphereLongitude
  }

  /**
   * `DDM::toString`: latitude degrees as they are, longitude degrees through
   * `str_pad`, minutes with the precision's decimals (6 by default).
   */
  function DdmToString(d: Ddm, given: int): string
  {
    DdmText(d, GetPrecision(given), PadDegreesAsWritten(d.degreesLongitude))
  }

  /** `DDM::toString` with the longitude degrees in the three-wide `%03d` field. */
  function DdmToStringCorrected(d: Ddm, given: int): string
  {
    DdmText(d, GetPrecision(given), PadDegrees(d.degreesLongitude))
  }

  /** The two DDM renderings agree unless the longitude degrees are -9 to -1. */
  lemma DdmToStringAgrees(d: Ddm, given: int)
    requires !(-9 <= d.degreesLongitude <= -1)
    ensures DdmToString(d, given) == DdmToStringCorrected(d, given)
  {
    PadDegreesAgree(d.degreesLongitude);
  }
}
