/**
 * Readers for the texts the value objects write. Each splits a `toString` text at
 * its spaces, degree signs and quotes, and reads every field back with PHP's
 * `(int)` and `(float)`; they are the inverses the renderings are proved against.
 */
module DtoReaders {
  import opened Numbers
  import opened Strings
  import opened Dtos

  // ---------------------------------------------------------------------------
  // LatLng: `{|lat|}° {N|S} {|lng|}° {E|W}`
  // ---------------------------------------------------------------------------

  /** A LatLng text read back: each magnitude, negated when its letter is "S" or "W". */
  function ReadLatLng(text: string): LatLng
  {
    var tokens := Explode(text, ' ');
    var lat := ParseFloat(Token(tokens, 0));
    var lng := ParseFloat(Token(tokens, 2));
    LatLng(if Token(tokens, 1) == "S" then -lat else lat, if Token(tokens, 3) == "W" then -lng else lng)
  }

  /** The signed value a LatLng text holds for x: its rounded magnitude, with x's sign. */
  function Shown(x: real, p: nat): real
  {
    if x < 0.0 then -RoundHalfDown(Abs(x), p) else RoundHalfDown(Abs(x), p)
  }

  /** The magnitude written for one axis reads back exactly, and holds no space. */
  lemma MagnitudeReadsBack(x: real, p: nat)
    ensures ParseFloat(Magnitude(x, p)) == RoundHalfDown(Abs(x), p)
    ensures ' ' !in Magnitude(x, p)
  {
    var r := RoundHalfDown(Abs(x), p);
    RoundHalfDownNonNegative(Abs(x), p);
    RoundedIsWhole(Abs(x), p);
    ParseFixedExact(r, p, "°");
    FixedToStringIsNumber(r, p);
    NumberTextLacks(FixedToString(r, p), ' ');
  }

  /** The shown value is within half a unit of the last decimal of x. */
  lemma ShownClose(x: real, p: nat)
    ensures Abs(Shown(x, p) - x) <= HalfUnit(p)
  {
    RoundHalfDownClose(Abs(x), p);
  }

  /** A value with at most p decimals is shown as itself. */
  lemma ShownExact(x: real, p: nat)
    requires IsInteger(x * Scale(p))
    ensures Shown(x, p) == x
  {
    if x < 0.0 {
      var y := -x;
      var n := (x * Scale(p)).Floor;
      assert y * Scale(p) == (-n) as real;
      RoundHalfDownExact(y, p);
    } else {
      RoundHalfDownExact(x, p);
    }
  }

  /**
   * `LatLng::toString` reads back field by field: both coordinates come back as
   * their magnitudes rounded half-down to the precision, with their signs, so
   * each is within half a unit of the last decimal written.
   */
  lemma LatLngReadsBack(ll: LatLng, given: int)
    ensures var p := GetPrecision(given);
      var r := ReadLatLng(LatLngToString(ll, given));
      && r == LatLng(Shown(ll.latitude, p), Shown(ll.longitude, p))
      && Abs(r.latitude - ll.latitude) <= HalfUnit(p)
      && Abs(r.longitude - ll.longitude) <= HalfUnit(p)
  {
    var p := GetPrecision(given);
    MagnitudeReadsBack(ll.latitude, p);
    MagnitudeReadsBack(ll.longitude, p);
    FourTokens(Magnitude(ll.latitude, p), NorthSouth(ll.latitude), Magnitude(ll.longitude, p), EastWest(ll.longitude));
    ShownClose(ll.latitude, p);
    ShownClose(ll.longitude, p);
  }

  // ---------------------------------------------------------------------------
  // DMS: `{d}°{m}'{s}" {h} {d}°{m}'{s}" {h}`
  // ---------------------------------------------------------------------------

  /** One DMS axis read back: `(int)` before the degree sign, `(int)` before the quote, `(float)` after it. */
  function ReadDmsAxis(s: string): (int, int, real)
  {
    var parts := Explode(s, '°');
    var rest := Explode(Token(parts, 1), '\'');
    (ParseInt(Token(parts, 0)), ParseInt(Token(rest, 0)), ParseFloat(Token(rest, 1)))
  }

  /** A DMS text read back into its eight fields; the hemispheres are the second and fourth words. */
  function ReadDms(text: string): Dms
  {
    var tokens := Explode(text, ' ');
    var lat := ReadDmsAxis(Token(tokens, 0));
    var lng := ReadDmsAxis(Token(tokens, 2));
    Dms(lat.0, lat.1, lat.2, Token(tokens, 1), lng.0, lng.1, lng.2, Token(tokens, 3))
  }

  /** One DMS axis holds no space and reads back its degrees, its minutes, and its seconds to the precision. */
  lemma DmsAxisReadsBack(degrees: string, minutes: int, seconds: real, p: nat)
    requires NumberText(degrees)
    ensures ' ' !in DmsAxis(degrees, minutes, seconds, p)
    ensures var r := ReadDmsAxis(DmsAxis(degrees, minutes, seconds, p));
      && r.0 == ParseInt(degrees) && r.1 == minutes
      && Abs(r.2 - seconds) <= Tenths(0.5, p)
  {
    var m := IntToString(minutes);
    var f := FixedToString(seconds, p);
    IntToStringIsNumber(minutes);
    FixedToStringIsNumber(seconds, p);
    NumberTextLacks(degrees, ' ');
    NumberTextLacks(degrees, '°');
    NumberTextLacks(m, ' ');
    NumberTextLacks(m, '°');
    NumberTextLacks(m, '\'');
    NumberTextLacks(f, ' ');
    NumberTextLacks(f, '°');
    NumberTextLacks(f, '\'');
    var rest := f + "\"";
    var tail := m + ['\''] + rest;
    assert DmsAxis(degrees, minutes, seconds, p) == degrees + ['°'] + tail;
    SplitTwo(degrees, tail, '°');
    SplitTwo(m, rest, '\'');
    ParseIntOfIntToString(minutes, "");
    AppendEmpty(m);
    AppendEmpty(degrees);
    ParseFixedClose(seconds, p, "\"");
  }

  /** Any DMS layout reads back field by field, the longitude degrees as `(int)` of their text. */
  lemma DmsTextReadsBack(d: Dms, p: nat, longitudeDegrees: string)
    requires NumberText(longitudeDegrees)
    requires ' ' !in d.hemisphereLatitude && ' ' !in d.hemisphereLongitude
    ensures var r := ReadDms(DmsText(d, p, longitudeDegrees));
      && r.degreesLatitude == d.degreesLatitude
      && r.minutesLatitude == d.minutesLatitude
      && Abs(r.secondsLatitude - d.secondsLatitude) <= Tenths(0.5, p)
      && r.hemisphereLatitude == d.hemisphereLatitude
      && r.degreesLongitude == ParseInt(longitudeDegrees)
      && r.minutesLongitude == d.minutesLongitude
      && Abs(r.secondsLongitude - d.secondsLongitude) <= Tenths(0.5, p)
      && r.hemisphereLongitude == d.hemisphereLongitude
  {
    var lat := IntToString(d.degreesLatitude);
    IntToStringIsNumber(d.degreesLatitude);
    DmsAxisReadsBack(lat, d.minutesLatitude, d.secondsLatitude, p);
    DmsAxisReadsBack(longitudeDegrees, d.minutesLongitude, d.secondsLongitude, p);
    FourTokens(DmsAxis(lat, d.minutesLatitude, d.secondsLatitude, p), d.hemisphereLatitude,
      DmsAxis(longitudeDegrees, d.minutesLongitude, d.secondsLongitude, p), d.hemisphereLongitude);
    ParseIntOfIntToString(d.degreesLatitude, "");
    AppendEmpty(lat);
  }

  /**
   * `DMS::toString` reads back field by field: both degrees, both minutes, both
   * hemispheres exactly and both seconds to the precision, except that longitude
   * degrees -9 to -1 come back as 0 (the zero `str_pad` puts before the sign).
   * A hemisphere with a space in it would split into two words, so none has one.
   */
  lemma DmsReadsBack(d: Dms, given: int)
    requires ' ' !in d.hemisphereLatitude && ' ' !in d.hemisphereLongitude
    ensures var r := ReadDms(DmsToString(d, given));
      && r == d.(secondsLatitude := r.secondsLatitude, secondsLongitude := r.secondsLongitude,
                 degreesLongitude := if -9 <= d.degreesLongitude <= -1 then 0 else d.degreesLongitude)
      && Abs(r.secondsLatitude - d.secondsLatitude) <= Tenths(0.5, GetPrecision(given))
      && Abs(r.secondsLongitude - d.secondsLongitude) <= Tenths(0.5, GetPrecision(given))
  {
    DmsTextReadsBack(d, GetPrecision(given), PadDegreesAsWritten(d.degreesLongitude));
    PadDegreesAsWrittenReadsBack(d.degreesLongitude, "");
    AppendEmpty(PadDegreesAsWritten(d.degreesLongitude));
  }

  /** With the three-wide field, every longitude's degrees read back, sign included. */
  lemma DmsCorrectedReadsBack(d: Dms, given: int)
    requires ' ' !in d.hemisphereLatitude && ' ' !in d.hemisphereLongitude
    ensures var r := ReadDms(DmsToStringCorrected(d, given));
      && r == d.(secondsLatitude := r.secondsLatitude, secondsLongitude := r.secondsLongitude)
      && Abs(r.secondsLatitude - d.secondsLatitude) <= Tenths(0.5, GetPrecision(given))
      && Abs(r.secondsLongitude - d.secondsLongitude) <= Tenths(0.5, GetPrecision(given))
  {
    DmsTextReadsBack(d, GetPrecision(given), PadDegrees(d.degreesLongitude));
    PadDegreesReadsBack(d.degreesLongitude, "");
    AppendEmpty(PadDegrees(d.degreesLongitude));
  }

  // ---------------------------------------------------------------------------
  // DDM: `{d}°{m}' {h} {d}°{m}' {h}`
  // ---------------------------------------------------------------------------

  /** One DDM axis read back: `(int)` before the degree sign, `(float)` after it. */
  function ReadDdmAxis(s: string): (int, real)
  {
    var parts := Explode(s, '°');
    (ParseInt(Token(parts, 0)), ParseFloat(Token(parts, 1)))
  }

  /** A DDM text read back into its six fields; the hemispheres are the second and fourth words. */
  function ReadDdm(text: string): Ddm
  {
    var tokens := Explode(text, ' ');
    var lat := ReadDdmAxis(Token(tokens, 0));
    var lng := ReadDdmAxis(Token(tokens, 2));
    Ddm(lat.0, lat.1, Token(tokens, 1), lng.0, lng.1, Token(tokens, 3))
  }

  /** One DDM axis holds no space and reads back its degrees, and its minutes to the precision. */
  lemma DdmAxisReadsBack(degrees: string, minutes: real, p: nat)
    requires NumberText(degrees)
    ensures ' ' !in DdmAxis(degrees, minutes, p)
    ensures var r := ReadDdmAxis(DdmAxis(degrees, minutes, p));
      r.0 == ParseInt(degrees) && Abs(r.1 - minutes) <= Tenths(0.5, p)
  {
    var f := FixedToString(minutes, p);
    FixedToStringIsNumber(minutes, p);
    NumberTextLacks(degrees, ' ');
    NumberTextLacks(degrees, '°');
    NumberTextLacks(f, ' ');
    NumberTextLacks(f, '°');
    var rest := f + "'";
    assert DdmAxis(degrees, minutes, p) == degrees + ['°'] + rest;
    SplitTwo(degrees, rest, '°');
    AppendEmpty(degrees);
    ParseFixedClose(minutes, p, "'");
  }

  /** Any DDM layout reads back field by field, the longitude degrees as `(int)` of their text. */
  lemma DdmTextReadsBack(d: Ddm, p: nat, longitudeDegrees: string)
    requires NumberText(longitudeDegrees)
    requires ' ' !in d.hemisphereLatitude && ' ' !in d.hemisphereLongitude
    ensures var r := ReadDdm(DdmText(d, p, longitudeDegrees));
      && r.degreesLatitude == d.degreesLatitude
      && Abs(r.minutesLatitude - d.minutesLatitude) <= Tenths(0.5, p)
      && r.hemisphereLatitude == d.hemisphereLatitude
      && r.degreesLongitude == ParseInt(longitudeDegrees)
      && Abs(r.minutesLongitude - d.minutesLongitude) <= Tenths(0.5, p)
      && r.hemisphereLongitude == d.hemisphereLongitude
  {
    var lat := IntToString(d.degreesLatitude);
    IntToStringIsNumber(d.degreesLatitude);
    DdmAxisReadsBack(lat, d.minutesLatitude, p);
    DdmAxisReadsBack(longitudeDegrees, d.minutesLongitude, p);
    FourTokens(DdmAxis(lat, d.minutesLatitude, p), d.hemisphereLatitude,
      DdmAxis(longitudeDegrees, d.minutesLongitude, p), d.hemisphereLongitude);
    ParseIntOfIntToString(d.degreesLatitude, "");
    AppendEmpty(lat);
  }

  /**
   * `DDM::toString` reads back field by field: both degrees and both hemispheres
   * exactly and both minutes to the precision, except that longitude degrees -9
   * to -1 come back as 0. A hemisphere with a space in it would split into two
   * words, so none has one.
   */
  lemma DdmReadsBack(d: Ddm, given: int)
    requires ' ' !in d.hemisphereLatitude && ' ' !in d.hemisphereLongitude
    ensures var r := ReadDdm(DdmToString(d, given));
      && r == d.(minutesLatitude := r.minutesLatitude, minutesLongitude := r.minutesLongitude,
                 degreesLongitude := if -9 <= d.degreesLongitude <= -1 then 0 else d.degreesLongitude)
      && Abs(r.minutesLatitude - d.minutesLatitude) <= Tenths(0.5, GetPrecision(given))
      && Abs(r.minutesLongitude - d.minutesLongitude) <= Tenths(0.5, GetPrecision(given))
  {
    DdmTextReadsBack(d, GetPrecision(given), PadDegreesAsWritten(d.degreesLongitude));
    PadDegreesAsWrittenReadsBack(d.degreesLongitude, "");
    AppendEmpty(PadDegreesAsWritten(d.degreesLongitude));
  }

  /** With the three-wide field, every longitude's degrees read back, sign included. */
  lemma DdmCorrectedReadsBack(d: Ddm, given: int)
    requires ' ' !in d.hemisphereLatitude && ' ' !in d.hemisphereLongitude
    ensures var r := ReadDdm(DdmToStringCorrected(d, given));
      && r == d.(minutesLatitude := r.minutesLatitude, minutesLongitude := r.minutesLongitude)
      && Abs(r.minutesLatitude - d.minutesLatitude) <= Tenths(0.5, GetPrecision(given))
      && Abs(r.minutesLongitude - d.minutesLongitude) <= Tenths(0.5, GetPrecision(given))
  {
    DdmTextReadsBack(d, GetPrecision(given), PadDegrees(d.degreesLongitude));
    PadDegreesReadsBack(d.degreesLongitude, "");
    AppendEmpty(PadDegrees(d.degreesLongitude));
  }
}
