/**
 * The UTM converter's discrete part: a latitude and a longitude in decimal
 * degrees to a grid reference such as `33U 389912.653201401 5819696.850323285`.
 *
 * The zone comes from the longitude in 6° strips, the latitude band letter from
 * the latitude in 8° rows looked up in `CDEFGHJKLMNPQRSTUVWXX` (X repeated, as it
 * covers 72°N to 84°N). The Norway and Svalbard exceptions move the zone and its
 * central meridian by one strip. The transverse Mercator projection itself is
 * the `project` kernel; its result is scaled by 0.9996, the easting is offset by
 * 500 000 m, and the northing by 10 000 000 m when it is negative. Both are
 * rounded half-down to the precision, 9 decimals by default.
 *
 * Angles stay in degrees throughout; the source's conversions to radians and
 * back are linear and cancel.
 */
module LatLngToUtm {
  import opened Numbers
  import opened Strings
  import opened Numerics
  import opened Dtos

  /** The scale on the central meridian, k0. */
  const ScaleFactor: real := 0.9996

  /** Added to every easting so that eastings in a zone are positive. */
  const FalseEasting: real := 500000.0

  /** Added to a negative northing, so that southern northings are positive. */
  const FalseNorthing: real := 10000000.0

  /** The band letters from 80°S northwards, X twice as it spans 12°. */
  const Bands: string := "CDEFGHJKLMNPQRSTUVWXX"

  /** `floor((lng + 180) / 6) + 1`: the 6° strip the longitude falls in, counted from 180°W. */
  function InitialZone(longitude: real): int
  {
    ((longitude + 180.0) / 6.0).Floor + 1
  }

  /** The central meridian of a zone in degrees: `(zone - 1) * 6 - 180 + 3`. */
  function CentralMeridian(zone: int): int
  {
    (zone - 1) * 6 - 180 + 3
  }

  /** A longitude of [-180, 180) lies in a zone 1..60, within 3° of that zone's central meridian. */
  lemma InitialZoneRange(longitude: real)
    requires -180.0 <= longitude < 180.0
    ensures 1 <= InitialZone(longitude) <= 60
    ensures -3.0 <= longitude - CentralMeridian(InitialZone(longitude)) as real < 3.0
  {
    var z := ((longitude + 180.0) / 6.0).Floor;
    assert z as real <= (longitude + 180.0) / 6.0 < z as real + 1.0;
  }

  /** `floor(lat / 8 + 10)`: the 8° row the latitude falls in, counted from 80°S. */
  function BandIndex(latitude: real): int
  {
    (latitude / 8.0 + 10.0).Floor
  }

  /**
   * PHP's read of a one-character string offset: from the start for an index
   * of 0 or more, from the end for a negative one, and "" (with a warning)
   * outside the string.
   */
  function StringOffset(s: string, i: int): string
  {
    if 0 <= i < |s| then [s[i]]
    else if -|s| <= i < 0 then [s[|s| + i]]
    else ""
  }

  /** The band letter of a latitude, as `LATITUDE_BANDS[index]` reads it. */
  function Band(latitude: real): string
  {
    StringOffset(Bands, BandIndex(latitude))
  }

  /** The band index is a position of the band letters exactly for latitudes of [-80, 88). */
  lemma BandIndexRange(latitude: real)
    ensures 0 <= BandIndex(latitude) < |Bands| <==> -80.0 <= latitude < 88.0
  {
    var i := BandIndex(latitude);
    assert i as real <= latitude / 8.0 + 10.0 < i as real + 1.0;
  }

  /** Inside [-80, 88) the band is the letter at the band index; its index is 9 or less exactly south of the equator. */
  lemma BandInRange(latitude: real)
    requires -80.0 <= latitude < 88.0
    ensures 0 <= BandIndex(latitude) < |Bands|
    ensures Band(latitude) == [Bands[BandIndex(latitude)]]
    ensures BandIndex(latitude) <= 9 <==> latitude < 0.0
  {
    BandIndexRange(latitude);
    var i := BandIndex(latitude);
    assert i as real <= latitude / 8.0 + 10.0 < i as real + 1.0;
  }

  /**
   * The lookup is unguarded outside [-80, 88): from 96°S to 80°S the negative
   * index reads X from the end of the letters, and from 88°N on there is no
   * letter at all.
   */
  lemma BandOutOfRange(latitude: real)
    ensures -96.0 <= latitude < -80.0 ==> Band(latitude) == "X"
    ensures latitude >= 88.0 ==> Band(latitude) == ""
  {
    var i := BandIndex(latitude);
    assert i as real <= latitude / 8.0 + 10.0 < i as real + 1.0;
  }

  /** Inside [-80, 88) the band is X exactly from 72°N, and V exactly from 56°N to 64°N. */
  lemma BandLetters(latitude: real)
    requires -80.0 <= latitude < 88.0
    ensures Band(latitude) == "X" <==> latitude >= 72.0
    ensures Band(latitude) == "V" <==> 56.0 <= latitude < 64.0
  {
    BandInRange(latitude);
    var i := BandIndex(latitude);
    assert i as real <= latitude / 8.0 + 10.0 < i as real + 1.0;
    assert Bands[17] == 'V' && Bands[19] == 'X' && Bands[20] == 'X';
    assert forall j :: 0 <= j < 19 && j != 17 ==> Bands[j] != 'X' && Bands[j] != 'V';
  }

  /**
   * The zone after the exceptions: in band V, zone 31 east of 3°E becomes
   * zone 32 (Norway); in band X, zones 32, 34 and 36 are split at their central
   * meridian and each half joins the neighbouring zone (Svalbard).
   */
  function ExceptionZone(zone: int, letter: string, longitude: real): int
  {
    if zone == 31 && letter == "V" && longitude >= 3.0 then 32
    else if letter == "X" && (zone == 32 || zone == 34 || zone == 36) then
      if longitude < CentralMeridian(zone) as real then zone - 1 else zone + 1
    else zone
  }

  /**
   * The chain of exception tests of `run`, each moving the zone and its central
   * meridian together; the meridian is that of the resulting zone.
   */
  method AdjustZone(zone0: int, letter: string, longitude: real) returns (zone: int, zoneCentralMeridian: real)
    ensures zone == ExceptionZone(zone0, letter, longitude)
    ensures zoneCentralMeridian == CentralMeridian(zone) as real
  {
    zone := zone0;
    zoneCentralMeridian := ((zone - 1) * 6 - 180 + 3) as real;
    if zone == 31 && letter == "V" && longitude >= 3.0 {
      zone := zone + 1;
      zoneCentralMeridian := zoneCentralMeridian + 6.0;
    }
    if zone == 32 && letter == "X" && longitude < 9.0 {
      zone := zone - 1;
      zoneCentralMeridian := zoneCentralMeridian - 6.0;
    }
    if zone == 32 && letter == "X" && longitude >= 9.0 {
      zone := zone + 1;
      zoneCentralMeridian := zoneCentralMeridian + 6.0;
    }
    if zone == 34 && letter == "X" && longitude < 21.0 {
      zone := zone - 1;
      zoneCentralMeridian := zoneCentralMeridian - 6.0;
    }
    if zone == 34 && letter == "X" && longitude >= 21.0 {
      zone := zone + 1;
      zoneCentralMeridian := zoneCentralMeridian + 6.0;
    }
    if zone == 36 && letter == "X" && longitude < 33.0 {
      zone := zone - 1;
      zoneCentralMeridian := zoneCentralMeridian - 6.0;
    }
    if zone == 36 && letter == "X" && longitude >= 33.0 {
      zone := zone + 1;
      zoneCentralMeridian := zoneCentralMeridian + 6.0;
    }
  }

  /** The exceptions move a zone by at most one, and only zone 31 in band V or zones 32, 34, 36 in band X. */
  lemma ExceptionZoneStep(zone: int, letter: string, longitude: real)
    ensures -1 <= ExceptionZone(zone, letter, longitude) - zone <= 1
    ensures ExceptionZone(zone, letter, longitude) != zone ==>
      (zone == 31 && letter == "V") || (letter == "X" && (zone == 32 || zone == 34 || zone == 36))
  {
  }

  /** In band X no point is left in zone 32, 34 or 36. */
  lemma SvalbardSkipsEvenZones(zone: int, longitude: real)
    ensures var z := ExceptionZone(zone, "X", longitude);
      z != 32 && z != 34 && z != 36
  {
  }

  /** Band X from 0°E to 42°E: zone 31 up to 9°E, 33 up to 21°E, 35 up to 33°E, 37 beyond. */
  lemma SvalbardZones(longitude: real)
    requires 0.0 <= longitude < 42.0
    ensures ExceptionZone(InitialZone(longitude), "X", longitude)
      == if longitude < 9.0 then 31 else if longitude < 21.0 then 33 else if longitude < 33.0 then 35 else 37
  {
    var z := ((longitude + 180.0) / 6.0).Floor;
    assert z as real <= (longitude + 180.0) / 6.0 < z as real + 1.0;
  }

  /** Band V from 0°E to 12°E: zone 31 up to 3°E, zone 32 beyond. */
  lemma NorwayZones(longitude: real)
    requires 0.0 <= longitude < 12.0
    ensures ExceptionZone(InitialZone(longitude), "V", longitude) == if longitude < 3.0 then 31 else 32
  {
    var z := ((longitude + 180.0) / 6.0).Floor;
    assert z as real <= (longitude + 180.0) / 6.0 < z as real + 1.0;
  }

  /** After the exceptions the zone is still one of 1..60 and its central meridian is less than 6° away. */
  lemma ZoneCoversLongitude(longitude: real, letter: string)
    requires -180.0 <= longitude < 180.0
    ensures var z := ExceptionZone(InitialZone(longitude), letter, longitude);
      && 1 <= z <= 60
      && -6.0 <= longitude - CentralMeridian(z) as real < 6.0
  {
    InitialZoneRange(longitude);
  }

  /** The zone and band `run` settles on. */
  function Zone(latitude: real, longitude: real): int
  {
    ExceptionZone(InitialZone(longitude), Band(latitude), longitude)
  }

  /**
   * The grid reference before rounding: the projection of the latitude and the
   * longitude's offset from the zone's central meridian, scaled by k0, with the
   * false easting always and the false northing when the northing is negative.
   */
  function Forward(k: Kernels, latitude: real, longitude: real): Utm
  {
    var zone := Zone(latitude, longitude);
    var q := k.project(Angles(latitude, longitude - CentralMeridian(zone) as real));
    var y := ScaleFactor * q.north;
    Utm(zone, Band(latitude), ScaleFactor * q.east + FalseEasting, if y < 0.0 then y + FalseNorthing else y)
  }

  /** The converter's precision: the given one when it is 0 or more, 9 otherwise. */
  function UtmPrecision(given: int): (p: nat)
    ensures given >= 0 ==> p == given
  {
    if given > -1 then given else 9
  }

  /** Both coordinates of a grid reference rounded half-down to p decimals. */
  function RoundGrid(u: Utm, p: nat): Utm
  {
    Utm(u.zone, u.latitudeBand, RoundHalfDown(u.easting, p), RoundHalfDown(u.northing, p))
  }

  /** Rounding keeps zone and band and moves easting and northing by at most half a unit of the p-th decimal. */
  lemma RoundGridClose(u: Utm, p: nat)
    ensures RoundGrid(u, p).zone == u.zone && RoundGrid(u, p).latitudeBand == u.latitudeBand
    ensures Abs(RoundGrid(u, p).easting - u.easting) <= HalfUnit(p)
    ensures Abs(RoundGrid(u, p).northing - u.northing) <= HalfUnit(p)
  {
    RoundHalfDownClose(u.easting, p);
    RoundHalfDownClose(u.northing, p);
  }

  /** The converter's text: the value object's layout at the converter's precision, of the rounded grid reference. */
  function Text(k: Kernels, latitude: real, longitude: real, precision: int): string
  {
    UtmToString(RoundGrid(Forward(k, latitude, longitude), UtmPrecision(precision)), UtmPrecision(precision))
  }

  /**
   * `run`: zone, band and exceptions, the projection, the false offsets applied
   * in place, the rounding, and the text `{zone}{band} {easting} {northing}`,
   * which is the UTM value object's text at the converter's precision.
   */
  method Run(k: Kernels, latitude: real, longitude: real, precision: int) returns (s: string)
    ensures s == Text(k, latitude, longitude, precision)
  {
    var indexLatitudeBand := (latitude / 8.0 + 10.0).Floor;
    var letter := StringOffset(Bands, indexLatitudeBand);
    var zone, zoneCentralMeridian := AdjustZone(InitialZone(longitude), letter, longitude);
    var q := k.project(Angles(latitude, longitude - zoneCentralMeridian));
    var x := ScaleFactor * q.east;
    var y := ScaleFactor * q.north;
    x := x + FalseEasting;
    if y < 0.0 {
      y := y + FalseNorthing;
    }
    assert letter == Band(latitude) && zone == Zone(latitude, longitude);
    assert Forward(k, latitude, longitude) == Utm(zone, letter, x, y);
    var p := if precision > -1 then precision else 9;
    x := RoundHalfDown(x, p);
    y := RoundHalfDown(y, p);
    assert RoundGrid(Forward(k, latitude, longitude), p) == Utm(zone, letter, x, y);
    assert GetPrecision(p) == p == UtmPrecision(precision);
    s := IntToString(zone) + letter + " " + FixedToString(x, p) + " " + FixedToString(y, p);
  }

  /**
   * The false northing is added exactly south of the equator when the projection
   * keeps the hemisphere: the northing is k0 times the projected one, plus
   * 10 000 000 m for a negative latitude.
   */
  lemma FalseNorthingBySign(k: Kernels, latitude: real, longitude: real)
    requires PreservesHemisphere(k)
    ensures var q := k.project(Angles(latitude, longitude - CentralMeridian(Zone(latitude, longitude)) as real));
      Forward(k, latitude, longitude).northing == ScaleFactor * q.north + (if latitude < 0.0 then FalseNorthing else 0.0)
  {
    var q := k.project(Angles(latitude, longitude - CentralMeridian(Zone(latitude, longitude)) as real));
    assert q.north < 0.0 <==> latitude < 0.0;
  }

  /** The easting is the false easting plus k0 times the projected easting, whatever the point. */
  lemma FalseEastingAlways(k: Kernels, latitude: real, longitude: real)
    ensures var q := k.project(Angles(latitude, longitude - CentralMeridian(Zone(latitude, longitude)) as real));
      Forward(k, latitude, longitude).easting - FalseEasting == ScaleFactor * q.east
  {
  }

  /** The converter's default is 9 decimals where the value objects' default is 6. */
  lemma DefaultPrecisions()
    ensures UtmPrecision(-1) == 9 && GetPrecision(-1) == 6
    ensures forall given :: given >= 0 ==> UtmPrecision(given) == GetPrecision(given)
  {
  }
}
