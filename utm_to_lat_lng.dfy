/**
 * The UTM inverse converter's discrete part: a UTM value to a latitude and a
 * longitude in decimal degrees.
 *
 * The band letter's first position in `CDEFGHJKLMNPQRSTUVWXX` decides the
 * hemisphere; the false easting is removed always and the false northing for a
 * southern band, both divided by the scale 0.9996. The `unproject` kernel (the
 * Krüger series and the Newton iteration for the latitude) turns the result into
 * a latitude and a longitude difference, and the zone's central meridian is
 * added back.
 *
 * The source counts positions 0 to 10 as southern, which takes in band N (0°N
 * to 8°N); `RunAsWritten` keeps that test, `Run` counts positions 0 to 9 (C to M).
 */
module UtmToLatLng {
  import opened Wrappers
  import opened Strings
  import opened Numerics
  import opened Dtos
  import opened LatLngToUtm

  /** `strpos(LATITUDE_BANDS, band) <= 10`, with `false` (no such band) comparing as below 10. */
  function IsSouthAsWritten(band: string): bool
  {
    var index := StrPos(Bands, band);
    index.None? || index.value <= 10
  }

  /** A band C to M (positions 0 to 9) is southern; an unknown band still counts as southern. */
  function IsSouth(band: string): bool
  {
    var index := StrPos(Bands, band);
    index.None? || index.value <= 9
  }

  /** The unscaled transverse Mercator point of a grid reference, given the hemisphere test. */
  function GridPlane(u: Utm, south: bool): Plane
  {
    Plane((u.easting - FalseEasting) / ScaleFactor,
      (u.northing - (if south then FalseNorthing else 0.0)) / ScaleFactor)
  }

  /** The unprojected point shifted onto the zone's central meridian. */
  function OnMeridian(a: Angles, zone: int): LatLng
  {
    LatLng(a.lat, a.dlng + CentralMeridian(zone) as real)
  }

  /** `run` as the source writes it, band N counted as southern. */
  function RunAsWritten(k: Kernels, u: Utm): LatLng
  {
    OnMeridian(k.unproject(GridPlane(u, IsSouthAsWritten(u.latitudeBand))), u.zone)
  }

  /** `run` with the hemisphere test the band letters call for. */
  function Run(k: Kernels, u: Utm): LatLng
  {
    OnMeridian(k.unproject(GridPlane(u, IsSouth(u.latitudeBand))), u.zone)
  }

  /** The row of each band letter, counted from C; -1 for anything else. */
  function BandNumber(c: char): int
  {
    match c
    case 'C' => 0 case 'D' => 1 case 'E' => 2 case 'F' => 3 case 'G' => 4
    case 'H' => 5 case 'J' => 6 case 'K' => 7 case 'L' => 8 case 'M' => 9
    case 'N' => 10 case 'P' => 11 case 'Q' => 12 case 'R' => 13 case 'S' => 14
    case 'T' => 15 case 'U' => 16 case 'V' => 17 case 'W' => 18 case 'X' => 19
    case _ => -1
  }

  /** The first twenty band letters are the rows 0 to 19, in order, so no letter repeats among them. */
  lemma BandNumbers(j: nat)
    requires j < 20
    ensures BandNumber(Bands[j]) == j
  {
  }

  /** Each band letter's first position: its own, except the second X, found at the first. */
  lemma FirstPosition(i: nat)
    requires i < |Bands|
    ensures StrPos(Bands, [Bands[i]]) == Some(if i == 20 then 19 else i)
  {
    FirstOccurrence(Bands, i);
    var v := StrPos(Bands, [Bands[i]]).value;
    if i == 20 {
      assert Bands[19] == Bands[20];
      BandNumbers(v);
    } else {
      BandNumbers(v);
      BandNumbers(i);
    }
  }

  /** From 80°S to 88°N the band's first position is the band index, 19 for the upper X. */
  lemma BandPosition(latitude: real)
    requires -80.0 <= latitude < 88.0
    ensures StrPos(Bands, Band(latitude)) == Some(if BandIndex(latitude) == 20 then 19 else BandIndex(latitude))
  {
    BandInRange(latitude);
    FirstPosition(BandIndex(latitude));
  }

  /**
   * From 80°S to 88°N the band is southern exactly below the equator; as written,
   * it is southern exactly below 8°N.
   */
  lemma BandHemisphere(latitude: real)
    requires -80.0 <= latitude < 88.0
    ensures IsSouth(Band(latitude)) <==> latitude < 0.0
    ensures IsSouthAsWritten(Band(latitude)) <==> latitude < 8.0
  {
    BandPosition(latitude);
    BandInRange(latitude);
    var i := BandIndex(latitude);
    assert i as real <= latitude / 8.0 + 10.0 < i as real + 1.0;
  }

  /** A band that is no band letter is not rejected: both tests count it as southern. */
  lemma UnknownBandIsSouth(c: char)
    requires c !in Bands
    ensures IsSouthAsWritten([c]) && IsSouth([c])
  {
    NoPosition(Bands, c);
  }

  /** A character that does not occur in a text has no position in it. */
  lemma NoPosition(hay: string, c: char)
    requires c !in hay
    ensures StrPos(hay, [c]).None?
  {
    forall j | 0 <= j <= |hay|
      ensures !OccursAt(hay, [c], j)
    {
      if j < |hay| {
        assert hay[j] != c;
      }
    }
  }

  /** An easting of 500 000 m lies on the central meridian: its unscaled easting is 0. */
  lemma FalseEastingRemoved(u: Utm, south: bool)
    requires u.easting == FalseEasting
    ensures GridPlane(u, south).east == 0.0
  {
  }

  /** The false northing is removed exactly for a southern band. */
  lemma FalseNorthingRemoved(u: Utm)
    ensures GridPlane(u, IsSouth(u.latitudeBand)).north * ScaleFactor
      == u.northing - (if IsSouth(u.latitudeBand) then FalseNorthing else 0.0)
  {
  }

  /**
   * The grid reference the forward converter computes, before rounding, leads back
   * to the projected point, provided the kernel keeps the hemisphere and the
   * latitude has a band letter.
   */
  lemma GridPlaneOfForward(k: Kernels, latitude: real, longitude: real)
    requires PreservesHemisphere(k)
    requires -80.0 <= latitude < 88.0
    ensures GridPlane(Forward(k, latitude, longitude), IsSouth(Band(latitude)))
      == k.project(Angles(latitude, longitude - CentralMeridian(Zone(latitude, longitude)) as real))
  {
    BandHemisphere(latitude);
    FalseNorthingBySign(k, latitude, longitude);
  }

  /**
   * Converting a point of latitude [-80, 88) to UTM and back, without the
   * rounding, gives the point again, when `unproject` inverts `project` and the
   * projection keeps the hemisphere. Forward and inverse use the same central
   * meridian `(zone - 1) * 6 - 180 + 3`.
   */
  lemma RoundTrip(k: Kernels, latitude: real, longitude: real)
    requires Inverts(k) && PreservesHemisphere(k)
    requires -80.0 <= latitude < 88.0
    ensures Run(k, Forward(k, latitude, longitude)) == LatLng(latitude, longitude)
  {
    GridPlaneOfForward(k, latitude, longitude);
    var a := Angles(latitude, longitude - CentralMeridian(Zone(latitude, longitude)) as real);
    assert k.unproject(k.project(a)) == a;
  }

  /**
   * As written, every point from 0°N to 8°N (band N) loses its round trip: the
   * false northing is taken off a northern northing, and a bijective projection
   * cannot map the shifted point back to the original.
   */
  lemma RoundTripAsWrittenFailsInBandN(k: Kernels, latitude: real, longitude: real)
    requires Bijective(k) && PreservesHemisphere(k)
    requires 0.0 <= latitude < 8.0
    ensures RunAsWritten(k, Forward(k, latitude, longitude)) != LatLng(latitude, longitude)
  {
    BandHemisphere(latitude);
    GridPlaneOfForward(k, latitude, longitude);
    ShiftedNorthing(Forward(k, latitude, longitude));
    ShiftedMisses(k, Angles(latitude, longitude - CentralMeridian(Zone(latitude, longitude)) as real),
      GridPlane(Forward(k, latitude, longitude), true), Zone(latitude, longitude));
  }

  /** Off band N (position 10) the two hemisphere tests agree, and so do the two inverses. */
  lemma AsWrittenAgrees(k: Kernels, u: Utm)
    requires StrPos(Bands, u.latitudeBand) != Some(10)
    ensures RunAsWritten(k, u) == Run(k, u)
  {
    var south := IsSouth(u.latitudeBand);
    assert IsSouthAsWritten(u.latitudeBand) == south;
    assert GridPlane(u, IsSouthAsWritten(u.latitudeBand)) == GridPlane(u, south);
  }

  /**
   * As written, the inverse undoes the forward converter exactly for the points
   * outside 0°N to 8°N, under a bijective kernel that keeps the hemisphere.
   */
  lemma RoundTripAsWritten(k: Kernels, latitude: real, longitude: real)
    requires Bijective(k) && PreservesHemisphere(k)
    requires -80.0 <= latitude < 88.0
    ensures RunAsWritten(k, Forward(k, latitude, longitude)) == LatLng(latitude, longitude)
      <==> !(0.0 <= latitude < 8.0)
  {
    if 0.0 <= latitude < 8.0 {
      RoundTripAsWrittenFailsInBandN(k, latitude, longitude);
    } else {
      BandHemisphere(latitude);
      assert IsSouthAsWritten(Band(latitude)) == IsSouth(Band(latitude));
      RoundTrip(k, latitude, longitude);
    }
  }

  /** Taking the false northing off moves the unscaled northing by 10 000 000 / 0.9996 m and leaves the easting. */
  lemma ShiftedNorthing(u: Utm)
    ensures GridPlane(u, true).east == GridPlane(u, false).east
    ensures GridPlane(u, true).north != GridPlane(u, false).north
  {
  }

  /** Under a bijective kernel, a point other than a's projection does not lead back to a. */
  lemma ShiftedMisses(k: Kernels, a: Angles, q: Plane, zone: int)
    requires Bijective(k)
    requires q != k.project(a)
    ensures OnMeridian(k.unproject(q), zone) != OnMeridian(a, zone)
  {
    assert k.project(k.unproject(q)) == q;
  }

  /**
   * A concrete instance: 4°N 15°E lies in band N. Under the swap kernel the
   * inverse as written returns a latitude below -10 000 000, and the corrected
   * inverse returns the point exactly.
   */
  lemma BandNExample()
    ensures Forward(Swap(), 4.0, 15.0).latitudeBand == "N"
    ensures RunAsWritten(Swap(), Forward(Swap(), 4.0, 15.0)).latitude < -10000000.0
    ensures Run(Swap(), Forward(Swap(), 4.0, 15.0)) == LatLng(4.0, 15.0)
  {
    assert BandIndex(4.0) == 10;
    BandHemisphere(4.0);
    RoundTrip(Swap(), 4.0, 15.0);
  }
}
