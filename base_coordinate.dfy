/**
 * What the value objects share: `toString` at a precision, `__toString` and
 * `jsonSerialize` at the default one, `convert` to another format, and `format`,
 * which converts and then renders.
 *
 * The conversions of a LatLng to DMS, DDM and UTM value objects are parameters
 * (`Conversions`): the value object passes itself to converters that take two
 * numbers and return text, so the model does not tie them to the converters'
 * code. The geohash and UTM decoders are the model's own.
 */
module BaseCoordinate {
  import opened Numerics
  import opened Dtos
  import CoordinateFormat
  import GeoHashToLatLng
  import UtmToLatLng
  import LatLngToUtm

  /** A value object of any of the five kinds. */
  datatype Value =
    | LatLngValue(latLng: LatLng)
    | GeoHashValue(geoHash: GeoHash)
    | UtmValue(utm: Utm)
    | DmsValue(dms: Dms)
    | DdmValue(ddm: Ddm)

  /** The conversions `LatLng::convert` hands to other code, and the kernels of the decoders. */
  datatype Conversions = Conversions(
    k: Kernels,
    toDms: LatLng -> Dms,
    toDdm: LatLng -> Ddm,
    toUtm: LatLng -> Utm)

  /** `toString(precision)` of each kind. */
  function ToString(v: Value, given: int): string
  {
    match v
    case LatLngValue(ll) => LatLngToString(ll, given)
    case GeoHashValue(g) => GeoHashToString(g, given)
    case UtmValue(u) => UtmToString(u, given)
    case DmsValue(d) => DmsToString(d, given)
    case DdmValue(d) => DdmToString(d, given)
  }

  /** The default argument of each kind's `toString`: 12 for a geohash, the sentinel -1 for the others. */
  function DefaultPrecision(v: Value): int
  {
    if v.GeoHashValue? then 12 else -1
  }

  /** `__toString` and `jsonSerialize`: `toString()` with the kind's own default. */
  function Text(v: Value): string
  {
    ToString(v, DefaultPrecision(v))
  }

  /** `convert(format)` of each kind; a pair it does not handle gives the object itself. */
  function Convert(c: Conversions, v: Value, f: CoordinateFormat.Format): Value
  {
    match v
    case LatLngValue(ll) =>
      (match f
       case DMS => DmsValue(c.toDms(ll))
       case DDM => DdmValue(c.toDdm(ll))
       case UTM => UtmValue(c.toUtm(ll))
       case LatLng => v)
    case GeoHashValue(g) => if f == CoordinateFormat.LatLng then LatLngValue(GeoHashToLatLng.Decode(c.k, g)) else v
    case UtmValue(u) => if f == CoordinateFormat.LatLng then LatLngValue(UtmToLatLng.Run(c.k, u)) else v
    case DmsValue(_) => v
    case DdmValue(_) => v
  }

  /** `format(format, precision)`: convert, then render at the precision. */
  function FormatValue(c: Conversions, v: Value, f: CoordinateFormat.Format, given: int): string
  {
    ToString(Convert(c, v, f), given)
  }

  /** The pairs `convert` handles: a LatLng to any other format, a geohash or a UTM reference to LatLng. */
  predicate Handles(v: Value, f: CoordinateFormat.Format)
  {
    || (v.LatLngValue? && f != CoordinateFormat.LatLng)
    || ((v.GeoHashValue? || v.UtmValue?) && f == CoordinateFormat.LatLng)
  }

  /** The kind a format names. */
  predicate OfFormat(v: Value, f: CoordinateFormat.Format)
  {
    match f
    case DMS => v.DmsValue?
    case DDM => v.DdmValue?
    case UTM => v.UtmValue?
    case LatLng => v.LatLngValue?
  }

  /**
   * A handled pair gives a value of the requested kind; any other pair gives the
   * object itself. DMS and DDM values never change.
   */
  lemma ConvertDispatch(c: Conversions, v: Value, f: CoordinateFormat.Format)
    ensures Handles(v, f) ==> OfFormat(Convert(c, v, f), f)
    ensures !Handles(v, f) ==> Convert(c, v, f) == v
    ensures v.DmsValue? || v.DdmValue? ==> Convert(c, v, f) == v
  {
  }

  /** Converting to the kind a value already is changes nothing. */
  lemma ConvertToOwnKind(c: Conversions, v: Value, f: CoordinateFormat.Format)
    requires OfFormat(v, f)
    ensures Convert(c, v, f) == v
  {
  }

  /** Formatting in a format the object cannot convert to renders the object itself. */
  lemma FormatUnhandled(c: Conversions, v: Value, f: CoordinateFormat.Format, given: int)
    requires !Handles(v, f)
    ensures FormatValue(c, v, f, given) == ToString(v, given)
  {
    ConvertDispatch(c, v, f);
  }

  /**
   * `__toString` and `jsonSerialize` render at 6 decimals for every kind but the
   * geohash, which keeps up to 12 characters.
   */
  lemma TextDefaults(v: Value)
    ensures !v.GeoHashValue? ==> Text(v) == ToString(v, 6)
    ensures v.GeoHashValue? && |v.geoHash.hash| <= 12 ==> Text(v) == v.geoHash.hash
  {
  }

  /** `format` with an explicit -1 cuts a geohash to 6 characters, where `__toString` keeps 12. */
  lemma GeoHashSentinel(c: Conversions, g: GeoHash)
    requires |g.hash| == 12
    ensures |FormatValue(c, GeoHashValue(g), CoordinateFormat.DMS, -1)| == 6
    ensures Text(GeoHashValue(g)) == g.hash
  {
  }

  /**
   * A UTM value the forward converter computed, before rounding, converts back to
   * its LatLng when the kernels invert each other and keep the hemisphere.
   */
  lemma ConvertUtmRoundTrip(c: Conversions, latitude: real, longitude: real)
    requires Inverts(c.k) && PreservesHemisphere(c.k)
    requires -80.0 <= latitude < 88.0
    ensures Convert(c, UtmValue(LatLngToUtm.Forward(c.k, latitude, longitude)), CoordinateFormat.LatLng)
      == LatLngValue(LatLng(latitude, longitude))
  {
    UtmToLatLng.RoundTrip(c.k, latitude, longitude);
  }
}
