/**
 * The floating-point numerics the converters call but the model does not
 * reproduce, passed in as total functions so that everything built around them
 * is exact.
 *
 *  - `project` is the forward transverse Mercator projection of the UTM
 *    converter (Krüger series of order 6 with the conformal latitude): it maps a
 *    latitude and a longitude difference from the zone's central meridian, both
 *    in degrees, to the unscaled easting and northing A·η and A·ξ in metres.
 *  - `unproject` is the inverse (Krüger series of order 8 and the Newton
 *    iteration for the latitude): it maps unscaled easting and northing back to a
 *    latitude and a longitude difference in degrees.
 *  - `hashDigits` is the number of decimals the geohash decoder keeps for an
 *    interval of the given width, `floor((2 - ln width) / ln 10)`.
 */
module Numerics {

  /** A latitude and a longitude difference from a central meridian, in degrees. */
  datatype Angles = Angles(lat: real, dlng: real)

  /** Unscaled transverse Mercator easting and northing (A·η, A·ξ), in metres. */
  datatype Plane = Plane(east: real, north: real)

  datatype Kernels = Kernels(
    project: Angles -> Plane,
    unproject: Plane -> Angles,
    hashDigits: real -> int)

  /** The inverse projection undoes the forward one. */
  ghost predicate Inverts(k: Kernels)
  {
    forall a: Angles :: k.unproject(k.project(a)) == a
  }

  /** The forward projection undoes the inverse one: the two are mutually inverse. */
  ghost predicate Bijective(k: Kernels)
  {
    && Inverts(k)
    && forall q: Plane :: k.project(k.unproject(q)) == q
  }

  /** The projected northing is negative exactly south of the equator. */
  ghost predicate PreservesHemisphere(k: Kernels)
  {
    forall a: Angles :: k.project(a).north < 0.0 <==> a.lat < 0.0
  }

  /** A kernel with every property above, so that none of them asks for the impossible. */
  function Swap(): (k: Kernels)
    ensures Bijective(k) && PreservesHemisphere(k)
  {
    Kernels((a: Angles) => Plane(a.dlng, a.lat), (q: Plane) => Angles(q.north, q.east), (w: real) => 0)
  }
}
