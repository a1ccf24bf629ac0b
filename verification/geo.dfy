/** Coordinates and geofence admission. The great-circle distance itself is
    floating-point trigonometry, so it enters the model as a function parameter;
    only the laws it satisfies and the radius comparison are modelled. */
module Geo {

  /** Decimal degrees (the columns are `decimal(10,8)` and `decimal(11,8)`). */
  datatype Coord = Coord(lat: real, lng: real)

  /** Distance in meters from the first coordinate to the second. */
  type DistanceFn = (Coord, Coord) -> real

  /** Mean Earth radius, in meters, that the haversine formula scales by. */
  const EarthRadiusMeters: int := 6371000

  /** Laws of the haversine distance: standing still gives 0 (both angle
      differences vanish, so `a = 0` and `c = 0`), and the result is a
      non-negative multiple of the Earth radius. */
  ghost predicate HaversineLaws(distance: DistanceFn) {
    && (forall p :: distance(p, p) == 0.0)
    && (forall p, q :: distance(p, q) >= 0.0)
  }

  /** The geofence test: rejection needs the distance to be strictly greater than
      the radius, so a distance equal to the radius is admitted. */
  predicate Admits(distance: real, radius: int) {
    !(distance > radius as real)
  }

  /** Admission is exactly "within the radius, boundary included". */
  lemma AdmitsWithinRadius(distance: real, radius: int)
    ensures Admits(distance, radius) <==> distance <= radius as real
    ensures Admits(radius as real, radius)
    ensures !Admits(radius as real + 1.0, radius)
  {
  }

  /** Someone standing on the office center is admitted by any non-negative radius. */
  lemma CenterAlwaysAdmitted(distance: DistanceFn, center: Coord, radius: int)
    requires HaversineLaws(distance)
    requires radius >= 0
    ensures Admits(distance(center, center), radius)
  {
  }
}
