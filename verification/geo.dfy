/**
 * Geographic positions as GeoJSON writes them: longitude first, then latitude
 * (section 3.1.1 of RFC 7946). Coordinates are finite reals in degrees.
 */
module Geo {

  /** A `[longitude, latitude]` position. */
  datatype Coord = Coord(lon: real, lat: real)
}
