/**
 * The decoded GPX 1.1 tree the tools work on: files holding tracks, tracks
 * holding segments, segments holding points (`trk`, `trkseg` and `trkpt` in
 * the topografix.com/GPX/1/1 schema). Waypoints, routes and metadata are not
 * used by the modelled operations.
 */
module Gpx {
  import opened Wrappers

  /**
   * A JavaScript `Date`: either invalid (its time value is NaN) or a valid
   * instant in milliseconds since the epoch. Both are truthy objects.
   */
  datatype Instant = InvalidDate | At(ms: int)

  datatype TrackPoint = TrackPoint(lat: real, lon: real, ele: Option<real>, time: Option<Instant>)

  datatype TrackSegment = TrackSegment(points: seq<TrackPoint>)

  datatype Track = Track(name: Option<string>, segments: seq<TrackSegment>)

  /** `createdAt` is the earliest point time the parser found, if any. */
  datatype GpxFile = GpxFile(name: string, tracks: seq<Track>, createdAt: Option<Instant>)
}
