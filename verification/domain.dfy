/**
 Value types shared by the subway domain model: station identifiers, the
 section record, and the failure datatypes that stand in for the
 `IllegalArgumentException` the domain classes throw.
 */
module Domain {

  /** A station, compared by value. Only its identity matters to the
      section collection, so a station is represented by its identifier. */
  type StationId = nat

  /** A section of track: an ordered pair of stations and the distance
      between them. */
  datatype Section = Section(up: StationId, down: StationId, distance: int) {

    /** The section's two stations, up station first. */
    function Stations(): seq<StationId> {
      [up, down]
    }
  }

  /** The only failure the domain reports. */
  datatype Error = IllegalArgument

  /** The outcome of a validation step that produces no value. */
  datatype Outcome = Pass | Fail(error: Error)

  /** The outcome of an operation that either yields a value or throws. */
  datatype Result<T> = Ok(value: T) | Err(error: Error)

  /** A value that may be absent (a Java reference that may be `null`). */
  datatype Option<T> = None | Some(value: T)
}
