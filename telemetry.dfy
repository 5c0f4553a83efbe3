/**
 * The shape of one response of the HydroVu data endpoint and of the tables
 * built from it.
 */
module Telemetry {
  import opened Wrappers

  type ParamId = int
  type UnitId = int
  type LocationId = int

  /** Epoch seconds; the API's cursors and reading timestamps are never negative. */
  type Timestamp = nat

  /** One `{timestamp, value}` pair of a parameter. */
  datatype Reading = Reading(timestamp: Timestamp, value: real)

  /** One entry of a page's `parameters` list. */
  datatype Parameter = Parameter(parameterId: ParamId, unitId: UnitId, readings: seq<Reading>)

  /** One response body: `{locationId, parameters: [...]}`. */
  datatype Page = Page(locationId: LocationId, parameters: seq<Parameter>)

  /**
   * One row of a per-parameter table: a reading followed by the three columns
   * that extraction adds (parameter name, unit name, location ID).
   */
  datatype Row = Row(timestamp: Timestamp, value: real, paramName: string, unitName: string, locationId: LocationId)

  /** A table of rows, in row order (a data frame with a default index). */
  type Table = seq<Row>

  /** The tables of one page (or of a whole run), keyed by parameter ID. */
  type ParamTables = map<ParamId, Table>

  /**
   * The cursor a page hands on to the next request: the timestamp of the last
   * reading of the page's FIRST parameter. None where that indexing fails
   * (no parameters, or a first parameter without readings).
   */
  function NextCursor(page: Page): (c: Option<Timestamp>)
    ensures c.Some? <==> |page.parameters| > 0 && |page.parameters[0].readings| > 0
  {
    if |page.parameters| == 0 then None
    else
      var readings := page.parameters[0].readings;
      if |readings| == 0 then None else Some(readings[|readings| - 1].timestamp)
  }
}
