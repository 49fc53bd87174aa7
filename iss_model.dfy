/** The telemetry record: one stored sample of the station's position, and the
    record the upstream provider sends. */
module IssModel {

  /** The name of the table that holds `Position` rows. */
  const TableName := "iss_positions"

  /** A stored sample. `id` is the surrogate key the store assigns (0 until
      then); `timestamp` (Unix seconds) is unique across the table; `altitude`,
      `velocity` and `footprint` are expressed in `units`. The bookkeeping
      columns `CreatedAt` and `UpdatedAt` are not modelled. */
  datatype Position = Position(
    id: nat,
    name: string,
    latitude: real,
    longitude: real,
    altitude: real,
    velocity: real,
    visibility: string,
    footprint: real,
    timestamp: int,
    daynum: real,
    solarLat: real,
    solarLon: real,
    units: string)

  /** The provider's record; its `id` is the provider's satellite id. */
  datatype PositionResponse = PositionResponse(
    name: string,
    id: int,
    latitude: real,
    longitude: real,
    altitude: real,
    velocity: real,
    visibility: string,
    footprint: real,
    timestamp: int,
    daynum: real,
    solarLat: real,
    solarLon: real,
    units: string)

  /** Body of a POST request for a historical position. */
  datatype HistoricalRequest = HistoricalRequest(timestamp: int, units: string)

  /** Maps the provider's record to a row to be stored: every telemetry field
      is copied, the provider's id is dropped and the row id is left at zero
      for the store to assign. */
  function ToPosition(r: PositionResponse): (p: Position)
    ensures p.id == 0
    ensures p.timestamp == r.timestamp && p.units == r.units
    ensures p.name == r.name && p.visibility == r.visibility
    ensures p.latitude == r.latitude && p.longitude == r.longitude
    ensures p.altitude == r.altitude && p.velocity == r.velocity && p.footprint == r.footprint
    ensures p.daynum == r.daynum && p.solarLat == r.solarLat && p.solarLon == r.solarLon
  {
    Position(
      id := 0,
      name := r.name,
      latitude := r.latitude,
      longitude := r.longitude,
      altitude := r.altitude,
      velocity := r.velocity,
      visibility := r.visibility,
      footprint := r.footprint,
      timestamp := r.timestamp,
      daynum := r.daynum,
      solarLat := r.solarLat,
      solarLon := r.solarLon,
      units := r.units)
  }

  /** The mapping loses exactly the provider's id: two records map to the same
      row if and only if they agree on everything else. */
  lemma ToPositionForgetsOnlyId(a: PositionResponse, b: PositionResponse)
    ensures ToPosition(a) == ToPosition(b) <==> a.(id := 0) == b.(id := 0)
  {
  }
}
