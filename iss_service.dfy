/** The position cache: a store of samples in front of the upstream provider,
    with current, historical and range reads, statistics, the collector tick
    and the cleanup tick. `now` (Unix seconds) and the upstream provider
    (a function from request URL to reply) are parameters. */
module IssService {
  import opened Wrappers
  import opened IssModel
  import Decimal
  import Http
  import PositionTable

  const BaseUrl := "https://api.wheretheiss.at/v1"
  const IssId: nat := 25544
  const RetentionHours := 8
  /** Rows older than this many seconds are removed by the cleanup tick. */
  const RetentionHorizon := RetentionHours * 3600
  /** A stored sample at most this many seconds old is "current". */
  const FreshnessWindow := 30
  /** Historical queries may reach this many seconds back or forward. */
  const HistoricalWindow := 4 * 3600
  /** A stored sample this many seconds from a historical query matches it. */
  const NearestTolerance: nat := 60
  /** Statistics count the rows of the last hour. */
  const StatisticsWindow := 3600

  const Kilometers := "kilometers"
  const Miles := "miles"
  const KmToMiles: real := 0.621371
  const MilesToKm: real := 1.60934

  // Written as two literals so that the verifier can index into it.
  const RetentionError := "timestamp outside retention window " + "(4 hours back/forward)"
  const CurrentFetchError := "failed to fetch current position: "
  const HistoricalFetchError := "failed to fetch historical position: "

  /** An empty units argument means kilometres. */
  function DefaultUnits(units: string): (u: string)
    ensures u != ""
    ensures units != "" ==> u == units
    ensures units == "" ==> u == Kilometers
  {
    if units == "" then Kilometers else units
  }

  // ---------------------------------------------------------------------
  // Unit conversion

  /** The two unit pairs `Convert` knows how to rescale. */
  predicate Convertible(from: string, to: string) {
    (from == Kilometers && to == Miles) || (from == Miles && to == Kilometers)
  }

  /** The factor applied to the magnitude fields when going `from` -> `to`. */
  function Factor(from: string, to: string): real {
    if from == Kilometers && to == Miles then KmToMiles
    else if from == Miles && to == Kilometers then MilesToKm
    else 1.0
  }

  /** `convertUnits`: rescales altitude, velocity and footprint by one factor
      and retags the units, or leaves the sample alone when it is already in
      the target units or the pair is not kilometres/miles. */
  function Convert(p: Position, target: string): (c: Position)
    ensures c.(altitude := p.altitude, velocity := p.velocity, footprint := p.footprint, units := p.units) == p
    ensures c.units == if Convertible(p.units, target) then target else p.units
    ensures var k := Factor(p.units, target);
            c.altitude == p.altitude * k && c.velocity == p.velocity * k && c.footprint == p.footprint * k
    ensures !Convertible(p.units, target) ==> c == p
  {
    if p.units == target then p
    else if p.units == Kilometers && target == Miles then
      p.(altitude := p.altitude * KmToMiles,
         velocity := p.velocity * KmToMiles,
         footprint := p.footprint * KmToMiles,
         units := Miles)
    else if p.units == Miles && target == Kilometers then
      p.(altitude := p.altitude * MilesToKm,
         velocity := p.velocity * MilesToKm,
         footprint := p.footprint * MilesToKm,
         units := Kilometers)
    else p
  }

  /** Converting twice to the same units is converting once. */
  lemma ConvertIdempotent(p: Position, target: string)
    ensures Convert(Convert(p, target), target) == Convert(p, target)
  {
  }

  /** The two factors are not inverses: a kilometre sample sent to miles and
      back comes out scaled by 0.99999720514, so every positive magnitude
      shrinks by more than one part in a million. */
  lemma RoundTripDrift(p: Position)
    requires p.units == Kilometers
    ensures var back := Convert(Convert(p, Miles), Kilometers);
            back.units == Kilometers
            && back.altitude == p.altitude * 0.99999720514
            && back.velocity == p.velocity * 0.99999720514
            && back.footprint == p.footprint * 0.99999720514
    ensures var back := Convert(Convert(p, Miles), Kilometers);
            p.altitude > 0.0 ==> p.altitude - back.altitude > p.altitude / 1000000.0
  {
  }

  // ---------------------------------------------------------------------
  // Upstream client

  function SatellitePath(): string {
    BaseUrl + "/satellites/" + Decimal.NatToString(IssId)
  }

  /** The part the request needs after the path: a `units` parameter
      whenever the units are not kilometres, after a `timestamp` parameter
      when the timestamp is positive. */
  function UnitsParam(units: string): string {
    if units != Kilometers then "&units=" + units else ""
  }

  function QueryString(timestamp: int, units: string): string {
    if timestamp > 0 then "?timestamp=" + Decimal.IntToString(timestamp) + UnitsParam(units)
    else if units != Kilometers then "?units=" + units
    else ""
  }

  /** The request URL of `fetchFromAPI`. */
  function ProviderUrl(timestamp: int, units: string): (url: string)
    ensures SatellitePath() <= url
    ensures |url| == |SatellitePath()| <==> timestamp <= 0 && units == Kilometers
  {
    SatellitePath() + QueryString(timestamp, units)
  }

  /** How many decimal digits a string starts with. */
  function LeadingDigits(s: string): nat {
    if s != [] && Decimal.IsDigit(s[0]) then 1 + LeadingDigits(s[1..]) else 0
  }

  lemma {:induction false} LeadingDigitsOfNumber(d: string, x: string)
    requires Decimal.AllDigits(d)
    requires x == [] || !Decimal.IsDigit(x[0])
    ensures LeadingDigits(d + x) == |d|
  {
    if d == [] {
      assert d + x == x;
    } else {
      assert (d + x)[1..] == d[1..] + x;
      LeadingDigitsOfNumber(d[1..], x);
    }
  }

  /** A number followed by a parameter separator splits back uniquely. */
  lemma DigitsThenParam(d1: string, x1: string, d2: string, x2: string)
    requires Decimal.AllDigits(d1) && Decimal.AllDigits(d2)
    requires x1 == [] || x1[0] == '&'
    requires x2 == [] || x2[0] == '&'
    requires d1 + x1 == d2 + x2
    ensures d1 == d2 && x1 == x2
  {
    LeadingDigitsOfNumber(d1, x1);
    LeadingDigitsOfNumber(d2, x2);
    assert d1 == (d1 + x1)[..|d1|];
    assert x1 == (d1 + x1)[|d1|..];
    assert d2 == (d2 + x2)[..|d2|];
    assert x2 == (d2 + x2)[|d2|..];
  }

  /** After `?timestamp=` a timestamp query holds the number and then the
      units parameter. */
  lemma TimestampQueryShape(t: int, u: string)
    requires t > 0
    ensures QueryString(t, u)[11..] == Decimal.NatToString(t) + UnitsParam(u)
  {
  }

  lemma UnitsParamStartsWithSeparator(u: string)
    ensures UnitsParam(u) == [] || UnitsParam(u)[0] == '&'
  {
  }

  lemma TimestampQueriesInjective(t1: int, u1: string, t2: int, u2: string)
    requires t1 > 0 && t2 > 0
    requires QueryString(t1, u1) == QueryString(t2, u2)
    ensures t1 == t2 && UnitsParam(u1) == UnitsParam(u2)
  {
    TimestampQueryShape(t1, u1);
    TimestampQueryShape(t2, u2);
    UnitsParamStartsWithSeparator(u1);
    UnitsParamStartsWithSeparator(u2);
    DigitsThenParam(Decimal.NatToString(t1), UnitsParam(u1), Decimal.NatToString(t2), UnitsParam(u2));
    Decimal.NatToStringInjective(t1, t2);
  }

  lemma UnitsParamInjective(u1: string, u2: string)
    requires UnitsParam(u1) == UnitsParam(u2)
    ensures (u1 == Kilometers) == (u2 == Kilometers)
    ensures u1 != Kilometers ==> u1 == u2
  {
    if u1 != Kilometers && u2 != Kilometers {
      assert u1 == UnitsParam(u1)[7..];
      assert u2 == UnitsParam(u2)[7..];
    }
  }

  lemma TimestampQueryNotUnitsQuery(t1: int, u1: string, t2: int, u2: string)
    requires t1 > 0 && t2 <= 0
    ensures QueryString(t1, u1) != QueryString(t2, u2)
  {
    var q1 := QueryString(t1, u1);
    var q2 := QueryString(t2, u2);
    assert q1[1] == 't';
    if u2 != Kilometers {
      assert q2[1] == 'u';
    }
  }

  /** The URL carries its parameters faithfully: equal URLs ask for the same
      instant (or both for "now") and the same non-default units. */
  lemma ProviderUrlInjective(t1: int, u1: string, t2: int, u2: string)
    requires ProviderUrl(t1, u1) == ProviderUrl(t2, u2)
    ensures (t1 > 0) == (t2 > 0)
    ensures t1 > 0 ==> t1 == t2
    ensures (u1 == Kilometers) == (u2 == Kilometers)
    ensures u1 != Kilometers ==> u1 == u2
  {
    var n := |SatellitePath()|;
    assert QueryString(t1, u1) == ProviderUrl(t1, u1)[n..];
    assert QueryString(t2, u2) == ProviderUrl(t2, u2)[n..];
    if t1 > 0 && t2 > 0 {
      TimestampQueriesInjective(t1, u1, t2, u2);
      UnitsParamInjective(u1, u2);
    } else if t1 > 0 {
      TimestampQueryNotUnitsQuery(t1, u1, t2, u2);
    } else if t2 > 0 {
      TimestampQueryNotUnitsQuery(t2, u2, t1, u1);
    } else if u1 != Kilometers && u2 != Kilometers {
      assert u1 == QueryString(t1, u1)[7..];
      assert u2 == QueryString(t2, u2)[7..];
    }
  }

  /** `fetchFromAPI` after the request: a transport error, a non-200 status
      (whatever the body), an unreadable body and a malformed payload are
      errors, in that order; otherwise the payload is mapped to a row. */
  function FetchFromApi(reply: Http.Reply<PositionResponse>): (r: Result<Position, string>)
    ensures r.Success? <==> reply.Received? && reply.code == Http.StatusOK
                            && reply.readError.None? && reply.decoded.Success?
    ensures reply.Received? && reply.code != Http.StatusOK ==>
              r == Failure("API request failed: " + reply.status + " - " + reply.body)
    ensures r.Success? ==> r.value == ToPosition(reply.decoded.value)
  {
    match reply
    case GetFailed(reason) => Failure("API request failed: " + reason)
    case Received(code, status, body, readError, decoded) =>
      if code != Http.StatusOK then Failure("API request failed: " + status + " - " + body)
      else if readError.Some? then Failure("failed to read response body: " + readError.value)
      else match decoded
        case Failure(e) => Failure("failed to parse API response: " + e)
        case Success(response) => Success(ToPosition(response))
  }

  // ---------------------------------------------------------------------
  // Historical store lookup as the raw query is written

  /** The table the raw historical query names. */
  const HistoricalQueryTable := "positions"

  /** A raw nearest-in-window query against the table called `table`. The
      database is assumed to hold the positions table and no other, so any
      other name is an error. */
  function RawNearestQuery(table: string, rows: seq<Position>, center: int): Result<Option<Position>, string>
    requires PositionTable.Ascending(rows)
  {
    if table == TableName then Success(PositionTable.Nearest(rows, center, NearestTolerance))
    else Failure("relation \"" + table + "\" does not exist")
  }

  /** The historical lookup the service runs: it names a table that does not
      exist, so it errs whatever is stored. */
  function HistoricalLookupAsWritten(rows: seq<Position>, center: int): (r: Result<Option<Position>, string>)
    requires PositionTable.Ascending(rows)
    ensures r.Failure?
  {
    RawNearestQuery(HistoricalQueryTable, rows, center)
  }

  /** As written, the lookup errs whatever the table holds, even a row at
      exactly the queried instant, so every historical read goes upstream. */
  lemma HistoricalLookupAsWrittenIgnoresStore(rows: seq<Position>, center: int)
    requires PositionTable.Ascending(rows)
    requires PositionTable.Find(rows, center).Some?
    ensures PositionTable.Nearest(rows, center, NearestTolerance).Some?
    ensures HistoricalLookupAsWritten(rows, center).Failure?
  {
  }

  // ---------------------------------------------------------------------
  // The service

  /** Read-only aggregate of the table. Timestamps stay Unix seconds. */
  datatype Statistics = Statistics(
    totalPositions: nat,
    latestPosition: Option<Position>,
    latestTimestamp: Option<int>,
    oldestTimestamp: Option<int>,
    positionsLastHour: nat,
    coverage: Option<(int, int)>)

  /** The service and the table it owns. */
  class PositionCache {
    /** The table's rows, ascending by timestamp. */
    var rows: seq<Position>
    /** The surrogate id the next new row receives. */
    var nextId: nat

    ghost predicate Valid()
      reads this
    {
      && PositionTable.Ascending(rows)
      && 0 < nextId
      && (forall q :: q in rows ==> 0 < q.id < nextId)
      && (forall q, q' :: q in rows && q' in rows && q.id == q'.id ==> q == q')
    }

    /** A new service over the table the database already holds: `initial`
        is whatever an earlier run left in it, and `firstId` the id the
        database will hand out next. The background collector and cleanup
        loops are the separate methods `CollectData` and `CleanupOldData`,
        one call per tick. */
    constructor (initial: seq<Position>, firstId: nat)
      requires PositionTable.Ascending(initial)
      requires 0 < firstId
      requires forall q :: q in initial ==> 0 < q.id < firstId
      requires forall q, q' :: q in initial && q' in initial && q.id == q'.id ==> q == q'
      ensures Valid()
      ensures rows == initial && nextId == firstId
    {
      rows := initial;
      nextId := firstId;
    }

    /** No two stored positions share a timestamp. */
    lemma TimestampsUnique()
      requires Valid()
      ensures forall p, q :: p in rows && q in rows && p.timestamp == q.timestamp ==> p == q
    {
    }

    /** The store side of `FirstOrCreate` on `timestamp`. */
    method InsertIfAbsent(p: Position) returns (stored: Position, created: bool)
      requires Valid()
      modifies this
      ensures Valid()
      ensures var ins := PositionTable.InsertIfAbsent(old(rows), p, old(nextId));
              rows == ins.rows && stored == ins.stored && created == ins.created
      ensures nextId == if created then old(nextId) + 1 else old(nextId)
    {
      var ins := PositionTable.InsertIfAbsent(rows, p, nextId);
      rows, stored, created := ins.rows, ins.stored, ins.created;
      if created {
        nextId := nextId + 1;
      }
    }

    /** `GetCurrentPosition`. A hit on a sample at most 30 s old is converted
        and returned without touching the upstream or the table. On a miss the
        provider is asked for the current sample in the requested units, the
        sample is inserted if absent, and the stored row is returned as it is
        (not converted). `requested` lists the URLs fetched. */
    method GetCurrentPosition(units: string, now: int, upstream: string -> Http.Reply<PositionResponse>)
      returns (r: Result<Position, string>, requested: seq<string>)
      requires Valid()
      modifies this
      ensures Valid()
      ensures var hit := PositionTable.LatestSince(old(rows), now - FreshnessWindow);
              hit.Some? ==>
                r == Success(Convert(hit.value, DefaultUnits(units)))
                && requested == [] && rows == old(rows) && nextId == old(nextId)
      ensures var hit := PositionTable.LatestSince(old(rows), now - FreshnessWindow);
              var url := ProviderUrl(0, DefaultUnits(units));
              var fetched := FetchFromApi(upstream(url));
              hit.None? ==>
                requested == [url]
                && (fetched.Failure? ==>
                      r == Failure(CurrentFetchError + fetched.error)
                      && rows == old(rows) && nextId == old(nextId))
                && (fetched.Success? ==>
                      var ins := PositionTable.InsertIfAbsent(old(rows), fetched.value, old(nextId));
                      r == Success(ins.stored) && rows == ins.rows
                      && nextId == if ins.created then old(nextId) + 1 else old(nextId))
    {
      var u := DefaultUnits(units);
      var hit := PositionTable.LatestSince(rows, now - FreshnessWindow);
      if hit.Some? {
        return Success(Convert(hit.value, u)), [];
      }
      var url := ProviderUrl(0, u);
      requested := [url];
      var fetched := FetchFromApi(upstream(url));
      if fetched.Failure? {
        return Failure(CurrentFetchError + fetched.error), requested;
      }
      var stored, _ := InsertIfAbsent(fetched.value);
      r := Success(stored);
    }

    /** `GetHistoricalPosition`, with the nearest-in-window lookup the raw
        query intends. A timestamp more than 4 hours from `now` is refused
        before the table or the upstream is consulted. A stored sample within
        60 s is converted and returned; otherwise the provider is asked for
        that instant in the requested units and the stored row is returned
        unconverted. */
    method GetHistoricalPosition(timestamp: int, units: string, now: int,
                                 upstream: string -> Http.Reply<PositionResponse>)
      returns (r: Result<Position, string>, requested: seq<string>)
      requires Valid()
      modifies this
      ensures Valid()
      ensures timestamp < now - HistoricalWindow || timestamp > now + HistoricalWindow ==>
                r == Failure(RetentionError) && requested == []
                && rows == old(rows) && nextId == old(nextId)
      ensures var hit := PositionTable.Nearest(old(rows), timestamp, NearestTolerance);
              now - HistoricalWindow <= timestamp <= now + HistoricalWindow && hit.Some? ==>
                r == Success(Convert(hit.value, DefaultUnits(units)))
                && requested == [] && rows == old(rows) && nextId == old(nextId)
      ensures var hit := PositionTable.Nearest(old(rows), timestamp, NearestTolerance);
              var url := ProviderUrl(timestamp, DefaultUnits(units));
              var fetched := FetchFromApi(upstream(url));
              now - HistoricalWindow <= timestamp <= now + HistoricalWindow && hit.None? ==>
                requested == [url]
                && (fetched.Failure? ==>
                      r == Failure(HistoricalFetchError + fetched.error)
                      && rows == old(rows) && nextId == old(nextId))
                && (fetched.Success? ==>
                      var ins := PositionTable.InsertIfAbsent(old(rows), fetched.value, old(nextId));
                      r == Success(ins.stored) && rows == ins.rows
                      && nextId == if ins.created then old(nextId) + 1 else old(nextId))
    {
      var u := DefaultUnits(units);
      if timestamp < now - HistoricalWindow || timestamp > now + HistoricalWindow {
        return Failure(RetentionError), [];
      }
      var hit := PositionTable.Nearest(rows, timestamp, NearestTolerance);
      if hit.Some? {
        return Success(Convert(hit.value, u)), [];
      }
      var url := ProviderUrl(timestamp, u);
      requested := [url];
      var fetched := FetchFromApi(upstream(url));
      if fetched.Failure? {
        return Failure(HistoricalFetchError + fetched.error), requested;
      }
      var stored, _ := InsertIfAbsent(fetched.value);
      r := Success(stored);
    }

    /** `GetHistoricalPosition` as written: the raw lookup always errs, so
        every read inside the window goes to the provider, even when a
        stored sample lies within 60 s of the instant; the fetched sample is
        then stored if its instant is new. */
    method GetHistoricalPositionAsWritten(timestamp: int, units: string, now: int,
                                          upstream: string -> Http.Reply<PositionResponse>)
      returns (r: Result<Position, string>, requested: seq<string>)
      requires Valid()
      modifies this
      ensures Valid()
      ensures timestamp < now - HistoricalWindow || timestamp > now + HistoricalWindow ==>
                r == Failure(RetentionError) && requested == []
                && rows == old(rows) && nextId == old(nextId)
      ensures var url := ProviderUrl(timestamp, DefaultUnits(units));
              var fetched := FetchFromApi(upstream(url));
              now - HistoricalWindow <= timestamp <= now + HistoricalWindow ==>
                requested == [url]
                && (fetched.Failure? ==>
                      r == Failure(HistoricalFetchError + fetched.error)
                      && rows == old(rows) && nextId == old(nextId))
                && (fetched.Success? ==>
                      var ins := PositionTable.InsertIfAbsent(old(rows), fetched.value, old(nextId));
                      r == Success(ins.stored) && rows == ins.rows
                      && nextId == if ins.created then old(nextId) + 1 else old(nextId))
    {
      var u := DefaultUnits(units);
      if timestamp < now - HistoricalWindow || timestamp > now + HistoricalWindow {
        return Failure(RetentionError), [];
      }
      var lookup := HistoricalLookupAsWritten(rows, timestamp);
      if lookup.Success? {
        assert false;
      }
      var url := ProviderUrl(timestamp, u);
      requested := [url];
      var fetched := FetchFromApi(upstream(url));
      if fetched.Failure? {
        return Failure(HistoricalFetchError + fetched.error), requested;
      }
      var stored, _ := InsertIfAbsent(fetched.value);
      r := Success(stored);
    }

    /** `GetPositionsInRange`: exactly the stored samples with
        `startTime <= timestamp <= endTime`, strictly ascending, each
        converted; the table is only read and the upstream never asked. */
    method GetPositionsInRange(startTime: int, endTime: int, units: string) returns (positions: seq<Position>)
      requires Valid()
      ensures var found := PositionTable.Range(rows, startTime, endTime);
              |positions| == |found|
              && forall k :: 0 <= k < |found| ==> positions[k] == Convert(found[k], DefaultUnits(units))
      ensures forall i, j :: 0 <= i < j < |positions| ==> positions[i].timestamp < positions[j].timestamp
      ensures forall k :: 0 <= k < |positions| ==>
                startTime <= positions[k].timestamp <= endTime
                && exists q :: q in rows && positions[k] == Convert(q, DefaultUnits(units))
      ensures forall q :: q in rows && startTime <= q.timestamp <= endTime ==>
                Convert(q, DefaultUnits(units)) in positions
    {
      var u := DefaultUnits(units);
      positions := PositionTable.Range(rows, startTime, endTime);
      ghost var found := positions;
      for i := 0 to |positions|
        invariant |positions| == |found|
        invariant forall k :: 0 <= k < i ==> positions[k] == Convert(found[k], u)
        invariant forall k :: i <= k < |positions| ==> positions[k] == found[k]
      {
        positions := positions[i := Convert(positions[i], u)];
      }
      forall k | 0 <= k < |positions|
        ensures startTime <= positions[k].timestamp <= endTime
        ensures exists q :: q in rows && positions[k] == Convert(q, u)
      {
        assert found[k] in found;
      }
      forall q | q in rows && startTime <= q.timestamp <= endTime
        ensures Convert(q, u) in positions
      {
        var k :| 0 <= k < |found| && found[k] == q;
        assert positions[k] == Convert(q, u);
      }
    }

    /** `GetStatistics`: the row count, the latest row, the oldest and latest
        timestamps, the count of rows from the last hour, and the covered
        interval when the table is not empty. */
    method GetStatistics(now: int) returns (stats: Statistics)
      requires Valid()
      ensures stats.totalPositions == |rows|
      ensures stats.latestPosition.Some? <==> rows != []
      ensures stats.latestPosition.Some? ==>
                stats.latestPosition.value in rows
                && forall q :: q in rows ==> q.timestamp <= stats.latestPosition.value.timestamp
      ensures stats.latestTimestamp.Some? <==> rows != []
      ensures stats.latestTimestamp.Some? ==> stats.latestTimestamp.value == stats.latestPosition.value.timestamp
      ensures stats.oldestTimestamp.Some? <==> rows != []
      ensures stats.oldestTimestamp.Some? ==>
                (exists q :: q in rows && q.timestamp == stats.oldestTimestamp.value)
                && forall q :: q in rows ==> stats.oldestTimestamp.value <= q.timestamp
      ensures stats.positionsLastHour == |PositionTable.Retain(rows, now - StatisticsWindow)|
      ensures stats.coverage.Some? <==> rows != []
      ensures stats.coverage.Some? ==>
                stats.coverage.value == (stats.oldestTimestamp.value, stats.latestTimestamp.value)
    {
      var total := |rows|;
      var latest := PositionTable.Latest(rows);
      var latestTs: Option<int> := None;
      if latest.Some? {
        latestTs := Some(latest.value.timestamp);
      }
      var oldest := PositionTable.Oldest(rows);
      var oldestTs: Option<int> := None;
      if oldest.Some? {
        oldestTs := Some(oldest.value.timestamp);
      }
      var recent := |PositionTable.Retain(rows, now - StatisticsWindow)|;
      var coverage: Option<(int, int)> := None;
      if total > 0 {
        coverage := Some((oldest.value.timestamp, latest.value.timestamp));
      }
      stats := Statistics(total, latest, latestTs, oldestTs, recent, coverage);
    }

    /** `collectData`, one collector tick: fetch the current sample in
        kilometres and insert it if its timestamp is new. A failed fetch
        leaves the table alone. `created` is the "stored new position" case. */
    method CollectData(upstream: string -> Http.Reply<PositionResponse>) returns (created: bool)
      requires Valid()
      modifies this
      ensures Valid()
      ensures var fetched := FetchFromApi(upstream(ProviderUrl(0, Kilometers)));
              fetched.Failure? ==> !created && rows == old(rows) && nextId == old(nextId)
      ensures var fetched := FetchFromApi(upstream(ProviderUrl(0, Kilometers)));
              fetched.Success? ==>
                var ins := PositionTable.InsertIfAbsent(old(rows), fetched.value, old(nextId));
                rows == ins.rows && created == ins.created
                && nextId == if ins.created then old(nextId) + 1 else old(nextId)
    {
      var fetched := FetchFromApi(upstream(ProviderUrl(0, Kilometers)));
      if fetched.Failure? {
        return false;
      }
      var _, c := InsertIfAbsent(fetched.value);
      created := c;
    }

    /** `cleanupOldData`, one cleanup tick: delete every row older than
        eight hours and keep the others untouched, in order. */
    method CleanupOldData(now: int) returns (removed: nat)
      requires Valid()
      modifies this
      ensures Valid()
      ensures rows == PositionTable.Retain(old(rows), now - RetentionHorizon)
      ensures removed == |old(rows)| - |rows|
      ensures nextId == old(nextId)
    {
      var kept := PositionTable.Retain(rows, now - RetentionHorizon);
      removed := |rows| - |kept|;
      rows := kept;
    }
  }
}
