/** The health report of the database service: "down" with the error when
    the handle or the ping fails, otherwise "up" with the pool statistics, a
    message chosen from them, and what is known about the stored ISS data. */
module Database {
  import opened Wrappers
  import Decimal

  /** The connection-pool statistics the report reads (Go's `sql.DBStats`);
      the wait duration arrives already formatted. */
  datatype PoolStats = PoolStats(openConnections: nat, inUse: nat, idle: nat, waitCount: nat,
                                 waitDuration: string, maxIdleClosed: nat, maxLifetimeClosed: nat)

  /** The keys of the report; `Name` is the key as it appears in the JSON. */
  datatype StatKey =
    | Status
    | Error
    | Message
    | OpenConnections
    | InUse
    | Idle
    | WaitCount
    | WaitDuration
    | MaxIdleClosed
    | MaxLifetimeClosed
    | IssPositionsCount
    | LatestIssTimestamp
    | IssDataWarning
  {
    function Name(): string {
      match this
      case Status => "status"
      case Error => "error"
      case Message => "message"
      case OpenConnections => "open_connections"
      case InUse => "in_use"
      case Idle => "idle"
      case WaitCount => "wait_count"
      case WaitDuration => "wait_duration"
      case MaxIdleClosed => "max_idle_closed"
      case MaxLifetimeClosed => "max_lifetime_closed"
      case IssPositionsCount => "iss_positions_count"
      case LatestIssTimestamp => "latest_iss_timestamp"
      case IssDataWarning => "iss_data_warning"
    }
  }

  /** Distinct keys have distinct names, so the report is a map from
      strings as well. */
  lemma KeyNamesDistinct(a: StatKey, b: StatKey)
    requires a != b
    ensures a.Name() != b.Name()
  {
  }

  const HealthyMessage := "It's healthy"
  const HeavyLoadMessage := "The database is experiencing heavy load."
  const WaitEventsMessage := "The database has a high number of wait events, indicating potential bottlenecks."
  const IdleClosedMessage := "Many idle connections are being closed, consider revising the connection pool settings."
  const LifetimeClosedMessage := "Many connections are being closed due to max lifetime, consider increasing max lifetime or revising the connection usage pattern."
  const StaleWarning := "ISS data may be stale"

  const NanosPerSecond := 1_000_000_000
  /** Data older than this, in nanoseconds, is reported as stale. */
  const StaleAfterNanos := 2 * 60 * NanosPerSecond

  // The four conditions, each a strict comparison; halving is integer division.
  predicate HeavyLoad(s: PoolStats) { s.openConnections > 40 }
  predicate ManyWaits(s: PoolStats) { s.waitCount > 1000 }
  predicate ManyIdleClosed(s: PoolStats) { s.maxIdleClosed > s.openConnections / 2 }
  predicate ManyLifetimeClosed(s: PoolStats) { s.maxLifetimeClosed > s.openConnections / 2 }

  /** The message as a priority choice: lifetime closures first, then idle
      closures, waits, load, and the healthy default when none holds. This is
      the reference the sequence of overrides in `Health` is proved against. */
  function HealthMessage(s: PoolStats): string {
    if ManyLifetimeClosed(s) then LifetimeClosedMessage
    else if ManyIdleClosed(s) then IdleClosedMessage
    else if ManyWaits(s) then WaitEventsMessage
    else if HeavyLoad(s) then HeavyLoadMessage
    else HealthyMessage
  }

  /** The latest sample is stale when more than two minutes, measured in
      nanoseconds, have passed since its timestamp (whole seconds). */
  function Stale(latestTimestamp: int, nowNanos: int): (stale: bool)
    ensures stale <==> nowNanos > (latestTimestamp + 120) * NanosPerSecond
    ensures nowNanos == (latestTimestamp + 120) * NanosPerSecond ==> !stale
  {
    nowNanos - latestTimestamp * NanosPerSecond > StaleAfterNanos
  }

  /** The entries every "up" report has. */
  const PoolKeys := {Status, Message, OpenConnections, InUse, Idle, WaitCount,
                     WaitDuration, MaxIdleClosed, MaxLifetimeClosed}

  /** The entries about the stored ISS data: each only when its query
      succeeded, the warning only when the latest sample is stale. */
  function IssDataKeys(positionCount: Option<nat>, latestTimestamp: Option<int>, nowNanos: int): set<StatKey> {
    (if positionCount.Some? then {IssPositionsCount} else {})
    + (if latestTimestamp.Some? then {LatestIssTimestamp} else {})
    + (if latestTimestamp.Some? && Stale(latestTimestamp.value, nowNanos) then {IssDataWarning} else {})
  }

  /** "up" and the pool statistics, in decimal. */
  predicate PoolEntries(stats: map<StatKey, string>, pool: PoolStats) {
    && Status in stats && stats[Status] == "up"
    && OpenConnections in stats && stats[OpenConnections] == Decimal.IntToString(pool.openConnections)
    && InUse in stats && stats[InUse] == Decimal.IntToString(pool.inUse)
    && Idle in stats && stats[Idle] == Decimal.IntToString(pool.idle)
    && WaitCount in stats && stats[WaitCount] == Decimal.IntToString(pool.waitCount)
    && WaitDuration in stats && stats[WaitDuration] == pool.waitDuration
    && MaxIdleClosed in stats && stats[MaxIdleClosed] == Decimal.IntToString(pool.maxIdleClosed)
    && MaxLifetimeClosed in stats && stats[MaxLifetimeClosed] == Decimal.IntToString(pool.maxLifetimeClosed)
  }

  /** The count and the latest timestamp in their formats, and the stale
      warning. */
  predicate IssDataEntries(stats: map<StatKey, string>, positionCount: Option<nat>, latestTimestamp: Option<int>,
                           formatTime: int -> string)
  {
    && (positionCount.Some? ==>
          IssPositionsCount in stats && stats[IssPositionsCount] == Decimal.IntToString(positionCount.value))
    && (latestTimestamp.Some? ==>
          LatestIssTimestamp in stats && stats[LatestIssTimestamp] == formatTime(latestTimestamp.value))
    && (IssDataWarning in stats ==> stats[IssDataWarning] == StaleWarning)
  }

  /** `updated` keeps every entry of `stats` whose key is not in `changed`. */
  predicate SameOutside(updated: map<StatKey, string>, stats: map<StatKey, string>, changed: set<StatKey>) {
    forall k :: k in stats && k !in changed ==> k in updated && updated[k] == stats[k]
  }

  /** Sets "up", the healthy default message and the pool statistics. */
  method PoolReport(pool: PoolStats) returns (stats: map<StatKey, string>)
    ensures stats.Keys == PoolKeys
    ensures PoolEntries(stats, pool) && stats[Message] == HealthyMessage
  {
    stats := map[];
    stats := stats[Status := "up"];
    stats := stats[Message := HealthyMessage];
    stats := stats[OpenConnections := Decimal.IntToString(pool.openConnections)];
    stats := stats[InUse := Decimal.IntToString(pool.inUse)];
    stats := stats[Idle := Decimal.IntToString(pool.idle)];
    stats := stats[WaitCount := Decimal.IntToString(pool.waitCount)];
    stats := stats[WaitDuration := pool.waitDuration];
    stats := stats[MaxIdleClosed := Decimal.IntToString(pool.maxIdleClosed)];
    stats := stats[MaxLifetimeClosed := Decimal.IntToString(pool.maxLifetimeClosed)];
  }

  /** The four overrides of the message, each applied when its condition
      holds, in order load, wait, idle, lifetime: the last that applies wins. */
  method OverrideMessage(stats: map<StatKey, string>, pool: PoolStats) returns (updated: map<StatKey, string>)
    requires PoolEntries(stats, pool)
    requires Message in stats && stats[Message] == HealthyMessage
    ensures updated.Keys == stats.Keys
    ensures PoolEntries(updated, pool)
    ensures updated[Message] == HealthMessage(pool)
    ensures SameOutside(updated, stats, {Message})
  {
    updated := stats;
    if HeavyLoad(pool) {
      updated := updated[Message := HeavyLoadMessage];
    }
    if ManyWaits(pool) {
      updated := updated[Message := WaitEventsMessage];
    }
    if ManyIdleClosed(pool) {
      updated := updated[Message := IdleClosedMessage];
    }
    if ManyLifetimeClosed(pool) {
      updated := updated[Message := LifetimeClosedMessage];
    }
  }

  /** Adds the entries about the stored ISS data: each only when its query
      succeeded, the warning only when the latest sample is stale. */
  method AddIssData(stats: map<StatKey, string>, pool: PoolStats, positionCount: Option<nat>,
                    latestTimestamp: Option<int>, nowNanos: int, formatTime: int -> string)
    returns (updated: map<StatKey, string>)
    requires PoolEntries(stats, pool) && Message in stats
    ensures updated.Keys == stats.Keys + IssDataKeys(positionCount, latestTimestamp, nowNanos)
    ensures PoolEntries(updated, pool) && updated[Message] == stats[Message]
    ensures IssDataWarning !in stats ==> IssDataEntries(updated, positionCount, latestTimestamp, formatTime)
    ensures SameOutside(updated, stats, IssDataKeys(positionCount, latestTimestamp, nowNanos))
  {
    updated := stats;
    if positionCount.Some? {
      updated := updated[IssPositionsCount := Decimal.IntToString(positionCount.value)];
    }
    if latestTimestamp.Some? {
      updated := updated[LatestIssTimestamp := formatTime(latestTimestamp.value)];
      if Stale(latestTimestamp.value, nowNanos) {
        updated := updated[IssDataWarning := StaleWarning];
      }
    }
  }

  /** The report of a reachable database: the pool entries, the judged
      message and the ISS data entries. */
  method UpReport(pool: PoolStats, positionCount: Option<nat>, latestTimestamp: Option<int>, nowNanos: int,
                  formatTime: int -> string)
    returns (stats: map<StatKey, string>)
    ensures stats.Keys == PoolKeys + IssDataKeys(positionCount, latestTimestamp, nowNanos)
    ensures PoolEntries(stats, pool)
    ensures stats[Message] == HealthMessage(pool)
    ensures IssDataEntries(stats, positionCount, latestTimestamp, formatTime)
  {
    var base := PoolReport(pool);
    var judged := OverrideMessage(base, pool);
    stats := AddIssData(judged, pool, positionCount, latestTimestamp, nowNanos, formatTime);
  }

  /** `Health`. `handleError` and `pingError` are the outcomes of getting the
      handle and pinging; `positionCount` and `latestTimestamp` are the
      outcomes of counting and of reading the newest sample (`None` when the
      query failed); `formatTime` renders a Unix time as RFC 3339. */
  method Health(handleError: Option<string>, pingError: Option<string>, pool: PoolStats,
                positionCount: Option<nat>, latestTimestamp: Option<int>, nowNanos: int,
                formatTime: int -> string)
    returns (stats: map<StatKey, string>)
    ensures handleError.Some? ==>
              stats == map[Status := "down", Error := "failed to get sql.DB: " + handleError.value]
    ensures handleError.None? && pingError.Some? ==>
              stats == map[Status := "down", Error := "db down: " + pingError.value]
    ensures handleError.None? && pingError.None? ==>
              && stats.Keys == PoolKeys + IssDataKeys(positionCount, latestTimestamp, nowNanos)
              && PoolEntries(stats, pool)
              && stats[Message] == HealthMessage(pool)
              && IssDataEntries(stats, positionCount, latestTimestamp, formatTime)
  {
    stats := map[];
    if handleError.Some? {
      stats := stats[Status := "down"];
      stats := stats[Error := "failed to get sql.DB: " + handleError.value];
      return;
    }
    if pingError.Some? {
      stats := stats[Status := "down"];
      stats := stats[Error := "db down: " + pingError.value];
      return;
    }
    stats := UpReport(pool, positionCount, latestTimestamp, nowNanos, formatTime);
  }

  /** The message is the healthy default exactly when none of the four
      conditions holds, and the load message only when load is the sole one. */
  lemma HealthyExactlyWhenNoCondition(s: PoolStats)
    ensures HealthMessage(s) == HealthyMessage <==>
              !HeavyLoad(s) && !ManyWaits(s) && !ManyIdleClosed(s) && !ManyLifetimeClosed(s)
    ensures HealthMessage(s) == HeavyLoadMessage <==>
              HeavyLoad(s) && !ManyWaits(s) && !ManyIdleClosed(s) && !ManyLifetimeClosed(s)
  {
  }

  /** The thresholds are strict: a pool exactly at every threshold is healthy. */
  lemma ThresholdsAreStrict()
    ensures HealthMessage(PoolStats(40, 0, 0, 1000, "0s", 20, 20)) == HealthyMessage
    ensures HealthMessage(PoolStats(41, 0, 0, 1000, "0s", 20, 20)) == HeavyLoadMessage
  {
  }

  /** Halving rounds down: with 3 open connections, 2 idle closures are
      already "many" (2 > 3 / 2 == 1). */
  lemma IdleThresholdRoundsDown()
    ensures HealthMessage(PoolStats(3, 0, 0, 0, "0s", 2, 0)) == IdleClosedMessage
  {
  }
}
