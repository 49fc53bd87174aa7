/** The `iss_positions` table as an in-memory sequence of rows kept in
    strictly ascending timestamp order, and the SQL statements the service runs
    against it, each as a function of the rows. Ascending order makes the
    unique index on `timestamp` an invariant and gives `ORDER BY timestamp`
    for free. */
module PositionTable {
  import opened Wrappers
  import opened IssModel

  /** Rows in strictly ascending timestamp order: no two share a timestamp. */
  predicate Ascending(rows: seq<Position>) {
    forall i, j :: 0 <= i < j < |rows| ==> rows[i].timestamp < rows[j].timestamp
  }

  /** The unique index: the timestamp identifies the row. */
  lemma AscendingKeysUnique(rows: seq<Position>)
    requires Ascending(rows)
    ensures forall p, q :: p in rows && q in rows && p.timestamp == q.timestamp ==> p == q
  {
  }

  lemma AscendingCons(x: Position, rows: seq<Position>)
    requires Ascending(rows)
    requires forall q :: q in rows ==> x.timestamp < q.timestamp
    ensures Ascending([x] + rows)
  {
  }

  /** `WHERE timestamp = ts`: the row with that timestamp, if any. */
  function Find(rows: seq<Position>, ts: int): (r: Option<Position>)
    ensures r.Some? ==> r.value in rows && r.value.timestamp == ts
    ensures r.None? ==> forall q :: q in rows ==> q.timestamp != ts
  {
    if rows == [] then None
    else if rows[0].timestamp == ts then Some(rows[0])
    else Find(rows[1..], ts)
  }

  /** Adds a row whose timestamp is not yet present, at its place in the order. */
  function InsertSorted(rows: seq<Position>, p: Position): (r: seq<Position>)
    requires Ascending(rows)
    requires forall q :: q in rows ==> q.timestamp != p.timestamp
    ensures Ascending(r)
    ensures |r| == |rows| + 1
    ensures forall q :: q in r <==> q in rows || q == p
  {
    if rows == [] then [p]
    else if p.timestamp < rows[0].timestamp then
      AscendingCons(p, rows);
      [p] + rows
    else
      var rest := InsertSorted(rows[1..], p);
      AscendingCons(rows[0], rest);
      [rows[0]] + rest
  }

  /** Outcome of an insert-if-absent: the rows afterwards, the row the store
      holds for the timestamp, and whether a new row was created. */
  datatype Insertion = Insertion(rows: seq<Position>, stored: Position, created: bool)

  /** `FirstOrCreate` on `timestamp`: when a row with the sample's timestamp
      exists the table is left alone and that row is the answer; otherwise
      the sample is stored with the surrogate id `id`. */
  function InsertIfAbsent(rows: seq<Position>, p: Position, id: nat): (ins: Insertion)
    requires Ascending(rows)
    ensures Ascending(ins.rows)
    ensures ins.created <==> Find(rows, p.timestamp).None?
    ensures !ins.created ==> ins.rows == rows && Find(rows, p.timestamp) == Some(ins.stored)
    ensures ins.created ==> ins.stored == p.(id := id)
    ensures ins.created ==> |ins.rows| == |rows| + 1 && (forall q :: q in ins.rows <==> q in rows || q == ins.stored)
    ensures Find(ins.rows, p.timestamp) == Some(ins.stored)
  {
    match Find(rows, p.timestamp)
    case Some(existing) => Insertion(rows, existing, false)
    case None =>
      var stored := p.(id := id);
      var grown := InsertSorted(rows, stored);
      AscendingKeysUnique(grown);
      Insertion(grown, stored, true)
  }

  /** Inserting a second sample with a timestamp already stored changes
      nothing and reports that no row was created. */
  lemma InsertIfAbsentIdempotent(rows: seq<Position>, p: Position, q: Position, id1: nat, id2: nat)
    requires Ascending(rows)
    requires q.timestamp == p.timestamp
    ensures var first := InsertIfAbsent(rows, p, id1);
            var second := InsertIfAbsent(first.rows, q, id2);
            !second.created && second.rows == first.rows && second.stored == first.stored
  {
  }

  /** `ORDER BY timestamp desc LIMIT 1`. */
  function Latest(rows: seq<Position>): (r: Option<Position>)
    requires Ascending(rows)
    ensures r.Some? <==> rows != []
    ensures r.Some? ==> r.value in rows && forall q :: q in rows ==> q.timestamp <= r.value.timestamp
  {
    if rows == [] then None else Some(rows[|rows| - 1])
  }

  /** `ORDER BY timestamp asc LIMIT 1`. */
  function Oldest(rows: seq<Position>): (r: Option<Position>)
    requires Ascending(rows)
    ensures r.Some? <==> rows != []
    ensures r.Some? ==> r.value in rows && forall q :: q in rows ==> r.value.timestamp <= q.timestamp
  {
    if rows == [] then None else Some(rows[0])
  }

  /** `WHERE timestamp >= cutoff ORDER BY timestamp desc LIMIT 1`: the latest
      row, provided it is no older than `cutoff`. */
  function LatestSince(rows: seq<Position>, cutoff: int): (r: Option<Position>)
    requires Ascending(rows)
    ensures r.Some? ==> r.value in rows && r.value.timestamp >= cutoff
    ensures r.Some? ==> forall q :: q in rows ==> q.timestamp <= r.value.timestamp
    ensures r.None? ==> forall q :: q in rows ==> q.timestamp < cutoff
  {
    match Latest(rows)
    case Some(p) => if p.timestamp >= cutoff then Some(p) else None
    case None => None
  }

  function Distance(a: int, b: int): nat {
    if a >= b then a - b else b - a
  }

  /** `p` is at least as close to `center` as `q`, and on a tie the earlier
      of the two: the order `ORDER BY ABS(timestamp - center)` is completed
      with, since SQL leaves the tie unspecified. */
  predicate NoFartherThan(p: Position, q: Position, center: int) {
    Distance(p.timestamp, center) < Distance(q.timestamp, center)
    || (Distance(p.timestamp, center) == Distance(q.timestamp, center) && p.timestamp <= q.timestamp)
  }

  /** `WHERE timestamp BETWEEN center - tolerance AND center + tolerance
      ORDER BY ABS(timestamp - center) LIMIT 1`, ties going to the earlier
      timestamp. */
  function Nearest(rows: seq<Position>, center: int, tolerance: nat): (r: Option<Position>)
    requires Ascending(rows)
    ensures r.Some? ==> r.value in rows && Distance(r.value.timestamp, center) <= tolerance
    ensures r.Some? ==> forall q :: q in rows && Distance(q.timestamp, center) <= tolerance ==> NoFartherThan(r.value, q, center)
    ensures r.None? ==> forall q :: q in rows ==> Distance(q.timestamp, center) > tolerance
  {
    if rows == [] then None
    else
      var rest := Nearest(rows[1..], center, tolerance);
      var d := Distance(rows[0].timestamp, center);
      if d > tolerance then rest
      else if rest.None? || d <= Distance(rest.value.timestamp, center) then Some(rows[0])
      else rest
  }

  /** `WHERE timestamp BETWEEN lo AND hi ORDER BY timestamp asc`. */
  function Range(rows: seq<Position>, lo: int, hi: int): (r: seq<Position>)
    requires Ascending(rows)
    ensures Ascending(r)
    ensures forall q :: q in r <==> q in rows && lo <= q.timestamp <= hi
  {
    if rows == [] then []
    else
      var rest := Range(rows[1..], lo, hi);
      if lo <= rows[0].timestamp <= hi then
        AscendingCons(rows[0], rest);
        [rows[0]] + rest
      else rest
  }

  /** The rows that survive `DELETE ... WHERE timestamp < cutoff`: exactly
      those at or after `cutoff`, which, the rows being ordered, form a
      suffix of the table. */
  function Retain(rows: seq<Position>, cutoff: int): (r: seq<Position>)
    requires Ascending(rows)
    ensures Ascending(r)
    ensures forall q :: q in r <==> q in rows && q.timestamp >= cutoff
    ensures |r| <= |rows| && r == rows[|rows| - |r|..]
  {
    if rows == [] then []
    else if rows[0].timestamp >= cutoff then rows
    else
      var r := Retain(rows[1..], cutoff);
      assert rows[1..][|rows| - 1 - |r|..] == rows[|rows| - |r|..];
      r
  }
}
