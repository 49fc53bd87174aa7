/** The request guards and the error-to-status decisions of the ISS handlers.
    Each handler is split into a guard, which either rejects the request or
    yields the arguments for the service, and a reply function, which maps
    the service's outcome to a status. Writing JSON is not modelled. */
module IssHandlers {
  import opened Wrappers
  import opened IssModel
  import Decimal
  import Http
  import PositionTable
  import IssService

  const Kilometers := IssService.Kilometers
  const Miles := IssService.Miles
  /** The largest span a range request may cover, in seconds. */
  const MaxRangeSeconds := 24 * 3600
  /** The error text the handlers recognise as "out of the retention window". */
  const RetentionErrorText := "timestamp outside retention window " + "(4 hours back/forward)"

  /** An error response: status, short error and longer message. */
  datatype Rejection = Rejection(status: int, error: string, message: string)

  /** A guard either lets the request through to the service, with the
      service's arguments, or answers it at once. */
  datatype Guard<A> = Proceed(args: A) | Reject(rejection: Rejection)

  /** The response: 200 with a payload, or an error response. */
  datatype Reply<T> = Respond(payload: T) | Refuse(rejection: Rejection) {
    function Status(): int {
      if Respond? then Http.StatusOK else rejection.status
    }
  }

  datatype HistoricalArgs = HistoricalArgs(timestamp: int, units: string)
  datatype RangeArgs = RangeArgs(startTime: int, endTime: int, units: string)

  /** Every handler passes "miles" through and turns anything else, the empty
      string included, into "kilometers". */
  function NormalizeUnits(units: string): (u: string)
    ensures u == Miles || u == Kilometers
    ensures u == Miles <==> units == Miles
  {
    if units != Miles then Kilometers else units
  }

  // ---------------------------------------------------------------------
  // GET /iss/current

  function CurrentReply(result: Result<Position, string>): (reply: Reply<Position>)
    ensures reply.Status() == Http.StatusInternalServerError <==> result.Failure?
    ensures reply.Respond? <==> result.Success?
    ensures reply.Respond? ==> reply.payload == result.value
  {
    match result
    case Failure(e) => Refuse(Rejection(Http.StatusInternalServerError, "Failed to get current position", e))
    case Success(p) => Respond(p)
  }

  // ---------------------------------------------------------------------
  // GET /iss/historical/{timestamp} and POST /iss/historical

  /** The guard of the GET handler: the path segment must parse as a 64-bit
      decimal integer. */
  function HistoricalPathQuery(pathTimestamp: string, unitsQuery: string): (g: Guard<HistoricalArgs>)
    ensures g.Reject? <==> Decimal.ParseInt64(pathTimestamp).None?
    ensures g.Reject? ==> g.rejection.status == Http.StatusBadRequest
    ensures g.Proceed? ==> g.args.timestamp == Decimal.ParseInt64(pathTimestamp).value
    ensures g.Proceed? ==> g.args.units == NormalizeUnits(unitsQuery)
  {
    match Decimal.ParseInt64(pathTimestamp)
    case None =>
      Reject(Rejection(Http.StatusBadRequest, "Invalid timestamp", "Timestamp must be a valid Unix timestamp"))
    case Some(t) => Proceed(HistoricalArgs(t, NormalizeUnits(unitsQuery)))
  }

  /** Every 64-bit timestamp written in decimal reaches the service intact. */
  lemma HistoricalPathRoundTrip(t: int, unitsQuery: string)
    requires Decimal.Int64Min <= t <= Decimal.Int64Max
    ensures HistoricalPathQuery(Decimal.IntToString(t), unitsQuery)
            == Proceed(HistoricalArgs(t, NormalizeUnits(unitsQuery)))
  {
    Decimal.ParseIntToString(t);
  }

  /** The guard of the POST handler: the body must decode, and a zero
      timestamp counts as missing. */
  function PostHistoricalQuery(body: Result<HistoricalRequest, string>): (g: Guard<HistoricalArgs>)
    ensures body.Failure? ==> g == Reject(Rejection(Http.StatusBadRequest, "Invalid JSON", body.error))
    ensures body.Success? && body.value.timestamp == 0 ==>
              g == Reject(Rejection(Http.StatusBadRequest, "Missing timestamp", "Timestamp is required"))
    ensures g.Proceed? <==> body.Success? && body.value.timestamp != 0
    ensures g.Proceed? ==> g.args == HistoricalArgs(body.value.timestamp, NormalizeUnits(body.value.units))
  {
    match body
    case Failure(e) => Reject(Rejection(Http.StatusBadRequest, "Invalid JSON", e))
    case Success(req) =>
      if req.timestamp == 0 then
        Reject(Rejection(Http.StatusBadRequest, "Missing timestamp", "Timestamp is required"))
      else Proceed(HistoricalArgs(req.timestamp, NormalizeUnits(req.units)))
  }

  /** Shared by both historical handlers: the retention error, recognised by
      its exact text, is a 400; any other error a 500; no position a 404. */
  function HistoricalReply(result: Result<Option<Position>, string>): (reply: Reply<Position>)
    ensures reply.Status() == Http.StatusBadRequest <==> result == Failure(RetentionErrorText)
    ensures reply.Status() == Http.StatusInternalServerError <==>
              result.Failure? && result.error != RetentionErrorText
    ensures reply.Status() == Http.StatusNotFound <==> result == Success(None)
    ensures reply.Respond? <==> result.Success? && result.value.Some?
    ensures reply.Respond? ==> reply.payload == result.value.value
  {
    match result
    case Failure(e) =>
      if e == RetentionErrorText then
        Refuse(Rejection(Http.StatusBadRequest, "Timestamp out of range", e))
      else
        Refuse(Rejection(Http.StatusInternalServerError, "Failed to get historical position", e))
    case Success(None) =>
      Refuse(Rejection(Http.StatusNotFound, "Position not found", "No position data found for the specified timestamp"))
    case Success(Some(p)) => Respond(p)
  }

  /** The text match is sound for the errors the service produces: its
      retention error is recognised, and a wrapped upstream failure, whatever
      its detail, is not. */
  lemma ServiceErrorsClassified(detail: string)
    ensures HistoricalReply(Failure(IssService.RetentionError)).Status() == Http.StatusBadRequest
    ensures HistoricalReply(Failure(IssService.HistoricalFetchError + detail)).Status()
            == Http.StatusInternalServerError
  {
    var wrapped := IssService.HistoricalFetchError + detail;
    assert wrapped[0] == 'f';
    assert RetentionErrorText[0] == 't';
  }

  // ---------------------------------------------------------------------
  // GET /iss/range

  /** Go's `a - b` on 64-bit integers: the difference wrapped into range. */
  function Int64Sub(a: int, b: int): (d: int)
    ensures Decimal.Int64Min <= d <= Decimal.Int64Max
    ensures Decimal.Int64Min <= a - b <= Decimal.Int64Max ==> d == a - b
    ensures (a - b - d) % 0x1_0000_0000_0000_0000 == 0
  {
    (a - b - Decimal.Int64Min) % 0x1_0000_0000_0000_0000 + Decimal.Int64Min
  }

  /** The range guard as written: the span is computed with 64-bit
      subtraction, so a span too large for 64 bits wraps to a negative
      number and passes the 24-hour check. */
  function RangeQueryAsWritten(startStr: string, endStr: string, unitsQuery: string): (g: Guard<RangeArgs>)
    ensures startStr == "" || endStr == "" ==>
              g == Reject(Rejection(Http.StatusBadRequest, "Missing parameters", "Both start_time and end_time are required"))
    ensures g.Reject? ==> g.rejection.status == Http.StatusBadRequest
    ensures g.Proceed? <==>
              && startStr != "" && endStr != ""
              && Decimal.ParseInt64(startStr).Some? && Decimal.ParseInt64(endStr).Some?
              && Decimal.ParseInt64(startStr).value < Decimal.ParseInt64(endStr).value
              && Int64Sub(Decimal.ParseInt64(endStr).value, Decimal.ParseInt64(startStr).value) <= MaxRangeSeconds
    ensures g.Proceed? ==>
              && g.args == RangeArgs(Decimal.ParseInt64(startStr).value, Decimal.ParseInt64(endStr).value,
                                     NormalizeUnits(unitsQuery))
              && (g.args.endTime - g.args.startTime <= MaxRangeSeconds
                  || g.args.endTime - g.args.startTime > Decimal.Int64Max)
  {
    if startStr == "" || endStr == "" then
      Reject(Rejection(Http.StatusBadRequest, "Missing parameters", "Both start_time and end_time are required"))
    else match Decimal.ParseInt64(startStr)
      case None =>
        Reject(Rejection(Http.StatusBadRequest, "Invalid start_time", "start_time must be a valid Unix timestamp"))
      case Some(startTime) =>
        match Decimal.ParseInt64(endStr)
        case None =>
          Reject(Rejection(Http.StatusBadRequest, "Invalid end_time", "end_time must be a valid Unix timestamp"))
        case Some(endTime) =>
          if startTime >= endTime then
            Reject(Rejection(Http.StatusBadRequest, "Invalid time range", "start_time must be less than end_time"))
          else if Int64Sub(endTime, startTime) > MaxRangeSeconds then
            Reject(Rejection(Http.StatusBadRequest, "Time range too large", "Maximum time range is 24 hours"))
          else Proceed(RangeArgs(startTime, endTime, NormalizeUnits(unitsQuery)))
  }

  /** A request from the earliest 64-bit instant to 0 spans 2^63 seconds, yet
      the guard as written lets it through. */
  lemma RangeSpanCheckOverflows(unitsQuery: string)
    ensures var g := RangeQueryAsWritten(Decimal.IntToString(Decimal.Int64Min), Decimal.IntToString(0), unitsQuery);
            g.Proceed? && g.args.endTime - g.args.startTime > MaxRangeSeconds
  {
    Decimal.ParseIntToString(Decimal.Int64Min);
    Decimal.ParseIntToString(0);
    assert Int64Sub(0, Decimal.Int64Min) == Decimal.Int64Min;
  }

  /** The range guard as intended: missing bounds, unparsable bounds, an
      empty or inverted range and a span over 24 hours are each a 400,
      checked in that order; the span is the exact difference. */
  function RangeQuery(startStr: string, endStr: string, unitsQuery: string): (g: Guard<RangeArgs>)
    ensures startStr == "" || endStr == "" ==>
              g == Reject(Rejection(Http.StatusBadRequest, "Missing parameters", "Both start_time and end_time are required"))
    ensures g.Reject? ==> g.rejection.status == Http.StatusBadRequest
    ensures g.Proceed? <==>
              && startStr != "" && endStr != ""
              && Decimal.ParseInt64(startStr).Some? && Decimal.ParseInt64(endStr).Some?
              && Decimal.ParseInt64(startStr).value < Decimal.ParseInt64(endStr).value
              && Decimal.ParseInt64(endStr).value - Decimal.ParseInt64(startStr).value <= MaxRangeSeconds
    ensures g.Proceed? ==>
              g.args == RangeArgs(Decimal.ParseInt64(startStr).value, Decimal.ParseInt64(endStr).value,
                                  NormalizeUnits(unitsQuery))
  {
    if startStr == "" || endStr == "" then
      Reject(Rejection(Http.StatusBadRequest, "Missing parameters", "Both start_time and end_time are required"))
    else match Decimal.ParseInt64(startStr)
      case None =>
        Reject(Rejection(Http.StatusBadRequest, "Invalid start_time", "start_time must be a valid Unix timestamp"))
      case Some(startTime) =>
        match Decimal.ParseInt64(endStr)
        case None =>
          Reject(Rejection(Http.StatusBadRequest, "Invalid end_time", "end_time must be a valid Unix timestamp"))
        case Some(endTime) =>
          if startTime >= endTime then
            Reject(Rejection(Http.StatusBadRequest, "Invalid time range", "start_time must be less than end_time"))
          else if endTime - startTime > MaxRangeSeconds then
            Reject(Rejection(Http.StatusBadRequest, "Time range too large", "Maximum time range is 24 hours"))
          else Proceed(RangeArgs(startTime, endTime, NormalizeUnits(unitsQuery)))
  }

  /** Where the 64-bit difference cannot wrap, the guard as written and the
      intended guard agree. */
  lemma RangeQueryAsWrittenAgreesWithoutOverflow(startStr: string, endStr: string, unitsQuery: string)
    requires Decimal.ParseInt64(startStr).Some? && Decimal.ParseInt64(endStr).Some?
    requires Decimal.ParseInt64(endStr).value - Decimal.ParseInt64(startStr).value <= Decimal.Int64Max
    ensures RangeQueryAsWritten(startStr, endStr, unitsQuery) == RangeQuery(startStr, endStr, unitsQuery)
  {
  }

  /** A span of exactly 24 hours is accepted and one second more is not. */
  lemma RangeSpanBoundary(startTime: int, unitsQuery: string)
    requires Decimal.Int64Min <= startTime && startTime + MaxRangeSeconds + 1 <= Decimal.Int64Max
    ensures RangeQuery(Decimal.IntToString(startTime), Decimal.IntToString(startTime + MaxRangeSeconds), unitsQuery)
            == Proceed(RangeArgs(startTime, startTime + MaxRangeSeconds, NormalizeUnits(unitsQuery)))
    ensures RangeQuery(Decimal.IntToString(startTime), Decimal.IntToString(startTime + MaxRangeSeconds + 1), unitsQuery)
            == Reject(Rejection(Http.StatusBadRequest, "Time range too large", "Maximum time range is 24 hours"))
  {
    Decimal.ParseIntToString(startTime);
    Decimal.ParseIntToString(startTime + MaxRangeSeconds);
    Decimal.ParseIntToString(startTime + MaxRangeSeconds + 1);
  }

  function RangeReply(result: Result<seq<Position>, string>): (reply: Reply<seq<Position>>)
    ensures reply.Status() == Http.StatusInternalServerError <==> result.Failure?
    ensures reply.Respond? <==> result.Success?
    ensures reply.Respond? ==> reply.payload == result.value
  {
    match result
    case Failure(e) => Refuse(Rejection(Http.StatusInternalServerError, "Failed to get positions", e))
    case Success(ps) => Respond(ps)
  }

  // ---------------------------------------------------------------------
  // The handlers end to end, over the service

  /** What a historical handler answers for `args` once its guard has let the
      request through, with the table `rows`/`nextId` before the call and
      `rows'`/`nextId'` after it: a 400 outside the 4-hour window; the
      nearest stored sample within 60 s, converted; otherwise one provider
      request, whose failure is a 500 and whose sample is stored and
      returned. */
  predicate HistoricalAnswer(rows: seq<Position>, nextId: nat, rows': seq<Position>, nextId': nat,
                             args: HistoricalArgs, now: int, upstream: string -> Http.Reply<PositionResponse>,
                             reply: Reply<Position>, requested: seq<string>)
  {
    var units := IssService.DefaultUnits(args.units);
    if args.timestamp < now - IssService.HistoricalWindow || args.timestamp > now + IssService.HistoricalWindow then
      reply == Refuse(Rejection(Http.StatusBadRequest, "Timestamp out of range", RetentionErrorText))
      && requested == [] && rows' == rows && nextId' == nextId
    else
      && PositionTable.Ascending(rows)
      && var hit := PositionTable.Nearest(rows, args.timestamp, IssService.NearestTolerance);
         if hit.Some? then
           reply == Respond(IssService.Convert(hit.value, units))
           && requested == [] && rows' == rows && nextId' == nextId
         else
           var url := IssService.ProviderUrl(args.timestamp, units);
           var fetched := IssService.FetchFromApi(upstream(url));
           && requested == [url]
           && match fetched
              case Failure(e) =>
                reply == Refuse(Rejection(Http.StatusInternalServerError, "Failed to get historical position",
                                          IssService.HistoricalFetchError + e))
                && rows' == rows && nextId' == nextId
              case Success(p) =>
                var ins := PositionTable.InsertIfAbsent(rows, p, nextId);
                reply == Respond(ins.stored) && rows' == ins.rows
                && nextId' == if ins.created then nextId + 1 else nextId
  }

  /** Once past its guard, a historical request gets a 400 exactly when it is
      outside the window; inside it, a 200 or a 500, never a 404. */
  lemma HistoricalAnswerStatus(rows: seq<Position>, nextId: nat, rows': seq<Position>, nextId': nat,
                               args: HistoricalArgs, now: int, upstream: string -> Http.Reply<PositionResponse>,
                               reply: Reply<Position>, requested: seq<string>)
    requires HistoricalAnswer(rows, nextId, rows', nextId', args, now, upstream, reply, requested)
    ensures reply.Status() == Http.StatusBadRequest <==>
              args.timestamp < now - IssService.HistoricalWindow || args.timestamp > now + IssService.HistoricalWindow
    ensures reply.Status() == Http.StatusOK || reply.Status() == Http.StatusBadRequest
            || reply.Status() == Http.StatusInternalServerError
    ensures reply.Respond? ==> |requested| <= 1
  {
  }

  /** The part both historical handlers share: call the service and map its
      outcome. A timestamp outside the 4-hour window is a 400 without any
      store or upstream access. The service never answers "no position", so
      there is no 404. */
  method AnswerHistorical(cache: IssService.PositionCache, args: HistoricalArgs, now: int,
                          upstream: string -> Http.Reply<PositionResponse>)
    returns (reply: Reply<Position>, requested: seq<string>)
    requires cache.Valid()
    modifies cache
    ensures cache.Valid()
    ensures args.timestamp < now - IssService.HistoricalWindow || args.timestamp > now + IssService.HistoricalWindow ==>
              reply == Refuse(Rejection(Http.StatusBadRequest, "Timestamp out of range", RetentionErrorText))
              && requested == [] && cache.rows == old(cache.rows) && cache.nextId == old(cache.nextId)
    ensures reply.Status() != Http.StatusNotFound
    ensures HistoricalAnswer(old(cache.rows), old(cache.nextId), cache.rows, cache.nextId,
                             args, now, upstream, reply, requested)
  {
    var result;
    result, requested := cache.GetHistoricalPosition(args.timestamp, args.units, now, upstream);
    var found: Result<Option<Position>, string> := match result
      case Success(p) => Success(Some(p))
      case Failure(e) => Failure(e);
    if result.Failure? {
      ServiceErrorsClassified(if |result.error| >= |IssService.HistoricalFetchError|
                              then result.error[|IssService.HistoricalFetchError|..] else "");
    }
    reply := HistoricalReply(found);
  }

  /** `GetHistoricalPosition`: an unparsable path is a 400 and the service is
      not called. */
  method GetHistoricalPosition(cache: IssService.PositionCache, pathTimestamp: string, unitsQuery: string,
                               now: int, upstream: string -> Http.Reply<PositionResponse>)
    returns (reply: Reply<Position>, requested: seq<string>)
    requires cache.Valid()
    modifies cache
    ensures cache.Valid()
    ensures Decimal.ParseInt64(pathTimestamp).None? ==>
              reply.Status() == Http.StatusBadRequest && requested == []
              && cache.rows == old(cache.rows) && cache.nextId == old(cache.nextId)
    ensures var t := Decimal.ParseInt64(pathTimestamp);
            t.Some? && (t.value < now - IssService.HistoricalWindow || t.value > now + IssService.HistoricalWindow) ==>
              reply == Refuse(Rejection(Http.StatusBadRequest, "Timestamp out of range", RetentionErrorText))
              && requested == [] && cache.rows == old(cache.rows) && cache.nextId == old(cache.nextId)
    ensures reply.Status() != Http.StatusNotFound
    ensures var guard := HistoricalPathQuery(pathTimestamp, unitsQuery);
            guard.Proceed? ==>
              HistoricalAnswer(old(cache.rows), old(cache.nextId), cache.rows, cache.nextId,
                               guard.args, now, upstream, reply, requested)
  {
    var guard := HistoricalPathQuery(pathTimestamp, unitsQuery);
    if guard.Reject? {
      return Refuse(guard.rejection), [];
    }
    reply, requested := AnswerHistorical(cache, guard.args, now, upstream);
  }

  /** `PostHistoricalRequest`: an undecodable body or a zero timestamp is a
      400 and the service is not called. */
  method PostHistoricalRequest(cache: IssService.PositionCache, body: Result<HistoricalRequest, string>,
                               now: int, upstream: string -> Http.Reply<PositionResponse>)
    returns (reply: Reply<Position>, requested: seq<string>)
    requires cache.Valid()
    modifies cache
    ensures cache.Valid()
    ensures PostHistoricalQuery(body).Reject? ==>
              reply == Refuse(PostHistoricalQuery(body).rejection) && requested == []
              && cache.rows == old(cache.rows) && cache.nextId == old(cache.nextId)
    ensures body.Success? && body.value.timestamp != 0
            && (body.value.timestamp < now - IssService.HistoricalWindow
                || body.value.timestamp > now + IssService.HistoricalWindow) ==>
              reply == Refuse(Rejection(Http.StatusBadRequest, "Timestamp out of range", RetentionErrorText))
              && requested == [] && cache.rows == old(cache.rows) && cache.nextId == old(cache.nextId)
    ensures reply.Status() != Http.StatusNotFound
    ensures var guard := PostHistoricalQuery(body);
            guard.Proceed? ==>
              HistoricalAnswer(old(cache.rows), old(cache.nextId), cache.rows, cache.nextId,
                               guard.args, now, upstream, reply, requested)
  {
    var guard := PostHistoricalQuery(body);
    if guard.Reject? {
      return Refuse(guard.rejection), [];
    }
    reply, requested := AnswerHistorical(cache, guard.args, now, upstream);
  }

  /** `GetPositionsInRange`: a request the guard accepts is answered with
      exactly the stored samples of the range, ascending and converted; one
      it rejects gets a 400. */
  method GetPositionsInRange(cache: IssService.PositionCache, startStr: string, endStr: string, unitsQuery: string)
    returns (reply: Reply<seq<Position>>)
    requires cache.Valid()
    ensures reply.Respond? <==> RangeQuery(startStr, endStr, unitsQuery).Proceed?
    ensures reply.Refuse? ==> reply.Status() == Http.StatusBadRequest
    ensures reply.Respond? ==>
              var args := RangeQuery(startStr, endStr, unitsQuery).args;
              (forall i, j :: 0 <= i < j < |reply.payload| ==> reply.payload[i].timestamp < reply.payload[j].timestamp)
              && (forall k :: 0 <= k < |reply.payload| ==>
                    args.startTime <= reply.payload[k].timestamp <= args.endTime)
              && (forall q :: q in cache.rows && args.startTime <= q.timestamp <= args.endTime ==>
                    IssService.Convert(q, args.units) in reply.payload)
    ensures reply.Respond? ==>
              var args := RangeQuery(startStr, endStr, unitsQuery).args;
              var found := PositionTable.Range(cache.rows, args.startTime, args.endTime);
              |reply.payload| == |found|
              && forall k :: 0 <= k < |found| ==> reply.payload[k] == IssService.Convert(found[k], args.units)
  {
    var guard := RangeQuery(startStr, endStr, unitsQuery);
    if guard.Reject? {
      return Refuse(guard.rejection);
    }
    var positions := cache.GetPositionsInRange(guard.args.startTime, guard.args.endTime, guard.args.units);
    reply := RangeReply(Success(positions));
  }
}
