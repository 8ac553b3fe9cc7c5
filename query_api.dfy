/** The request handling of the query service (apps/query-api/src/index.ts):
    the validation of `GET /api/metrics/errors` and `GET /api/errors/groups`
    with its early 400 replies, and the rows the two SELECT statements return.

    The JavaScript built-ins the handlers call are parameters: `parseDate`
    stands for `new Date(text).getTime()` (None for an invalid date) and
    `toNumber` for `Number(text)`. The tables are sequences of rows. */
module QueryApi {
  import opened Wrappers
  import opened Rows

  /** A JavaScript number as `Number(text)` can produce it. */
  datatype JsNumber = NaN | Infinity(negative: bool) | Finite(value: real)

  /** Milliseconds since the epoch, what `getTime()` gives for a valid Date. */
  type Timestamp = int

  const RequiredParamsError: string := "project_id, from and to are required"
  const InvalidDatesError: string := "from and to must be valid ISO timestamps"
  const DateOrderError: string := "`from` must be earlier than `to`"
  const ProjectRequiredError: string := "project_id is required"
  const LimitError: string := "limit must be a number between 1 and 100"
  const DefaultLimit: nat := 20
  const MaxLimit: nat := 100

  /** What a handler sends: the `data` rows, or a 400 reply with its message.
      `LeftToDatabase` stands for a SELECT sent with a LIMIT that is not a
      whole number: the reply then depends on the database. */
  datatype Response<T> = Ok(data: seq<T>) | BadRequest(error: string) | LeftToDatabase(limit: real)

  /** JavaScript truthiness of an optional query parameter: an absent
      parameter and the empty string are falsy, every other string truthy. */
  predicate Given(param: Option<string>): (given: bool)
    ensures given <==> param.Some? && |param.value| > 0
  {
    param.Some? && param.value != ""
  }

  // ---------------------------------------------------------------------
  // GET /api/metrics/errors
  // ---------------------------------------------------------------------

  datatype MetricsQuery = MetricsQuery(projectId: Option<string>, from: Option<string>, to: Option<string>)

  /** A request that passed validation: the project and the parsed window. */
  datatype MetricsRequest = MetricsRequest(projectId: string, from: Timestamp, to: Timestamp)

  /** A row of the metrics_minute table. */
  datatype MinuteMetricRow = MinuteMetricRow(projectId: string, minute: Timestamp, errorCount: int)

  /** The columns the metrics SELECT returns. */
  datatype MinutePoint = MinutePoint(minute: Timestamp, errorCount: int)

  /** The three checks in order: required parameters, parsable dates, then
      `from` strictly before `to`. */
  function ValidateMetrics(q: MetricsQuery, parseDate: string -> Option<Timestamp>): (r: Result<MetricsRequest, string>)
    ensures r.Success? ==>
      && Given(q.projectId) && Given(q.from) && Given(q.to)
      && r.value.projectId == q.projectId.value
      && parseDate(q.from.value) == Some(r.value.from)
      && parseDate(q.to.value) == Some(r.value.to)
      && r.value.from < r.value.to
    ensures r.Failure? ==> r.error in {RequiredParamsError, InvalidDatesError, DateOrderError}
  {
    if !Given(q.projectId) || !Given(q.from) || !Given(q.to) then
      Failure(RequiredParamsError)
    else
      var fromDate := parseDate(q.from.value);
      var toDate := parseDate(q.to.value);
      if fromDate.None? || toDate.None? then
        Failure(InvalidDatesError)
      else if fromDate.value >= toDate.value then
        Failure(DateOrderError)
      else
        Success(MetricsRequest(q.projectId.value, fromDate.value, toDate.value))
  }

  /** A missing or empty parameter is rejected with the "required" message
      whatever the dates would parse to: the required check comes first. */
  lemma MetricsRequiredCheckedFirst(q: MetricsQuery, parse1: string -> Option<Timestamp>,
                                    parse2: string -> Option<Timestamp>)
    requires !Given(q.projectId) || !Given(q.from) || !Given(q.to)
    ensures ValidateMetrics(q, parse1) == ValidateMetrics(q, parse2) == Failure(RequiredParamsError)
  {
  }

  /** With all three parameters given, a date that does not parse is rejected
      with the date message, before the order of the dates is looked at. */
  lemma MetricsInvalidDateRejected(q: MetricsQuery, parseDate: string -> Option<Timestamp>)
    requires Given(q.projectId) && Given(q.from) && Given(q.to)
    requires parseDate(q.from.value).None? || parseDate(q.to.value).None?
    ensures ValidateMetrics(q, parseDate) == Failure(InvalidDatesError)
  {
  }

  /** Valid dates with `from >= to` are rejected with the order message. */
  lemma MetricsEmptyWindowRejected(q: MetricsQuery, parseDate: string -> Option<Timestamp>)
    requires Given(q.projectId) && Given(q.from) && Given(q.to)
    requires parseDate(q.from.value).Some? && parseDate(q.to.value).Some?
    requires parseDate(q.from.value).value >= parseDate(q.to.value).value
    ensures ValidateMetrics(q, parseDate) == Failure(DateOrderError)
  {
  }

  /** A metrics request is accepted exactly when all three parameters are
      given, both dates parse and `from` is strictly earlier than `to`. */
  lemma MetricsAcceptedExactly(q: MetricsQuery, parseDate: string -> Option<Timestamp>)
    ensures ValidateMetrics(q, parseDate).Success? <==>
      && Given(q.projectId) && Given(q.from) && Given(q.to)
      && parseDate(q.from.value).Some? && parseDate(q.to.value).Some?
      && parseDate(q.from.value).value < parseDate(q.to.value).value
  {
  }

  /** The WHERE clause of the metrics SELECT: a row of the project whose
      minute lies in the half-open window [from, to). An empty or reversed
      window admits no row. */
  predicate InWindow(row: MinuteMetricRow, projectId: string, from: Timestamp, to: Timestamp): (holds: bool)
    ensures holds ==> row.projectId == projectId
    ensures holds ==> from <= row.minute < to
    ensures to <= from ==> !holds
    ensures from <= row.minute < to ==> (holds <==> row.projectId == projectId)
  {
    row.projectId == projectId && from <= row.minute < to
  }

  /** What the SQL standard allows the metrics SELECT to return: the rows of
      the project in the half-open window [from, to), each as often as in the
      table, in ascending minute order. */
  ghost predicate IsMinuteWindowAnswer(table: seq<MinuteMetricRow>, projectId: string, from: Timestamp, to: Timestamp,
                                 answer: seq<MinuteMetricRow>)
  {
    && (forall i :: 0 <= i < |answer| ==> InWindow(answer[i], projectId, from, to))
    && (forall i, j :: 0 <= i < j < |answer| ==> answer[i].minute <= answer[j].minute)
    && (forall x :: multiset(answer)[x] == if InWindow(x, projectId, from, to) then multiset(table)[x] else 0)
  }

  /** `WHERE project_id = $1 AND minute >= $2 AND minute < $3 ORDER BY minute ASC`. */
  function SelectMinuteMetrics(table: seq<MinuteMetricRow>, projectId: string, from: Timestamp, to: Timestamp)
    : (rows: seq<MinuteMetricRow>)
    ensures IsMinuteWindowAnswer(table, projectId, from, to, rows)
  {
    var matching := Filter(table, (row: MinuteMetricRow) => InWindow(row, projectId, from, to));
    var rows := SortBy(matching, (row: MinuteMetricRow) => row.minute);
    assert forall x :: multiset(rows)[x] == multiset(matching)[x];
    assert forall i :: 0 <= i < |rows| ==> rows[i] in multiset(matching);
    rows
  }

  /** (project_id, minute) identifies a row of metrics_minute. */
  predicate MinuteKeyed(table: seq<MinuteMetricRow>)
  {
    forall i, j :: 0 <= i < j < |table| && table[i].projectId == table[j].projectId
      ==> table[i].minute != table[j].minute
  }

  /** When (project_id, minute) is a key of the table, ORDER BY minute leaves
      no choice: every answer the SQL semantics allows is the modelled one. */
  lemma MinuteWindowAnswerUnique(table: seq<MinuteMetricRow>, projectId: string, from: Timestamp, to: Timestamp,
                                 answer: seq<MinuteMetricRow>)
    requires MinuteKeyed(table)
    requires IsMinuteWindowAnswer(table, projectId, from, to, answer)
    ensures answer == SelectMinuteMetrics(table, projectId, from, to)
  {
    var rows := SelectMinuteMetrics(table, projectId, from, to);
    var key := (row: MinuteMetricRow) => row.minute;
    assert multiset(answer) == multiset(rows);
    forall i, j | 0 <= i < j < |answer| ensures key(answer[i]) != key(answer[j]) {
      WindowRowsDistinct(table, projectId, from, to, answer, i, j);
    }
    SortedPermutationUnique(answer, rows, key);
  }

  /** Two positions of an answer hold rows with different minutes when the
      table is keyed by (project_id, minute). */
  lemma WindowRowsDistinct(table: seq<MinuteMetricRow>, projectId: string, from: Timestamp, to: Timestamp,
                           answer: seq<MinuteMetricRow>, i: nat, j: nat)
    requires MinuteKeyed(table)
    requires IsMinuteWindowAnswer(table, projectId, from, to, answer)
    requires i < j < |answer|
    ensures answer[i].minute != answer[j].minute
  {
    var x, y := answer[i], answer[j];
    if x == y {
      CountsRepeat(answer, i, j);
      OccursTwice(table, x);
    } else {
      assert x in multiset(answer) && y in multiset(answer);
      assert x in multiset(table) && y in multiset(table);
      var p :| 0 <= p < |table| && table[p] == x;
      var q :| 0 <= q < |table| && table[q] == y;
      assert p != q;
    }
  }

  /** The columns the metrics SELECT returns, row by row. */
  function Points(rows: seq<MinuteMetricRow>): (points: seq<MinutePoint>)
    ensures |points| == |rows|
    ensures forall i :: 0 <= i < |rows| ==> points[i] == MinutePoint(rows[i].minute, rows[i].errorCount)
  {
    seq(|rows|, i requires 0 <= i < |rows| => MinutePoint(rows[i].minute, rows[i].errorCount))
  }

  /** The metrics handler: a 400 reply with the first failed check's message,
      or the minute and error count of every selected row. */
  function HandleMetrics(q: MetricsQuery, parseDate: string -> Option<Timestamp>, table: seq<MinuteMetricRow>)
    : (resp: Response<MinutePoint>)
    ensures resp.BadRequest? <==> ValidateMetrics(q, parseDate).Failure?
    ensures resp.Ok? <==> ValidateMetrics(q, parseDate).Success?
    ensures resp.BadRequest? ==> resp.error == ValidateMetrics(q, parseDate).error
    ensures resp.Ok? ==>
      var req := ValidateMetrics(q, parseDate).value;
      && (forall i :: 0 <= i < |resp.data| ==> req.from <= resp.data[i].minute < req.to)
      && (forall i, j :: 0 <= i < j < |resp.data| ==> resp.data[i].minute <= resp.data[j].minute)
    ensures resp.Ok? ==>
      var req := ValidateMetrics(q, parseDate).value;
      resp.data == Points(SelectMinuteMetrics(table, req.projectId, req.from, req.to))
  {
    match ValidateMetrics(q, parseDate)
    case Failure(message) => BadRequest(message)
    case Success(req) =>
      Ok(Points(SelectMinuteMetrics(table, req.projectId, req.from, req.to)))
  }

  // ---------------------------------------------------------------------
  // GET /api/errors/groups
  // ---------------------------------------------------------------------

  datatype GroupsQuery = GroupsQuery(projectId: Option<string>, limit: Option<string>)

  /** A request that passed validation: the project and a whole-number limit. */
  datatype GroupsRequest = GroupsRequest(projectId: string, limit: nat)

  /** A row of the error_groups table. */
  datatype ErrorGroupRow = ErrorGroupRow(projectId: string, fingerprint: string, occurrenceCount: int,
                                         firstSeen: Timestamp, lastSeen: Timestamp)

  /** The columns the groups SELECT returns. */
  datatype GroupSummary = GroupSummary(fingerprint: string, occurrenceCount: int,
                                       firstSeen: Timestamp, lastSeen: Timestamp)

  /** `limit ? Number(limit) : 20`. */
  function LimitValue(limit: Option<string>, toNumber: string -> JsNumber): (n: JsNumber)
    ensures !Given(limit) ==> n == Finite(DefaultLimit as real)
  {
    if Given(limit) then toNumber(limit.value) else Finite(DefaultLimit as real)
  }

  /** JavaScript `n <= bound` for a finite bound: false for NaN, true for
      -Infinity, false for +Infinity. */
  predicate AtMost(n: JsNumber, bound: real): (holds: bool)
    ensures n.NaN? ==> !holds
    ensures n.Infinity? ==> (holds <==> n.negative)
    ensures n.Finite? ==> (holds <==> n.value <= bound)
  {
    match n
    case NaN => false
    case Infinity(negative) => negative
    case Finite(v) => v <= bound
  }

  /** JavaScript `n > bound` for a finite bound: false for NaN, and otherwise
      exactly the negation of `n <= bound`. */
  predicate Exceeds(n: JsNumber, bound: real): (holds: bool)
    ensures n.NaN? ==> !holds
    ensures !n.NaN? ==> (holds <==> !AtMost(n, bound))
  {
    match n
    case NaN => false
    case Infinity(negative) => !negative
    case Finite(v) => v > bound
  }

  /** The limit check as the handler writes it: NaN, `<= 0` or `> 100` is
      rejected. Any other number passes, fractions included. */
  function CheckLimitAsWritten(limit: Option<string>, toNumber: string -> JsNumber): (r: Result<real, string>)
    ensures r.Success? <==>
              (LimitValue(limit, toNumber).Finite? && 0.0 < LimitValue(limit, toNumber).value <= MaxLimit as real)
    ensures r.Success? ==> LimitValue(limit, toNumber) == Finite(r.value)
    ensures r.Failure? ==> r.error == LimitError
  {
    var parsedLimit := LimitValue(limit, toNumber);
    if parsedLimit.NaN? || AtMost(parsedLimit, 0.0) || Exceeds(parsedLimit, MaxLimit as real) then
      Failure(LimitError)
    else
      Success(parsedLimit.value)
  }

  /** The limit check the reply message describes: a whole number from 1 to
      100. It accepts exactly the whole numbers the written check accepts. */
  function CheckLimit(limit: Option<string>, toNumber: string -> JsNumber): (r: Result<nat, string>)
    ensures r.Success? ==> 1 <= r.value <= MaxLimit && LimitValue(limit, toNumber) == Finite(r.value as real)
    ensures r.Success? <==>
              (CheckLimitAsWritten(limit, toNumber).Success?
               && CheckLimitAsWritten(limit, toNumber).value.Floor as real == CheckLimitAsWritten(limit, toNumber).value)
    ensures r.Failure? ==> r.error == LimitError
  {
    var parsedLimit := LimitValue(limit, toNumber);
    if parsedLimit.Finite? && parsedLimit.value.Floor as real == parsedLimit.value
       && 1 <= parsedLimit.value.Floor <= MaxLimit then
      Success(parsedLimit.value.Floor as nat)
    else
      Failure(LimitError)
  }

  /** The written check lets a fractional limit through, although its reply
      says the limit must lie between 1 and 100: "0.5" and "2.5" pass it. */
  lemma FractionalLimitPassesAsWritten(toNumber: string -> JsNumber)
    requires toNumber("0.5") == Finite(0.5) && toNumber("2.5") == Finite(2.5)
    ensures CheckLimitAsWritten(Some("0.5"), toNumber) == Success(0.5)
    ensures CheckLimitAsWritten(Some("2.5"), toNumber) == Success(2.5)
    ensures CheckLimit(Some("0.5"), toNumber) == Failure(LimitError)
    ensures CheckLimit(Some("2.5"), toNumber) == Failure(LimitError)
  {
  }

  /** The groups validation with the corrected limit check: the project
      first, then a whole-number limit from 1 to 100. */
  function ValidateGroups(q: GroupsQuery, toNumber: string -> JsNumber): (r: Result<GroupsRequest, string>)
    ensures !Given(q.projectId) ==> r == Failure(ProjectRequiredError)
    ensures Given(q.projectId) ==> (r.Success? <==> CheckLimit(q.limit, toNumber).Success?)
    ensures r.Success? ==> Given(q.projectId) && r.value.projectId == q.projectId.value
                           && 1 <= r.value.limit <= MaxLimit
                           && LimitValue(q.limit, toNumber) == Finite(r.value.limit as real)
    ensures r.Failure? ==> r.error in {ProjectRequiredError, LimitError}
    ensures Given(q.projectId) && r.Failure? ==> r.error == LimitError
    ensures Given(q.projectId) && !Given(q.limit) ==> r == Success(GroupsRequest(q.projectId.value, DefaultLimit))
  {
    if !Given(q.projectId) then
      Failure(ProjectRequiredError)
    else
      match CheckLimit(q.limit, toNumber)
      case Failure(message) => Failure(message)
      case Success(limit) => Success(GroupsRequest(q.projectId.value, limit))
  }

  /** A missing or empty project is rejected whatever the limit is. */
  lemma GroupsProjectCheckedFirst(q: GroupsQuery, toNumber1: string -> JsNumber, toNumber2: string -> JsNumber)
    requires !Given(q.projectId)
    ensures ValidateGroups(q, toNumber1) == ValidateGroups(q, toNumber2) == Failure(ProjectRequiredError)
  {
  }

  /** A request that passed the groups validation as written: the limit is
      any number in (0, 100]. */
  datatype GroupsRequestAsWritten = GroupsRequestAsWritten(projectId: string, limit: real)

  /** The groups validation as the handler writes it: the project first,
      then the limit check that lets fractions through. */
  function ValidateGroupsAsWritten(q: GroupsQuery, toNumber: string -> JsNumber)
    : (r: Result<GroupsRequestAsWritten, string>)
    ensures !Given(q.projectId) ==> r == Failure(ProjectRequiredError)
    ensures Given(q.projectId) ==> (r.Success? <==> CheckLimitAsWritten(q.limit, toNumber).Success?)
    ensures r.Success? ==> Given(q.projectId) && r.value.projectId == q.projectId.value
                           && 0.0 < r.value.limit <= MaxLimit as real
                           && LimitValue(q.limit, toNumber) == Finite(r.value.limit)
    ensures r.Failure? ==> r.error in {ProjectRequiredError, LimitError}
    ensures Given(q.projectId) && r.Failure? ==> r.error == LimitError
    ensures Given(q.projectId) && !Given(q.limit) ==>
              r == Success(GroupsRequestAsWritten(q.projectId.value, DefaultLimit as real))
  {
    if !Given(q.projectId) then
      Failure(ProjectRequiredError)
    else
      match CheckLimitAsWritten(q.limit, toNumber)
      case Failure(message) => Failure(message)
      case Success(limit) => Success(GroupsRequestAsWritten(q.projectId.value, limit))
  }

  /** The corrected validation accepts exactly the requests the written one
      accepts with a whole-number limit, and with the same project and limit. */
  lemma ValidateGroupsNarrowsAsWritten(q: GroupsQuery, toNumber: string -> JsNumber)
    ensures ValidateGroups(q, toNumber).Success? <==>
              (ValidateGroupsAsWritten(q, toNumber).Success?
               && ValidateGroupsAsWritten(q, toNumber).value.limit.Floor as real
                  == ValidateGroupsAsWritten(q, toNumber).value.limit)
    ensures ValidateGroups(q, toNumber).Success? ==>
              ValidateGroupsAsWritten(q, toNumber).value
              == GroupsRequestAsWritten(ValidateGroups(q, toNumber).value.projectId,
                                        ValidateGroups(q, toNumber).value.limit as real)
  {
  }

  /** `WHERE project_id = $1 ORDER BY occurrence_count DESC LIMIT $2`: at most
      `limit` rows of the project, most frequent first, and no row of the
      project left out counts more than a returned one. With fewer than
      `limit` rows returned, every row of the project is returned. Among rows
      with equal counts SQL fixes no order; the model keeps table order. */
  function SelectErrorGroups(table: seq<ErrorGroupRow>, projectId: string, limit: nat): (rows: seq<ErrorGroupRow>)
    ensures |rows| <= limit
    ensures forall i :: 0 <= i < |rows| ==> rows[i].projectId == projectId
    ensures forall i, j :: 0 <= i < j < |rows| ==> rows[i].occurrenceCount >= rows[j].occurrenceCount
    ensures multiset(rows) <= multiset(table)
    ensures forall x, i :: x in multiset(table) - multiset(rows) && x.projectId == projectId && 0 <= i < |rows|
              ==> x.occurrenceCount <= rows[i].occurrenceCount
    ensures |rows| < limit ==>
              forall x: ErrorGroupRow :: x.projectId == projectId ==> multiset(rows)[x] == multiset(table)[x]
  {
    var ofProject := Filter(table, (row: ErrorGroupRow) => row.projectId == projectId);
    var byCount := SortBy(ofProject, (row: ErrorGroupRow) => -row.occurrenceCount);
    var rows := Take(byCount, limit);
    assert forall x :: multiset(byCount)[x] == if x.projectId == projectId then multiset(table)[x] else 0;
    SelectedRowsOfProject(table, projectId, byCount, rows);
    MostFrequentFirst(byCount, rows);
    LeftOutCountNoMore(table, projectId, byCount, limit);
    rows
  }

  /** Rows drawn from the project's rows belong to the project and to the table. */
  lemma SelectedRowsOfProject(table: seq<ErrorGroupRow>, projectId: string,
                              byCount: seq<ErrorGroupRow>, rows: seq<ErrorGroupRow>)
    requires forall x :: multiset(byCount)[x] == if x.projectId == projectId then multiset(table)[x] else 0
    requires rows <= byCount
    ensures forall i :: 0 <= i < |rows| ==> rows[i].projectId == projectId
    ensures multiset(rows) <= multiset(table)
  {
    var k := |rows|;
    assert byCount == rows + byCount[k..];
    assert multiset(byCount) == multiset(rows) + multiset(byCount[k..]);
    forall i | 0 <= i < k ensures rows[i].projectId == projectId {
      assert rows[i] in multiset(byCount);
    }
  }

  /** A prefix of rows sorted by descending count is itself in descending count order. */
  lemma MostFrequentFirst(byCount: seq<ErrorGroupRow>, rows: seq<ErrorGroupRow>)
    requires SortedBy(byCount, (row: ErrorGroupRow) => -row.occurrenceCount)
    requires rows <= byCount
    ensures forall i, j :: 0 <= i < j < |rows| ==> rows[i].occurrenceCount >= rows[j].occurrenceCount
  {
  }

  /** No row of the project that LIMIT cut off counts more than a returned row. */
  lemma LeftOutCountNoMore(table: seq<ErrorGroupRow>, projectId: string, byCount: seq<ErrorGroupRow>, limit: nat)
    requires forall x :: multiset(byCount)[x] == if x.projectId == projectId then multiset(table)[x] else 0
    requires SortedBy(byCount, (row: ErrorGroupRow) => -row.occurrenceCount)
    ensures var rows := Take(byCount, limit);
      forall x, i :: x in multiset(table) - multiset(rows) && x.projectId == projectId && 0 <= i < |rows|
        ==> x.occurrenceCount <= rows[i].occurrenceCount
  {
    var key := (row: ErrorGroupRow) => -row.occurrenceCount;
    var rows := Take(byCount, limit);
    TakeOfSortedIsSmallest(byCount, key, limit);
    forall x, i | x in multiset(table) - multiset(rows) && x.projectId == projectId && 0 <= i < |rows|
      ensures x.occurrenceCount <= rows[i].occurrenceCount
    {
      assert x in multiset(byCount) - multiset(rows);
      assert key(rows[i]) <= key(x);
    }
  }

  /** The columns the groups SELECT returns, row by row. */
  function Summaries(rows: seq<ErrorGroupRow>): (summaries: seq<GroupSummary>)
    ensures |summaries| == |rows|
    ensures forall i :: 0 <= i < |rows| ==>
              summaries[i] == GroupSummary(rows[i].fingerprint, rows[i].occurrenceCount,
                                           rows[i].firstSeen, rows[i].lastSeen)
  {
    seq(|rows|, i requires 0 <= i < |rows| =>
      GroupSummary(rows[i].fingerprint, rows[i].occurrenceCount, rows[i].firstSeen, rows[i].lastSeen))
  }

  /** The groups handler as written: a 400 reply with the failed check's
      message; otherwise the SELECT runs with the accepted limit. A whole
      limit gives the summary columns of the selected rows; a fractional one
      is sent to the database as it is. */
  function HandleGroupsAsWritten(q: GroupsQuery, toNumber: string -> JsNumber, table: seq<ErrorGroupRow>)
    : (resp: Response<GroupSummary>)
    ensures resp.BadRequest? <==> ValidateGroupsAsWritten(q, toNumber).Failure?
    ensures resp.BadRequest? ==> resp.error == ValidateGroupsAsWritten(q, toNumber).error
    ensures resp.LeftToDatabase? <==>
      && ValidateGroupsAsWritten(q, toNumber).Success?
      && ValidateGroupsAsWritten(q, toNumber).value.limit.Floor as real
         != ValidateGroupsAsWritten(q, toNumber).value.limit
    ensures resp.LeftToDatabase? ==> resp.limit == ValidateGroupsAsWritten(q, toNumber).value.limit
    ensures resp.Ok? ==>
      var req := ValidateGroupsAsWritten(q, toNumber).value;
      resp.data == Summaries(SelectErrorGroups(table, req.projectId, req.limit.Floor as nat))
    ensures resp.Ok? ==>
      && ValidateGroupsAsWritten(q, toNumber).Success?
      && |resp.data| as real <= ValidateGroupsAsWritten(q, toNumber).value.limit <= MaxLimit as real
      && (forall i, j :: 0 <= i < j < |resp.data| ==> resp.data[i].occurrenceCount >= resp.data[j].occurrenceCount)
  {
    match ValidateGroupsAsWritten(q, toNumber)
    case Failure(message) => BadRequest(message)
    case Success(req) =>
      if req.limit.Floor as real == req.limit then
        Ok(Summaries(SelectErrorGroups(table, req.projectId, req.limit.Floor as nat)))
      else
        LeftToDatabase(req.limit)
  }

  /** The groups handler with the corrected limit check: a 400 reply with the
      failed check's message, or the summary columns of the selected rows. */
  function HandleGroups(q: GroupsQuery, toNumber: string -> JsNumber, table: seq<ErrorGroupRow>)
    : (resp: Response<GroupSummary>)
    ensures resp.BadRequest? <==> ValidateGroups(q, toNumber).Failure?
    ensures resp.Ok? <==> ValidateGroups(q, toNumber).Success?
    ensures resp.BadRequest? ==> resp.error == ValidateGroups(q, toNumber).error
    ensures resp.Ok? ==>
      && |resp.data| <= ValidateGroups(q, toNumber).value.limit <= MaxLimit
      && (forall i, j :: 0 <= i < j < |resp.data| ==> resp.data[i].occurrenceCount >= resp.data[j].occurrenceCount)
    ensures resp.Ok? ==>
      var req := ValidateGroups(q, toNumber).value;
      resp.data == Summaries(SelectErrorGroups(table, req.projectId, req.limit))
  {
    match ValidateGroups(q, toNumber)
    case Failure(message) => BadRequest(message)
    case Success(req) => Ok(Summaries(SelectErrorGroups(table, req.projectId, req.limit)))
  }

  /** The two groups handlers differ only where the written check lets a
      fractional limit through: there the written handler sends the SELECT
      and the corrected one replies 400. */
  lemma GroupsHandlersDifferOnlyOnFractions(q: GroupsQuery, toNumber: string -> JsNumber, table: seq<ErrorGroupRow>)
    ensures !HandleGroupsAsWritten(q, toNumber, table).LeftToDatabase? ==>
              HandleGroupsAsWritten(q, toNumber, table) == HandleGroups(q, toNumber, table)
    ensures HandleGroupsAsWritten(q, toNumber, table).LeftToDatabase? ==>
              HandleGroups(q, toNumber, table) == BadRequest(LimitError)
  {
    ValidateGroupsNarrowsAsWritten(q, toNumber);
  }
}
