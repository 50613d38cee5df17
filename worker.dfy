/**
  What the worker's HTTP handlers add around the shared store and reports: reading numbers
  out of the query string and the path with `Number(...)`, the default of the historical
  route's `count`, and the status codes of the update and export routes.
 */
module Worker {
  import opened Wrappers
  import opened Calendar
  import opened Text
  import opened Visits
  import opened Store
  import opened Aggregator
  import opened Bucketer
  import opened Reports
  import opened Export

  // ---------------------------------------------------------------------------
  // `Number(text)`

  /** A JavaScript number as far as the handlers use it: NaN or an integer. */
  datatype NumberValue = NaN | Finite(value: int)

  /** An optional '-' followed by one or more decimal digits. */
  predicate IsIntegerText(t: string) {
    if |t| > 0 && t[0] == '-' then 1 < |t| && AllDigits(t[1..])
    else 0 < |t| && AllDigits(t)
  }

  /**
    `Number(q)` for a query or path value: a missing value is NaN, the empty string is 0,
    an optional '-' then digits is its value, and any other text is NaN.
   */
  function NumberOf(q: Option<string>): (r: NumberValue)
    ensures r.Finite? <==> q.Some? && (q.value == "" || IsIntegerText(q.value))
  {
    match q
    case None => NaN
    case Some(t) =>
      if t == "" then Finite(0)
      else if |t| > 0 && t[0] == '-' then
        if 1 < |t| && AllDigits(t[1..]) then Finite(-(ParseNat(t[1..]) as int)) else NaN
      else if AllDigits(t) then Finite(ParseNat(t))
      else NaN
  }

  /** The text of every integer reads back as that integer. */
  lemma NumberOfIntToString(n: int)
    ensures NumberOf(Some(IntToString(n))) == Finite(n)
  {
    IntToStringSign(n);
    if n < 0 {
      ParseNatToString(-n);
      NatToStringDigits(-n);
      assert IntToString(n)[1..] == NatToString(-n);
    } else {
      ParseNatToString(n);
    }
  }

  // ---------------------------------------------------------------------------
  // GET /chart/historical

  /** `Number(c.req.query('count')) || 4`: NaN and 0 are falsy and give 4. */
  function CountOrDefault(q: Option<string>): (count: int)
    ensures count != 0
    ensures NumberOf(q).Finite? && NumberOf(q).value != 0 ==> count == NumberOf(q).value
    ensures NumberOf(q).NaN? || NumberOf(q) == Finite(0) ==> count == 4
  {
    match NumberOf(q)
    case NaN => 4
    case Finite(n) => if n == 0 then 4 else n
  }

  /** A missing, empty, zero or non-numeric count gives four buckets. */
  lemma CountDefaults(q: Option<string>)
    requires q == None || q == Some("") || q == Some("0")
             || (q.Some? && q.value != "" && !IsIntegerText(q.value))
    ensures CountOrDefault(q) == 4
  {
    if q == Some("0") {
      assert AllDigits("0") && ParseNat("0") == 0;
    }
  }

  /** A count sent as the text of a non-zero integer is taken as that integer. */
  lemma CountRoundTrip(n: int)
    requires n != 0
    ensures CountOrDefault(Some(IntToString(n))) == n
  {
    NumberOfIntToString(n);
  }

  /** `period === 'month'`: any other value, or none, means weeks. */
  function PeriodOf(q: Option<string>): (p: Period)
    ensures p == Month <==> q == Some("month")
  {
    if q == Some("month") then Month else Week
  }

  /**
    The historical route: the series of the period and count read from the query string,
    with as many points as the count when it is positive, and none when it is negative.
   */
  method HistoricalRoute(vs: seq<Visit>, today: Date, periodQuery: Option<string>, countQuery: Option<string>)
    returns (data: seq<ChartDataPoint>)
    requires ValidDate(today)
    ensures data == HistoricalSeries(vs, today, PeriodOf(periodQuery), CountOrDefault(countQuery))
    ensures CountOrDefault(countQuery) > 0 ==> |data| == CountOrDefault(countQuery)
    ensures CountOrDefault(countQuery) < 0 ==> data == []
    ensures countQuery == None ==> |data| == 4
  {
    data := HistoricalData(vs, today, PeriodOf(periodQuery), CountOrDefault(countQuery));
  }

  // ---------------------------------------------------------------------------
  // PUT and DELETE /visits/:id

  /**
    `PUT /visits/:id`: the id is `Number` of the path parameter; an unknown id (NaN never
    matches) answers 404 with a null body, a known one 200 with the merged record. A body
    that carries another stored record's `id` leaves two records with that id.
   */
  method PutVisit(store: VisitStore, idParam: string, data: VisitForm) returns (status: int, body: Option<Visit>)
    modifies store
    ensures store.nextVisitId == old(store.nextVisitId)
    ensures old(store.Valid()) && NumberOf(Some(idParam)).Finite?
            && (data.id.None? || data.id == Some(NumberOf(Some(idParam)).value))
            ==> store.Valid()
    ensures old(store.Valid()) && NumberOf(Some(idParam)).NaN? ==> store.Valid()
    ensures body.Some? && NumberOf(Some(idParam)).Finite?
            && data.id.Some? && data.id.value != NumberOf(Some(idParam)).value
            && HasId(old(store.visits), data.id.value)
            ==> !IdsUnique(store.visits)
    ensures status == 200 || status == 404
    ensures status == 404 <==> body.None?
    ensures body.None? <==> NumberOf(Some(idParam)).NaN? || !HasId(old(store.visits), NumberOf(Some(idParam)).value)
    ensures body.None? ==> store.visits == old(store.visits)
    ensures body.Some? ==>
      var k := IndexOfId(old(store.visits), NumberOf(Some(idParam)).value).value;
      && body.value == Overwrite(old(store.visits)[k], data)
      && store.visits == old(store.visits)[k := body.value]
  {
    match NumberOf(Some(idParam))
    case NaN =>
      status, body := 404, None;
    case Finite(id) =>
      body := store.Update(id, data);
      status := if body.None? then 404 else 200;
  }

  /**
    `DELETE /visits/:id`: filtering on a NaN id keeps every record, so nothing is deleted;
    otherwise the store's delete.
   */
  method DeleteVisit(store: VisitStore, idParam: string) returns (deleted: bool)
    modifies store
    ensures store.nextVisitId == old(store.nextVisitId)
    ensures old(store.Valid()) ==> store.Valid()
    ensures deleted <==> NumberOf(Some(idParam)).Finite? && HasId(old(store.visits), NumberOf(Some(idParam)).value)
    ensures NumberOf(Some(idParam)).Finite? ==> store.visits == WithoutId(old(store.visits), NumberOf(Some(idParam)).value)
    ensures !deleted ==> store.visits == old(store.visits)
  {
    match NumberOf(Some(idParam))
    case NaN =>
      deleted := false;
    case Finite(id) =>
      deleted := store.Delete(id);
  }

  // ---------------------------------------------------------------------------
  // GET /visits/export

  /** A text response: status, `content-type` header, body. */
  datatype TextResponse = TextResponse(status: int, contentType: string, body: string)

  /** The `content-type` that `c.text` sends when the route names none. */
  const PlainText := "text/plain; charset=UTF-8"

  /**
    The export route: 404 with "No data to export." as plain text for an empty store,
    otherwise 200 with the CSV text as `text/csv`.
   */
  function ExportResponse(vs: seq<Visit>, ets: seq<EventType>): (r: TextResponse)
    ensures r.status == 200 || r.status == 404
    ensures r.status == 404 <==> |vs| == 0
    ensures r.status == 404 ==> r.body == NoDataMessage && r.contentType == PlainText
    ensures r.status == 200 ==> r.contentType == "text/csv" && Success(r.body) == Csv(vs, ets)
  {
    match Csv(vs, ets)
    case Failure(message) => TextResponse(404, PlainText, message)
    case Success(csv) => TextResponse(200, "text/csv", csv)
  }

  /** The service's download and the worker's response carry the same CSV text. */
  lemma ExportsAgree(vs: seq<Visit>, ets: seq<EventType>)
    requires |vs| > 0
    ensures ServiceExport(vs, ets) == Success(DataUriPrefix + ExportResponse(vs, ets).body)
  {
  }
}
