/**
  The CSV export: a header line and one line per stored record, in store order, fields
  joined with ',' and lines with '\n', with no quoting. The worker sends the text as the
  response body; the mock service puts it behind a `data:` URI prefix for a download link.
 */
module Export {
  import opened Wrappers
  import opened Calendar
  import opened Text
  import opened Visits
  import opened Bucketer

  /** The `AGE_GROUP_KEYS` constant. */
  const AgeGroupKeys: seq<string> := ["children_count", "adults_count", "seniors_count", "students_count"]

  /** The header fields: four record fields, the age-group keys, then two more. */
  const HeaderFields: seq<string> :=
    ["id", "date", "visit_type", "group_description"] + AgeGroupKeys + ["event_type_id", "created_at"]

  const NoDataMessage: string := "No data to export."

  /** The header line: it splits on ',' into the ten header fields and holds no line break. */
  function Header(): (h: string)
    ensures Split(h, ',') == HeaderFields && |HeaderFields| == 10
    ensures '\n' !in h
  {
    HeaderHasNoLineBreak();
    SplitJoin(HeaderFields, ',');
    JoinAvoids(HeaderFields, ',', '\n');
    Join(HeaderFields, ',')
  }

  /** The enum values `'individual'` and `'group'`. */
  function VisitTypeText(t: VisitType): string {
    match t
    case Individual => "individual"
    case Group => "group"
  }

  /** `visit.group_description || ''`: a missing or empty description is an empty field. */
  function DescriptionText(d: Option<string>): string {
    match d
    case None => ""
    case Some(s) => s
  }

  /** `eventTypes.find(et => et.id === id)`: the first event type with that id, if any. */
  function FindEventType(ets: seq<EventType>, id: int): (r: Option<EventType>)
    ensures r.None? <==> forall i :: 0 <= i < |ets| ==> ets[i].id != id
    ensures r.Some? ==> r.value.id == id
                        && exists k :: 0 <= k < |ets| && ets[k] == r.value
                                       && forall j :: 0 <= j < k ==> ets[j].id != id
  {
    if |ets| == 0 then None
    else if ets[0].id == id then Some(ets[0])
    else FindEventType(ets[1..], id)
  }

  /** With distinct ids, the event type found is the one with that id. */
  lemma {:induction false} FindEventTypeUnique(ets: seq<EventType>, k: int)
    requires forall i, j :: 0 <= i < j < |ets| ==> ets[i].id != ets[j].id
    requires 0 <= k < |ets|
    ensures FindEventType(ets, ets[k].id) == Some(ets[k])
  {
    if k > 0 {
      assert ets[0].id != ets[k].id;
      FindEventTypeUnique(ets[1..], k - 1);
    }
  }

  /**
    `eventType ? eventType.name : visit.event_type_id`: the name of the first event type
    with the record's event type id, or the id itself when no event type has it.
   */
  function EventColumn(v: Visit, ets: seq<EventType>): (c: string)
    ensures forall k :: 0 <= k < |ets| && ets[k].id == v.eventTypeId
                        && (forall j :: 0 <= j < k ==> ets[j].id != v.eventTypeId)
                        ==> c == ets[k].name
    ensures (forall k :: 0 <= k < |ets| ==> ets[k].id != v.eventTypeId) ==> c == IntToString(v.eventTypeId)
  {
    match FindEventType(ets, v.eventTypeId)
    case Some(e) => e.name
    case None => IntToString(v.eventTypeId)
  }

  /** The ten values of a record's line, one per header field, in header order. */
  function Fields(v: Visit, ets: seq<EventType>): (f: seq<string>)
    ensures |f| == |HeaderFields|
  {
    [ IntToString(v.id), FormatDate(v.date), VisitTypeText(v.visitType),
      DescriptionText(v.groupDescription),
      IntToString(v.children), IntToString(v.adults), IntToString(v.seniors),
      IntToString(v.students),
      EventColumn(v, ets), v.createdAt ]
  }

  function Row(v: Visit, ets: seq<EventType>): string {
    Join(Fields(v, ets), ',')
  }

  /**
    `visits.map(...)`: one line per record, in store order. Joined with line breaks, the
    lines split back into themselves when none of them holds a line break.
   */
  function Rows(vs: seq<Visit>, ets: seq<EventType>): (r: seq<string>)
    ensures |r| == |vs|
    ensures forall i :: 0 <= i < |vs| ==> r[i] == Row(vs[i], ets)
    ensures 0 < |vs| && (forall i :: 0 <= i < |r| ==> '\n' !in r[i]) ==> Split(Join(r, '\n'), '\n') == r
  {
    var r := seq(|vs|, i requires 0 <= i < |vs| => Row(vs[i], ets));
    if 0 < |vs| && forall i :: 0 <= i < |r| ==> '\n' !in r[i] then
      SplitJoin(r, '\n');
      r
    else r
  }

  /**
    The CSV text, or the "No data to export." message when the store is empty (the worker's
    404 body, the mock service's alert).
   */
  function Csv(vs: seq<Visit>, ets: seq<EventType>): (r: Result<string, string>)
    ensures r.Failure? <==> |vs| == 0
    ensures r.Failure? ==> r.error == NoDataMessage
  {
    if |vs| == 0 then Failure(NoDataMessage)
    else Success(Header() + "\n" + Join(Rows(vs, ets), '\n'))
  }

  // ---------------------------------------------------------------------------
  // Reading the text back

  /** A line break appears in no header field. */
  lemma HeaderHasNoLineBreak()
    ensures forall i :: 0 <= i < |HeaderFields| ==> '\n' !in HeaderFields[i]
    ensures forall i :: 0 <= i < |HeaderFields| ==> ',' !in HeaderFields[i]
  {
  }

  /** A character in neither the parts nor the separator is not in the joined text. */
  lemma {:induction false} JoinAvoids(parts: seq<string>, sep: char, c: char)
    requires c != sep
    requires forall i :: 0 <= i < |parts| ==> c !in parts[i]
    ensures c !in Join(parts, sep)
    decreases |parts|
  {
    if |parts| > 1 {
      JoinAvoids(parts[1..], sep, c);
    }
  }

  /**
    Split on '\n', the export gives back the header line and then each record's line in
    store order, provided that no line contains a line break (only a description, an event
    name or a `created_at` text could).
   */
  lemma ExportLines(vs: seq<Visit>, ets: seq<EventType>)
    requires |vs| > 0
    requires forall i :: 0 <= i < |vs| ==> '\n' !in Row(vs[i], ets)
    ensures Split(Csv(vs, ets).value, '\n') == [Header()] + Rows(vs, ets)
    ensures |Split(Csv(vs, ets).value, '\n')| == |vs| + 1
  {
    var h, rows := Header(), Rows(vs, ets);
    var lines := [h] + rows;
    forall i | 0 <= i < |lines|
      ensures '\n' !in lines[i]
    {
      if i > 0 {
        assert lines[i] == Row(vs[i - 1], ets);
      }
    }
    assert lines[0] == h && lines[1..] == rows;
    assert Join(lines, '\n') == h + "\n" + Join(rows, '\n');
    assert Csv(vs, ets).value == Join(lines, '\n');
    SplitJoin(lines, '\n');
  }

  /** A rendered integer holds only digits and a sign. */
  lemma IntToStringHasNoSeparator(n: int, c: char)
    requires c == ',' || c == '\n'
    ensures c !in IntToString(n)
  {
    if n < 0 {
      NatToStringDigits(-n);
      assert IntToString(n) == "-" + NatToString(-n);
    } else {
      NatToStringDigits(n);
    }
  }

  lemma PadTwoHasNoSeparator(n: int, c: char)
    requires c == ',' || c == '\n'
    ensures c !in PadTwo(n)
  {
    IntToStringHasNoSeparator(n, c);
    PadStartShape(IntToString(n), 2, '0');
  }

  /** A formatted date holds no separator. */
  lemma FormatDateHasNoSeparator(d: Date, c: char)
    requires c == ',' || c == '\n'
    ensures c !in FormatDate(d)
  {
    IntToStringHasNoSeparator(d.year, c);
    PadTwoHasNoSeparator(d.month, c);
    PadTwoHasNoSeparator(d.day, c);
  }

  /** Only the description, the event name and `created_at` can hold a comma. */
  lemma FixedFieldsHaveNoComma(v: Visit, ets: seq<EventType>)
    ensures var f := Fields(v, ets);
            forall i :: 0 <= i < |f| && i != 3 && i != 8 && i != 9 ==> ',' !in f[i]
  {
    IntToStringHasNoSeparator(v.id, ',');
    FormatDateHasNoSeparator(v.date, ',');
    IntToStringHasNoSeparator(v.children, ',');
    IntToStringHasNoSeparator(v.adults, ',');
    IntToStringHasNoSeparator(v.seniors, ',');
    IntToStringHasNoSeparator(v.students, ',');
  }

  /**
    A record's line, split on ',', gives its ten fields back, provided that the three free
    texts (description, event name, `created_at`) hold no comma.
   */
  lemma RowFields(v: Visit, ets: seq<EventType>)
    requires ',' !in DescriptionText(v.groupDescription)
    requires ',' !in EventColumn(v, ets)
    requires ',' !in v.createdAt
    ensures Split(Row(v, ets), ',') == Fields(v, ets)
    ensures |Split(Row(v, ets), ',')| == 10
  {
    var f := Fields(v, ets);
    FixedFieldsHaveNoComma(v, ets);
    assert forall i :: 0 <= i < |f| ==> ',' !in f[i];
    SplitJoin(f, ',');
  }

  /** A part holding the separator reads, once joined, as two parts. */
  lemma {:induction false} JoinSplitPart(a: seq<string>, x: string, y: string, b: seq<string>, sep: char)
    requires 1 <= |a| && 1 <= |b|
    ensures Join(a + [x + [sep] + y] + b, sep) == Join(a + [x, y] + b, sep)
  {
    var p := x + [sep] + y;
    var pb, xyb, yb := [p] + b, [x, y] + b, [y] + b;
    assert a + [p] + b == a + pb;
    assert a + [x, y] + b == a + xyb;
    JoinAppend(a, pb, sep);
    JoinAppend(a, xyb, sep);
    assert pb[0] == p && pb[1..] == b;
    assert xyb[0] == x && xyb[1..] == yb;
    assert yb[0] == y && yb[1..] == b;
    assert Join(pb, sep) == p + [sep] + Join(b, sep);
    assert Join(yb, sep) == y + [sep] + Join(b, sep);
    assert Join(xyb, sep) == x + [sep] + Join(yb, sep);
  }

  /**
    Since nothing is quoted, a description holding a comma shifts the columns: the line of
    a record described as, say, "School Trip, Grade 5" splits into eleven pieces, not ten.
   */
  lemma CommaInDescriptionShiftsColumns(v: Visit, ets: seq<EventType>, x: string, y: string)
    requires v.groupDescription == Some(x + [','] + y) && ',' !in x && ',' !in y
    requires ',' !in EventColumn(v, ets) && ',' !in v.createdAt
    ensures Split(Row(v, ets), ',') == Fields(v, ets)[..3] + [x, y] + Fields(v, ets)[4..]
    ensures |Split(Row(v, ets), ',')| == 11
  {
    var f := Fields(v, ets);
    var before, after := f[..3], f[4..];
    var g := before + [x, y] + after;
    FixedFieldsHaveNoComma(v, ets);
    assert f[3] == x + [','] + y;
    assert f == before + [x + [','] + y] + after;
    JoinSplitPart(before, x, y, after, ',');
    assert Row(v, ets) == Join(g, ',');
    assert forall i :: 0 <= i < |before| ==> ',' !in before[i] by {
      assert forall i :: 0 <= i < |before| ==> before[i] == f[i];
    }
    assert forall i :: 0 <= i < |after| ==> ',' !in after[i] by {
      assert forall i :: 0 <= i < |after| ==> after[i] == f[i + 4];
    }
    assert forall i :: 0 <= i < |g| ==> ',' !in g[i];
    SplitJoin(g, ',');
  }

  // ---------------------------------------------------------------------------
  // The mock service's download

  const DataUriPrefix: string := "data:text/csv;charset=utf-8,"

  /** `museum_visits_${today}.csv`. */
  function Filename(today: Date): string {
    "museum_visits_" + FormatDate(today) + ".csv"
  }

  /** Downloads of different days get different file names. */
  lemma FilenameInjective(a: Date, b: Date)
    requires ValidDate(a) && ValidDate(b) && a != b
    ensures Filename(a) != Filename(b)
  {
    if Filename(a) == Filename(b) {
      var p := "museum_visits_";
      assert FormatDate(a) == Filename(a)[|p|..|Filename(a)| - 4];
      assert FormatDate(b) == Filename(b)[|p|..|Filename(b)| - 4];
      FormatDateInjective(a, b);
    }
  }

  /**
    `exportVisits`: the text behind the download link (before `encodeURI`), or the alert
    message for an empty store. It is the worker's CSV body behind the `data:` prefix.
   */
  function ServiceExport(vs: seq<Visit>, ets: seq<EventType>): (r: Result<string, string>)
    ensures r.Failure? <==> |vs| == 0
    ensures r.Failure? ==> r.error == NoDataMessage
    ensures r.Success? ==> && |DataUriPrefix| <= |r.value|
                           && r.value[..|DataUriPrefix|] == DataUriPrefix
                           && r.value[|DataUriPrefix|..] == Csv(vs, ets).value
  {
    match Csv(vs, ets)
    case Failure(e) => Failure(e)
    case Success(csv) => Success(DataUriPrefix + csv)
  }
}
