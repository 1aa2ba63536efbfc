/** The extractor of generate_calendar.py: choose the tournament table among the page's tables,
    then turn each of its data rows into an event record or skip it.

    The parsed page is abstract: a document is its tables in document order, a table its rows,
    a row its header (`th`) and data (`td`) cells, and a cell its stripped text plus the first
    anchor inside it, if any. */
module Extractor {
  import opened Wrappers
  import opened Strings
  import opened Dates
  import opened DateText

  // ---------------------------------------------------------------- the page

  datatype Tag = Th | Td

  /** An `<a>` element: its stripped text and its `href` attribute, when it has one. */
  datatype Anchor = Anchor(text: string, href: Option<string>)

  datatype Cell = Cell(tag: Tag, text: string, anchor: Option<Anchor>)

  type Row = seq<Cell>
  type Table = seq<Row>
  type Document = seq<Table>

  /** One tournament, as the script's event dictionary holds it. */
  datatype Event = Event(summary: string, start: Date, end: Date, location: string, url: string)

  /** The column titles the tournament table's header row must contain, position by position. */
  const ExpectedHeaders: seq<string> :=
    ["tournament", "country", "state", "city", "start date", "end date", "variant", "major"]

  const DefaultName: string := "NAF Tournament"
  const MajorMarker: string := " [MAJOR]"
  const LocationSeparator: string := ", "

  // ---------------------------------------------------------------- choosing the table

  /** `[c.get_text(strip=True).lower() for c in header_cells]`: one case-folded text per cell. */
  function HeaderTexts(row: Row): (r: seq<string>)
    ensures |r| == |row|
    ensures forall i :: 0 <= i < |r| ==> r[i] == AsciiLower(row[i].text) && HasNoUpper(r[i])
  {
    seq(|row|, i requires 0 <= i < |row| => AsciiLower(row[i].text))
  }

  /** At least eight header texts, the i-th containing the i-th expected title. */
  predicate HeaderRowMatches(texts: seq<string>) {
    |texts| >= 8 && forall i :: 0 <= i < 8 ==> Contains(texts[i], ExpectedHeaders[i])
  }

  /** A table that has rows and whose first row carries the expected titles. */
  predicate IsTournamentTable(t: Table) {
    |t| > 0 && HeaderRowMatches(HeaderTexts(t[0]))
  }

  /** The position of the first tournament table in document order, if there is one. */
  function FirstTournamentTable(doc: Document): (r: Option<nat>)
    ensures r.None? <==> forall i :: 0 <= i < |doc| ==> !IsTournamentTable(doc[i])
    ensures r.Some? ==>
      r.value < |doc| && IsTournamentTable(doc[r.value]) &&
      forall j :: 0 <= j < r.value ==> !IsTournamentTable(doc[j])
  {
    if |doc| == 0 then None
    else if IsTournamentTable(doc[0]) then Some(0)
    else match FirstTournamentTable(doc[1..])
      case None => None
      case Some(k) => Some(k + 1)
  }

  /** `find_tournament_table`: scans the tables in order and returns the first that matches. */
  method FindTournamentTable(doc: Document) returns (table: Option<Table>)
    ensures table == match FirstTournamentTable(doc)
                     case None => None
                     case Some(i) => Some(doc[i])
  {
    var i := 0;
    while i < |doc|
      invariant 0 <= i <= |doc|
      invariant forall j :: 0 <= j < i ==> !IsTournamentTable(doc[j])
    {
      var rows := doc[i];
      if |rows| == 0 {
        i := i + 1;
        continue;
      }
      var headerTexts := HeaderTexts(rows[0]);
      if |headerTexts| >= 8 && forall k :: 0 <= k < 8 ==> Contains(headerTexts[k], ExpectedHeaders[k]) {
        return Some(rows);
      }
      i := i + 1;
    }
    return None;
  }

  /** Only the first matching table counts: a matching table after it is never chosen. */
  lemma FirstMatchWins(doc: Document, i: nat, j: nat)
    requires i < j < |doc|
    requires IsTournamentTable(doc[i]) && IsTournamentTable(doc[j])
    ensures FirstTournamentTable(doc).Some? && FirstTournamentTable(doc).value <= i
  {
  }

  // ---------------------------------------------------------------- one row

  /** `row.find_all("td")`: the data cells of a row, in order. */
  function DataCells(row: Row): seq<Cell> {
    if |row| == 0 then []
    else (if row[0].tag == Td then [row[0]] else []) + DataCells(row[1..])
  }

  /** DataCells keeps exactly the `td` cells and drops every `th` cell. */
  lemma {:induction false} DataCellsAreTdCells(row: Row)
    ensures forall c :: c in DataCells(row) <==> c in row && c.tag == Td
  {
    if |row| > 0 {
      DataCellsAreTdCells(row[1..]);
      assert row == [row[0]] + row[1..];
    }
  }

  /** The filter works cell by cell, keeping order: the cells of two runs are the cells of each in turn. */
  lemma {:induction false} DataCellsAppend(a: Row, b: Row)
    ensures DataCells(a + b) == DataCells(a) + DataCells(b)
  {
    if |a| == 0 {
      assert a + b == b;
    } else {
      var head := if a[0].tag == Td then [a[0]] else [];
      assert (a + b)[0] == a[0] && (a + b)[1..] == a[1..] + b;
      assert DataCells(a + b) == head + DataCells(a[1..] + b);
      assert DataCells(a) == head + DataCells(a[1..]);
      DataCellsAppend(a[1..], b);
    }
  }

  /** One cell is kept exactly when it is a `td` cell. */
  lemma DataCellSingle(c: Cell)
    ensures DataCells([c]) == if c.tag == Td then [c] else []
  {
    assert [c][1..] == [];
  }

  /** The tournament's name: the anchor text in the first cell, else a placeholder. */
  function NameOf(cell: Cell): (r: string)
    ensures cell.anchor.Some? ==> r == cell.anchor.value.text
    ensures cell.anchor.None? ==> r == DefaultName
  {
    match cell.anchor
    case Some(a) => a.text
    case None => DefaultName
  }

  /** The tournament's link: the first cell's anchor `href`, else empty. */
  function LinkOf(cell: Cell): (r: string)
    ensures cell.anchor.Some? && cell.anchor.value.href.Some? ==> r == cell.anchor.value.href.value
    ensures cell.anchor.None? || cell.anchor.value.href.None? ==> r == ""
  {
    match cell.anchor
    case Some(Anchor(_, Some(href))) => href
    case _ => ""
  }

  /** `", ".join([p for p in [city, state, country] if p])`: empty exactly when all three parts are. */
  function Location(city: string, state: string, country: string): (r: string)
    ensures r == "" <==> city == "" && state == "" && country == ""
  {
    var parts := NonEmpty([city, state, country]);
    NoLocationParts(city, state, country);
    JoinShape(parts, LocationSeparator);
    Join(parts, LocationSeparator)
  }

  /** No part survives the filter exactly when all three are empty. */
  lemma NoLocationParts(city: string, state: string, country: string)
    ensures NonEmpty([city, state, country]) == [] <==> city == "" && state == "" && country == ""
  {
    NonEmptySingle(city);
    NonEmptySingle(state);
    NonEmptySingle(country);
    assert [city, state, country] == [city] + ([state] + [country]);
    NonEmptyAppend([city], [state] + [country]);
    NonEmptyAppend([state], [country]);
  }

  /** The name, then ` (variant)` when there is a variant, then ` [MAJOR]` when the major cell reads "yes";
      the bare name exactly when neither applies. */
  function Summary(name: string, variant: string, major: string): (r: string)
    ensures r == name <==> variant == "" && AsciiLower(major) != "yes"
  {
    var withVariant := if variant != "" then name + (" (" + variant + ")") else name;
    if AsciiLower(major) == "yes" then withVariant + MajorMarker else withVariant
  }

  /** A row survives when it has at least eight data cells and its start cell is a date. */
  predicate KeepsRow(row: Row) {
    var cols := DataCells(row);
    |cols| >= 8 && ParseIsoDate(cols[4].text).Some?
  }

  /** The record one row of the tournament table yields, if any. */
  function RowEvent(row: Row): (r: Option<Event>)
    ensures r.Some? <==> KeepsRow(row)
    ensures r.Some? ==> ValidDate(r.value.start) && ValidDate(r.value.end)
  {
    var cols := DataCells(row);
    if |cols| < 8 then None
    else match ParseIsoDate(cols[4].text)
      case None => None
      case Some(start) => Some(Record(cols, start))
  }

  /** The record built from a kept row's data cells and its parsed start date. */
  function Record(cols: seq<Cell>, start: Date): Event
    requires |cols| >= 8
  {
    Event(Summary(NameOf(cols[0]), cols[6].text, cols[7].text),
          start,
          ParseIsoDate(cols[5].text).GetOr(start),
          Location(cols[3].text, cols[2].text, cols[1].text),
          LinkOf(cols[0]))
  }

  /** The records a single row contributes: one or none. */
  function RowEvents(row: Row): seq<Event> {
    match RowEvent(row)
    case Some(e) => [e]
    case None => []
  }

  /** The end falls back to the start exactly when the end cell is not a date; no order between them is imposed. */
  lemma EndDateFallback(row: Row)
    requires KeepsRow(row)
    ensures var cols := DataCells(row);
            var e := RowEvent(row).value;
            e.start == ParseIsoDate(cols[4].text).value &&
            e.end == (if ParseIsoDate(cols[5].text).Some? then ParseIsoDate(cols[5].text).value else e.start)
  {
  }

  /** A location with some non-empty part starts with the first non-empty one, ends with the last,
      and is as long as its non-empty parts plus two characters per gap between neighbours. */
  lemma LocationShape(city: string, state: string, country: string)
    ensures var parts := NonEmpty([city, state, country]);
            var loc := Location(city, state, country);
            |parts| > 0 ==>
              IsPrefix(parts[0], loc) &&
              |parts[|parts| - 1]| <= |loc| && loc[|loc| - |parts[|parts| - 1]|..] == parts[|parts| - 1] &&
              |loc| == TotalLength(parts) + 2 * (|parts| - 1)
  {
    var parts := NonEmpty([city, state, country]);
    JoinShape(parts, LocationSeparator);
    assert [city, state, country][1..] == [state, country];
    assert [state, country][1..] == [country];
    assert [country][1..] == [];
    assert NonEmpty([country]) == if country != "" then [country] else [];
    assert NonEmpty([state, country]) == (if state != "" then [state] else []) + NonEmpty([country]);
  }

  /** The location in closed form: the non-empty parts among city, state and country, in that order,
      with ", " between each two neighbours. */
  lemma LocationCases(city: string, state: string, country: string)
    ensures var loc := Location(city, state, country);
            (city != "" && state != "" && country != "" ==> loc == city + ", " + state + ", " + country) &&
            (city != "" && state != "" && country == "" ==> loc == city + ", " + state) &&
            (city != "" && state == "" && country != "" ==> loc == city + ", " + country) &&
            (city == "" && state != "" && country != "" ==> loc == state + ", " + country) &&
            (city != "" && state == "" && country == "" ==> loc == city) &&
            (city == "" && state != "" && country == "" ==> loc == state) &&
            (city == "" && state == "" && country != "" ==> loc == country) &&
            (city == "" && state == "" && country == "" ==> loc == "")
  {
    NonEmptySingle(city);
    NonEmptySingle(state);
    NonEmptySingle(country);
    assert [city, state, country] == [city] + ([state] + [country]);
    NonEmptyAppend([city], [state] + [country]);
    NonEmptyAppend([state], [country]);
    JoinSingle(city, LocationSeparator);
    JoinSingle(state, LocationSeparator);
    JoinSingle(country, LocationSeparator);
    if city != "" && state != "" && country != "" {
      JoinAppend([state], [country], LocationSeparator);
      JoinAppend([city], [state] + [country], LocationSeparator);
    } else if state != "" && country != "" {
      assert NonEmpty([city, state, country]) == [state] + [country];
      JoinAppend([state], [country], LocationSeparator);
    } else if city != "" && country != "" {
      assert NonEmpty([city, state, country]) == [city] + [country];
      JoinAppend([city], [country], LocationSeparator);
    } else if city != "" && state != "" {
      assert NonEmpty([city, state, country]) == [city] + [state];
      JoinAppend([city], [state], LocationSeparator);
    }
  }

  /** The summary starts with the name, ends with the major marker when the major cell says yes (in any case),
      and is exactly as long as its three parts. */
  lemma SummaryShape(name: string, variant: string, major: string)
    ensures var s := Summary(name, variant, major);
            IsPrefix(name, s) &&
            |s| == |name| + (if variant != "" then |variant| + 3 else 0) + (if AsciiLower(major) == "yes" then 8 else 0) &&
            (AsciiLower(major) == "yes" ==> s[|s| - 8..] == MajorMarker) &&
            (variant != "" ==> s[|name|..|name| + |variant| + 3] == " (" + variant + ")") &&
            (variant == "" && AsciiLower(major) != "yes" ==> s == name)
  {
    var s := Summary(name, variant, major);
    assert s[..|name|] == name;
  }

  // ---------------------------------------------------------------- all rows

  /** The records of a run of data rows, in row order. */
  function EventsOfRows(rows: seq<Row>): seq<Event> {
    if |rows| == 0 then []
    else RowEvents(rows[0]) + EventsOfRows(rows[1..])
  }

  /** How many of the rows survive the filter. */
  function KeptCount(rows: seq<Row>): nat {
    if |rows| == 0 then 0 else (if KeepsRow(rows[0]) then 1 else 0) + KeptCount(rows[1..])
  }

  /** The records of the tournament table's data rows (the header row is skipped); none without a table. */
  function ExtractEvents(doc: Document): (r: seq<Event>)
    ensures |r| == match FirstTournamentTable(doc)
                   case None => 0
                   case Some(i) => KeptCount(doc[i][1..])
  {
    match FirstTournamentTable(doc)
    case None => []
    case Some(i) => EventCount(doc[i][1..]); EventsOfRows(doc[i][1..])
  }

  lemma {:induction false} EventsOfRowsAppend(a: seq<Row>, b: seq<Row>)
    ensures EventsOfRows(a + b) == EventsOfRows(a) + EventsOfRows(b)
  {
    if |a| == 0 {
      assert a + b == b;
    } else {
      assert (a + b)[0] == a[0] && (a + b)[1..] == a[1..] + b;
      EventsOfRowsAppend(a[1..], b);
    }
  }

  lemma EventsOfRowsGrow(rows: seq<Row>, i: nat)
    requires i < |rows|
    ensures EventsOfRows(rows[..i + 1]) == EventsOfRows(rows[..i]) + RowEvents(rows[i])
  {
    assert rows[..i + 1] == rows[..i] + [rows[i]];
    EventsOfRowsAppend(rows[..i], [rows[i]]);
    assert EventsOfRows([rows[i]]) == RowEvents(rows[i]) + EventsOfRows([rows[i]][1..]);
    assert [rows[i]][1..] == [];
  }

  /** One record per surviving row. */
  lemma {:induction false} EventCount(rows: seq<Row>)
    ensures |EventsOfRows(rows)| == KeptCount(rows)
  {
    if |rows| > 0 {
      EventCount(rows[1..]);
    }
  }

  lemma {:induction false} KeptCountPrefix(rows: seq<Row>, i: nat)
    requires i < |rows|
    ensures KeptCount(rows[..i + 1]) == (if KeepsRow(rows[0]) then 1 else 0) + KeptCount(rows[1..][..i])
  {
    assert rows[..i + 1][0] == rows[0];
    assert rows[..i + 1][1..] == rows[1..][..i];
  }

  /** Each surviving row yields its record at the position given by the survivors before it. */
  lemma {:induction false} KeptRowYieldsEvent(rows: seq<Row>, i: nat)
    requires i < |rows| && KeepsRow(rows[i])
    ensures var k := KeptCount(rows[..i]);
            k < |EventsOfRows(rows)| && Some(EventsOfRows(rows)[k]) == RowEvent(rows[i])
  {
    var events := EventsOfRows(rows);
    var head := RowEvents(rows[0]);
    var tail := EventsOfRows(rows[1..]);
    assert events == head + tail;
    if i == 0 {
      assert rows[..0] == [];
      assert KeptCount(rows[..0]) == 0 && head == [RowEvent(rows[0]).value];
    } else {
      KeptRowYieldsEvent(rows[1..], i - 1);
      KeptCountPrefix(rows, i - 1);
      assert rows[1..][i - 1] == rows[i];
      var k' := KeptCount(rows[1..][..i - 1]);
      assert |head| == (if KeepsRow(rows[0]) then 1 else 0);
      assert KeptCount(rows[..i]) == |head| + k';
      assert events[|head| + k'] == tail[k'];
    }
  }

  /** Conversely, the k-th record comes from the row with exactly k survivors before it,
      so records keep the order of their rows. */
  lemma {:induction false} EventComesFromRow(rows: seq<Row>, k: nat)
    requires k < |EventsOfRows(rows)|
    ensures exists i :: 0 <= i < |rows| && KeptCount(rows[..i]) == k && RowEvent(rows[i]) == Some(EventsOfRows(rows)[k])
  {
    var events := EventsOfRows(rows);
    var head := RowEvents(rows[0]);
    var tail := EventsOfRows(rows[1..]);
    assert events == head + tail;
    if k < |head| {
      assert rows[..0] == [];
      assert KeptCount(rows[..0]) == 0 && RowEvent(rows[0]) == Some(events[k]);
    } else {
      EventComesFromRow(rows[1..], k - |head|);
      var i :| 0 <= i < |rows[1..]| && KeptCount(rows[1..][..i]) == k - |head| &&
               RowEvent(rows[1..][i]) == Some(tail[k - |head|]);
      KeptCountPrefix(rows, i);
      assert rows[1..][i] == rows[i + 1];
      assert |head| == (if KeepsRow(rows[0]) then 1 else 0);
      assert KeptCount(rows[..i + 1]) == k && RowEvent(rows[i + 1]) == Some(events[k]);
    }
  }

  /** No tournament table, no records. */
  lemma NoTableNoEvents(doc: Document)
    requires forall i :: 0 <= i < |doc| ==> !IsTournamentTable(doc[i])
    ensures ExtractEvents(doc) == []
  {
  }

  /** The body of `fetch_events`'s row loop: the record of one row, or none where the loop moves on
      to the next row (too few data cells, or a start date that does not parse). */
  method RowRecord(row: Row) returns (event: Option<Event>)
    ensures event == RowEvent(row)
  {
    var cols := DataCells(row);
    if |cols| < 8 {
      return None;
    }
    var name := if cols[0].anchor.Some? then cols[0].anchor.value.text else DefaultName;
    var link := if cols[0].anchor.Some? && cols[0].anchor.value.href.Some? then cols[0].anchor.value.href.value else "";
    var country := cols[1].text;
    var state := cols[2].text;
    var city := cols[3].text;
    var startText := cols[4].text;
    var endText := cols[5].text;
    var variant := cols[6].text;
    var major := cols[7].text;

    var start := ParseIsoDate(startText);
    if start.None? {
      return None;
    }
    var end := ParseIsoDate(endText);
    if end.None? {
      end := start;
    }

    var location := Location(city, state, country);

    var summary := name;
    if variant != "" {
      summary := summary + (" (" + variant + ")");
    }
    if AsciiLower(major) == "yes" {
      summary := summary + MajorMarker;
    }

    assert summary == Summary(NameOf(cols[0]), variant, major);
    assert link == LinkOf(cols[0]);
    return Some(Event(summary, start.value, end.value, location, link));
  }

  /** `fetch_events` after the download: locate the table, then walk its data rows and append one
      record per row that yields one. */
  method FetchEvents(doc: Document) returns (events: seq<Event>)
    ensures events == ExtractEvents(doc)
  {
    events := [];
    var table := FindTournamentTable(doc);
    if table.None? {
      return;
    }
    var rows := table.value[1..];
    for i := 0 to |rows|
      invariant events == EventsOfRows(rows[..i])
    {
      var record := RowRecord(rows[i]);
      if record.Some? {
        events := events + [record.value];
      }
      EventsOfRowsGrow(rows, i);
    }
    assert rows[..|rows|] == rows;
  }
}
