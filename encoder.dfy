/** The encoder of generate_calendar.py: `generate_ics` renders the event records as an iCalendar
    document (RFC 5545) of CRLF-terminated content lines, one VEVENT block per record, all-day dates.
    The random UIDs and the clock reading are parameters: `uuids[i]` stands for the `uuid4()` drawn
    for the i-th event, `now` for `datetime.utcnow()`. */
module Encoder {
  import opened Strings
  import opened Dates
  import opened DateText
  import opened Escaping
  import opened Extractor

  /** The fixed opening lines of the document. */
  const Envelope: seq<string> :=
    ["BEGIN:VCALENDAR", "VERSION:2.0", "PRODID:-//Luke//NAF Tournament Calendar//EN",
     "CALSCALE:GREGORIAN", "METHOD:PUBLISH"]

  const CalendarEnd: string := "END:VCALENDAR"
  const BeginEvent: string := "BEGIN:VEVENT"
  const EndEvent: string := "END:VEVENT"
  const UidSuffix: string := "@naf-calendar"

  /** The line terminator of section 3.1 of RFC 5545. */
  const Crlf: string := "\r\n"

  /** An event whose dates the encoder can render: four-digit years, and an end date that has a successor. */
  predicate Renderable(ev: Event) {
    ValidDate(ev.start) && 1000 <= ev.start.year &&
    ValidDate(ev.end) && 1000 <= ev.end.year && ev.end != LastDate
  }

  predicate AllRenderable(events: seq<Event>) {
    forall i :: 0 <= i < |events| ==> Renderable(events[i])
  }

  /** A VEVENT block for already rendered property values, line by line as `generate_ics` appends
      them; the LOCATION and URL lines are there only when their flags say so. */
  function Block(uid: string, stamp: string, start: string, end: string, summary: string,
                 hasLocation: bool, location: string, hasUrl: bool, url: string): seq<string>
  {
    var fixed := [BeginEvent, "UID:" + uid, "DTSTAMP:" + stamp, "DTSTART;VALUE=DATE:" + start,
                  "DTEND;VALUE=DATE:" + end, "SUMMARY:" + summary];
    var withLocation := if hasLocation then fixed + ["LOCATION:" + location] else fixed;
    var withUrl := if hasUrl then withLocation + ["URL:" + url] else withLocation;
    withUrl + [EndEvent]
  }

  /** The VEVENT block of one event. The end date is exclusive for all-day events (section 3.6.1 of
      RFC 5545), so DTEND is the day after the stored end; LOCATION and URL appear only for a
      non-empty value. It has 7 lines plus those, one of them BEGIN:VEVENT and one END:VEVENT. */
  function EventLines(ev: Event, uuid: string, stamp: string): (r: seq<string>)
    requires Renderable(ev)
    ensures |r| == 7 + (if ev.location != "" then 1 else 0) + (if ev.url != "" then 1 else 0)
    ensures CountOf(r, BeginEvent) == 1 && CountOf(r, EndEvent) == 1
  {
    var uid, start, end := uuid + UidSuffix, FormatDate(ev.start), FormatDate(NextDay(ev.end));
    var summary, location, url := Escape(ev.summary), Escape(ev.location), Escape(ev.url);
    BlockInterior(uid, stamp, start, end, summary, ev.location != "", location, ev.url != "", url);
    BlockMarkers(uid, stamp, start, end, summary, ev.location != "", location, ev.url != "", url);
    Block(uid, stamp, start, end, summary, ev.location != "", location, ev.url != "", url)
  }

  /** The blocks of all events, in input order. */
  function EventBlocks(events: seq<Event>, uuids: seq<string>, stamp: string): seq<string>
    requires |uuids| == |events| && AllRenderable(events)
    decreases |events|
  {
    if |events| == 0 then []
    else
      var n := |events| - 1;
      EventBlocks(events[..n], uuids[..n], stamp) + EventLines(events[n], uuids[n], stamp)
  }

  /** All content lines of the document: the envelope first, END:VCALENDAR last. */
  function CalendarLines(events: seq<Event>, uuids: seq<string>, now: DateTime): (r: seq<string>)
    requires |uuids| == |events| && AllRenderable(events)
    requires ValidDateTime(now) && 1000 <= now.date.year
    ensures |r| >= 6 && r[..5] == Envelope && r[|r| - 1] == CalendarEnd
  {
    var r := Envelope + EventBlocks(events, uuids, FormatStamp(now)) + [CalendarEnd];
    assert r[..5] == Envelope;
    r
  }

  /** `"\r\n".join(lines) + "\r\n"`: the document always ends with a CRLF. */
  function Render(lines: seq<string>): (r: string)
    ensures |r| >= 2 && r[|r| - 2..] == Crlf
  {
    Join(lines, Crlf) + Crlf
  }

  /** Each line followed by its own CRLF. */
  function Terminated(lines: seq<string>): string {
    if |lines| == 0 then "" else lines[0] + Crlf + Terminated(lines[1..])
  }

  /** `generate_ics`: the envelope, then one block per event built by appending line after line,
      then the closing line, all joined with CRLF and a final CRLF. */
  method GenerateIcs(events: seq<Event>, uuids: seq<string>, now: DateTime) returns (ics: string)
    requires |uuids| == |events| && AllRenderable(events)
    requires ValidDateTime(now) && 1000 <= now.date.year
    ensures ics == Render(CalendarLines(events, uuids, now))
  {
    var lines: seq<string> := [];
    lines := lines + ["BEGIN:VCALENDAR"];
    lines := lines + ["VERSION:2.0"];
    lines := lines + ["PRODID:-//Luke//NAF Tournament Calendar//EN"];
    lines := lines + ["CALSCALE:GREGORIAN"];
    lines := lines + ["METHOD:PUBLISH"];

    var now' := FormatStamp(now);
    assert lines == Envelope;
    assert EventBlocks(events[..0], uuids[..0], now') == [];

    for i := 0 to |events|
      invariant lines == Envelope + EventBlocks(events[..i], uuids[..i], now')
    {
      ghost var blocks := EventBlocks(events[..i], uuids[..i], now');
      lines := AppendEvent(lines, events[i], uuids[i], now');
      EventBlocksGrow(events, uuids, now', i);
      AppendAssociative(Envelope, blocks, EventLines(events[i], uuids[i], now'));
    }
    assert events[..|events|] == events && uuids[..|uuids|] == uuids;

    lines := lines + [CalendarEnd];
    ics := Join(lines, Crlf) + Crlf;
  }

  /** The blocks of one more event: the previous blocks, then the new one. */
  lemma EventBlocksGrow(events: seq<Event>, uuids: seq<string>, stamp: string, i: nat)
    requires |uuids| == |events| && AllRenderable(events) && i < |events|
    ensures EventBlocks(events[..i + 1], uuids[..i + 1], stamp) ==
            EventBlocks(events[..i], uuids[..i], stamp) + EventLines(events[i], uuids[i], stamp)
  {
    assert events[..i + 1][..i] == events[..i] && uuids[..i + 1][..i] == uuids[..i];
  }

  /** Regrouping a concatenation; stated as a lemma so the loop's step does not rely on the solver
      finding sequence associativity by itself. */
  lemma AppendAssociative<T>(a: seq<T>, b: seq<T>, c: seq<T>)
    ensures a + b + c == a + (b + c)
  {
  }

  /** The body of `generate_ics`'s loop: append the VEVENT block of one event. */
  method AppendEvent(lines: seq<string>, ev: Event, uuid: string, now': string) returns (lines': seq<string>)
    requires Renderable(ev)
    ensures lines' == lines + EventLines(ev, uuid, now')
  {
    var uid := uuid + UidSuffix;
    var start := FormatDate(ev.start);
    var end := FormatDate(NextDay(ev.end));
    var summary := Escape(ev.summary);
    lines' := lines;
    lines' := lines' + [BeginEvent];
    lines' := lines' + ["UID:" + uid];
    lines' := lines' + ["DTSTAMP:" + now'];
    lines' := lines' + ["DTSTART;VALUE=DATE:" + start];
    lines' := lines' + ["DTEND;VALUE=DATE:" + end];
    lines' := lines' + ["SUMMARY:" + summary];
    ghost var block := [BeginEvent, "UID:" + uid, "DTSTAMP:" + now', "DTSTART;VALUE=DATE:" + start,
                        "DTEND;VALUE=DATE:" + end, "SUMMARY:" + summary];
    assert lines' == lines + block;
    if ev.location != "" {
      lines' := lines' + ["LOCATION:" + Escape(ev.location)];
      block := block + ["LOCATION:" + Escape(ev.location)];
    }
    if ev.url != "" {
      lines' := lines' + ["URL:" + Escape(ev.url)];
      block := block + ["URL:" + Escape(ev.url)];
    }
    lines' := lines' + [EndEvent];
    block := block + [EndEvent];
    assert block == Block(uid, now', start, end, summary,
                          ev.location != "", Escape(ev.location), ev.url != "", Escape(ev.url));
    assert lines' == lines + block;
  }

  // ---------------------------------------------------------------- line terminators

  /** Every line, the last included, ends in CRLF: the join-then-append form equals per-line termination. */
  lemma {:induction false} RenderTerminatesEveryLine(lines: seq<string>)
    requires |lines| > 0
    ensures Render(lines) == Terminated(lines)
  {
    if |lines| > 1 {
      RenderTerminatesEveryLine(lines[1..]);
      assert Render(lines) == lines[0] + Crlf + Render(lines[1..]);
    } else {
      assert lines[1..] == [];
    }
  }

  // ---------------------------------------------------------------- block structure

  /** Between its BEGIN and END markers a block holds only property lines, each starting with
      U, D, S or L: 7 lines, plus one for LOCATION and one for URL when their flags are set. */
  lemma BlockInterior(uid: string, stamp: string, start: string, end: string, summary: string,
                      hasLocation: bool, location: string, hasUrl: bool, url: string)
    ensures var lines := Block(uid, stamp, start, end, summary, hasLocation, location, hasUrl, url);
            |lines| == 7 + (if hasLocation then 1 else 0) + (if hasUrl then 1 else 0) &&
            lines[0] == BeginEvent && lines[|lines| - 1] == EndEvent &&
            (forall j :: 0 < j < |lines| - 1 ==>
               |lines[j]| >= 4 && (lines[j][0] == 'U' || lines[j][0] == 'D' || lines[j][0] == 'S' || lines[j][0] == 'L')) &&
            (hasLocation ==> lines[6] == "LOCATION:" + location) &&
            (hasUrl ==> lines[|lines| - 2] == "URL:" + url)
  {
  }

  /** A block opens with BEGIN:VEVENT, closes with END:VEVENT, and holds no other BEGIN:VEVENT or
      END:VEVENT line. */
  lemma BlockMarkers(uid: string, stamp: string, start: string, end: string, summary: string,
                     hasLocation: bool, location: string, hasUrl: bool, url: string)
    ensures var lines := Block(uid, stamp, start, end, summary, hasLocation, location, hasUrl, url);
            lines[0] == BeginEvent && lines[|lines| - 1] == EndEvent &&
            CountOf(lines, BeginEvent) == 1 && CountOf(lines, EndEvent) == 1
  {
    var lines := Block(uid, stamp, start, end, summary, hasLocation, location, hasUrl, url);
    BlockInterior(uid, stamp, start, end, summary, hasLocation, location, hasUrl, url);
    var inner := lines[1..|lines| - 1];
    assert lines == [BeginEvent] + inner + [EndEvent];
    assert BeginEvent[0] == 'B' && EndEvent[0] == 'E';
    assert forall j :: 0 <= j < |inner| ==> inner[j] == lines[j + 1];
    CountAbsent(inner, BeginEvent);
    CountAbsent(inner, EndEvent);
    CountOfAppend([BeginEvent] + inner, [EndEvent], BeginEvent);
    CountOfAppend([BeginEvent], inner, BeginEvent);
    CountOfAppend([BeginEvent] + inner, [EndEvent], EndEvent);
    CountOfAppend([BeginEvent], inner, EndEvent);
  }

  /** A block carries a line starting with "LOCATION:" exactly when its location flag is set, and one
      starting with "URL:" exactly when its URL flag is set. */
  lemma BlockOptional(uid: string, stamp: string, start: string, end: string, summary: string,
                      hasLocation: bool, location: string, hasUrl: bool, url: string)
    ensures var lines := Block(uid, stamp, start, end, summary, hasLocation, location, hasUrl, url);
            ((exists j :: 0 <= j < |lines| && IsPrefix("LOCATION:", lines[j])) <==> hasLocation) &&
            ((exists j :: 0 <= j < |lines| && IsPrefix("URL:", lines[j])) <==> hasUrl)
  {
    var lines := Block(uid, stamp, start, end, summary, hasLocation, location, hasUrl, url);
    BlockInterior(uid, stamp, start, end, summary, hasLocation, location, hasUrl, url);
    if hasLocation {
      assert IsPrefix("LOCATION:", lines[6]);
    } else {
      LocationAbsent(uid, stamp, start, end, summary, location, hasUrl, url);
    }
    if hasUrl {
      assert IsPrefix("URL:", lines[|lines| - 2]);
    } else {
      UrlAbsent(uid, stamp, start, end, summary, hasLocation, location, url);
    }
  }

  lemma PrefixHead(p: string, s: string)
    requires |p| > 0 && IsPrefix(p, s)
    ensures s[0] == p[0]
  {
    assert s[..|p|][0] == s[0];
  }

  /** Without a location the block has no line starting with L, so none starts with "LOCATION:". */
  lemma LocationAbsent(uid: string, stamp: string, start: string, end: string, summary: string,
                       location: string, hasUrl: bool, url: string)
    ensures var lines := Block(uid, stamp, start, end, summary, false, location, hasUrl, url);
            forall j :: 0 <= j < |lines| ==> !IsPrefix("LOCATION:", lines[j])
  {
    var lines := Block(uid, stamp, start, end, summary, false, location, hasUrl, url);
    forall j | 0 <= j < |lines|
      ensures !IsPrefix("LOCATION:", lines[j])
    {
      assert lines[j][0] != 'L';
      if IsPrefix("LOCATION:", lines[j]) {
        PrefixHead("LOCATION:", lines[j]);
      }
    }
  }

  /** Without a link the block has no line starting with "UR" (the UID line starts with "UI"). */
  lemma UrlAbsent(uid: string, stamp: string, start: string, end: string, summary: string,
                  hasLocation: bool, location: string, url: string)
    ensures var lines := Block(uid, stamp, start, end, summary, hasLocation, location, false, url);
            forall j :: 0 <= j < |lines| ==> !IsPrefix("URL:", lines[j])
  {
    var lines := Block(uid, stamp, start, end, summary, hasLocation, location, false, url);
    forall j | 0 <= j < |lines|
      ensures !IsPrefix("URL:", lines[j])
    {
      assert |lines[j]| >= 4 && (lines[j][0] != 'U' || lines[j][1] != 'R');
    }
  }

  /** An event's block opens with BEGIN:VEVENT and closes with END:VEVENT, and carries LOCATION exactly
      for a non-empty location and URL exactly for a non-empty link. */
  lemma EventLinesShape(ev: Event, uuid: string, stamp: string)
    requires Renderable(ev)
    ensures var lines := EventLines(ev, uuid, stamp);
            lines[0] == BeginEvent && lines[|lines| - 1] == EndEvent &&
            ((exists j :: 0 <= j < |lines| && IsPrefix("LOCATION:", lines[j])) <==> ev.location != "") &&
            ((exists j :: 0 <= j < |lines| && IsPrefix("URL:", lines[j])) <==> ev.url != "")
  {
    var uid, start, end := uuid + UidSuffix, FormatDate(ev.start), FormatDate(NextDay(ev.end));
    var summary, location, url := Escape(ev.summary), Escape(ev.location), Escape(ev.url);
    BlockInterior(uid, stamp, start, end, summary, ev.location != "", location, ev.url != "", url);
    BlockOptional(uid, stamp, start, end, summary, ev.location != "", location, ev.url != "", url);
  }

  lemma {:induction false} CountAbsent<T>(s: seq<T>, x: T)
    requires forall j :: 0 <= j < |s| ==> s[j] != x
    ensures CountOf(s, x) == 0
  {
    if |s| > 0 {
      CountAbsent(s[1..], x);
    }
  }

  /** How many lines the blocks of `events` take. */
  function BlockLines(events: seq<Event>): nat {
    if |events| == 0 then 0
    else
      var ev := events[|events| - 1];
      BlockLines(events[..|events| - 1]) + 7 + (if ev.location != "" then 1 else 0) + (if ev.url != "" then 1 else 0)
  }

  /** One BEGIN:VEVENT and one END:VEVENT per event, and the blocks' line total. */
  lemma {:induction false} BlockCounts(events: seq<Event>, uuids: seq<string>, stamp: string)
    requires |uuids| == |events| && AllRenderable(events)
    ensures var blocks := EventBlocks(events, uuids, stamp);
            CountOf(blocks, BeginEvent) == |events| && CountOf(blocks, EndEvent) == |events| &&
            |blocks| == BlockLines(events)
    decreases |events|
  {
    if |events| > 0 {
      var n := |events| - 1;
      assert AllRenderable(events[..n]);
      BlockCounts(events[..n], uuids[..n], stamp);
      var prefix := EventBlocks(events[..n], uuids[..n], stamp);
      var last := EventLines(events[n], uuids[n], stamp);
      assert EventBlocks(events, uuids, stamp) == prefix + last;
      assert BlockLines(events) == BlockLines(events[..n]) + |last|;
      CountOfAppend(prefix, last, BeginEvent);
      CountOfAppend(prefix, last, EndEvent);
    }
  }

  /** The envelope and the closing line hold no VEVENT marker. */
  lemma EnvelopeHasNoMarkers()
    ensures CountOf(Envelope, BeginEvent) == 0 && CountOf(Envelope, EndEvent) == 0
    ensures CountOf([CalendarEnd], BeginEvent) == 0 && CountOf([CalendarEnd], EndEvent) == 0
  {
    // the lines differ from the markers in length
    assert |BeginEvent| == 12 && |EndEvent| == 10 && |CalendarEnd| == 13;
    assert forall j :: 0 <= j < |Envelope| ==> |Envelope[j]| > 12 || |Envelope[j]| == 11;
    CountAbsent(Envelope, BeginEvent);
    CountAbsent(Envelope, EndEvent);
    CountAbsent([CalendarEnd], BeginEvent);
    CountAbsent([CalendarEnd], EndEvent);
  }

  /** The document holds exactly one BEGIN:VEVENT/END:VEVENT pair per event, and has 6 lines more
      than its blocks (the envelope and END:VCALENDAR, placed as CalendarLines promises). */
  lemma DocumentStructure(events: seq<Event>, uuids: seq<string>, now: DateTime)
    requires |uuids| == |events| && AllRenderable(events)
    requires ValidDateTime(now) && 1000 <= now.date.year
    ensures var lines := CalendarLines(events, uuids, now);
            |lines| == 6 + BlockLines(events) &&
            CountOf(lines, BeginEvent) == |events| && CountOf(lines, EndEvent) == |events|
  {
    var stamp := FormatStamp(now);
    var blocks := EventBlocks(events, uuids, stamp);
    BlockCounts(events, uuids, stamp);
    CountOfAppend(Envelope + blocks, [CalendarEnd], BeginEvent);
    CountOfAppend(Envelope + blocks, [CalendarEnd], EndEvent);
    CountOfAppend(Envelope, blocks, BeginEvent);
    CountOfAppend(Envelope, blocks, EndEvent);
    EnvelopeHasNoMarkers();
  }

  /** Without events the document is the envelope and the closing line, nothing else. */
  lemma EmptyCalendar(now: DateTime)
    requires ValidDateTime(now) && 1000 <= now.date.year
    ensures Render(CalendarLines([], [], now)) == Terminated(Envelope + [CalendarEnd])
  {
    assert CalendarLines([], [], now) == Envelope + [CalendarEnd];
    RenderTerminatesEveryLine(Envelope + [CalendarEnd]);
  }

  // ---------------------------------------------------------------- all-day dates

  /** DTEND's value sorts after DTSTART's exactly when the end is not before the start; the block
      then spans exactly end - start + 1 days. A record whose end precedes its start (the code does
      not reject one) gets a DTEND that does not follow its DTSTART. */
  lemma AllDayRange(ev: Event)
    requires Renderable(ev)
    ensures LexLess(FormatDate(ev.start), FormatDate(NextDay(ev.end))) <==> !Before(ev.end, ev.start)
    ensures !Before(ev.end, ev.start) ==>
              Ordinal(NextDay(ev.end)) - Ordinal(ev.start) == Ordinal(ev.end) - Ordinal(ev.start) + 1 >= 1
  {
    var next := NextDay(ev.end);
    NextDayOrdinal(ev.end);
    OrdinalOrder(ev.end, ev.start);
    if Before(ev.end, ev.start) {
      NextDayIsSuccessor(ev.end, ev.start);
      if next == ev.start {
        if LexLess(FormatDate(ev.start), FormatDate(next)) {
          LexLessAsymmetric(FormatDate(ev.start), FormatDate(next));
        }
      } else {
        FormatDateOrder(next, ev.start);
        LexLessAsymmetric(FormatDate(next), FormatDate(ev.start));
      }
    } else {
      OrdinalOrder(ev.start, next);
      FormatDateOrder(ev.start, next);
    }
  }

  /** A single-day event (no readable end date, so end == start) spans exactly one day. */
  lemma SingleDayEvent(ev: Event)
    requires Renderable(ev) && ev.end == ev.start
    ensures Ordinal(NextDay(ev.end)) == Ordinal(ev.start) + 1
    ensures LexLess(FormatDate(ev.start), FormatDate(NextDay(ev.end)))
  {
    AllDayRange(ev);
  }

  /** A kept row whose end cell is not a date becomes a one-day block: DTEND is the day after DTSTART. */
  lemma UnreadableEndIsSingleDay(row: Row)
    requires KeepsRow(row) && ParseIsoDate(DataCells(row)[5].text).None?
    requires Renderable(RowEvent(row).value)
    ensures var ev := RowEvent(row).value;
            ev.end == ev.start && NextDay(ev.end) == NextDay(ev.start) &&
            Ordinal(NextDay(ev.end)) == Ordinal(ev.start) + 1
  {
    EndDateFallback(row);
    SingleDayEvent(RowEvent(row).value);
  }
}
