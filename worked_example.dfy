/** The worked example of one tournament row, from its cells to the date values of its VEVENT block. */
module WorkedExample {
  import opened Wrappers
  import opened Strings
  import opened Dates
  import opened DateText
  import opened Extractor

  const SpringOpenRow: Row :=
    [Cell(Td, "Spring Open", Some(Anchor("Spring Open", Some("x")))),
     Cell(Td, "USA", None), Cell(Td, "CA", None), Cell(Td, "Fresno", None),
     Cell(Td, "2024-05-10", None), Cell(Td, "2024-05-12", None),
     Cell(Td, "Sevens", None), Cell(Td, "Yes", None)]

  lemma SpringOpenTexts()
    ensures IsoText(2024, 5, 10) == "2024-05-10" && IsoText(2024, 5, 12) == "2024-05-12"
  {
    Year2024();
    MonthTwoDigits();
    DayTwoDigits();
  }

  /** Both date cells parse. */
  lemma SpringOpenDatesParse()
    ensures ParseIsoDate("2024-05-10") == Some(Date(2024, 5, 10))
    ensures ParseIsoDate("2024-05-12") == Some(Date(2024, 5, 12))
  {
    SpringOpenTexts();
    ParseIsoText(2024, 5, 10);
    ParseIsoText(2024, 5, 12);
  }

  lemma SpringOpenCells()
    ensures DataCells(SpringOpenRow) == SpringOpenRow
  {
    var row := SpringOpenRow;
    assert row[1..][1..][1..][1..][1..][1..][1..][1..] == [];
  }

  lemma SpringOpenLocation()
    ensures Location("Fresno", "CA", "USA") == "Fresno, CA, USA"
  {
    assert ["Fresno", "CA", "USA"][1..] == ["CA", "USA"];
    assert ["CA", "USA"][1..] == ["USA"];
    assert ["USA"][1..] == [];
    assert NonEmpty(["Fresno", "CA", "USA"]) == ["Fresno", "CA", "USA"];
    assert Join(["USA"], ", ") == "USA";
    assert Join(["CA", "USA"], ", ") == "CA, USA";
  }

  lemma SpringOpenSummary()
    ensures Summary("Spring Open", "Sevens", "Yes") == "Spring Open (Sevens) [MAJOR]"
  {
    assert AsciiLower("Yes") == "yes";
  }

  /** The row yields the summary with variant and major marker, the joined location and the link. */
  lemma SpringOpenRecord()
    ensures RowEvent(SpringOpenRow) ==
            Some(Event("Spring Open (Sevens) [MAJOR]", Date(2024, 5, 10), Date(2024, 5, 12),
                       "Fresno, CA, USA", "x"))
  {
    SpringOpenCells();
    SpringOpenDatesParse();
    SpringOpenLocation();
    SpringOpenSummary();
  }

  /** Its DTSTART value is 20240510 and its exclusive DTEND value 20240513. */
  lemma SpringOpenDateTexts()
    ensures FormatDate(Date(2024, 5, 10)) == "20240510"
    ensures FormatDate(NextDay(Date(2024, 5, 12))) == "20240513"
  {
    Year2024();
    MonthTwoDigits();
    DayTwoDigits();
    assert NextDay(Date(2024, 5, 12)) == Date(2024, 5, 13);
  }
}
