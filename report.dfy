/** The attendance report page: the filter form, the CSV text of the export
    and the academic-year choices. */
module Report {
  import opened Wrappers
  import opened Text

  /** One attendance log entry. Every field but the exit time is a string;
      the exit time may be missing. */
  datatype Record = Record(name: string, rfid: string, className: string, section: string,
                           roll: string, inTime: string, outTime: Option<string>, status: string)

  const Prefix: string := "data:text/csv;charset=utf-8,"

  /** The column titles. */
  const Columns: seq<string> := ["Student Name", "RFID", "Class", "Section", "Roll", "In Time", "Out Time", "Status"]

  /** The header line: the column titles separated by commas. It reads back
      as the eight titles and stays on one line. */
  function Header(): (header: string)
    ensures Split(header, ',') == Columns
    ensures '\n' !in header
  {
    HeaderReadsBack();
    Join(Columns, ',')
  }

  /** Joining the titles loses nothing: none holds a comma or a line break. */
  lemma HeaderReadsBack()
    ensures Split(Join(Columns, ','), ',') == Columns
    ensures '\n' !in Join(Columns, ',')
  {
    ColumnsPlain();
    SplitJoin(Columns, ',');
    CountJoinOther(Columns, ',', '\n');
    OccurrencesZero(Columns, '\n');
    CountZero(Join(Columns, ','), '\n');
  }

  /** `r.outTime || ""`: the exit time, or nothing when it is missing or empty. */
  function OutText(r: Record): (text: string)
    ensures text == "" <==> r.outTime.None? || r.outTime.value == ""
    ensures text != "" ==> r.outTime == Some(text)
  {
    match r.outTime
    case None => ""
    case Some(t) => t
  }

  /** The eight values of a row, in column order. */
  function Fields(r: Record): (fields: seq<string>)
    ensures |fields| == |Columns|
  {
    [r.name, r.rfid, r.className, r.section, r.roll, r.inTime, OutText(r), r.status]
  }

  /** A record's line: the values joined by commas, as they are, so it
      holds the seven separators plus every comma inside a value. */
  function Row(r: Record): (row: string)
    ensures Count(row, ',') == |Columns| - 1 + Occurrences(Fields(r), ',')
  {
    CountJoin(Fields(r), ',');
    Join(Fields(r), ',')
  }

  /** The lines of the file: the header, then one line per record in order. */
  function Lines(report: seq<Record>): (lines: seq<string>)
    ensures |lines| == |report| + 1 && lines[0] == Header()
    ensures forall i :: 0 <= i < |report| ==> lines[i + 1] == Row(report[i])
  {
    var header, rows := Header(), Rows(report);
    assert forall i :: 0 <= i < |report| ==> ([header] + rows)[i + 1] == rows[i];
    [header] + rows
  }

  /** `report.map(...)`: each record's row, in order. */
  function Rows(report: seq<Record>): (rows: seq<string>)
    ensures |rows| == |report|
    ensures forall i :: 0 <= i < |report| ==> rows[i] == Row(report[i])
  {
    if report == [] then [] else [Row(report[0])] + Rows(report[1..])
  }

  /** The data URI `exportReport` builds before encoding it: the CSV
      data-URI prefix, then the header; an empty report gives just those. */
  function Csv(report: seq<Record>): (csv: string)
    ensures |csv| >= |Prefix| + |Header()|
    ensures csv[..|Prefix| + |Header()|] == Prefix + Header()
    ensures report == [] ==> csv == Prefix + Header()
  {
    PrefixThenHeader(Prefix, report);
    Prefix + Join(Lines(report), '\n')
  }

  /** Whatever comes before the joined lines, the header follows it. */
  lemma PrefixThenHeader(prefix: string, report: seq<Record>)
    ensures var csv := prefix + Join(Lines(report), '\n');
      && |csv| >= |prefix| + |Header()|
      && csv[..|prefix| + |Header()|] == prefix + Header()
      && (report == [] ==> csv == prefix + Header())
  {
    var body := Join(Lines(report), '\n');
    BodyStartsWithHeader(report);
    Halves(prefix, body, |Header()|);
  }

  /** The lines joined start with the header, and are only the header for
      an empty report. */
  lemma BodyStartsWithHeader(report: seq<Record>)
    ensures var body := Join(Lines(report), '\n');
      && |body| >= |Header()| && body[..|Header()|] == Header()
      && (report == [] ==> body == Header())
  {
    var lines := Lines(report);
    assert report == [] ==> lines == [Header()];
  }

  /** Slicing a concatenation at or past the seam. */
  lemma Halves(a: string, b: string, n: nat)
    requires n <= |b|
    ensures (a + b)[..|a| + n] == a + b[..n]
    ensures (a + b)[|a|..] == b
  {
  }

  /** No column title holds a comma or a line break. */
  lemma ColumnsPlain()
    ensures forall j :: 0 <= j < |Columns| ==> ',' !in Columns[j] && '\n' !in Columns[j]
  {
  }

  /** No value of any record contains `c`. */
  predicate Free(report: seq<Record>, c: char) {
    forall i, j :: 0 <= i < |report| && 0 <= j < |Columns| ==> c !in Fields(report[i])[j]
  }

  /** Reading the file back line by line gives the header and then each
      record's row, report.length + 1 lines, as long as no value holds a
      line break; the text then holds exactly report.length line breaks. */
  lemma {:induction false} CsvLines(report: seq<Record>)
    requires Free(report, '\n')
    ensures var body := Csv(report)[|Prefix|..];
      && Split(body, '\n') == Lines(report)
      && |Split(body, '\n')| == |report| + 1
      && Count(body, '\n') == |report|
  {
    Halves(Prefix, Join(Lines(report), '\n'), 0);
    JoinedLines(report);
  }

  /** CsvLines for the text after the prefix. */
  lemma JoinedLines(report: seq<Record>)
    requires Free(report, '\n')
    ensures var body := Join(Lines(report), '\n');
      && Split(body, '\n') == Lines(report)
      && |Split(body, '\n')| == |report| + 1
      && Count(body, '\n') == |report|
  {
    var lines := Lines(report);
    forall i | 0 <= i < |lines|
      ensures '\n' !in lines[i]
    {
      if i > 0 {
        RowFree(report[i - 1], '\n');
      }
    }
    SplitJoin(lines, '\n');
    CountJoin(lines, '\n');
    OccurrencesZero(lines, '\n');
  }

  /** A row holds no character but a comma that none of its values holds. */
  lemma RowFree(r: Record, c: char)
    requires c != ','
    requires forall j :: 0 <= j < |Columns| ==> c !in Fields(r)[j]
    ensures c !in Row(r)
  {
    var fields := Fields(r);
    CountJoinOther(fields, ',', c);
    OccurrencesZero(fields, c);
    CountZero(Row(r), c);
  }

  /** Join adds no character but the separator. */
  lemma {:induction false} CountJoinOther(parts: seq<string>, sep: char, c: char)
    requires |parts| >= 1 && c != sep
    ensures Count(Join(parts, sep), c) == Occurrences(parts, c)
  {
    if |parts| > 1 {
      CountJoinOther(parts[1..], sep, c);
      CountAppend(parts[0] + [sep], Join(parts[1..], sep), c);
      CountAppend(parts[0], [sep], c);
      assert Count([sep], c) == 0 by { assert [sep][1..] == []; }
    } else {
      assert parts[1..] == [];
    }
  }

  /** Values go in without quoting: splitting a row on commas gives back
      its eight values exactly when none of them contains a comma; each
      comma inside a value adds one spurious column. */
  lemma RowSplitsIntoFields(r: Record)
    ensures |Split(Row(r), ',')| == |Columns| + Occurrences(Fields(r), ',')
    ensures Split(Row(r), ',') == Fields(r) <==> forall j :: 0 <= j < |Columns| ==> ',' !in Fields(r)[j]
  {
    var fields := Fields(r);
    SplitCount(Row(r), ',');
    CountJoin(fields, ',');
    OccurrencesZero(fields, ',');
    if forall j :: 0 <= j < |Columns| ==> ',' !in fields[j] {
      SplitJoin(fields, ',');
    }
  }

  /** A name with one comma in it, such as "Doe, Jane", adds a ninth
      column. */
  lemma CommaInNameShiftsColumns(r: Record, last: string, first: string)
    requires r.name == last + "," + first && ',' !in last && ',' !in first
    requires forall j :: 1 <= j < |Columns| ==> ',' !in Fields(r)[j]
    ensures |Split(Row(r), ',')| == |Columns| + 1
  {
    var fields := Fields(r);
    RowSplitsIntoFields(r);
    OneComma(last, first);
    OccurrencesZero(fields[1..], ',');
    assert Occurrences(fields, ',') == Count(r.name, ',') + Occurrences(fields[1..], ',');
  }

  lemma OneComma(a: string, b: string)
    requires ',' !in a && ',' !in b
    ensures Count(a + "," + b, ',') == 1
  {
    CountAppend(a + ",", b, ',');
    CountAppend(a, ",", ',');
    CountZero(a, ',');
    CountZero(b, ',');
    assert ","[1..] == [];
  }

  /** The year choices: this year and the five before it, newest first. */
  method YearOptions(currentYear: int) returns (years: seq<int>)
    ensures |years| == 6
    ensures forall i :: 0 <= i < 6 ==> years[i] == currentYear - i
    ensures forall i :: 0 < i < 6 ==> years[i] == years[i - 1] - 1
  {
    years := [];
    for i := 0 to 6
      invariant |years| == i
      invariant forall j :: 0 <= j < i ==> years[j] == currentYear - j
    {
      years := years + [currentYear - i];
    }
  }

  /** `{ ...filters, [name]: value }`. */
  function WithField(filters: map<string, string>, name: string, value: string): (updated: map<string, string>)
    ensures name in updated && updated[name] == value
    ensures updated.Keys == filters.Keys + {name}
    ensures forall k :: k in filters && k != name ==> updated[k] == filters[k]
  {
    filters[name := value]
  }

  /** The report page's filter state. */
  class ReportPage {
    var filters: map<string, string>
    var report: seq<Record>

    constructor ()
      ensures filters == map["dateFrom" := "", "dateTo" := "", "session" := "", "class" := "", "section" := ""]
      ensures report == []
    {
      filters := map["dateFrom" := "", "dateTo" := "", "session" := "", "class" := "", "section" := ""];
      report := [];
    }

    /** `handleChange` for the control named `name`. */
    method HandleChange(name: string, value: string)
      modifies this`filters
      ensures filters == WithField(old(filters), name, value)
    {
      filters := filters[name := value];
    }
  }

  /** Changing one of the form's own controls keeps the same five fields. */
  lemma ChangeKeepsFields(filters: map<string, string>, name: string, value: string)
    requires name in filters
    ensures WithField(filters, name, value).Keys == filters.Keys
    ensures |WithField(filters, name, value).Keys| == |filters.Keys|
  {
  }
}
