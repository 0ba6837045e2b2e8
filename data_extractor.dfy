/**
 * `DataExtractor`: finds the blood-sugar table on the data page, maps its
 * header to the value and timestamp columns, and turns each data row into a
 * record; before that it may narrow the page to one month through the year
 * and month `select` controls.
 *
 * The page's tables are given as data: a table is its visible text and its
 * rows, a row its `th` and `td` cell texts.
 */
module DataExtractor {
  import opened Wrappers
  import opened Text
  import opened Numeric
  import opened DateParsing
  import opened Dom

  datatype Row = Row(th: seq<string>, td: seq<string>)

  datatype Table = Table(text: string, rows: seq<Row>)

  /**
   * One measurement as a dictionary of the source: a field is `None` where
   * the dictionary has no such key or holds `None` under it.
   */
  datatype Record = Record(
    value: Option<real>,              // "blood_sugar_value"
    datetime: Option<string>,         // "measurement_datetime"
    rawData: Option<seq<string>>,     // "raw_data"
    extractedAt: Option<string>)      // "extracted_at"

  const TableKeywords: seq<string> :=
    ["血糖値", "血糖", "glucose", "mg/dl", "mmol/l", "測定", "日時", "時刻", "value", "measurement"]
  const ValueKeywords: seq<string> := ["血糖値", "glucose", "値", "value", "mg/dl"]
  const DatetimeKeywords: seq<string> := ["日時", "時刻", "測定日", "date", "time", "datetime"]
  const YearKeywords: seq<string> := ["year", "年", "yyyy"]
  const MonthKeywords: seq<string> := ["month", "月", "mm"]
  /** The words the filter button's `value` is searched for. */
  const FilterWords: seq<string> := ["検索", "表示", "Search", "Filter"]

  // ---------------------------------------------------------------- tables

  /** A table that looks like the measurement table: a keyword in its lower-cased text and a data row. */
  predicate IsDataTable(t: Table) {
    AnyKeywordIn(Lower(t.text), TableKeywords) && |t.rows| > 1
  }

  /** `find_data_table`: the first table in page order that looks like the measurement table. */
  function FindDataTable(tables: seq<Table>): (r: Option<nat>)
    ensures r.Some? ==> r.value < |tables| && IsDataTable(tables[r.value])
    ensures r.Some? ==> forall j :: 0 <= j < r.value ==> !IsDataTable(tables[j])
    ensures r.None? <==> forall j :: 0 <= j < |tables| ==> !IsDataTable(tables[j])
  {
    FirstIndex(tables, IsDataTable)
  }

  /** A header names a column when its lower-cased text contains some lower-cased keyword. */
  predicate HeaderMatches(header: string, keywords: seq<string>) {
    AnyKeywordIn(Lower(header), LowerAll(keywords))
  }

  /** `find_column_index`: the leftmost matching column; the order of the keywords plays no part. */
  function FindColumnIndex(headers: seq<string>, keywords: seq<string>): (r: Option<nat>)
    ensures r.Some? ==> r.value < |headers| && HeaderMatches(headers[r.value], keywords)
    ensures r.Some? ==> forall j :: 0 <= j < r.value ==> !HeaderMatches(headers[j], keywords)
    ensures r.None? <==> forall j :: 0 <= j < |headers| ==> !HeaderMatches(headers[j], keywords)
  {
    FirstIndex(headers, (h: string) => HeaderMatches(h, keywords))
  }

  /** The header row's `th` cells, or its `td` cells when it has no `th`. */
  function HeaderCells(row: Row): seq<string> {
    if row.th != [] then row.th else row.td
  }

  function Headers(t: Table): seq<string>
    requires t.rows != []
  {
    StripAll(HeaderCells(t.rows[0]))
  }

  function Or0(i: Option<nat>): nat {
    if i.Some? then i.value else 0
  }

  /** The number of `td` cells a data row needs: `max(value_col or 0, datetime_col or 0) + 1`. */
  function Needed(vcol: Option<nat>, dcol: Option<nat>): nat {
    (if Or0(vcol) >= Or0(dcol) then Or0(vcol) else Or0(dcol)) + 1
  }

  /** The record a data row with these `td` cells yields, if any. */
  function RowRecord(cells: seq<string>, vcol: Option<nat>, dcol: Option<nat>): Option<Record> {
    if |cells| < Needed(vcol, dcol) || vcol.None? then None
    else
      match ExtractNumericValue(Strip(cells[vcol.value]))
      case None => None
      case Some(v) =>
        var dt := if dcol.Some? then ParseDatetime(Strip(cells[dcol.value])) else None;
        Some(Record(Some(v), dt, Some(StripAll(cells)), None))
  }

  /** What one data row contributes: its record, or nothing. */
  function Yield(row: Row, vcol: Option<nat>, dcol: Option<nat>): seq<Record> {
    match RowRecord(row.td, vcol, dcol)
    case Some(r) => [r]
    case None => []
  }

  /** The records of a sequence of data rows, in row order. */
  function RecordsOf(rows: seq<Row>, vcol: Option<nat>, dcol: Option<nat>): seq<Record> {
    FlatMap(rows, (row: Row) => Yield(row, vcol, dcol))
  }

  /** What `parse_data_table` returns for a table: the records of every row after the header row. */
  function TableRecords(t: Table): seq<Record> {
    if t.rows == [] then []
    else
      var headers := Headers(t);
      RecordsOf(t.rows[1..], FindColumnIndex(headers, ValueKeywords), FindColumnIndex(headers, DatetimeKeywords))
  }

  /** `parse_data_table`. */
  method ParseDataTable(t: Table) returns (records: seq<Record>)
    ensures records == TableRecords(t)
  {
    if t.rows == [] {
      return [];
    }
    var headers := Headers(t);
    var vcol := FindColumnIndex(headers, ValueKeywords);
    var dcol := FindColumnIndex(headers, DatetimeKeywords);
    records := ParseRows(t.rows[1..], vcol, dcol);
  }

  /** The row loop of `parse_data_table`, over the rows after the header row. */
  method ParseRows(rows: seq<Row>, vcol: Option<nat>, dcol: Option<nat>) returns (records: seq<Record>)
    ensures records == RecordsOf(rows, vcol, dcol)
  {
    records := [];
    var i := 0;
    while i < |rows|
      invariant 0 <= i <= |rows|
      invariant records == RecordsOf(rows[..i], vcol, dcol)
    {
      var record := ParseRow(rows[i].td, vcol, dcol);
      RecordsStep(rows, i, vcol, dcol, records, record);
      if record.Some? {
        records := records + [record.value];
      }
      i := i + 1;
    }
    assert rows[..i] == rows;
  }

  /** The body of the row loop of `parse_data_table`: the record of one data row's `td` cells. */
  method ParseRow(cells: seq<string>, vcol: Option<nat>, dcol: Option<nat>) returns (record: Option<Record>)
    ensures record == RowRecord(cells, vcol, dcol)
  {
    if |cells| < Needed(vcol, dcol) {
      return None;
    }
    assert vcol.Some? ==> vcol.value < |cells|;
    assert dcol.Some? ==> dcol.value < |cells|;
    var value: Option<real> := None;
    if vcol.Some? && vcol.value < |cells| {
      value := ExtractNumericValue(Strip(cells[vcol.value]));
    }
    var dt: Option<string> := None;
    if dcol.Some? && dcol.value < |cells| {
      dt := ParseDatetime(Strip(cells[dcol.value]));
    }
    if value.None? {
      return None;
    }
    ghost var cell := Strip(cells[vcol.value]);
    assert value == ExtractNumericValue(cell);
    ghost var raw := StripAll(cells);
    assert dt == (if dcol.Some? then ParseDatetime(Strip(cells[dcol.value])) else None);
    RowRecordSome(cells, vcol, dcol);
    assert RowRecord(cells, vcol, dcol) == Some(Record(value, dt, Some(raw), None));
    return Some(Record(value, dt, Some(StripAll(cells)), None));
  }

  /** One step of the row loop: the records so far, then the new row's record if it has one. */
  lemma RecordsStep(rows: seq<Row>, i: nat, vcol: Option<nat>, dcol: Option<nat>,
                    records: seq<Record>, record: Option<Record>)
    requires i < |rows| && records == RecordsOf(rows[..i], vcol, dcol)
    requires record == RowRecord(rows[i].td, vcol, dcol)
    ensures RecordsOf(rows[..i + 1], vcol, dcol) == records + if record.Some? then [record.value] else []
  {
    RecordsOfSnoc(rows, i, vcol, dcol);
  }

  lemma RowRecordSome(cells: seq<string>, vcol: Option<nat>, dcol: Option<nat>)
    requires |cells| >= Needed(vcol, dcol) && vcol.Some?
    requires ExtractNumericValue(Strip(cells[vcol.value])).Some?
    ensures RowRecord(cells, vcol, dcol) == Some(Record(ExtractNumericValue(Strip(cells[vcol.value])),
      if dcol.Some? then ParseDatetime(Strip(cells[dcol.value])) else None, Some(StripAll(cells)), None))
  {
  }

  /** Taking one more row adds that row's record, if any, at the end. */
  lemma RecordsOfSnoc(rows: seq<Row>, i: nat, vcol: Option<nat>, dcol: Option<nat>)
    requires i < |rows|
    ensures RecordsOf(rows[..i + 1], vcol, dcol) == RecordsOf(rows[..i], vcol, dcol) + Yield(rows[i], vcol, dcol)
  {
    assert rows[..i + 1][..i] == rows[..i];
  }

  /** Row order is kept: the records of consecutive stretches of rows follow one another. */
  lemma RecordsOfAppend(a: seq<Row>, b: seq<Row>, vcol: Option<nat>, dcol: Option<nat>)
    ensures RecordsOf(a + b, vcol, dcol) == RecordsOf(a, vcol, dcol) + RecordsOf(b, vcol, dcol)
  {
    FlatMapAppend(a, b, (row: Row) => Yield(row, vcol, dcol));
  }

  /** A row yields a record exactly when it has the cells needed and its value cell holds a digit. */
  lemma RowRecordIff(cells: seq<string>, vcol: Option<nat>, dcol: Option<nat>)
    ensures RowRecord(cells, vcol, dcol).Some?
        <==> vcol.Some? && |cells| >= Needed(vcol, dcol) && !NoDigits(Strip(cells[vcol.value]))
    ensures RowRecord(cells, vcol, dcol).Some? ==>
      var r := RowRecord(cells, vcol, dcol).value;
      && r.value == ExtractNumericValue(Strip(cells[vcol.value]))
      && r.value.value >= 0.0
      && r.rawData == Some(StripAll(cells))
      && r.extractedAt.None?
      && (dcol.None? ==> r.datetime.None?)
      && (dcol.Some? ==> r.datetime == ParseDatetime(Strip(cells[dcol.value])))
  {
  }

  /** A row with fewer cells than needed is skipped, so a row without `td` cells never yields a record. */
  lemma ShortRowSkipped(row: Row, vcol: Option<nat>, dcol: Option<nat>)
    requires |row.td| < Needed(vcol, dcol)
    ensures RecordsOf([row], vcol, dcol) == []
  {
    RecordsOfSnoc([row], 0, vcol, dcol);
    assert [row][..1] == [row] && [row][..0] == [];
  }

  /** Without a value column there are no records at all. */
  lemma {:induction false} NoValueColumnNoRecords(rows: seq<Row>, dcol: Option<nat>)
    ensures RecordsOf(rows, None, dcol) == []
  {
    if rows != [] {
      NoValueColumnNoRecords(rows[..|rows| - 1], dcol);
    }
  }

  /** Every record carries a non-negative value and the raw cells, and never an extraction time. */
  lemma {:induction false} RecordsWellFormed(rows: seq<Row>, vcol: Option<nat>, dcol: Option<nat>)
    ensures |RecordsOf(rows, vcol, dcol)| <= |rows|
    ensures forall r :: r in RecordsOf(rows, vcol, dcol) ==>
      r.value.Some? && r.value.value >= 0.0 && r.rawData.Some? && r.extractedAt.None?
  {
    if rows != [] {
      RecordsWellFormed(rows[..|rows| - 1], vcol, dcol);
      RowRecordIff(rows[|rows| - 1].td, vcol, dcol);
    }
  }

  /** The header row never yields a record: a table gives at most one record per row after the header row. */
  lemma HeaderYieldsNothing(t: Table)
    ensures |TableRecords(t)| <= if t.rows == [] then 0 else |t.rows| - 1
  {
    if t.rows != [] {
      var headers := Headers(t);
      RecordsWellFormed(t.rows[1..], FindColumnIndex(headers, ValueKeywords), FindColumnIndex(headers, DatetimeKeywords));
    }
  }

  /**
   * The header row only names the columns: two tables with the same stripped
   * headers and the same rows after the header row give the same records,
   * whatever else the header row holds.
   */
  lemma HeaderRowOnlyNamesColumns(t: Table, u: Table)
    requires t.rows != [] && u.rows != []
    requires Headers(t) == Headers(u) && t.rows[1..] == u.rows[1..]
    ensures TableRecords(t) == TableRecords(u)
  {
  }

  // ------------------------------------------------------------ date filter

  /** A `select` whose lower-cased name or id contains a lower-cased keyword; a missing attribute reads as "". */
  predicate SelectMatches(e: Element, keywords: seq<string>) {
    e.tag == "select"
    && (AnyKeywordIn(Lower(Attr(e, "name").GetOr("")), LowerAll(keywords))
        || AnyKeywordIn(Lower(Attr(e, "id").GetOr("")), LowerAll(keywords)))
  }

  /** `find_select_elements`: every matching `select`, each once, in page order. */
  method FindSelectElements(page: Page, keywords: seq<string>) returns (found: seq<nat>)
    ensures forall k :: 0 <= k < |found| ==> found[k] < |page|
    ensures forall k, l :: 0 <= k < l < |found| ==> found[k] < found[l]
    ensures forall i :: 0 <= i < |page| ==> (i in found <==> SelectMatches(page[i], keywords))
  {
    found := [];
    var i := 0;
    while i < |page|
      invariant 0 <= i <= |page|
      invariant forall k :: 0 <= k < |found| ==> found[k] < i
      invariant forall k, l :: 0 <= k < l < |found| ==> found[k] < found[l]
      invariant forall j :: 0 <= j < i ==> (j in found <==> SelectMatches(page[j], keywords))
    {
      var matches := SelectMatches(page[i], keywords);
      ghost var before := found;
      if matches {
        found := found + [i];
      }
      assert forall j :: 0 <= j < i ==> (j in found <==> j in before);
      assert i in found <==> matches;
      i := i + 1;
    }
  }

  /** The `select` that `set_date_filter` uses: the first one `find_select_elements` lists. */
  function FirstSelect(page: Page, keywords: seq<string>): (r: Option<nat>)
    ensures r.Some? ==> r.value < |page| && SelectMatches(page[r.value], keywords)
    ensures r.Some? ==> forall j :: 0 <= j < r.value ==> !SelectMatches(page[j], keywords)
    ensures r.None? <==> forall j :: 0 <= j < |page| ==> !SelectMatches(page[j], keywords)
  {
    FirstIndex(page, (e: Element) => SelectMatches(e, keywords))
  }

  /** `select_by_value`, then `select_by_visible_text`: the first option with that value, else the first with that text. */
  function ChooseOption(options: seq<Choice>, wanted: string): (r: Option<nat>)
    ensures r.Some? ==> r.value < |options|
    ensures r.Some? ==> options[r.value].value == Some(wanted)
                        || ((forall j :: 0 <= j < |options| ==> options[j].value != Some(wanted))
                            && options[r.value].caption == wanted)
    ensures r.Some? && options[r.value].value == Some(wanted) ==>
              forall j :: 0 <= j < r.value ==> options[j].value != Some(wanted)
    ensures r.Some? && options[r.value].value != Some(wanted) ==>
              forall j :: 0 <= j < r.value ==> options[j].caption != wanted
    ensures r.None? <==> forall j :: 0 <= j < |options| ==> options[j].value != Some(wanted) && options[j].caption != wanted
  {
    match FirstIndex(options, (c: Choice) => c.value == Some(wanted))
    case Some(i) => Some(i)
    case None => FirstIndex(options, (c: Choice) => c.caption == wanted)
  }

  /** An `input` of type submit or button whose `value` contains a filter word (the XPath of `set_date_filter`). */
  predicate IsFilterButton(e: Element) {
    e.tag == "input"
    && Attr(e, "type") in {Some("submit"), Some("button")}
    && "value" in e.attrs && AnyKeywordIn(e.attrs["value"], FilterWords)
  }

  datatype Action = Choose(select: nat, option: nat) | Click(button: nat)

  /** The outcome of `set_date_filter`: its verdict and the page interactions it performed. */
  datatype FilterOutcome = FilterOutcome(ok: bool, actions: seq<Action>)

  /** One select step: `None` when the select exists but no option fits (the exception path). */
  function SelectStep(page: Page, keywords: seq<string>, wanted: string): Option<seq<Action>> {
    match FirstSelect(page, keywords)
    case None => Some([])
    case Some(s) =>
      match ChooseOption(page[s].options, wanted)
      case None => None
      case Some(o) => Some([Choose(s, o)])
  }

  /** The specification of `set_date_filter`. */
  function DateFilter(yearMonth: string, page: Page): FilterOutcome {
    var parts := Split(yearMonth, '-');
    if |parts| != 2 then FilterOutcome(false, [])
    else
      match SelectStep(page, YearKeywords, parts[0])
      case None => FilterOutcome(false, [])
      case Some(yearActs) =>
        match SelectStep(page, MonthKeywords, parts[1])
        case None => FilterOutcome(false, yearActs)
        case Some(monthActs) =>
          var button := FirstIndex(page, IsFilterButton);
          FilterOutcome(true, yearActs + monthActs + (if button.Some? then [Click(button.value)] else []))
  }

  /** `set_date_filter`. */
  method SetDateFilter(yearMonth: string, page: Page) returns (ok: bool, actions: seq<Action>)
    ensures FilterOutcome(ok, actions) == DateFilter(yearMonth, page)
  {
    var parts := Split(yearMonth, '-');
    if |parts| != 2 {
      return false, [];
    }
    var yearActs := SelectControl(page, YearKeywords, parts[0]);
    if yearActs.None? {
      return false, [];
    }
    var monthActs := SelectControl(page, MonthKeywords, parts[1]);
    if monthActs.None? {
      return false, yearActs.value;
    }
    actions := yearActs.value + monthActs.value;
    var button := FirstIndex(page, IsFilterButton);
    if button.Some? {
      actions := actions + [Click(button.value)];
    }
    ok := true;
  }

  /** The year or the month half of `set_date_filter`: pick the option in the first matching select, if any. */
  method SelectControl(page: Page, keywords: seq<string>, wanted: string) returns (acts: Option<seq<Action>>)
    ensures acts == SelectStep(page, keywords, wanted)
  {
    var selects := FindSelectElements(page, keywords);
    if selects == [] {
      assert FirstSelect(page, keywords).None?;
      return Some([]);
    }
    FirstListed(page, keywords, selects);
    var choice := ChooseOption(page[selects[0]].options, wanted);
    if choice.None? {
      return None;
    }
    return Some([Choose(selects[0], choice.value)]);
  }

  /** The first index of a sorted list of exactly the matching selects is the first matching select. */
  lemma FirstListed(page: Page, keywords: seq<string>, found: seq<nat>)
    requires found != []
    requires forall k :: 0 <= k < |found| ==> found[k] < |page|
    requires forall k, l :: 0 <= k < l < |found| ==> found[k] < found[l]
    requires forall i :: 0 <= i < |page| ==> (i in found <==> SelectMatches(page[i], keywords))
    ensures FirstSelect(page, keywords) == Some(found[0])
  {
    assert forall k :: 0 <= k < |found| ==> found[0] <= found[k];
    assert forall j :: 0 <= j < found[0] ==> j !in found;
    FirstIndexAt(page, (e: Element) => SelectMatches(e, keywords), found[0]);
  }

  /** The filter fails whenever the text is not two '-'-separated parts, and then touches nothing. */
  lemma BadYearMonthFails(yearMonth: string, page: Page)
    requires Count(yearMonth, '-') != 1
    ensures DateFilter(yearMonth, page) == FilterOutcome(false, [])
  {
    SplitCount(yearMonth, '-');
  }

  /**
   * With a well-formed text, the filter succeeds exactly when each select it
   * finds offers the wanted year or month, by value or by text; a missing
   * select or a missing filter button does not make it fail.
   */
  lemma DateFilterSucceeds(yearMonth: string, page: Page)
    requires |Split(yearMonth, '-')| == 2
    ensures var parts := Split(yearMonth, '-');
      DateFilter(yearMonth, page).ok <==>
        && (FirstSelect(page, YearKeywords).None? || ChooseOption(page[FirstSelect(page, YearKeywords).value].options, parts[0]).Some?)
        && (FirstSelect(page, MonthKeywords).None? || ChooseOption(page[FirstSelect(page, MonthKeywords).value].options, parts[1]).Some?)
  {
  }

  /** On success the filter button, when there is one, is clicked last; otherwise nothing is clicked. */
  lemma DateFilterClicksButton(yearMonth: string, page: Page)
    requires DateFilter(yearMonth, page).ok
    ensures var acts := DateFilter(yearMonth, page).actions;
      var button := FirstIndex(page, IsFilterButton);
      && (button.Some? ==> acts != [] && acts[|acts| - 1] == Click(button.value))
      && (button.None? ==> forall a :: a in acts ==> a.Choose?)
  {
    var parts := Split(yearMonth, '-');
    var yearActs := SelectStep(page, YearKeywords, parts[0]);
    var monthActs := SelectStep(page, MonthKeywords, parts[1]);
    SelectStepChooses(page, YearKeywords, parts[0]);
    SelectStepChooses(page, MonthKeywords, parts[1]);
    var chosen := yearActs.value + monthActs.value;
    var button := FirstIndex(page, IsFilterButton);
    assert DateFilter(yearMonth, page).actions == chosen + (if button.Some? then [Click(button.value)] else []);
  }

  /** A select step only chooses options; it never clicks. */
  lemma SelectStepChooses(page: Page, keywords: seq<string>, wanted: string)
    ensures SelectStep(page, keywords, wanted).Some? ==> forall a :: a in SelectStep(page, keywords, wanted).value ==> a.Choose?
  {
  }

  // --------------------------------------------------------------- extraction

  /**
   * `extract_blood_sugar_data`: with a non-empty `yearMonth` the date filter
   * runs first on `controls` and its failure gives no records; then the
   * records of the first measurement table among `tables` (the tables on the
   * page at that moment), or none when there is no such table.
   */
  method ExtractBloodSugarData(yearMonth: Option<string>, controls: Page, tables: seq<Table>)
    returns (records: seq<Record>, actions: seq<Action>)
    ensures yearMonth.None? || yearMonth.value == [] ==> actions == []
    ensures yearMonth.Some? && yearMonth.value != [] ==> actions == DateFilter(yearMonth.value, controls).actions
    ensures yearMonth.Some? && yearMonth.value != [] && !DateFilter(yearMonth.value, controls).ok ==> records == []
    ensures FindDataTable(tables).None? ==> records == []
    ensures (yearMonth.None? || yearMonth.value == [] || DateFilter(yearMonth.value, controls).ok) && FindDataTable(tables).Some?
      ==> records == TableRecords(tables[FindDataTable(tables).value])
  {
    actions := [];
    if yearMonth.Some? && yearMonth.value != [] {
      var ok;
      ok, actions := SetDateFilter(yearMonth.value, controls);
      if !ok {
        return [], actions;
      }
    }
    var table := FindDataTable(tables);
    if table.None? {
      return [], actions;
    }
    records := ParseDataTable(tables[table.value]);
  }
}
