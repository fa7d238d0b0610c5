/** The facility filter: column-index lookup from the CSV header, the fail-fast
    header check, the five filter conditions, the output-record assembly and
    the loop over the data rows. The command-line options are a `Filter` value. */
module App {
  import opened Wrappers
  import opened PyText
  import opened RecScore

  const ProviderName := "Provider Name"
  const ProviderAddress := "Provider Address"
  const ProviderCity := "Provider City"
  const ProviderState := "Provider State"
  const ProviderZipCode := "Provider Zip Code"

  /** `FILTER_COLUMNS`, in the order the filter checks them. */
  const FilterColumns: seq<string> :=
    [ProviderState, OverallRating, CertifiedBeds, HealthDeficiencies, Penalties]

  /** `OUTPUT_COLUMNS`: the columns an output record is assembled from. */
  const OutputColumns: seq<string> := [
    ProviderName, ProviderAddress, ProviderCity, ProviderState, ProviderZipCode,
    CertifiedBeds, ResidentsPerDay, OverallRating, HealthDeficiencies, Penalties
  ]

  /** `OUTPUT_COLUMN_NAMES`: output key -> the columns joined into its value. */
  const OutputColumnNames: seq<(string, seq<string>)> := [
    ("name", [ProviderName]),
    ("address", [ProviderAddress, ProviderCity, ProviderState, ProviderZipCode]),
    ("num_beds", [CertifiedBeds]),
    ("residents_per_day:", [ResidentsPerDay]),
    ("overall_rating", [OverallRating]),
    ("num_deficiencies", [HealthDeficiencies]),
    ("num_penalties", [Penalties])
  ]

  /** The command-line options the filter reads. `None` for a maximum is the
      default of infinity. */
  datatype Filter = Filter(
    state: string,
    minRating: int,
    minBeds: int,
    maxDeficiencies: Option<int>,
    maxPenalties: Option<int>)

  predicate IsUpperAlpha(c: char) {
    'A' <= c <= 'Z'
  }

  /** What argument parsing guarantees: a two-letter state, upper-cased, and a
      minimum rating in 1..5. */
  predicate ValidFilter(f: Filter) {
    |f.state| == 2 && IsUpperAlpha(f.state[0]) && IsUpperAlpha(f.state[1]) &&
    1 <= f.minRating <= 5
  }

  // ---------------------------------------------------------------------------
  // Column-index dictionaries

  /** `get_index_dict_from_columns`: every column mapped to `None`. */
  function InitialIndexDict(columns: seq<string>): IndexDict {
    map c | c in columns :: None
  }

  method GetIndexDictFromColumns(columns: seq<string>) returns (indexDict: IndexDict)
    ensures indexDict.Keys == set c | c in columns
    ensures forall c :: c in indexDict ==> indexDict[c] == None
    ensures indexDict == InitialIndexDict(columns)
  {
    indexDict := map[];
    var i := 0;
    while i < |columns|
      invariant 0 <= i <= |columns|
      invariant indexDict.Keys == set c | c in columns[..i]
      invariant forall c :: c in indexDict ==> indexDict[c] == None
    {
      indexDict := indexDict[columns[i] := None];
      assert columns[..i + 1] == columns[..i] + [columns[i]];
      i := i + 1;
    }
    assert columns[..i] == columns;
  }

  /** `set_index_dict_from_headers`: each column that occurs in the headers is
      set to the index of its first occurrence; every other entry is kept. */
  function IndexDictFromHeaders(indexDict: IndexDict, headers: seq<string>, columns: seq<string>): IndexDict {
    map c | c in indexDict.Keys + (set c | c in columns && c in headers) ::
      if c in columns && c in headers then Some(FirstIndex(headers, c)) else indexDict[c]
  }

  /** Handling one more column updates at most that column's entry. */
  lemma IndexDictStep(indexDict: IndexDict, headers: seq<string>, columns: seq<string>, i: nat)
    requires i < |columns|
    ensures var prev := IndexDictFromHeaders(indexDict, headers, columns[..i]);
      IndexDictFromHeaders(indexDict, headers, columns[..i + 1]) ==
        if columns[i] in headers then prev[columns[i] := Some(FirstIndex(headers, columns[i]))]
        else prev
  {
    assert columns[..i + 1] == columns[..i] + [columns[i]];
  }

  method SetIndexDictFromHeaders(indexDict: IndexDict, headers: seq<string>, columns: seq<string>)
    returns (updated: IndexDict)
    ensures updated.Keys == indexDict.Keys + (set c | c in columns && c in headers)
    ensures forall c :: c in columns && c in headers ==> updated[c] == Some(FirstIndex(headers, c))
    ensures forall c :: c in indexDict && !(c in columns && c in headers) ==> updated[c] == indexDict[c]
    ensures updated == IndexDictFromHeaders(indexDict, headers, columns)
  {
    updated := indexDict;
    assert columns[..0] == [];
    var i := 0;
    while i < |columns|
      invariant 0 <= i <= |columns|
      invariant updated == IndexDictFromHeaders(indexDict, headers, columns[..i])
    {
      var column := columns[i];
      ghost var prev := updated;
      var j := 0;
      while j < |headers|
        invariant 0 <= j <= |headers|
        invariant updated ==
          if column in headers[..j] then prev[column := Some(FirstIndex(headers, column))] else prev
      {
        var header := headers[j];
        if column == header {
          updated := updated[column := Some(FirstIndex(headers, header))];
        }
        assert headers[..j + 1] == headers[..j] + [header];
        j := j + 1;
      }
      assert headers[..j] == headers;
      IndexDictStep(indexDict, headers, columns, i);
      i := i + 1;
    }
    assert columns[..i] == columns;
  }

  /** The raised error: the message lists every expected column. */
  datatype CsvError = InvalidCsv(expectedColumns: seq<string>)

  /** `validate_index_dict_update`: an error exactly when some entry is still `None`. */
  function ValidateIndexDictUpdate(indexDict: IndexDict, columns: seq<string>): (r: Option<CsvError>)
    ensures r.Some? <==> exists c :: c in indexDict && indexDict[c].None?
    ensures r.Some? ==> r.value == InvalidCsv(columns)
  {
    if None in indexDict.Values then Some(InvalidCsv(columns)) else None
  }

  /** After the two set-up calls the dictionary has exactly the columns as keys,
      each present column at its first header position, each absent one `None`;
      the check passes exactly when every column is present, and then every
      column resolves inside the header. */
  lemma {:induction false} HeaderLookup(headers: seq<string>, columns: seq<string>)
    ensures var d := IndexDictFromHeaders(InitialIndexDict(columns), headers, columns);
      && d.Keys == (set c | c in columns)
      && (forall c :: c in columns && c in headers ==>
            d[c].Some? && headers[d[c].value] == c &&
            forall j :: 0 <= j < d[c].value ==> headers[j] != c)
      && (forall c :: c in columns && c !in headers ==> d[c] == None)
      && (ValidateIndexDictUpdate(d, columns).None? <==> forall c :: c in columns ==> c in headers)
      && (ValidateIndexDictUpdate(d, columns).None? ==> Resolves(d, columns, |headers|))
  {
    var d := IndexDictFromHeaders(InitialIndexDict(columns), headers, columns);
    if ValidateIndexDictUpdate(d, columns).None? {
      forall c | c in columns ensures c in headers {
        assert c in d;
      }
    } else {
      var c :| c in d && d[c].None?;
      assert c in columns && c !in headers;
    }
  }

  function FilterDictFor(headers: seq<string>): IndexDict {
    IndexDictFromHeaders(InitialIndexDict(FilterColumns), headers, FilterColumns)
  }

  function OutputDictFor(headers: seq<string>): IndexDict {
    IndexDictFromHeaders(InitialIndexDict(OutputColumns), headers, OutputColumns)
  }

  /** The two fail-fast checks in the order the run makes them: the filter
      columns first, then the output columns. */
  function HeaderCheck(headers: seq<string>): (r: Option<CsvError>)
    ensures r.None? <==> forall c :: c in FilterColumns + OutputColumns ==> c in headers
    ensures r.Some? ==> (r.value ==
      InvalidCsv(if forall c :: c in FilterColumns ==> c in headers then OutputColumns else FilterColumns))
    ensures r.None? ==>
      Resolves(FilterDictFor(headers), FilterColumns, |headers|) &&
      Resolves(OutputDictFor(headers), OutputColumns, |headers|)
  {
    HeaderLookup(headers, FilterColumns);
    HeaderLookup(headers, OutputColumns);
    match ValidateIndexDictUpdate(FilterDictFor(headers), FilterColumns)
    case Some(e) => Some(e)
    case None => ValidateIndexDictUpdate(OutputDictFor(headers), OutputColumns)
  }

  /** A header without "Total Number of Penalties" is rejected by the first check. */
  lemma MissingPenaltiesRejected(headers: seq<string>)
    requires Penalties !in headers
    ensures HeaderCheck(headers) == Some(InvalidCsv(FilterColumns))
  {
    assert Penalties in FilterColumns;
  }

  // ---------------------------------------------------------------------------
  // Filter cells and conditions

  /** A filter cell after extraction: the state stays text, the rest are numbers. */
  datatype CellValue = Text(text: string) | Number(number: int)

  /** The typed value `get_cell_val_dict` stores for `column`. */
  function ParseCell(column: string, cell: string): (v: CellValue)
    ensures column == ProviderState ==> v == Text(cell)
    ensures column != ProviderState ==> (v.Number? &&
      (IsDigits(cell) ==> v.number == DigitsValue(cell)) &&
      (!IsDigits(cell) ==> v.number == if column == OverallRating then 1 else 0))
  {
    if column == ProviderState then Text(cell)
    else if column == OverallRating then Number(GetValidNumber(cell, 1))
    else Number(GetValidNumber(cell, 0))
  }

  function CellValDict(row: seq<string>, columns: seq<string>, filterDict: IndexDict): map<string, CellValue>
    requires Resolves(filterDict, columns, |row|)
  {
    map c | c in columns :: ParseCell(c, row[filterDict[c].value])
  }

  /** `get_cell_val_dict`: one typed value per filter column. */
  method GetCellValDict(row: seq<string>, columnList: seq<string>, filterDict: IndexDict)
    returns (cellValDict: map<string, CellValue>)
    requires Resolves(filterDict, columnList, |row|)
    ensures cellValDict.Keys == set c | c in columnList
    ensures forall c :: c in columnList ==>
      cellValDict[c] == ParseCell(c, row[filterDict[c].value])
    ensures cellValDict == CellValDict(row, columnList, filterDict)
  {
    cellValDict := map[];
    var i := 0;
    while i < |columnList|
      invariant 0 <= i <= |columnList|
      invariant cellValDict.Keys == set c | c in columnList[..i]
      invariant forall c :: c in columnList[..i] ==>
        cellValDict[c] == ParseCell(c, row[filterDict[c].value])
    {
      var column := columnList[i];
      cellValDict := cellValDict[column := ParseCell(column, row[filterDict[column].value])];
      assert columnList[..i + 1] == columnList[..i] + [column];
      i := i + 1;
    }
    assert columnList[..i] == columnList;
  }

  /** A numeric filter key never holds text (comparing text with a number
      would raise in the source). */
  predicate WellTyped(key: string, v: CellValue) {
    key != ProviderState && key in FilterColumns ==> v.Number?
  }

  /** `value <= maximum`, where no maximum means infinity. */
  predicate AtMost(value: int, maximum: Option<int>) {
    maximum.None? || value <= maximum.value
  }

  /** `cell_meets_filter_condition`. */
  function CellMeetsFilterCondition(key: string, v: CellValue, f: Filter): (r: bool)
    requires WellTyped(key, v)
    ensures key == ProviderState ==> (r <==> v == Text(f.state))
    ensures key == OverallRating ==> (r <==> v.number >= f.minRating)
    ensures key == CertifiedBeds ==> (r <==> v.number >= f.minBeds)
    ensures key == HealthDeficiencies ==> (r <==> AtMost(v.number, f.maxDeficiencies))
    ensures key == Penalties ==> (r <==> AtMost(v.number, f.maxPenalties))
    ensures r ==> key in FilterColumns
  {
    if key == ProviderState then v == Text(f.state)
    else if key == OverallRating then v.number >= f.minRating
    else if key == CertifiedBeds then v.number >= f.minBeds
    else if key == HealthDeficiencies then AtMost(v.number, f.maxDeficiencies)
    else if key == Penalties then AtMost(v.number, f.maxPenalties)
    else false
  }

  /** The inner loop of the row filter: stops at the first failing condition. */
  method MeetsAllFilters(cellValDict: map<string, CellValue>, columns: seq<string>, f: Filter)
    returns (validFacility: bool)
    requires forall k :: k in columns ==> k in cellValDict && WellTyped(k, cellValDict[k])
    ensures validFacility <==>
      forall k :: k in columns ==> CellMeetsFilterCondition(k, cellValDict[k], f)
  {
    validFacility := true;
    var i := 0;
    while i < |columns|
      invariant 0 <= i <= |columns|
      invariant forall j :: 0 <= j < i ==>
        CellMeetsFilterCondition(columns[j], cellValDict[columns[j]], f)
    {
      if !CellMeetsFilterCondition(columns[i], cellValDict[columns[i]], f) {
        validFacility := false;
        break;
      }
      i := i + 1;
    }
  }

  /** Every extracted filter cell has the type its condition compares with. */
  lemma CellValDictWellTyped(row: seq<string>, filterDict: IndexDict)
    requires Resolves(filterDict, FilterColumns, |row|)
    ensures forall k :: k in FilterColumns ==>
      k in CellValDict(row, FilterColumns, filterDict) &&
      WellTyped(k, CellValDict(row, FilterColumns, filterDict)[k])
  {
  }

  /** A row passes the filter when every filter condition holds on its cells. */
  predicate Accepts(row: seq<string>, filterDict: IndexDict, f: Filter)
    requires Resolves(filterDict, FilterColumns, |row|)
  {
    var cells := CellValDict(row, FilterColumns, filterDict);
    forall k :: k in FilterColumns ==> CellMeetsFilterCondition(k, cells[k], f)
  }

  /** The five conditions written out: state equality, the two minimums (a
      malformed rating reads as 1, a malformed bed count as 0) and the two
      maximums (malformed counts read as 0). */
  lemma AcceptsIff(row: seq<string>, filterDict: IndexDict, f: Filter)
    requires Resolves(filterDict, FilterColumns, |row|)
    ensures Accepts(row, filterDict, f) <==>
      && row[filterDict[ProviderState].value] == f.state
      && GetValidNumber(row[filterDict[OverallRating].value], 1) >= f.minRating
      && GetValidNumber(row[filterDict[CertifiedBeds].value], 0) >= f.minBeds
      && AtMost(GetValidNumber(row[filterDict[HealthDeficiencies].value], 0), f.maxDeficiencies)
      && AtMost(GetValidNumber(row[filterDict[Penalties].value], 0), f.maxPenalties)
  {
    var cells := CellValDict(row, FilterColumns, filterDict);
    var cell := (c: string) requires c in FilterColumns => row[filterDict[c].value];
    assert forall k :: k in FilterColumns <==>
      k == ProviderState || k == OverallRating || k == CertifiedBeds ||
      k == HealthDeficiencies || k == Penalties;
    assert cells[ProviderState] == Text(cell(ProviderState));
    assert cells[OverallRating] == Number(GetValidNumber(cell(OverallRating), 1));
    assert cells[CertifiedBeds] == Number(GetValidNumber(cell(CertifiedBeds), 0));
    assert cells[HealthDeficiencies] == Number(GetValidNumber(cell(HealthDeficiencies), 0));
    assert cells[Penalties] == Number(GetValidNumber(cell(Penalties), 0));
  }

  /** With the default minimum rating of 1, a malformed rating never rejects a row. */
  lemma MalformedRatingPassesDefault(row: seq<string>, filterDict: IndexDict, f: Filter)
    requires Resolves(filterDict, FilterColumns, |row|)
    requires !IsDigits(row[filterDict[OverallRating].value]) && f.minRating <= 1
    ensures CellMeetsFilterCondition(OverallRating,
              CellValDict(row, FilterColumns, filterDict)[OverallRating], f)
  {
  }

  // ---------------------------------------------------------------------------
  // Output records

  predicate ItemsResolved(outputDict: IndexDict, items: seq<(string, seq<string>)>, width: nat) {
    forall i :: 0 <= i < |items| ==> Resolves(outputDict, items[i].1, width)
  }

  /** Every column named in `OUTPUT_COLUMN_NAMES` is one of `OUTPUT_COLUMNS`. */
  lemma OutputNamesResolved(outputDict: IndexDict, width: nat)
    requires Resolves(outputDict, OutputColumns, width)
    ensures ItemsResolved(outputDict, OutputColumnNames, width)
  {
  }

  /** The `k`-th piece of a joined value: middle columns carry a trailing ", ",
      the first and the last do not. */
  function Piece(row: seq<string>, outputDict: IndexDict, columns: seq<string>, k: nat): string
    requires Resolves(outputDict, columns, |row|) && k < |columns|
  {
    var cell := row[outputDict[columns[k]].value];
    if k == 0 || k == |columns| - 1 then cell else cell + ", "
  }

  /** The first `k` pieces of a joined value. */
  function JoinPrefix(row: seq<string>, outputDict: IndexDict, columns: seq<string>, k: nat): string
    requires Resolves(outputDict, columns, |row|) && k <= |columns|
  {
    if k == 0 then "" else JoinPrefix(row, outputDict, columns, k - 1) + Piece(row, outputDict, columns, k - 1)
  }

  /** The output fields for `items`, in order. */
  function FormatFields(row: seq<string>, outputDict: IndexDict, items: seq<(string, seq<string>)>)
    : seq<(string, string)>
    requires ItemsResolved(outputDict, items, |row|)
  {
    if |items| == 0 then []
    else
      var (key, columns) := items[|items| - 1];
      FormatFields(row, outputDict, items[..|items| - 1]) +
        [(key, JoinPrefix(row, outputDict, columns, |columns|))]
  }

  /** `format_output_dictionaries`: for each output key, its columns' cells
      appended one by one, a ", " after every column but the first and the last. */
  method FormatOutputDictionaries(row: seq<string>, outputDict: IndexDict)
    returns (output: seq<(string, string)>)
    requires Resolves(outputDict, OutputColumns, |row|)
    ensures ItemsResolved(outputDict, OutputColumnNames, |row|)
    ensures output == FormatFields(row, outputDict, OutputColumnNames)
  {
    OutputNamesResolved(outputDict, |row|);
    ghost var items := OutputColumnNames;
    output := [];
    var i := 0;
    while i < |OutputColumnNames|
      invariant 0 <= i <= |items|
      invariant ItemsResolved(outputDict, items[..i], |row|)
      invariant output == FormatFields(row, outputDict, items[..i])
    {
      var (key, value) := OutputColumnNames[i];
      var text := JoinCells(row, outputDict, value);
      FormatFieldsStep(row, outputDict, items, i);
      output := output + [(key, text)];
      i := i + 1;
    }
    assert items[..i] == items;
  }

  /** The inner loop of `format_output_dictionaries`: one output value. */
  method JoinCells(row: seq<string>, outputDict: IndexDict, columns: seq<string>) returns (text: string)
    requires Resolves(outputDict, columns, |row|)
    ensures text == JoinPrefix(row, outputDict, columns, |columns|)
  {
    text := "";
    var index := 0;
    while index < |columns|
      invariant 0 <= index <= |columns|
      invariant text == JoinPrefix(row, outputDict, columns, index)
    {
      if index == 0 || index == |columns| - 1 {
        text := text + row[outputDict[columns[index]].value];
      } else {
        text := text + row[outputDict[columns[index]].value] + ", ";
      }
      assert text == JoinPrefix(row, outputDict, columns, index + 1);
      index := index + 1;
    }
  }

  lemma FormatFieldsStep(row: seq<string>, outputDict: IndexDict, items: seq<(string, seq<string>)>, i: nat)
    requires ItemsResolved(outputDict, items, |row|) && i < |items|
    ensures ItemsResolved(outputDict, items[..i], |row|)
    ensures ItemsResolved(outputDict, items[..i + 1], |row|)
    ensures FormatFields(row, outputDict, items[..i + 1]) ==
      FormatFields(row, outputDict, items[..i]) +
        [(items[i].0, JoinPrefix(row, outputDict, items[i].1, |items[i].1|))]
  {
    assert items[..i + 1][..i] == items[..i];
  }

  /** The `i`-th field is the `i`-th key with its joined columns. */
  lemma {:induction false} FormatFieldsAt(row: seq<string>, outputDict: IndexDict,
                                         items: seq<(string, seq<string>)>, i: nat)
    requires ItemsResolved(outputDict, items, |row|) && i < |items|
    ensures |FormatFields(row, outputDict, items)| == |items|
    ensures FormatFields(row, outputDict, items)[i] ==
      (items[i].0, JoinPrefix(row, outputDict, items[i].1, |items[i].1|))
  {
    var n := |items| - 1;
    assert ItemsResolved(outputDict, items[..n], |row|);
    if i < n {
      FormatFieldsAt(row, outputDict, items[..n], i);
    } else if n > 0 {
      FormatFieldsAt(row, outputDict, items[..n], 0);
    }
  }

  /** The cell of `column` in `row`. */
  function CellOf(row: seq<string>, outputDict: IndexDict, column: string): string
    requires Resolves(outputDict, [column], |row|)
  {
    row[outputDict[column].value]
  }

  /** A single column is copied verbatim. */
  lemma JoinOne(row: seq<string>, outputDict: IndexDict, columns: seq<string>)
    requires Resolves(outputDict, columns, |row|) && |columns| == 1
    ensures JoinPrefix(row, outputDict, columns, 1) == CellOf(row, outputDict, columns[0])
  {
  }

  /** Four columns: the first two run together, the rest are separated by ", ". */
  lemma JoinFour(row: seq<string>, outputDict: IndexDict, columns: seq<string>)
    requires Resolves(outputDict, columns, |row|) && |columns| == 4
    ensures JoinPrefix(row, outputDict, columns, 4) ==
      CellOf(row, outputDict, columns[0]) + CellOf(row, outputDict, columns[1]) + ", " +
      CellOf(row, outputDict, columns[2]) + ", " + CellOf(row, outputDict, columns[3])
  {
    var c0, c1 := CellOf(row, outputDict, columns[0]), CellOf(row, outputDict, columns[1]);
    var c2, c3 := CellOf(row, outputDict, columns[2]), CellOf(row, outputDict, columns[3]);
    assert Piece(row, outputDict, columns, 0) == c0;
    assert Piece(row, outputDict, columns, 1) == c1 + ", ";
    assert Piece(row, outputDict, columns, 2) == c2 + ", ";
    assert Piece(row, outputDict, columns, 3) == c3;
    assert JoinPrefix(row, outputDict, columns, 1) == c0;
    assert JoinPrefix(row, outputDict, columns, 2) == c0 + (c1 + ", ");
    assert JoinPrefix(row, outputDict, columns, 3) == c0 + (c1 + ", ") + (c2 + ", ");
  }

  /** The seven keys of an output record, "residents_per_day:" included; single
      columns are copied verbatim, and the address joins its four columns with
      no separator after the street address. */
  lemma FormatOutputShape(row: seq<string>, outputDict: IndexDict)
    requires Resolves(outputDict, OutputColumns, |row|)
    ensures ItemsResolved(outputDict, OutputColumnNames, |row|)
    ensures var out := FormatFields(row, outputDict, OutputColumnNames);
      && |out| == 7
      && out[0].0 == "name" && out[1].0 == "address" && out[2].0 == "num_beds"
      && out[3].0 == "residents_per_day:" && out[4].0 == "overall_rating"
      && out[5].0 == "num_deficiencies" && out[6].0 == "num_penalties"
      && out[0].1 == CellOf(row, outputDict, ProviderName)
      && out[1].1 == CellOf(row, outputDict, ProviderAddress) + CellOf(row, outputDict, ProviderCity) +
                     ", " + CellOf(row, outputDict, ProviderState) +
                     ", " + CellOf(row, outputDict, ProviderZipCode)
      && out[2].1 == CellOf(row, outputDict, CertifiedBeds)
      && out[3].1 == CellOf(row, outputDict, ResidentsPerDay)
      && out[4].1 == CellOf(row, outputDict, OverallRating)
      && out[5].1 == CellOf(row, outputDict, HealthDeficiencies)
      && out[6].1 == CellOf(row, outputDict, Penalties)
  {
    OutputNamesResolved(outputDict, |row|);
    var items := OutputColumnNames;
    FormatFieldsAt(row, outputDict, items, 0);
    FormatFieldsAt(row, outputDict, items, 1);
    FormatFieldsAt(row, outputDict, items, 2);
    FormatFieldsAt(row, outputDict, items, 3);
    FormatFieldsAt(row, outputDict, items, 4);
    FormatFieldsAt(row, outputDict, items, 5);
    FormatFieldsAt(row, outputDict, items, 6);
    JoinOne(row, outputDict, items[0].1);
    JoinFour(row, outputDict, items[1].1);
    JoinOne(row, outputDict, items[2].1);
    JoinOne(row, outputDict, items[3].1);
    JoinOne(row, outputDict, items[4].1);
    JoinOne(row, outputDict, items[5].1);
    JoinOne(row, outputDict, items[6].1);
  }

  // ---------------------------------------------------------------------------
  // Recommendation score and the row loop

  /** The ten factors summed and divided by the fixed constant 5 (not by the
      number of factors). Nine factors are at least -1 and the rating factor is
      not negative, so the score is at least -9/5. */
  function WeightedScore(data: map<string, string>): (score: real)
    requires HasScoreColumns(data)
    ensures score >= -1.8
  {
    var weighted := WeightRecScoreData(data);
    FactorRanges(data);
    SumLowerBound(weighted.Values());
    Sum(weighted.Values()) / 5.0
  }

  /** The score column index, rebuilt from the header row on every call. */
  function ScoreIndexDict(headers: seq<string>): (indexDict: IndexDict)
    requires forall c :: c in ScoreColumns ==> c in headers
    ensures Resolves(indexDict, ScoreColumns, |headers|)
  {
    HeaderLookup(headers, ScoreColumns);
    IndexDictFromHeaders(InitialIndexDict(ScoreColumns), headers, ScoreColumns)
  }

  /** `get_recommendation_score` can read every score cell of `row`: each score
      column is in the header (else the lookup yields `None` and indexing raises)
      and its position lies inside the row (else indexing raises). The row may be
      narrower than the header. */
  predicate ScoreReady(headers: seq<string>, row: seq<string>) {
    && (forall c :: c in ScoreColumns ==> c in headers)
    && Resolves(ScoreIndexDict(headers), ScoreColumns, |row|)
  }

  /** `get_recommendation_score`. */
  function RecommendationScore(headers: seq<string>, row: seq<string>): (score: real)
    requires ScoreReady(headers, row)
    ensures score >= -1.8
  {
    WeightedScore(ColumnData(row, ScoreIndexDict(headers)))
  }

  /** The eleven score column names are pairwise different. */
  lemma ScoreColumnsDistinct()
    ensures forall j, k :: 0 <= j < k < |ScoreColumns| ==> ScoreColumns[j] != ScoreColumns[k]
  {
  }

  /** When the header has no repeats and the columns are the header itself,
      each column resolves to its own position. */
  lemma {:induction false} IndexDictOfDistinctHeader(headers: seq<string>, i: nat)
    requires i < |headers|
    requires forall j, k :: 0 <= j < k < |headers| ==> headers[j] != headers[k]
    ensures IndexDictFromHeaders(InitialIndexDict(headers), headers, headers)[headers[i]] == Some(i)
  {
    FirstIndexOfDistinct(headers, i);
  }

  /** With a header of exactly the score columns, each score column reads the
      cell at its own position. */
  lemma ColumnDataInOrder(row: seq<string>, i: nat)
    requires |row| >= |ScoreColumns| && i < |ScoreColumns|
    ensures ColumnData(row, ScoreIndexDict(ScoreColumns))[ScoreColumns[i]] == row[i]
  {
    ScoreColumnsDistinct();
    IndexDictOfDistinctHeader(ScoreColumns, i);
  }

  /** The row of the worked example: rating 5, 40 beds, 20 residents, no
      deficiencies or penalties, abuse N, inspection N, council Both, one PT
      hour, no incidents or complaints. */
  const ExampleRow: seq<string> := ["5", "40", "20", "0", "0", "N", "N", "Both", "1", "0", "0"]

  /** The end-to-end example: a header of exactly the score columns and the
      example row score 13.25 / 5 = 2.65. */
  lemma RecommendationScoreExample()
    ensures ScoreReady(ScoreColumns, ExampleRow)
    ensures RecommendationScore(ScoreColumns, ExampleRow) == 2.65
  {
    var row := ExampleRow;
    var data := ColumnData(row, ScoreIndexDict(ScoreColumns));
    ColumnDataInOrder(row, 0); ColumnDataInOrder(row, 1); ColumnDataInOrder(row, 2);
    ColumnDataInOrder(row, 3); ColumnDataInOrder(row, 4); ColumnDataInOrder(row, 5);
    ColumnDataInOrder(row, 6); ColumnDataInOrder(row, 7); ColumnDataInOrder(row, 8);
    ColumnDataInOrder(row, 9); ColumnDataInOrder(row, 10);
    assert data[ScoreColumns[0]] == "5" && data[ScoreColumns[1]] == "40";
    assert data[ScoreColumns[2]] == "20" && data[ScoreColumns[3]] == "0";
    assert data[ScoreColumns[4]] == "0" && data[ScoreColumns[5]] == "N";
    assert data[ScoreColumns[6]] == "N" && data[ScoreColumns[7]] == "Both";
    assert data[ScoreColumns[8]] == "1" && data[ScoreColumns[9]] == "0";
    assert data[ScoreColumns[10]] == "0";
    WeightRecScoreDataExample(data);
  }

  /** Header columns after the ones the score reads do not change the score,
      even when the row stops before them. */
  lemma RecommendationScoreTrailingColumns(headers: seq<string>, more: seq<string>, row: seq<string>)
    requires ScoreReady(headers, row)
    ensures ScoreReady(headers + more, row)
    ensures RecommendationScore(headers + more, row) == RecommendationScore(headers, row)
  {
    var d, e := ScoreIndexDict(headers), ScoreIndexDict(headers + more);
    forall c | c in ScoreColumns ensures c in e && e[c] == d[c] {
      FirstIndexOfPrefix(headers, more, c);
    }
    assert e == d;
  }

  /** A header of the score columns plus a trailing "Comment" column, with the
      eleven-cell example row: the row is narrower than the header, and it
      still scores 2.65. */
  lemma NarrowRowScoreExample()
    ensures |ExampleRow| < |ScoreColumns + ["Comment"]|
    ensures ScoreReady(ScoreColumns + ["Comment"], ExampleRow)
    ensures RecommendationScore(ScoreColumns + ["Comment"], ExampleRow) == 2.65
  {
    RecommendationScoreExample();
    RecommendationScoreTrailingColumns(ScoreColumns, ["Comment"], ExampleRow);
  }

  /** An output record: the formatted fields plus "Recommendation Score". */
  datatype FacilityRecord = FacilityRecord(fields: seq<(string, string)>, recommendationScore: real)

  /** A row that reaches the record step: non-empty, and every filter condition
      holds on its cells. */
  predicate Passes(row: seq<string>, filterDict: IndexDict, f: Filter) {
    |row| > 0 && Resolves(filterDict, FilterColumns, |row|) && Accepts(row, filterDict, f)
  }

  /** The loop handles `row` without raising. A non-empty row must have a cell
      at every filter position, since all five are read before any condition
      is tested. A row that passes must also have a cell at every output
      position, and every score column must be in the header with its
      position inside the row. The row's width is never compared with the
      header's. */
  predicate RowHandled(headers: seq<string>, row: seq<string>, filterDict: IndexDict,
                       outputDict: IndexDict, f: Filter) {
    && (|row| > 0 ==> Resolves(filterDict, FilterColumns, |row|))
    && (Passes(row, filterDict, f) ==>
          Resolves(outputDict, OutputColumns, |row|) && ScoreReady(headers, row))
  }

  predicate RowsHandled(headers: seq<string>, rows: seq<seq<string>>, filterDict: IndexDict,
                        outputDict: IndexDict, f: Filter) {
    forall i :: 0 <= i < |rows| ==> RowHandled(headers, rows[i], filterDict, outputDict, f)
  }

  function MakeRecord(headers: seq<string>, row: seq<string>, outputDict: IndexDict): FacilityRecord
    requires Resolves(outputDict, OutputColumns, |row|)
    requires ScoreReady(headers, row)
  {
    OutputNamesResolved(outputDict, |row|);
    FacilityRecord(FormatFields(row, outputDict, OutputColumnNames), RecommendationScore(headers, row))
  }

  /** What one row contributes: its record if it passes, else nothing. */
  function Kept(headers: seq<string>, row: seq<string>, filterDict: IndexDict,
                outputDict: IndexDict, f: Filter): seq<FacilityRecord>
    requires RowHandled(headers, row, filterDict, outputDict, f)
  {
    if Passes(row, filterDict, f) then [MakeRecord(headers, row, outputDict)] else []
  }

  /** `Kept` for one header, filter and pair of dictionaries, as a function of the row. */
  function KeepFor(headers: seq<string>, filterDict: IndexDict, outputDict: IndexDict, f: Filter)
    : seq<string> --> seq<FacilityRecord>
  {
    row requires RowHandled(headers, row, filterDict, outputDict, f) =>
      Kept(headers, row, filterDict, outputDict, f)
  }

  /** `keep` is defined on every row. */
  ghost predicate Defined(rows: seq<seq<string>>, keep: seq<string> --> seq<FacilityRecord>) {
    forall i :: 0 <= i < |rows| ==> keep.requires(rows[i])
  }

  /** The concatenation, in row order, of what `keep` makes of each row. */
  function Collect(rows: seq<seq<string>>, keep: seq<string> --> seq<FacilityRecord>): seq<FacilityRecord>
    requires Defined(rows, keep)
  {
    if |rows| == 0 then []
    else
      assert Defined(rows[..|rows| - 1], keep);
      Collect(rows[..|rows| - 1], keep) + keep(rows[|rows| - 1])
  }

  /** The records the loop appends, in row order. */
  function FilteredRecords(headers: seq<string>, rows: seq<seq<string>>, filterDict: IndexDict,
                           outputDict: IndexDict, f: Filter): seq<FacilityRecord>
    requires RowsHandled(headers, rows, filterDict, outputDict, f)
  {
    Collect(rows, KeepFor(headers, filterDict, outputDict, f))
  }

  /** The number of empty rows. */
  function EmptyRowCount(rows: seq<seq<string>>): nat {
    if |rows| == 0 then 0
    else EmptyRowCount(rows[..|rows| - 1]) + (if |rows[|rows| - 1]| == 0 then 1 else 0)
  }

  /** The number of rows that pass every filter condition. */
  function PassingRowCount(rows: seq<seq<string>>, filterDict: IndexDict, f: Filter): nat {
    if |rows| == 0 then 0
    else PassingRowCount(rows[..|rows| - 1], filterDict, f) + (if Passes(rows[|rows| - 1], filterDict, f) then 1 else 0)
  }

  /** One more row extends the records and the empty-row count by that row alone. */
  lemma FilterStep(headers: seq<string>, rows: seq<seq<string>>, filterDict: IndexDict,
                   outputDict: IndexDict, f: Filter, index: nat)
    requires RowsHandled(headers, rows, filterDict, outputDict, f)
    requires index < |rows|
    ensures RowsHandled(headers, rows[..index], filterDict, outputDict, f)
    ensures RowsHandled(headers, rows[..index + 1], filterDict, outputDict, f)
    ensures FilteredRecords(headers, rows[..index + 1], filterDict, outputDict, f) ==
      FilteredRecords(headers, rows[..index], filterDict, outputDict, f) +
      Kept(headers, rows[index], filterDict, outputDict, f)
    ensures EmptyRowCount(rows[..index + 1]) ==
      EmptyRowCount(rows[..index]) + (if |rows[index]| == 0 then 1 else 0)
  {
    assert rows[..index + 1][..index] == rows[..index];
  }

  /** The loop body's verdict and record for a non-empty row are those of `Kept`. */
  lemma KeptRow(headers: seq<string>, row: seq<string>, filterDict: IndexDict, outputDict: IndexDict,
                f: Filter, validFacility: bool, output: seq<(string, string)>, score: real)
    requires RowHandled(headers, row, filterDict, outputDict, f) && |row| > 0
    requires validFacility <==> Accepts(row, filterDict, f)
    requires validFacility ==> FacilityRecord(output, score) == MakeRecord(headers, row, outputDict)
    ensures Kept(headers, row, filterDict, outputDict, f) ==
      if validFacility then [FacilityRecord(output, score)] else []
  {
  }

  /** The body of the row loop for a non-empty row: extract the filter cells,
      test the conditions in order, and for a passing row compute the score and
      format the output record. */
  method ProcessRow(headers: seq<string>, row: seq<string>, filterDict: IndexDict,
                    outputDict: IndexDict, f: Filter)
    returns (validFacility: bool, record: FacilityRecord)
    requires RowHandled(headers, row, filterDict, outputDict, f) && |row| > 0
    ensures Kept(headers, row, filterDict, outputDict, f) == if validFacility then [record] else []
  {
    var cellValDict := GetCellValDict(row, FilterColumns, filterDict);
    CellValDictWellTyped(row, filterDict);
    validFacility := MeetsAllFilters(cellValDict, FilterColumns, f);
    var output: seq<(string, string)> := [];
    var score: real := 0.0;
    if validFacility {
      score := RecommendationScore(headers, row);
      output := FormatOutputDictionaries(row, outputDict);
    }
    record := FacilityRecord(output, score);
    KeptRow(headers, row, filterDict, outputDict, f, validFacility, output, score);
  }

  /** The row loop: empty rows are counted and skipped; a non-empty row is
      scored, formatted and appended when it passes every filter condition. */
  method FilterRows(headers: seq<string>, rows: seq<seq<string>>, filterDict: IndexDict,
                    outputDict: IndexDict, f: Filter)
    returns (filteredCsvData: seq<FacilityRecord>, emptyRows: nat)
    requires RowsHandled(headers, rows, filterDict, outputDict, f)
    ensures filteredCsvData == FilteredRecords(headers, rows, filterDict, outputDict, f)
    ensures emptyRows == EmptyRowCount(rows)
  {
    filteredCsvData := [];
    emptyRows := 0;
    var index := 0;
    while index < |rows|
      invariant 0 <= index <= |rows|
      invariant RowsHandled(headers, rows[..index], filterDict, outputDict, f)
      invariant filteredCsvData == FilteredRecords(headers, rows[..index], filterDict, outputDict, f)
      invariant emptyRows == EmptyRowCount(rows[..index])
    {
      var row := rows[index];
      FilterStep(headers, rows, filterDict, outputDict, f, index);
      if |row| == 0 {
        emptyRows := emptyRows + 1;
        index := index + 1;
        continue;
      }
      var validFacility, record := ProcessRow(headers, row, filterDict, outputDict, f);
      if validFacility {
        filteredCsvData := filteredCsvData + [record];
      }
      index := index + 1;
    }
    assert rows[..index] == rows;
  }

  datatype RunResult = RunResult(records: seq<FacilityRecord>, emptyRows: nat)

  /** The whole run after the CSV is read: build and check the filter and
      output dictionaries, failing before any row is looked at, then filter the
      rows. The result count limit is never applied. */
  method Run(headers: seq<string>, rows: seq<seq<string>>, f: Filter)
    returns (r: Result<RunResult, CsvError>)
    requires ValidFilter(f)
    requires HeaderCheck(headers).None? ==>
      RowsHandled(headers, rows, FilterDictFor(headers), OutputDictFor(headers), f)
    ensures r.Failure? <==> HeaderCheck(headers).Some?
    ensures r.Failure? ==> r.error == HeaderCheck(headers).value
    ensures r.Success? ==> r.value == RunResult(
      FilteredRecords(headers, rows, FilterDictFor(headers), OutputDictFor(headers), f),
      EmptyRowCount(rows))
  {
    var filterDict := GetIndexDictFromColumns(FilterColumns);
    var outputDict := GetIndexDictFromColumns(OutputColumns);
    filterDict := SetIndexDictFromHeaders(filterDict, headers, FilterColumns);
    var filterCheck := ValidateIndexDictUpdate(filterDict, FilterColumns);
    if filterCheck.Some? {
      return Failure(filterCheck.value);
    }
    outputDict := SetIndexDictFromHeaders(outputDict, headers, OutputColumns);
    var outputCheck := ValidateIndexDictUpdate(outputDict, OutputColumns);
    if outputCheck.Some? {
      return Failure(outputCheck.value);
    }
    var filteredCsvData, emptyRows := FilterRows(headers, rows, filterDict, outputDict, f);
    return Success(RunResult(filteredCsvData, emptyRows));
  }

  // ---------------------------------------------------------------------------
  // Properties of the row loop

  /** `Collect` distributes over concatenation of the rows. */
  lemma {:induction false} CollectAppend(rows1: seq<seq<string>>, rows2: seq<seq<string>>,
                                        keep: seq<string> --> seq<FacilityRecord>)
    requires Defined(rows1, keep) && Defined(rows2, keep)
    ensures Defined(rows1 + rows2, keep)
    ensures Collect(rows1 + rows2, keep) == Collect(rows1, keep) + Collect(rows2, keep)
  {
    var all := rows1 + rows2;
    assert Defined(all, keep) by {
      forall i | 0 <= i < |all| ensures keep.requires(all[i]) {
        if i >= |rows1| {
          assert all[i] == rows2[i - |rows1|];
        }
      }
    }
    if |rows2| == 0 {
      assert all == rows1;
    } else {
      var n := |rows2| - 1;
      assert all[..|all| - 1] == rows1 + rows2[..n];
      assert all[|all| - 1] == rows2[n];
      assert Defined(rows2[..n], keep);
      CollectAppend(rows1, rows2[..n], keep);
    }
  }

  /** When `keep` makes nothing of an empty row and at most one item of any
      other, `Collect` makes at most one item per non-empty row. */
  lemma {:induction false} CollectBound(rows: seq<seq<string>>, keep: seq<string> --> seq<FacilityRecord>)
    requires Defined(rows, keep)
    requires forall i :: 0 <= i < |rows| ==> |keep(rows[i])| <= (if |rows[i]| == 0 then 0 else 1)
    ensures |Collect(rows, keep)| <= |rows| - EmptyRowCount(rows)
  {
    if |rows| > 0 {
      var n := |rows| - 1;
      assert Defined(rows[..n], keep);
      CollectBound(rows[..n], keep);
    }
  }

  /** Every item `Collect` makes is one that `keep` made of some row. */
  lemma {:induction false} CollectSound(rows: seq<seq<string>>, keep: seq<string> --> seq<FacilityRecord>, k: nat)
    requires Defined(rows, keep)
    requires k < |Collect(rows, keep)|
    ensures exists i :: 0 <= i < |rows| && Collect(rows, keep)[k] in keep(rows[i])
  {
    var n := |rows| - 1;
    assert Defined(rows[..n], keep);
    var prefix := Collect(rows[..n], keep);
    if k < |prefix| {
      CollectSound(rows[..n], keep, k);
      var i :| 0 <= i < |rows[..n]| && prefix[k] in keep(rows[..n][i]);
      assert rows[..n][i] == rows[i];
    } else {
      assert Collect(rows, keep)[k] == keep(rows[n])[k - |prefix|];
    }
  }

  /** Output order follows input order: the records of two blocks of rows are
      the records of the first block followed by those of the second. */
  lemma FilteredRecordsAppend(headers: seq<string>, rows1: seq<seq<string>>,
                              rows2: seq<seq<string>>, filterDict: IndexDict,
                              outputDict: IndexDict, f: Filter)
    requires RowsHandled(headers, rows1, filterDict, outputDict, f)
    requires RowsHandled(headers, rows2, filterDict, outputDict, f)
    ensures RowsHandled(headers, rows1 + rows2, filterDict, outputDict, f)
    ensures FilteredRecords(headers, rows1 + rows2, filterDict, outputDict, f) ==
      FilteredRecords(headers, rows1, filterDict, outputDict, f) +
      FilteredRecords(headers, rows2, filterDict, outputDict, f)
  {
    var keep := KeepFor(headers, filterDict, outputDict, f);
    CollectAppend(rows1, rows2, keep);
    var all := rows1 + rows2;
    forall i | 0 <= i < |all| ensures RowHandled(headers, all[i], filterDict, outputDict, f) {
      assert keep.requires(all[i]);
    }
  }

  /** A single row yields its record exactly when it is non-empty and passes
      all five conditions. */
  lemma FilteredRecordsOne(headers: seq<string>, row: seq<string>, filterDict: IndexDict,
                           outputDict: IndexDict, f: Filter)
    requires RowHandled(headers, row, filterDict, outputDict, f)
    ensures RowsHandled(headers, [row], filterDict, outputDict, f)
    ensures FilteredRecords(headers, [row], filterDict, outputDict, f) ==
      if |row| > 0 && Accepts(row, filterDict, f) then [MakeRecord(headers, row, outputDict)] else []
  {
    assert [row][..0] == [];
    var keep := KeepFor(headers, filterDict, outputDict, f);
    assert Collect([row], keep) == keep(row);
  }

  /** Every passing row is kept: the loop makes exactly one record per passing
      row, however many there are. */
  lemma {:induction false} FilteredRecordsCount(headers: seq<string>, rows: seq<seq<string>>,
                                               filterDict: IndexDict, outputDict: IndexDict, f: Filter)
    requires RowsHandled(headers, rows, filterDict, outputDict, f)
    ensures |FilteredRecords(headers, rows, filterDict, outputDict, f)| == PassingRowCount(rows, filterDict, f)
  {
    if |rows| > 0 {
      var n := |rows| - 1;
      FilterStep(headers, rows, filterDict, outputDict, f, n);
      assert rows[..n + 1] == rows;
      FilteredRecordsCount(headers, rows[..n], filterDict, outputDict, f);
    }
  }

  /** At most one record per non-empty row. */
  lemma FilteredRecordsBound(headers: seq<string>, rows: seq<seq<string>>,
                             filterDict: IndexDict, outputDict: IndexDict, f: Filter)
    requires RowsHandled(headers, rows, filterDict, outputDict, f)
    ensures |FilteredRecords(headers, rows, filterDict, outputDict, f)| <= |rows| - EmptyRowCount(rows)
  {
    var keep := KeepFor(headers, filterDict, outputDict, f);
    CollectBound(rows, keep);
  }

  /** Every record comes from a non-empty input row that passes every condition. */
  lemma FilteredRecordsSound(headers: seq<string>, rows: seq<seq<string>>,
                             filterDict: IndexDict, outputDict: IndexDict, f: Filter, k: nat)
    requires RowsHandled(headers, rows, filterDict, outputDict, f)
    requires k < |FilteredRecords(headers, rows, filterDict, outputDict, f)|
    ensures exists i :: (0 <= i < |rows| && Passes(rows[i], filterDict, f) &&
      FilteredRecords(headers, rows, filterDict, outputDict, f)[k] == MakeRecord(headers, rows[i], outputDict))
  {
    var keep := KeepFor(headers, filterDict, outputDict, f);
    CollectSound(rows, keep, k);
    var i :| 0 <= i < |rows| && Collect(rows, keep)[k] in keep(rows[i]);
    assert keep(rows[i]) == Kept(headers, rows[i], filterDict, outputDict, f);
  }
}
