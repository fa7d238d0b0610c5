/** The recommendation-score engine: ten weighting rules, each total over the raw
    cell text, and the extraction of the eleven score columns from a CSV row. */
module RecScore {
  import opened Wrappers
  import opened PyText

  /** Column name -> position in the header row, `None` while unresolved. */
  type IndexDict = map<string, Option<nat>>

  /** Every name in `columns` resolves to a position inside a row of width `width`. */
  predicate Resolves(indexDict: IndexDict, columns: seq<string>, width: nat) {
    forall c :: c in columns ==>
      c in indexDict && indexDict[c].Some? && indexDict[c].value < width
  }

  const OverallRating := "Overall Rating"
  const CertifiedBeds := "Number of Certified Beds"
  const ResidentsPerDay := "Average Number of Residents per Day"
  const HealthDeficiencies := "Rating Cycle 1 Total Number of Health Deficiencies"
  const Penalties := "Total Number of Penalties"
  const AbuseIcon := "Abuse Icon"
  const InspectionOverTwoYears := "Most Recent Health Inspection More Than 2 Years Ago"
  const FamilyCouncil := "With a Resident and Family Council"
  const PtHoursPerResident := "Reported Physical Therapist Staffing Hours per Resident Per Day"
  const ReportedIncidents := "Number of Facility Reported Incidents"
  const SubstantiatedComplaints := "Number of Substantiated Complaints"

  /** `RECOMMEND_SCORE_COLUMN_DICT`: the eleven columns the score reads. */
  const ScoreColumns: seq<string> := [
    OverallRating, CertifiedBeds, ResidentsPerDay, HealthDeficiencies, Penalties,
    AbuseIcon, InspectionOverTwoYears, FamilyCouncil, PtHoursPerResident,
    ReportedIncidents, SubstantiatedComplaints
  ]

  /** `data` holds a cell for each of the eleven score columns. */
  predicate HasScoreColumns(data: map<string, string>) {
    && OverallRating in data && CertifiedBeds in data && ResidentsPerDay in data
    && HealthDeficiencies in data && Penalties in data && AbuseIcon in data
    && InspectionOverTwoYears in data && FamilyCouncil in data
    && PtHoursPerResident in data && ReportedIncidents in data
    && SubstantiatedComplaints in data
  }

  // ---------------------------------------------------------------------------
  // get_column_data

  /** The cells of `row` at the positions of `columns`, keyed by column name. */
  function CellsOf(row: seq<string>, indexDict: IndexDict, columns: seq<string>): (data: map<string, string>)
    requires Resolves(indexDict, columns, |row|)
    ensures data.Keys == set c | c in columns
  {
    map c | c in columns :: row[indexDict[c].value]
  }

  /** The score columns of `row`, keyed by column name. */
  function ColumnData(row: seq<string>, indexDict: IndexDict): (data: map<string, string>)
    requires Resolves(indexDict, ScoreColumns, |row|)
    ensures HasScoreColumns(data)
  {
    CellsOf(row, indexDict, ScoreColumns)
  }

  /** The source's loop over a column list: one dictionary entry per column,
      holding the row's cell at that column's position, and nothing else. */
  method GatherColumns(row: seq<string>, indexDict: IndexDict, columns: seq<string>)
    returns (data: map<string, string>)
    requires Resolves(indexDict, columns, |row|)
    ensures data.Keys == set c | c in columns
    ensures forall c :: c in columns ==> data[c] == row[indexDict[c].value]
    ensures data == CellsOf(row, indexDict, columns)
  {
    data := map[];
    var i := 0;
    while i < |columns|
      invariant 0 <= i <= |columns|
      invariant data.Keys == set c | c in columns[..i]
      invariant forall c :: c in columns[..i] ==> data[c] == row[indexDict[c].value]
    {
      var column := columns[i];
      data := data[column := row[indexDict[column].value]];
      assert columns[..i + 1] == columns[..i] + [column];
      i := i + 1;
    }
    assert columns[..i] == columns;
  }

  /** `get_column_data`: the loop over the eleven score columns. */
  method GetColumnData(row: seq<string>, indexDict: IndexDict) returns (data: map<string, string>)
    requires Resolves(indexDict, ScoreColumns, |row|)
    ensures data.Keys == set c | c in ScoreColumns
    ensures forall c :: c in ScoreColumns ==> data[c] == row[indexDict[c].value]
    ensures data == ColumnData(row, indexDict)
  {
    data := GatherColumns(row, indexDict, ScoreColumns);
  }

  // ---------------------------------------------------------------------------
  // The ten weighting rules

  /** A factor that is not the overall rating takes one of these four values. */
  predicate IsUnitFactor(x: real) {
    x == -1.0 || x == -0.25 || x == 0.0 || x == 1.0
  }

  /** `weight_overall_rating`: 1.25 per rating point; a malformed rating counts as 0. */
  function WeightOverallRating(cell: string): (r: real)
    ensures IsDigits(cell) ==> r == 1.25 * DigitsValue(cell) as real
    ensures !IsDigits(cell) ==> r == 0.0
    ensures r >= 0.0
  {
    GetValidNumber(cell, 0) as real * 1.25
  }

  /** A rating written as the numeral of `n` weighs exactly 1.25 * n. */
  lemma WeightOverallRatingOfNumeral(n: nat)
    ensures WeightOverallRating(NatToDigits(n)) == 1.25 * n as real
  {
    DigitsValueOfNatToDigits(n);
  }

  /** `weight_available_beds`: +1 inside the band [5, 50], -1 outside it; the
      source's trailing `return 0` is unreachable for a number. */
  function WeightAvailableBeds(available: int): (r: real)
    ensures r == 1.0 <==> 5 <= available <= 50
    ensures r == -1.0 <==> available < 5 || available > 50
    ensures r != 0.0
    ensures IsUnitFactor(r)
  {
    if available < 5 || available > 50 then -1.0
    else if available >= 5 && available <= 50 then 1.0
    else 0.0
  }

  /** The three-tier rule shared by deficiencies, penalties, incidents and
      complaints. A malformed cell parses to the sentinel -1, which matches
      no tier and falls through to 0. */
  function WeightCount(cell: string): (r: real)
    ensures r == 1.0 <==> IsDigits(cell) && DigitsValue(cell) == 0
    ensures r == -0.25 <==> IsDigits(cell) && 1 <= DigitsValue(cell) <= 5
    ensures r == -1.0 <==> IsDigits(cell) && DigitsValue(cell) > 5
    ensures r == 0.0 <==> !IsDigits(cell)
    ensures IsUnitFactor(r)
  {
    var n := GetValidNumber(cell, -1);
    if n == 0 then 1.0
    else if n > 0 && n <= 5 then -0.25
    else if n > 5 then -1.0
    else 0.0
  }

  /** The tiers of the count rule on numerals. */
  lemma WeightCountOfNumeral(n: nat)
    ensures n == 0 ==> WeightCount(NatToDigits(n)) == 1.0
    ensures 1 <= n <= 5 ==> WeightCount(NatToDigits(n)) == -0.25
    ensures n > 5 ==> WeightCount(NatToDigits(n)) == -1.0
  {
    DigitsValueOfNatToDigits(n);
  }

  /** The tiers on concrete cells: "0" scores +1, "1" and "5" score -0.25, "6"
      scores -1, and text that is not a count scores 0, as does "-1". */
  lemma WeightCountExamples()
    ensures WeightCount("0") == 1.0
    ensures WeightCount("1") == -0.25 && WeightCount("5") == -0.25
    ensures WeightCount("6") == -1.0
    ensures WeightCount("abc") == 0.0 && WeightCount("") == 0.0 && WeightCount("-1") == 0.0
  {
    assert "0"[..0] == "" && "1"[..0] == "" && "5"[..0] == "" && "6"[..0] == "";
    assert !IsDigitChar("abc"[0]) && !IsDigitChar("-1"[0]);
  }

  /** `weight_abuse`: "Y" -> -1, "N" -> +1, anything else -> 0 (exact match). */
  function WeightAbuse(cell: string): (r: real)
    ensures r == -1.0 <==> cell == "Y"
    ensures r == 1.0 <==> cell == "N"
    ensures r == 0.0 <==> cell != "Y" && cell != "N"
    ensures IsUnitFactor(r)
  {
    if cell == "Y" then -1.0
    else if cell == "N" then 1.0
    else 0.0
  }

  /** `weight_inspection`: "Y" -> +1, "N" -> -1, anything else -> 0 (exact match). */
  function WeightInspection(cell: string): (r: real)
    ensures r == 1.0 <==> cell == "Y"
    ensures r == -1.0 <==> cell == "N"
    ensures r == 0.0 <==> cell != "Y" && cell != "N"
    ensures IsUnitFactor(r)
  {
    if cell == "Y" then 1.0
    else if cell == "N" then -1.0
    else 0.0
  }

  /** `weight_council`: only the exact text "Both" scores; "Resident" scores 0 like any other text. */
  function WeightCouncil(cell: string): (r: real)
    ensures r == 1.0 <==> cell == "Both"
    ensures r == 0.0 <==> cell != "Both"
    ensures IsUnitFactor(r)
  {
    if cell == "Both" then 1.0
    else if cell == "Resident" then 0.0
    else 0.0
  }

  /** `weight_pt_per_res`: the hours are parsed with `int()` after `isdigit()`,
      so the factor is 1 exactly for a whole number of at least one hour. */
  function WeightPtPerRes(cell: string): (r: real)
    ensures r == 1.0 <==> IsDigits(cell) && DigitsValue(cell) >= 1
    ensures r == 0.0 <==> !(IsDigits(cell) && DigitsValue(cell) >= 1)
    ensures IsUnitFactor(r)
  {
    var hours := GetValidNumber(cell, -1);
    if hours as real > 0.09 then 1.0 else 0.0
  }

  /** A decimal fraction of an hour, or any malformed text, does not score. */
  lemma WeightPtPerResExamples()
    ensures WeightPtPerRes("0.5") == 0.0
    ensures WeightPtPerRes("1.5") == 0.0
    ensures WeightPtPerRes("") == 0.0
    ensures WeightPtPerRes("0") == 0.0
    ensures WeightPtPerRes("2") == 1.0
  {
    assert !IsDigitChar("0.5"[1]);
    assert !IsDigitChar("1.5"[1]);
    assert DigitsValue("2") == DigitsValue("") * 10 + 2;
  }

  // ---------------------------------------------------------------------------
  // weight_rec_score_data

  /** Available beds: certified beds minus average residents, each parsed as
      digits or replaced by the sentinel -1. */
  function AvailableBeds(bedsCell: string, residentsCell: string): (available: int)
    ensures !IsDigits(bedsCell) ==> available <= 0
    ensures !IsDigits(residentsCell) ==> available == GetValidNumber(bedsCell, -1) + 1
    ensures IsDigits(bedsCell) && IsDigits(residentsCell) ==>
              available == DigitsValue(bedsCell) - DigitsValue(residentsCell)
  {
    GetValidNumber(bedsCell, -1) - GetValidNumber(residentsCell, -1)
  }

  /** A malformed bed count always lands below the band, so that factor is -1. */
  lemma MalformedBedsScoreMinusOne(bedsCell: string, residentsCell: string)
    requires !IsDigits(bedsCell)
    ensures WeightAvailableBeds(AvailableBeds(bedsCell, residentsCell)) == -1.0
  {
  }

  /** The ten weighted factors, in the order of the source's dictionary. */
  datatype WeightedData = WeightedData(
    overallRating: real,
    numBedsAvailable: real,
    numDeficiencies: real,
    numPenalties: real,
    abuse: real,
    recentHealthInspection: real,
    residentFamilyCouncil: real,
    ptHoursPerRes: real,
    numberIncidents: real,
    numComplaints: real)
  {
    function Values(): seq<real> {
      [overallRating, numBedsAvailable, numDeficiencies, numPenalties, abuse,
       recentHealthInspection, residentFamilyCouncil, ptHoursPerRes,
       numberIncidents, numComplaints]
    }
  }

  function Sum(xs: seq<real>): real {
    if |xs| == 0 then 0.0 else Sum(xs[..|xs| - 1]) + xs[|xs| - 1]
  }

  /** `weight_rec_score_data`: each factor is its rule applied to its own column. */
  function WeightRecScoreData(data: map<string, string>): (w: WeightedData)
    requires HasScoreColumns(data)
    ensures |w.Values()| == 10
    ensures w.overallRating == WeightOverallRating(data[OverallRating])
    ensures w.numBedsAvailable == WeightAvailableBeds(AvailableBeds(data[CertifiedBeds], data[ResidentsPerDay]))
    ensures w.numDeficiencies == WeightCount(data[HealthDeficiencies])
    ensures w.numPenalties == WeightCount(data[Penalties])
    ensures w.abuse == WeightAbuse(data[AbuseIcon])
    ensures w.recentHealthInspection == WeightInspection(data[InspectionOverTwoYears])
    ensures w.residentFamilyCouncil == WeightCouncil(data[FamilyCouncil])
    ensures w.ptHoursPerRes == WeightPtPerRes(data[PtHoursPerResident])
    ensures w.numberIncidents == WeightCount(data[ReportedIncidents])
    ensures w.numComplaints == WeightCount(data[SubstantiatedComplaints])
  {
    var available := AvailableBeds(data[CertifiedBeds], data[ResidentsPerDay]);
    WeightedData(
      WeightOverallRating(data[OverallRating]),
      WeightAvailableBeds(available),
      WeightCount(data[HealthDeficiencies]),
      WeightCount(data[Penalties]),
      WeightAbuse(data[AbuseIcon]),
      WeightInspection(data[InspectionOverTwoYears]),
      WeightCouncil(data[FamilyCouncil]),
      WeightPtPerRes(data[PtHoursPerResident]),
      WeightCount(data[ReportedIncidents]),
      WeightCount(data[SubstantiatedComplaints]))
  }

  /** The overall rating is 1.25 times a natural number; every other factor is
      one of -1, -0.25, 0 and 1; hence no factor is below -1. */
  lemma FactorRanges(data: map<string, string>)
    requires HasScoreColumns(data)
    ensures var w := WeightRecScoreData(data);
      var rating := GetValidNumber(data[OverallRating], 0);
      rating >= 0 && w.overallRating == 1.25 * rating as real &&
      forall i :: 1 <= i < 10 ==> IsUnitFactor(w.Values()[i])
    ensures forall i :: 0 <= i < 10 ==> WeightRecScoreData(data).Values()[i] >= -1.0
  {
    var vs := WeightRecScoreData(data).Values();
    forall i | 1 <= i < 10 ensures IsUnitFactor(vs[i]) {
    }
  }

  /** A sum whose first term is non-negative and whose other terms are at
      least -1 is at least -(n - 1). */
  lemma {:induction false} SumLowerBound(xs: seq<real>)
    requires |xs| > 0 && xs[0] >= 0.0
    requires forall i :: 1 <= i < |xs| ==> xs[i] >= -1.0
    ensures Sum(xs) >= -(|xs| - 1) as real
  {
    if |xs| > 1 {
      SumLowerBound(xs[..|xs| - 1]);
    }
  }

  /** The worked example: rating "5", 40 beds, 20 residents, no deficiencies,
      penalties, incidents or complaints, abuse "N", inspection "N", council
      "Both" and one PT hour give the factors below, summing to 13.25. */
  lemma WeightRecScoreDataExample(data: map<string, string>)
    requires HasScoreColumns(data)
    requires data[OverallRating] == "5" && data[CertifiedBeds] == "40"
    requires data[ResidentsPerDay] == "20" && data[HealthDeficiencies] == "0"
    requires data[Penalties] == "0" && data[AbuseIcon] == "N"
    requires data[InspectionOverTwoYears] == "N" && data[FamilyCouncil] == "Both"
    requires data[PtHoursPerResident] == "1" && data[ReportedIncidents] == "0"
    requires data[SubstantiatedComplaints] == "0"
    ensures WeightRecScoreData(data).Values() == ExampleFactors
    ensures Sum(WeightRecScoreData(data).Values()) == 13.25
  {
    assert DigitsValue("5") == 5 by { assert "5"[..0] == ""; }
    assert DigitsValue("1") == 1 by { assert "1"[..0] == ""; }
    assert DigitsValue("0") == 0 by { assert "0"[..0] == ""; }
    assert DigitsValue("40") == 40 by { assert "40"[..1] == "4" && "4"[..0] == ""; }
    assert DigitsValue("20") == 20 by { assert "20"[..1] == "2" && "2"[..0] == ""; }
    assert WeightRecScoreData(data).Values() == ExampleFactors;
    SumOfExampleFactors();
  }

  const ExampleFactors: seq<real> := [6.25, 1.0, 1.0, 1.0, 1.0, -1.0, 1.0, 1.0, 1.0, 1.0]

  lemma SumOfExampleFactors()
    ensures Sum(ExampleFactors) == 13.25
  {
    var vs := ExampleFactors;
    var partial := [0.0, 6.25, 7.25, 8.25, 9.25, 10.25, 9.25, 10.25, 11.25, 12.25, 13.25];
    var k := 0;
    while k < 10
      invariant 0 <= k <= 10
      invariant Sum(vs[..k]) == partial[k]
    {
      assert vs[..k + 1][..k] == vs[..k];
      k := k + 1;
    }
    assert vs[..10] == vs;
  }
}
