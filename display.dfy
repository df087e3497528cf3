/** The pure helpers of the display page: the measure options offered for the value
    axis, the choice of sorting function from the sort mode, and the labels the page
    sets once the CSV has been aggregated. */
module DisplayPage {
  import opened ParsingFunctions

  datatype Option<T> = None | Some(value: T)

  /** The three sorting functions the page can hand to the chart. */
  datatype SortingFunction = SortByFirstKey | SortByYAxis | SortByYAxisDescending

  /** The modes offered by the order selector, in the order it lists them. */
  const SortModes: seq<string> := ["Alphabetical", "Ascending", "Descending"]

  /** The sort mode the page starts in. */
  const InitialSortMode: string := "Alphabetical"

  /** `getOptions`: the column names of the first record, except the first one. */
  function GetOptions(data: Table): (options: seq<string>)
    requires WellFormed(data) && data.rows != []
    ensures data.header == [data.header[0]] + options
    ensures |options| == |data.header| - 1
    ensures data.header[0] !in options
  {
    data.header[1..]
  }

  /** `getSortingFunction`: a falsy mode (the empty string) gives no function,
      "Alphabetical" and "Descending" pick their own, and any other mode sorts ascending. */
  function GetSortingFunction(sortMode: string): (f: Option<SortingFunction>)
    ensures f == None <==> sortMode == ""
    ensures f == Some(SortByFirstKey) <==> sortMode == "Alphabetical"
    ensures f == Some(SortByYAxisDescending) <==> sortMode == "Descending"
    ensures f == Some(SortByYAxis) <==> sortMode !in {"", "Alphabetical", "Descending"}
  {
    if sortMode == "" then None
    else if sortMode == "Alphabetical" then Some(SortByFirstKey)
    else if sortMode == "Descending" then Some(SortByYAxisDescending)
    else Some(SortByYAxis)
  }

  /** The selector's three modes select three different sorting functions, and the
      initial mode is one of them and selects `SortByFirstKey`. */
  lemma SortModesSelectDistinctFunctions()
    ensures InitialSortMode in SortModes
    ensures GetSortingFunction(InitialSortMode) == Some(SortByFirstKey)
    ensures GetSortingFunction("Ascending") == Some(SortByYAxis)
    ensures forall i, j :: 0 <= i < j < |SortModes| ==> GetSortingFunction(SortModes[i]) != GetSortingFunction(SortModes[j])
    ensures forall m :: m in SortModes ==> GetSortingFunction(m).Some?
  {
  }

  /** What the page stores once parsing succeeds: the data, the category label (x axis),
      the measure options and the measure label initially selected (y axis). The measure
      label is absent when the table has no column besides the category. */
  datatype ChartSetup = ChartSetup(data: Table, categoryLabel: string, options: seq<string>, measureLabel: Option<string>)

  /** The parse callback of the page: on success the labels come from the keys of the first
      record; on error nothing is stored and the page keeps showing its loading bar. */
  function OnParsed(outcome: Result<Table, ParseError>): (setup: Option<ChartSetup>)
    requires outcome.Success? ==> WellFormed(outcome.value) && outcome.value.rows != []
    ensures setup.None? <==> outcome.Failure?
    ensures setup.Some? ==>
              && setup.value.data == outcome.value
              && setup.value.categoryLabel == outcome.value.header[0]
              && setup.value.categoryLabel !in setup.value.options
              && outcome.value.header == [setup.value.categoryLabel] + setup.value.options
              && (setup.value.measureLabel.Some? <==> setup.value.options != [])
              && (setup.value.measureLabel.Some? ==> setup.value.measureLabel.value == setup.value.options[0])
  {
    match outcome
    case Failure(_) => None
    case Success(chartData) =>
      var categoryLabel := chartData.header[0];
      var options := GetOptions(chartData);
      Some(ChartSetup(chartData, categoryLabel, options, if options == [] then None else Some(options[0])))
  }

  /** Loading a CSV through the aggregation: the page is set up exactly when the CSV has
      rows; then the category label is the grouping column, the measure options are the
      other columns in order, and the initial measure is the first of them. */
  lemma PageSetupAfterParsing(t: Table)
    requires WellFormed(t)
    ensures Aggregate(t).Success? ==> Aggregate(t).value.rows != []
    ensures OnParsed(Aggregate(t)).Some? <==> t.rows != []
    ensures OnParsed(Aggregate(t)).Some? ==>
              var setup := OnParsed(Aggregate(t)).value;
              && setup.categoryLabel == t.header[0]
              && setup.options == t.header[1..]
              && setup.categoryLabel !in setup.options
              && (|t.header| > 1 ==> setup.measureLabel == Some(t.header[1]))
  {
    AggregateOutcome(t);
  }
}
